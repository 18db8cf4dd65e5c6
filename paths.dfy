/** Paths in the storage service's namespace, written as text with a leading "/". */
module Paths {
  type Path = string
}

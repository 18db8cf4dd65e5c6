/** The failures a run can end with, and the result type that carries them. */
module Errors {

  datatype Error =
    /** create_directory_at_path refused a path that looks like a file path (no remote call). */
    | MalformedPath(path: string)
    /** The initial listing of a directory reported that the directory does not exist. */
    | SourceNotFound(directory: string)
    /** Any other error the remote service reported for an operation on `path`. */
    | RemoteFailure(path: string)

  datatype Result<T> = Ok(value: T) | Err(error: Error)
}

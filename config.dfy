/**
 * The program's configuration: the source directory, the destination root, the
 * year-stamped base path and the registry mapping each category keyword to its
 * destination directory. The year is a parameter instead of the clock.
 */
module Config {
  import opened Paths

  type Category = string

  /** The inbox that is scanned. Leading "/" and no trailing "/". */
  const SOURCE_DIR: Path := "/dropsave"

  /** The root under which the category directories live. Leading and trailing "/". */
  const DEST_DIR: Path := "/documents/"

  /** Category keywords, looked for in file names; lowercase. */
  const RECEIPTS: Category := "receipts"
  const VIDEOS: Category := "videos"

  predicate IsDigit(c: char) {
    '0' <= c <= '9'
  }

  predicate AllDigits(s: string) {
    forall i :: 0 <= i < |s| ==> IsDigit(s[i])
  }

  predicate IsLowercaseWord(s: string) {
    |s| > 0 && forall i :: 0 <= i < |s| ==> 'a' <= s[i] <= 'z'
  }

  function DigitChar(d: nat): (c: char)
    requires d < 10
  {
    ('0' as int + d) as char
  }

  function DigitValue(c: char): nat
    requires IsDigit(c)
  {
    (c as int - '0' as int) as nat
  }

  /** The text an f-string gives for a non-negative int: its decimal digits. */
  function Decimal(n: nat): string
    decreases n
  {
    if n < 10 then [DigitChar(n)] else Decimal(n / 10) + [DigitChar(n % 10)]
  }

  /** Reads a string of decimal digits back as a number; the partner of Decimal. */
  function ParseDecimal(s: string): nat
    requires AllDigits(s)
    decreases |s|
  {
    if s == [] then 0 else 10 * ParseDecimal(s[..|s| - 1]) + DigitValue(s[|s| - 1])
  }

  /** Decimal gives a non-empty string of digits, without a leading zero, that reads back as n. */
  lemma {:induction false} DecimalRoundTrip(n: nat)
    ensures |Decimal(n)| > 0 && AllDigits(Decimal(n))
    ensures Decimal(n)[0] == '0' ==> n == 0
    ensures ParseDecimal(Decimal(n)) == n
  {
    var s := Decimal(n);
    if n >= 10 {
      DecimalRoundTrip(n / 10);
      assert s[..|s| - 1] == Decimal(n / 10);
      assert s[0] == Decimal(n / 10)[0];
    }
  }

  /** The destination root followed by the run's year: DEST_DIR, then one or more digits. */
  function BaseDestPath(year: nat): (r: Path)
    ensures |r| > |DEST_DIR| && r[..|DEST_DIR|] == DEST_DIR
    ensures AllDigits(r[|DEST_DIR|..])
  {
    DecimalRoundTrip(year);
    var r := DEST_DIR + Decimal(year);
    assert r[|DEST_DIR|..] == Decimal(year);
    r
  }

  function Keys(m: seq<(Category, Path)>): seq<Category> {
    seq(|m|, i requires 0 <= i < |m| => m[i].0)
  }

  /**
   * The category registry, in the order it is written (Python dicts keep insertion
   * order): keyed by "receipts" then "videos", lowercase and distinct keys, each value
   * the base path followed by a space and a suffix.
   */
  function CategoryToPathMap(year: nat): (m: seq<(Category, Path)>)
    ensures Keys(m) == [RECEIPTS, VIDEOS]
    ensures forall i :: 0 <= i < |m| ==> IsLowercaseWord(m[i].0)
    ensures forall i, j :: 0 <= i < j < |m| ==> m[i].0 != m[j].0
    ensures forall i :: 0 <= i < |m| ==>
      |m[i].1| > |BaseDestPath(year)| + 1 && m[i].1[..|BaseDestPath(year)| + 1] == BaseDestPath(year) + " "
  {
    [(RECEIPTS, BaseDestPath(year) + " Receipts"),
     (VIDEOS, BaseDestPath(year) + " Videos")]
  }

  /** The registry's values, in iteration order: the directories the run ensures. */
  function DestinationDirs(year: nat): seq<Path> {
    var m := CategoryToPathMap(year);
    seq(|m|, i requires 0 <= i < |m| => m[i].1)
  }

  /** BASE_DEST_PATH is DEST_DIR followed by exactly the decimal digits of the year. */
  lemma BaseDestPathIsRootThenYear(year: nat)
    ensures ParseDecimal(BaseDestPath(year)[|DEST_DIR|..]) == year
    ensures BaseDestPath(year)[|DEST_DIR|] == '0' ==> year == 0
  {
    DecimalRoundTrip(year);
    assert BaseDestPath(year)[|DEST_DIR|..] == Decimal(year);
  }

  /** The two directory constants carry the slashes their comments require. */
  lemma DirectoryConstantsShape()
    ensures SOURCE_DIR[0] == '/' && SOURCE_DIR[|SOURCE_DIR| - 1] != '/'
    ensures DEST_DIR[0] == '/' && DEST_DIR[|DEST_DIR| - 1] == '/'
  {
  }

  /**
   * Every destination directory is BASE_DEST_PATH plus its category's suffix, starts
   * with DEST_DIR (hence with "/"), does not end with "/", contains no '.', and no two
   * are equal.
   */
  lemma {:induction false} DestinationDirsWellFormed(year: nat)
    ensures DestinationDirs(year) == [BaseDestPath(year) + " Receipts", BaseDestPath(year) + " Videos"]
    ensures forall i :: 0 <= i < |DestinationDirs(year)| ==>
      var d := DestinationDirs(year)[i];
      && |d| > |DEST_DIR| && d[..|DEST_DIR|] == DEST_DIR && d[0] == '/'
      && d[|d| - 1] != '/'
      && '.' !in d
    ensures forall i, j :: 0 <= i < j < |DestinationDirs(year)| ==> DestinationDirs(year)[i] != DestinationDirs(year)[j]
  {
    DecimalRoundTrip(year);
    var digits := Decimal(year);
    forall i | 0 <= i < |DestinationDirs(year)|
      ensures '.' !in DestinationDirs(year)[i]
    {
      var d := DestinationDirs(year)[i];
      var suffix := if i == 0 then " Receipts" else " Videos";
      assert d == DEST_DIR + digits + suffix;
      forall k | 0 <= k < |d|
        ensures d[k] != '.'
      {
        if k < |DEST_DIR| {
          assert d[k] == DEST_DIR[k];
        } else if k < |DEST_DIR| + |digits| {
          assert d[k] == digits[k - |DEST_DIR|];
        } else {
          assert d[k] == suffix[k - |DEST_DIR| - |digits|];
        }
      }
    }
    assert |DestinationDirs(year)[0]| != |DestinationDirs(year)[1]|;
  }
}

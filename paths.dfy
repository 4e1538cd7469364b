/** Where a table's file lives: `MDB._path`, i.e. `os.path.join(folder, name + extension)`
    with POSIX path rules. */
module Paths {

  /** `posixpath.join(a, b)`: an absolute b replaces a; otherwise b is appended to a,
      with a '/' in between unless a is empty or already ends in '/'. */
  function Join(a: string, b: string): string
  {
    if |b| > 0 && b[0] == '/' then b
    else if a == [] || a[|a| - 1] == '/' then a + b
    else a + "/" + b
  }

  /** The part Join puts in front of a relative b. */
  function Prefix(a: string): string
  {
    if a == [] || a[|a| - 1] == '/' then a else a + "/"
  }

  /** For a name not starting with '/', the path string is the folder's prefix followed by the
      name. This is a fact about strings: ".." segments can still lead out of the folder. */
  lemma RelativePathString(a: string, b: string)
    requires b == [] || b[0] != '/'
    ensures Join(a, b) == Prefix(a) + b
    ensures a <= Join(a, b)
  {
  }

  /** For a name starting with '/', the path string is the name alone: the folder is ignored. */
  lemma AbsoluteEscapesFolder(a: string, b: string)
    requires |b| > 0 && b[0] == '/'
    ensures Join(a, b) == b
  {
  }

  /** Two different table names whose first character is not '/' never get the same path
      string (they may still name the same file, as "t" and "./t" do). */
  lemma {:induction false} TablePathInjective(folder: string, ext: string, n1: string, n2: string)
    requires |n1| > 0 && n1[0] != '/' && |n2| > 0 && n2[0] != '/'
    requires Join(folder, n1 + ext) == Join(folder, n2 + ext)
    ensures n1 == n2
  {
    var p := Prefix(folder);
    assert (n1 + ext)[0] == n1[0] && (n2 + ext)[0] == n2[0];
    RelativePathString(folder, n1 + ext);
    RelativePathString(folder, n2 + ext);
    assert n1 + ext == (p + (n1 + ext))[|p|..];
    assert n2 + ext == (p + (n2 + ext))[|p|..];
    assert |n1| == |n2|;
    assert n1 == (n1 + ext)[..|n1|];
    assert n2 == (n2 + ext)[..|n2|];
  }
}

/** The two `os.path` operations the program uses, with '/' as separator. */
module Paths {
  import opened Common
  import opened Text

  /** `os.path.basename`: the final path component. */
  function Basename(p: Path): (name: string)
    ensures '/' !in name
  {
    AfterLast(p, '/')
  }

  /** The name is the longest suffix of the path without a separator: it
      follows a separator, or it is the whole path. */
  lemma BasenameIsLastComponent(p: Path)
    ensures |Basename(p)| <= |p| && Basename(p) == p[|p| - |Basename(p)|..]
    ensures |Basename(p)| < |p| ==> p[|p| - |Basename(p)| - 1] == '/'
    ensures '/' !in p ==> Basename(p) == p
  {
  }

  /** `os.path.join(dir, name)` for a relative `name`: the path ends with
      `name`, and with a separator before it unless `dir` is empty. */
  function Join(dir: Path, name: string): (p: Path)
    ensures |name| <= |p| && p[|p| - |name|..] == name
    ensures dir != [] ==> |name| < |p| && p[|p| - |name| - 1] == '/'
  {
    if dir == [] then name
    else if dir[|dir| - 1] == '/' then dir + name
    else dir + "/" + name
  }

  /** Joining a plain file name onto a directory yields a path whose final
      component is that name, so a moved file keeps its name. */
  lemma BasenameOfJoin(dir: Path, name: string)
    requires '/' !in name
    ensures Basename(Join(dir, name)) == name
  {
    if dir != [] {
      var prefix := if dir[|dir| - 1] == '/' then dir[..|dir| - 1] else dir;
      assert Join(dir, name) == prefix + ['/'] + name;
      AfterLastOfSuffix(prefix, '/', name);
    }
  }
}

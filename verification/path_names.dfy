/**
  Path names as which.c builds and takes them apart: create_full_path joins a
  directory and a file name into a candidate, and the slash branch of try_find
  cuts a name at its last '/' into a directory part and a base name.
 */
module PathNames {

  const Slash: char := '/'

  /**
    create_full_path: the directory, then the file name, with a '/' between
    them unless the directory already ends in one. The source reads the last
    character of `dir` unconditionally, so an empty directory is outside its
    domain; that is this function's precondition.
   */
  function FullPath(dir: string, file: string): (path: string)
    requires dir != []
    ensures |dir| + |file| <= |path| <= |dir| + |file| + 1
    ensures path[..|dir|] == dir
    ensures path[|path| - |file|..] == file
    ensures path[|path| - |file| - 1] == Slash
    ensures |path| == |dir| + |file| <==> dir[|dir|-1] == Slash
  {
    if dir[|dir|-1] == Slash then dir + file else dir + [Slash] + file
  }

  /** Index of the last '/' of a name that has one (strrchr). */
  function LastSlash(s: string): (k: nat)
    requires Slash in s
    ensures k < |s| && s[k] == Slash
    ensures forall j :: k < j < |s| ==> s[j] != Slash
    decreases |s|
  {
    if s[|s|-1] == Slash then |s| - 1
    else
      assert Slash in s[..|s|-1] by {
        var i :| 0 <= i < |s| && s[i] == Slash;
        assert s[..|s|-1][i] == Slash;
      }
      LastSlash(s[..|s|-1])
  }

  /**
    The slash branch's cut: overwriting the last '/' of the name with NUL
    leaves the directory part before it and the base name after it.
   */
  function SplitLastSlash(name: string): (parts: (string, string))
    requires Slash in name
    ensures name == parts.0 + [Slash] + parts.1
    ensures Slash !in parts.1
  {
    var k := LastSlash(name);
    assert name == name[..k] + [Slash] + name[k+1..];
    (name[..k], name[k+1..])
  }

  /** The cut is the only one whose base name holds no '/'. */
  lemma SplitLastSlashUnique(name: string, dir: string, base: string)
    requires name == dir + [Slash] + base
    requires Slash !in base
    ensures SplitLastSlash(name) == (dir, base)
  {
    assert name[|dir|] == Slash;
    var k := LastSlash(name);
    assert forall j :: |dir| < j < |name| ==> name[j] == base[j - |dir| - 1];
    assert k == |dir|;
    assert name[..k] == dir && name[k+1..] == base;
  }

  /** A directory with one trailing '/' removed, if it has one. */
  function TrimSlash(dir: string): string
    requires dir != []
  {
    if dir[|dir|-1] == Slash then dir[..|dir|-1] else dir
  }

  /**
    Cutting a candidate at its last '/' gives back the file name it was built
    from, and the directory it was built from less a trailing '/'.
   */
  lemma SplitFullPath(dir: string, file: string)
    requires dir != [] && Slash !in file
    ensures Slash in FullPath(dir, file)
    ensures SplitLastSlash(FullPath(dir, file)) == (TrimSlash(dir), file)
  {
    var path := FullPath(dir, file);
    if dir[|dir|-1] == Slash {
      assert dir == TrimSlash(dir) + [Slash];
    }
    assert path == TrimSlash(dir) + [Slash] + file;
    SplitLastSlashUnique(path, TrimSlash(dir), file);
  }
}

/** POSIX path handling as the modelled code uses it: `os.path.join` with two
    arguments, and `path.split('/')[-1]` as the base name. */
module Paths {
  import opened PyStr

  predicate IsAbsolute(name: string) {
    |name| > 0 && name[0] == '/'
  }

  /** `os.path.join(dir, name)`: an absolute `name` replaces `dir`; otherwise a
      `/` is inserted unless `dir` is empty or already ends with one. */
  function PathJoin(dir: string, name: string): (p: string)
    ensures |name| <= |p| && p[|p| - |name|..] == name
    ensures IsAbsolute(name) ==> p == name
    ensures !IsAbsolute(name) ==> |dir| <= |p| && p[..|dir|] == dir
  {
    if IsAbsolute(name) then name
    else if |dir| == 0 || dir[|dir| - 1] == '/' then dir + name
    else dir + "/" + name
  }

  /** `path.split('/')[-1]`. */
  function Basename(path: string): (b: string)
    ensures '/' !in b
  {
    LastField(path, '/')
  }

  /** The base name of a joined path is the name that was joined, whenever that
      name is a plain file name. */
  lemma BasenameOfJoin(dir: string, name: string)
    requires '/' !in name
    ensures Basename(PathJoin(dir, name)) == name
  {
    var p := PathJoin(dir, name);
    LastFieldIs(p, '/', name);
    if |dir| > 0 && dir[|dir| - 1] == '/' {
      assert p[|p| - |name| - 1..] == ['/'] + name by {
        assert p == dir[..|dir| - 1] + (['/'] + name);
      }
    } else if |dir| > 0 {
      assert p == dir + (['/'] + name);
    }
  }

  /** Within one directory, distinct relative names give distinct paths. */
  lemma PathJoinInjective(dir: string, a: string, b: string)
    requires !IsAbsolute(a) && !IsAbsolute(b)
    ensures PathJoin(dir, a) == PathJoin(dir, b) <==> a == b
  {
    var lead := |PathJoin(dir, a)| - |a|;
    assert |PathJoin(dir, b)| - |b| == lead;
  }
}

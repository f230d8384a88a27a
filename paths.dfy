/** `os.path.join(a, b)` on a POSIX system (the two-argument case of posixpath.join). */
module Paths {
  import opened Text

  const SEP: char := '/'

  predicate IsAbsolute(p: string)
  {
    |p| > 0 && p[0] == SEP
  }

  /**
   * An absolute `b` replaces `a`; an empty `a` yields `b`; otherwise one
   * separator is put between the two unless `a` already ends with one.
   */
  function Join(a: string, b: string): string
  {
    if IsAbsolute(b) || a == [] then b
    else if EndsWith(a, [SEP]) then a + b
    else a + [SEP] + b
  }

  /** What `Join(dir, ·)` puts in front of a relative name. */
  function DirPrefix(dir: string): (r: string)
    ensures dir == [] ==> r == []
    ensures dir != [] ==> |dir| <= |r| && r[..|dir|] == dir && EndsWith(r, [SEP])
  {
    if dir == [] then [] else if EndsWith(dir, [SEP]) then dir else dir + [SEP]
  }

  /** Joining a relative name onto a directory puts a fixed prefix before the name. */
  lemma JoinRelative(dir: string, name: string)
    requires !IsAbsolute(name)
    ensures Join(dir, name) == DirPrefix(dir) + name
  {
  }

  /** Within one directory, different relative names give different paths. */
  lemma JoinInjective(dir: string, n1: string, n2: string)
    requires !IsAbsolute(n1) && !IsAbsolute(n2)
    requires Join(dir, n1) == Join(dir, n2)
    ensures n1 == n2
  {
    JoinRelative(dir, n1);
    JoinRelative(dir, n2);
    var k := |DirPrefix(dir)|;
    assert n1 == Join(dir, n1)[k..];
    assert n2 == Join(dir, n2)[k..];
  }
}

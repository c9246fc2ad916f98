/** The parts of Python's `os.path` the writer and the reader use, with the
    POSIX separator '/'. */
module Paths {
  import opened Text

  const Sep: char := '/'

  /** `os.path.join(a, b)`: an absolute b replaces a; otherwise a separator is
      inserted unless a is empty or already ends with one. */
  function Join(a: string, b: string): (r: string)
    ensures |b| > 0 && b[0] == Sep ==> r == b
    ensures (|b| == 0 || b[0] != Sep) ==> a <= r && EndsWith(r, b)
  {
    if |b| > 0 && b[0] == Sep then b
    else if |a| == 0 || a[|a| - 1] == Sep then a + b
    else a + [Sep] + b
  }

  /** `os.path.basename(p)`: what follows the last separator. */
  function Basename(p: string): (r: string)
    ensures Sep !in r
    ensures EndsWith(p, r)
    ensures |r| < |p| ==> p[|p| - |r| - 1] == Sep
  {
    match RIndex(p, Sep)
    case None => p
    case Some(i) => p[i + 1..]
  }

  /** The directory a path lives in: the text before its last separator
      ("" for a bare name). */
  function Parent(p: string): (r: string)
    ensures r < p || (r == p && p == [])
  {
    match RIndex(p, Sep)
    case None => []
    case Some(i) => p[..i]
  }

  /** A name without separators joined onto a directory that does not end
      with one lives directly in that directory. */
  lemma ParentOfJoin(dir: string, name: string)
    requires |dir| > 0 && dir[|dir| - 1] != Sep
    requires Sep !in name
    ensures Join(dir, name) == dir + [Sep] + name
    ensures Parent(Join(dir, name)) == dir
  {
    assert |name| == 0 || name[0] != Sep by {
      if |name| > 0 { assert name[0] in name; }
    }
    RIndexOfJoin(dir, Sep, name);
    assert (dir + [Sep] + name)[..|dir|] == dir;
  }

  /** Different names without separators in one directory are different paths. */
  lemma JoinCancel(dir: string, a: string, b: string)
    requires |dir| > 0 && dir[|dir| - 1] != Sep
    requires Sep !in a && Sep !in b
    requires Join(dir, a) == Join(dir, b)
    ensures a == b
  {
    ParentOfJoin(dir, a);
    ParentOfJoin(dir, b);
    var s := Join(dir, a);
    assert a == s[|dir| + 1..];
    assert b == (dir + [Sep] + b)[|dir| + 1..];
  }

  /** Taking the basename twice changes nothing: `process_frames` hands the
      writer a basename, and the writer takes its basename again. */
  lemma BasenameIdempotent(p: string)
    ensures Basename(Basename(p)) == Basename(p)
  {
    assert RIndex(Basename(p), Sep).None?;
  }

  /** The text `Join(a, b)` puts in front of b. */
  function JoinPrefix(a: string, b: string): string
  {
    if |b| > 0 && b[0] == Sep then []
    else if |a| == 0 || a[|a| - 1] == Sep then a
    else a + [Sep]
  }

  lemma JoinIsPrefixed(a: string, b: string)
    ensures Join(a, b) == JoinPrefix(a, b) + b
  {
  }

  /** Joining a name `p + str(k) + q` onto a directory is again such a name,
      with a prefix that does not depend on k. */
  lemma JoinIndexed(a: string, p: string, k: nat, q: string)
    requires |p| > 0
    ensures Join(a, IndexedName(p, k, q)) == IndexedName(JoinPrefix(a, p) + p, k, q)
  {
    var b := IndexedName(p, k, q);
    assert b[0] == p[0];
    JoinIsPrefixed(a, b);
    assert JoinPrefix(a, b) == JoinPrefix(a, p);
    var pre := JoinPrefix(a, p);
    assert pre + (p + NatToString(k) + q) == pre + p + NatToString(k) + q;
  }
}

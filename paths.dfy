/** The parts of `pathlib.Path` the archive engine relies on: the final
    component, its suffix and stem, and joining a directory with a name.
    Paths are '/'-separated strings taken as already normalised. */
module Paths {
  import opened Text

  /** Index just past the last '/' of `p`, 0 when there is none. */
  function NameStart(p: string): (i: nat)
    ensures i <= |p|
    ensures i > 0 ==> p[i - 1] == '/'
    ensures forall j | i <= j < |p| :: p[j] != '/'
  {
    if p == [] then 0
    else if p[|p| - 1] == '/' then |p|
    else NameStart(p[..|p| - 1])
  }

  /** `Path(p).name`: the final component. */
  function Name(p: string): (r: string)
    ensures Free(r, '/')
  {
    p[NameStart(p)..]
  }

  /** `str.rfind('.')`: index of the last '.', or -1. */
  function LastDot(s: string): (r: int)
    ensures -1 <= r < |s|
    ensures r >= 0 ==> s[r] == '.'
    ensures forall j | r < j < |s| :: s[j] != '.'
  {
    if s == [] then -1
    else if s[|s| - 1] == '.' then |s| - 1
    else LastDot(s[..|s| - 1])
  }

  /** A name has a suffix when its last dot is neither its first nor its
      last character. */
  predicate HasSuffix(name: string) {
    0 < LastDot(name) < |name| - 1
  }

  /** The shape of a non-empty suffix: a dot followed by at least one
      character, none of them a further dot. */
  predicate Dotted(x: string) {
    |x| >= 2 && x[0] == '.' && Free(x[1..], '.')
  }

  /** `Path(p).suffix`: "" or the final component from its last dot on,
      which is dotted and holds no separator. */
  function Suffix(p: string): (r: string)
    ensures r == "" || Dotted(r)
    ensures Free(r, '/')
  {
    var name := Name(p);
    if HasSuffix(name) then name[LastDot(name)..] else ""
  }

  /** `Path(p).stem`: the final component without its suffix. */
  function Stem(p: string): (r: string)
    ensures r + Suffix(p) == Name(p)
    ensures Free(r, '/')
  {
    var name := Name(p);
    if HasSuffix(name) then
      assert name[..LastDot(name)] + name[LastDot(name)..] == name;
      name[..LastDot(name)]
    else
      assert name + "" == name;
      name
  }

  /** `Path(dir) / name`. */
  function Join(dir: string, name: string): string {
    dir + "/" + name
  }

  /** Joining a separator-free name to a directory gives a path whose final
      component is that name. */
  lemma {:induction false} NameOfJoin(dir: string, name: string)
    requires Free(name, '/')
    ensures Name(Join(dir, name)) == name
  {
    NameStartOfFreeTail(dir + "/", name);
    assert Join(dir, name) == (dir + "/") + name;
  }

  lemma {:induction false} NameStartOfFreeTail(head: string, tail: string)
    requires head != [] && head[|head| - 1] == '/'
    requires Free(tail, '/')
    ensures NameStart(head + tail) == |head|
    decreases |tail|
  {
    if tail == [] {
      assert head + tail == head;
    } else {
      var shorter := tail[..|tail| - 1];
      assert (head + tail)[..|head + tail| - 1] == head + shorter;
      NameStartOfFreeTail(head, shorter);
    }
  }
}

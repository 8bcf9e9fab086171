/** What several modules use: an optional value, and single insertions into and removals from sequences. */
module Basics {

  datatype Option<T> = None | Some(value: T)

  /** The position, before an insertion at p, of what stands at i after it. */
  function Before(i: int, p: int): int { if i < p then i else i - 1 }

  function Insert<T>(s: seq<T>, p: nat, x: T): (all: seq<T>)
    requires p <= |s|
    ensures |all| == |s| + 1 && all[p] == x
    ensures forall i | 0 <= i < |all| && i != p :: all[i] == s[Before(i, p)]
  {
    s[..p] + [x] + s[p..]
  }

  function Cut<T>(s: seq<T>, k: nat): (rest: seq<T>)
    requires k < |s|
    ensures |rest| == |s| - 1
    ensures forall i | 0 <= i < |rest| :: rest[i] == s[if i < k then i else i + 1]
  {
    s[..k] + s[k + 1..]
  }
}

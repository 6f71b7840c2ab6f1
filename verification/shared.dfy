/**
 * Small shared vocabulary: an optional value (the components' `T | null` and
 * `field?: T`), the three-valued status both contact forms keep, and the
 * removal of one scheduled callback from a pending list.
 */
module Shared {

  /** A value that may be absent: `null` / an omitted property in the TypeScript components. */
  datatype Option<+T> = None | Some(value: T)

  /** The `'idle' | 'success' | 'error'` status of a contact form. */
  datatype Status = Idle | Success | Error

  /** `s` without its element at `i`; everything else keeps its order. */
  function RemoveAt<T>(s: seq<T>, i: nat): (r: seq<T>)
    requires i < |s|
    ensures |r| == |s| - 1
    ensures multiset(r) == multiset(s) - multiset{s[i]}
    ensures forall x :: x in s && x != s[i] ==> x in r
  {
    assert s == s[..i] + [s[i]] + s[i + 1..];
    s[..i] + s[i + 1..]
  }
}

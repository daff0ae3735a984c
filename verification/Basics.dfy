/** What several parts of the model share: the library's status codes, options, and facts about sequences. */
module Basics {

  /** The status codes of lib/libplctag.h that occur here. */
  const PLCTAG_STATUS_OK: int := 0
  const PLCTAG_ERR_NOT_FOUND: int := -19
  const PLCTAG_ERR_NO_MEM: int := -23
  const PLCTAG_ERR_OUT_OF_BOUNDS: int := -27

  /** A pointer to a value, or NULL. */
  datatype Option<+T> = None | Some(value: T)

  lemma Regroup<T>(s: seq<T>, x: T, t: seq<T>)
    ensures s + ([x] + t) == (s + [x]) + t
  {
  }

  lemma Rejoin<T>(a: seq<T>, b: seq<T>, c: seq<T>)
    ensures a + (b + c) == (a + b) + c
  {
  }

  lemma SliceOfSlice<T>(s: seq<T>, from: nat, to: nat, a: nat, b: nat)
    requires a <= b && from + b <= to <= |s|
    ensures s[from..to][a..b] == s[from + a..from + b]
  {
    var inner, outer := s[from..to][a..b], s[from + a..from + b];
    forall i | 0 <= i < b - a
      ensures inner[i] == outer[i]
    {
    }
  }
}

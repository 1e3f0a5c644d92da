// Generic list helpers: the JavaScript array operations the store and the
// pages use (`find`, `filter`, `filter((_, i) => i !== k)`, a two-slot swap).

module Util {

  /** A value that may be absent (`undefined` in the source). */
  datatype Option<T> = None | Some(value: T) {
    /** `x || fallback` where only absence falls back. */
    function GetOr(fallback: T): T {
      if Some? then value else fallback
    }
  }

  /** `Array.prototype.filter`: the elements satisfying `p`, in their order. */
  function Filter<T>(s: seq<T>, p: T -> bool): (r: seq<T>)
    ensures |r| <= |s|
    ensures forall k :: 0 <= k < |r| ==> r[k] in s && p(r[k])
    ensures forall k :: 0 <= k < |s| && p(s[k]) ==> s[k] in r
  {
    if s == [] then [] else (if p(s[0]) then [s[0]] else []) + Filter(s[1..], p)
  }

  lemma {:induction false} FilterAppend<T>(a: seq<T>, b: seq<T>, p: T -> bool)
    ensures Filter(a + b, p) == Filter(a, p) + Filter(b, p)
  {
    if a == [] {
      assert a + b == b;
    } else {
      assert (a + b)[0] == a[0];
      assert (a + b)[1..] == a[1..] + b;
      FilterAppend(a[1..], b, p);
    }
  }

  /** `Array.prototype.findIndex`: the position of the first element satisfying `p`. */
  function FindFirst<T>(s: seq<T>, p: T -> bool): (r: Option<nat>)
    ensures r.Some? ==> r.value < |s| && p(s[r.value])
    ensures r.Some? ==> forall k :: 0 <= k < r.value ==> !p(s[k])
    ensures r.None? <==> forall k :: 0 <= k < |s| ==> !p(s[k])
  {
    if s == [] then None
    else if p(s[0]) then Some(0)
    else match FindFirst(s[1..], p)
      case None => None
      case Some(i) => Some(i + 1)
  }

  /** Two lists whose elements answer the two tests alike have the same first hit. */
  lemma {:induction false} FindFirstAlike<T, U>(s: seq<T>, p: T -> bool, s': seq<U>, q: U -> bool)
    requires |s| == |s'|
    requires forall k :: 0 <= k < |s| ==> p(s[k]) == q(s'[k])
    ensures FindFirst(s, p) == FindFirst(s', q)
  {
    if s != [] && !p(s[0]) {
      FindFirstAlike(s[1..], p, s'[1..], q);
    }
  }

  /** `s.filter((_, i) => i !== k)`, scanning the indices in order. */
  function WithoutIndex<T>(s: seq<T>, k: int): (r: seq<T>)
    ensures 0 <= k < |s| ==> |r| == |s| - 1
    ensures 0 <= k < |s| ==> forall i :: 0 <= i < k ==> r[i] == s[i]
    ensures 0 <= k < |s| ==> forall i :: k <= i < |r| ==> r[i] == s[i + 1]
    ensures !(0 <= k < |s|) ==> r == s
    decreases |s|
  {
    if s == [] then []
    else WithoutIndex(s[..|s| - 1], k) + (if |s| - 1 != k then [s[|s| - 1]] else [])
  }

  /** `[s[i], s[j]] = [s[j], s[i]]` on a copy of `s`. */
  function Swap<T>(s: seq<T>, i: nat, j: nat): (r: seq<T>)
    requires i < |s| && j < |s|
    ensures |r| == |s| && r[i] == s[j] && r[j] == s[i]
    ensures forall k :: 0 <= k < |s| && k != i && k != j ==> r[k] == s[k]
  {
    s[i := s[j]][j := s[i]]
  }

  /** A swap only reorders. */
  lemma SwapPermutes<T>(s: seq<T>, i: nat, j: nat)
    requires i < |s| && j < |s|
    ensures multiset(Swap(s, i, j)) == multiset(s)
  {
  }
}

/** Python's slicing and `range` on non-negative bounds, which the decoder
    relies on: a slice past the end of a sequence is clamped, never an error. */
module Slices {
  import opened Arith

  function Min(a: int, b: int): int { if a <= b then a else b }

  /** `s[i:j]`: both bounds are clamped to `len(s)`; an empty result when `j <= i`. */
  function Slice<T>(s: seq<T>, i: nat, j: nat): (r: seq<T>)
    ensures |r| == if Min(j, |s|) <= Min(i, |s|) then 0 else Min(j, |s|) - Min(i, |s|)
    ensures i <= j ==> |r| <= j - i
    ensures j <= |s| && i <= j ==> r == s[i..j]
  {
    var lo, hi := Min(i, |s|), Min(j, |s|);
    if hi <= lo then [] else s[lo..hi]
  }

  /** `s[:j]` */
  function Take<T>(s: seq<T>, j: nat): (r: seq<T>)
    ensures |r| == Min(j, |s|)
    ensures r <= s
  {
    s[..Min(j, |s|)]
  }

  /** `s[i:]` */
  function Drop<T>(s: seq<T>, i: nat): (r: seq<T>)
    ensures |r| == |s| - Min(i, |s|)
  {
    s[Min(i, |s|)..]
  }

  /** `list(range(start, stop, step))` for a positive step. */
  function {:induction false} Range(start: int, stop: int, step: nat): (r: seq<int>)
    requires step > 0
    ensures |r| == if stop <= start then 0 else (stop - start + step - 1) / step
    ensures forall j :: 0 <= j < |r| ==> r[j] == start + j * step && start <= r[j] < stop
    decreases stop - start
  {
    if stop <= start then []
    else
      var rest := Range(start + step, stop, step);
      assert |rest| + 1 == (stop - start + step - 1) / step by {
        DivStep(stop - start - 1, step);
      }
      assert forall j :: 1 <= j < |rest| + 1 ==> (j - 1) * step + step == j * step by {
        forall j | 1 <= j < |rest| + 1 { MulStep(j, step); }
      }
      [start] + rest
  }

  /** Prepending one element (Python's `insert(0, x)`) shifts every slice by one. */
  lemma ShiftedSlice<T>(x: T, s: seq<T>, i: nat, j: nat)
    ensures Slice([x] + s, i + 1, j + 1) == Slice(s, i, j)
    ensures Drop([x] + s, i + 1) == Drop(s, i)
  {
    var t := [x] + s;
    assert Drop(t, i + 1) == Drop(s, i);
  }

  /** `s[:i] + s[i:j]` is `s[:j]`. */
  lemma TakeSlice<T>(s: seq<T>, i: nat, j: nat)
    requires i <= j
    ensures Take(s, i) + Slice(s, i, j) == Take(s, j)
  {
  }

  /** `s[:i] + s[i:]` is `s`. */
  lemma TakeDrop<T>(s: seq<T>, i: nat)
    ensures Take(s, i) + Drop(s, i) == s
  {
  }

  /** The concatenation of a sequence of sequences, `b''.join(ss)`. */
  function Concat<T>(ss: seq<seq<T>>): seq<T>
  {
    if ss == [] then [] else ss[0] + Concat(ss[1..])
  }

  lemma {:induction false} ConcatSnoc<T>(ss: seq<seq<T>>, s: seq<T>)
    ensures Concat(ss + [s]) == Concat(ss) + s
  {
    if ss != [] {
      assert (ss + [s])[1..] == ss[1..] + [s];
      ConcatSnoc(ss[1..], s);
    } else {
      assert [s][1..] == [];
    }
  }

  /** A prefix is the shorter prefix followed by its last element. */
  lemma PrefixSnoc<T>(s: seq<T>, n: nat)
    requires 0 < n <= |s|
    ensures s[..n] == s[..n - 1] + [s[n - 1]]
  {
  }

  /** A slice that does not cover index i ignores what is stored there. */
  lemma SliceUnchanged<T>(s: seq<T>, i: nat, x: T, lo: nat, hi: nat)
    requires i < |s| && (i < lo || hi <= i)
    ensures Slice(s[i := x], lo, hi) == Slice(s, lo, hi)
  {
    var a, b := Slice(s[i := x], lo, hi), Slice(s, lo, hi);
    assert |a| == |b|;
    forall k | 0 <= k < |a| ensures a[k] == b[k] {
      assert a[k] == s[i := x][lo + k];
    }
  }
}

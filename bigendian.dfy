/** Bytes, words and the unsigned big-endian integers of nasa.py (`int_`, `o_range`). */
module BigEndian {
  import opened Arith
  import opened Slices

  type byte = x: int | 0 <= x < 256

  /** One slice of a frame. The frame is cut every four bytes, so a slice
      holds at most four bytes (fewer, or none, past the end of a short frame). */
  type Word = w: seq<byte> | |w| <= 4

  function Pow256(n: nat): (r: nat)
    ensures r > 0
  {
    if n == 0 then 1 else 256 * Pow256(n - 1)
  }

  /** `int_`: the bytes read as one unsigned big-endian integer (0 for no bytes). */
  function {:induction false} Int(s: seq<byte>): (r: nat)
    ensures r < Pow256(|s|)
    decreases |s|
  {
    if s == [] then 0
    else
      var p := Int(s[..|s| - 1]);
      assert p * 256 + s[|s| - 1] < Pow256(|s| - 1) * 256 by {
        assert p <= Pow256(|s| - 1) - 1;
      }
      p * 256 + s[|s| - 1]
  }

  /** The `len` low bytes of `n`, most significant first: the inverse of `Int`. */
  function Encode(n: nat, len: nat): (r: seq<byte>)
    ensures |r| == len
  {
    if len == 0 then [] else Encode(n / 256, len - 1) + [n % 256]
  }

  /** `o_range`: the first two bytes and the remaining bytes, each read as `Int`. */
  function ORange(w: Word): (r: (nat, nat))
    ensures r.0 < 65536 && r.1 < 65536
  {
    Pow256Monotone(|Drop(w, 2)|, 2);
    (Int(Take(w, 2)), Int(Drop(w, 2)))
  }

  lemma {:induction false} Pow256Monotone(a: nat, b: nat)
    requires a <= b
    ensures Pow256(a) <= Pow256(b)
    decreases b
  {
    if a < b { Pow256Monotone(a, b - 1); }
  }

  /** Concatenating byte strings shifts the first by the length of the second. */
  lemma {:induction false} IntAppend(a: seq<byte>, b: seq<byte>)
    ensures Int(a + b) == Int(a) * Pow256(|b|) + Int(b)
    decreases |b|
  {
    if b == [] {
      assert a + b == a;
    } else {
      var b' := b[..|b| - 1];
      assert (a + b)[..|a + b| - 1] == a + b';
      IntAppend(a, b');
      Regroup(Int(a), Pow256(|b'|), Int(b'), b[|b| - 1]);
    }
  }

  lemma Regroup(x: int, p: int, y: int, l: int)
    ensures (x * p + y) * 256 + l == x * (p * 256) + (y * 256 + l)
  {
    assert (x * p + y) * 256 == x * p * 256 + y * 256;
  }

  /** Decoding an encoded number gives the number back, when it fits. */
  lemma {:induction false} IntEncode(n: nat, len: nat)
    requires n < Pow256(len)
    ensures Int(Encode(n, len)) == n
  {
    if len > 0 {
      var e := Encode(n, len);
      assert e[..len - 1] == Encode(n / 256, len - 1);
      assert e[len - 1] == n % 256;
      QuotientBelow(n, 256, Pow256(len - 1));
      IntEncode(n / 256, len - 1);
      assert Int(e) == Int(e[..len - 1]) * 256 + e[len - 1];
    }
  }

  /** Encoding a decoded byte string at its own length gives the bytes back. */
  lemma {:induction false} EncodeInt(s: seq<byte>)
    ensures Encode(Int(s), |s|) == s
    decreases |s|
  {
    if s != [] {
      var p := s[..|s| - 1];
      EncodeInt(p);
      assert (Int(p) * 256 + s[|s| - 1]) / 256 == Int(p);
      assert s == p + [s[|s| - 1]];
    }
  }

  /** On a full word, `o_range` splits the 32-bit value into its high and low halves. */
  lemma ORangeSplit(w: Word)
    requires |w| == 4
    ensures Int(w) == ORange(w).0 * 65536 + ORange(w).1
  {
    assert w == Take(w, 2) + Drop(w, 2);
    IntAppend(Take(w, 2), Drop(w, 2));
  }

  /** Any pair of 16-bit numbers comes back from `o_range` unchanged and in order. */
  lemma ORangeEncode(start: nat, end: nat)
    requires start < 65536 && end < 65536
    ensures ORange(Encode(start, 2) + Encode(end, 2)) == (start, end)
  {
    var w := Encode(start, 2) + Encode(end, 2);
    assert Take(w, 2) == Encode(start, 2);
    assert Drop(w, 2) == Encode(end, 2);
    IntEncode(start, 2);
    IntEncode(end, 2);
  }
}

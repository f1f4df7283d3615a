/**
 Machine integers, byte strings and their little-endian encodings, shared by the ring records,
 the raw archive and pcapng.
 */
module Bytes {

  type u8 = x: int | 0 <= x < 0x100
  type u16 = x: int | 0 <= x < 0x1_0000
  type u32 = x: int | 0 <= x < 0x1_0000_0000
  type u64 = x: int | 0 <= x < 0x1_0000_0000_0000_0000
  type i32 = x: int | -0x8000_0000 <= x < 0x8000_0000

  const TWO32: nat := 0x1_0000_0000
  const TWO64: nat := 0x1_0000_0000_0000_0000

  datatype Option<+T> = None | Some(value: T)

  /** Every failed `ensure!` or `?` ends the run; messages are not modelled. */
  datatype Result<+T> = Ok(value: T) | Err {
    predicate IsFailure() { Err? }
    function PropagateFailure<U>(): Result<U> requires Err? { Err }
    function Extract(): T requires Ok? { value }
  }

  function Min(a: int, b: int): int { if a < b then a else b }
  function Max(a: int, b: int): int { if a < b then b else a }

  // ----- little-endian scalars -----

  function Pow256(w: nat): nat {
    if w == 0 then 1 else 256 * Pow256(w - 1)
  }

  /** The `w` low bytes of `v`, least significant first. */
  function Le(v: nat, w: nat): (b: seq<u8>)
    ensures |b| == w
  {
    if w == 0 then [] else [v % 256] + Le(v / 256, w - 1)
  }

  function FromLe(b: seq<u8>): nat {
    if b == [] then 0 else b[0] + 256 * FromLe(b[1..])
  }

  lemma {:induction false} FromLeBound(b: seq<u8>)
    ensures FromLe(b) < Pow256(|b|)
  {
    if b != [] {
      FromLeBound(b[1..]);
    }
  }

  lemma {:induction false} LeRoundTrip(v: nat, w: nat)
    requires v < Pow256(w)
    ensures FromLe(Le(v, w)) == v
  {
    if w > 0 {
      LeRoundTrip(v / 256, w - 1);
      assert Le(v, w)[1..] == Le(v / 256, w - 1);
    }
  }

  lemma Pow256Values()
    ensures Pow256(1) == 0x100 && Pow256(2) == 0x1_0000
    ensures Pow256(4) == TWO32 && Pow256(8) == TWO64
  {
    assert Pow256(3) == 256 * Pow256(2);
    assert Pow256(5) == 256 * Pow256(4);
    assert Pow256(6) == 256 * Pow256(5);
    assert Pow256(7) == 256 * Pow256(6);
  }

  function U16(b: seq<u8>): u16
    requires |b| == 2
  {
    FromLeBound(b); Pow256Values(); FromLe(b)
  }

  function U32(b: seq<u8>): u32
    requires |b| == 4
  {
    FromLeBound(b); Pow256Values(); FromLe(b)
  }

  function U64(b: seq<u8>): u64
    requires |b| == 8
  {
    FromLeBound(b); Pow256Values(); FromLe(b)
  }

  function U16At(b: seq<u8>, at: nat): u16 requires at + 2 <= |b| { U16(b[at..at + 2]) }
  function U32At(b: seq<u8>, at: nat): u32 requires at + 4 <= |b| { U32(b[at..at + 4]) }
  function U64At(b: seq<u8>, at: nat): u64 requires at + 8 <= |b| { U64(b[at..at + 8]) }

  /** Two's complement reinterpretation, `as u32` and `as i32`. */
  function Unsigned(x: i32): u32 { if x < 0 then x + TWO32 else x }
  function Signed(x: u32): i32 { if x < 0x8000_0000 then x else x - TWO32 }

  // ----- records of fixed-width fields -----

  /** A list of scalar fields of one, two, four or eight bytes. */
  datatype Fields = End | B1(b1: u8, rest: Fields) | B2(b2: u16, rest: Fields)
                  | B4(b4: u32, rest: Fields) | B8(b8: u64, rest: Fields)

  function Pack(f: Fields): seq<u8> {
    match f
    case End => []
    case B1(v, rest) => [v] + Pack(rest)
    case B2(v, rest) => Le(v, 2) + Pack(rest)
    case B4(v, rest) => Le(v, 4) + Pack(rest)
    case B8(v, rest) => Le(v, 8) + Pack(rest)
  }

  /** Every field of `f` is found in `b`, the first at `at`, each next one where the last ends, then `tail`. */
  predicate Reads(b: seq<u8>, at: nat, f: Fields, tail: seq<u8>)
    decreases f
  {
    match f
    case End => at <= |b| && b[at..] == tail
    case B1(v, rest) => at + 1 <= |b| && b[at] == v && Reads(b, at + 1, rest, tail)
    case B2(v, rest) => at + 2 <= |b| && U16At(b, at) == v && Reads(b, at + 2, rest, tail)
    case B4(v, rest) => at + 4 <= |b| && U32At(b, at) == v && Reads(b, at + 4, rest, tail)
    case B8(v, rest) => at + 8 <= |b| && U64At(b, at) == v && Reads(b, at + 8, rest, tail)
  }

  /** Packed fields can be read back one after another. */
  lemma {:induction false} Unpack(b: seq<u8>, at: nat, f: Fields, tail: seq<u8>)
    requires at <= |b| && b[at..] == Pack(f) + tail
    ensures Reads(b, at, f, tail)
    decreases f
  {
    Pow256Values();
    match f
    case End =>
      assert b[at..] == tail;
    case B1(v, rest) =>
      SplitPacked(b, at, [v], Pack(rest), tail);
      assert b[at..at + 1][0] == v;
      Unpack(b, at + 1, rest, tail);
    case B2(v, rest) =>
      SplitPacked(b, at, Le(v, 2), Pack(rest), tail);
      LeRoundTrip(v, 2);
      Unpack(b, at + 2, rest, tail);
    case B4(v, rest) =>
      SplitPacked(b, at, Le(v, 4), Pack(rest), tail);
      LeRoundTrip(v, 4);
      Unpack(b, at + 4, rest, tail);
    case B8(v, rest) =>
      SplitPacked(b, at, Le(v, 8), Pack(rest), tail);
      LeRoundTrip(v, 8);
      Unpack(b, at + 8, rest, tail);
  }

  lemma SplitPacked(b: seq<u8>, at: nat, head: seq<u8>, rest: seq<u8>, tail: seq<u8>)
    requires at <= |b| && b[at..] == (head + rest) + tail
    ensures at + |head| <= |b| && b[at..at + |head|] == head && b[at + |head|..] == rest + tail
  {
    assert (head + rest) + tail == head + (rest + tail);
    assert b[at..][..|head|] == head;
    assert b[at..][|head|..] == rest + tail;
    assert b[at..][|head|..] == b[at + |head|..];
    assert b[at..][..|head|] == b[at..at + |head|];
  }

  lemma Associate<T>(a: seq<T>, b: seq<T>, c: seq<T>)
    ensures a + (b + c) == (a + b) + c
  {
  }

  lemma SliceOfSlice<T>(b: seq<T>, start: nat, length: nat, j: nat, n: nat)
    requires start + length <= |b| && j + n <= length
    ensures b[start..start + length][j..j + n] == b[start + j..start + j + n]
  {
    var s, t := b[start..start + length][j..j + n], b[start + j..start + j + n];
    assert |s| == |t|;
    forall i | 0 <= i < n
      ensures s[i] == t[i]
    {
      assert s[i] == b[start..start + length][j + i] == b[start + (j + i)];
    }
  }

  // ----- map sizes -----

  lemma SizeWithout<K, V>(m: map<K, V>, k: K)
    ensures |m - {k}| == |m| - (if k in m then 1 else 0)
  {
    assert (m - {k}).Keys == m.Keys - {k};
    if k !in m {
      assert m - {k} == m;
    }
  }

  lemma SizeWith<K, V>(m: map<K, V>, k: K, v: V)
    ensures |m[k := v]| == |m| + (if k in m then 0 else 1)
  {
    assert m[k := v].Keys == m.Keys + {k};
  }

  // ----- bit masks -----

  /** Bitwise and of two non-negative integers. */
  function BitAnd(a: nat, b: nat): (r: nat)
    ensures r <= a && r <= b
  {
    if a == 0 || b == 0 then 0 else (a % 2) * (b % 2) + 2 * BitAnd(a / 2, b / 2)
  }

  function Pow2(n: nat): (r: nat)
    ensures r > 0
  {
    if n == 0 then 1 else 2 * Pow2(n - 1)
  }

  /** An all-ones mask keeps every value it is wide enough for. */
  lemma {:induction false} BitAndOnes(a: nat, n: nat)
    requires a < Pow2(n)
    ensures BitAnd(a, Pow2(n) - 1) == a
  {
    if n > 0 && a > 0 {
      BitAndOnes(a / 2, n - 1);
      assert (Pow2(n) - 1) / 2 == Pow2(n - 1) - 1;
      assert (Pow2(n) - 1) % 2 == 1;
    }
  }
}

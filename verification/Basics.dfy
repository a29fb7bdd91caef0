/** Machine words, byte order, points, and the last-writer-wins reading of a list of points. */
module Basics {

  type byte = x: int | 0 <= x < 0x100
  type u16 = x: int | 0 <= x < 0x1_0000
  type u32 = x: int | 0 <= x < 0x1_0000_0000
  type u64 = x: int | 0 <= x < 0x1_0000_0000_0000_0000
  type i32 = x: int | -0x8000_0000 <= x < 0x8000_0000

  type Bytes = seq<byte>

  datatype Option<+T> = None | Some(value: T)

  /** `a` when it has a value, otherwise `b`: `a` was written over `b`. */
  function Over<T>(a: Option<T>, b: Option<T>): Option<T> {
    if a.Some? then a else b
  }

  const DOT: byte := 46 // '.'

  // ---------- conversions between C integer types ----------

  /** Assigning a uint32_t to an int. */
  function ToI32(x: u32): i32 {
    if x < 0x8000_0000 then x else x - 0x1_0000_0000
  }

  /** Passing an int where a uint32_t is expected. */
  function ToU32(x: i32): u32 {
    if x >= 0 then x else x + 0x1_0000_0000
  }

  lemma TimeCrossesIntUnchanged(x: u32)
    ensures ToU32(ToI32(x)) == x
    ensures ToI32(x) == 0 <==> x == 0
  {
  }

  // ---------- network byte order ----------

  function Pow(b: nat, n: nat): nat {
    if n == 0 then 1 else b * Pow(b, n - 1)
  }

  /** The `width` low bytes of `v`, most significant first (htons, htonl, htonll, then memcpy). */
  function BigEndian(v: nat, width: nat): (r: Bytes)
    ensures |r| == width
  {
    if width == 0 then [] else BigEndian(v / 256, width - 1) + [v % 256]
  }

  /** The number whose big-endian bytes are `s` (memcpy, then ntohs, ntohl, ntohll). */
  function FromBigEndian(s: Bytes): nat {
    if s == [] then 0 else FromBigEndian(s[..|s| - 1]) * 256 + s[|s| - 1]
  }

  lemma {:induction false} FromBigEndianBound(s: Bytes)
    ensures FromBigEndian(s) < Pow(256, |s|)
  {
    if s != [] {
      FromBigEndianBound(s[..|s| - 1]);
    }
  }

  lemma {:induction false} BigEndianRoundTrip(v: nat, width: nat)
    requires v < Pow(256, width)
    ensures FromBigEndian(BigEndian(v, width)) == v
  {
    if width > 0 {
      BigEndianRoundTrip(v / 256, width - 1);
      var r := BigEndian(v, width);
      assert r[..|r| - 1] == BigEndian(v / 256, width - 1);
    }
  }

  lemma WordSizes()
    ensures Pow(256, 2) == 0x1_0000
    ensures Pow(256, 4) == 0x1_0000_0000
    ensures Pow(256, 8) == 0x1_0000_0000_0000_0000
  {
    assert Pow(256, 2) == 256 * Pow(256, 1) == 256 * (256 * Pow(256, 0));
    assert Pow(256, 4) == 256 * Pow(256, 3) == 256 * (256 * Pow(256, 2));
    assert Pow(256, 6) == 256 * Pow(256, 5) == 256 * (256 * Pow(256, 4));
    assert Pow(256, 8) == 256 * Pow(256, 7) == 256 * (256 * Pow(256, 6));
  }

  function Read16(s: Bytes): u16
    requires |s| == 2
  {
    FromBigEndianBound(s);
    WordSizes();
    FromBigEndian(s)
  }

  function Read32(s: Bytes): u32
    requires |s| == 4
  {
    FromBigEndianBound(s);
    WordSizes();
    FromBigEndian(s)
  }

  function Read64(s: Bytes): u64
    requires |s| == 8
  {
    FromBigEndianBound(s);
    WordSizes();
    FromBigEndian(s)
  }

  lemma ReadBack(v16: u16, v32: u32, v64: u64)
    ensures Read16(BigEndian(v16, 2)) == v16
    ensures Read32(BigEndian(v32, 4)) == v32
    ensures Read64(BigEndian(v64, 8)) == v64
  {
    WordSizes();
    BigEndianRoundTrip(v16, 2);
    BigEndianRoundTrip(v32, 4);
    BigEndianRoundTrip(v64, 8);
  }

  // ---------- C strings ----------

  /** What a C function sees of the bytes `s` followed by a NUL: everything before the first NUL. */
  function CString(s: Bytes): Bytes {
    if s == [] || s[0] == 0 then [] else [s[0]] + CString(s[1..])
  }

  lemma {:induction false} CStringOfClean(s: Bytes)
    requires 0 !in s
    ensures CString(s) == s
  {
    if s != [] {
      CStringOfClean(s[1..]);
    }
  }

  /** What stands behind the first NUL is not seen. */
  lemma {:induction false} CStringEndsAtNul(s: Bytes, behind: Bytes)
    requires 0 !in s
    ensures CString(s + [0] + behind) == s
  {
    if s != [] {
      assert (s + [0] + behind)[1..] == s[1..] + [0] + behind;
      CStringEndsAtNul(s[1..], behind);
    }
  }

  // ---------- points and the last-writer-wins fold ----------

  datatype Point = Point(time: u32, key: Bytes, value: u64)

  predicate AllAt(t: u32, points: seq<Point>) {
    forall i :: 0 <= i < |points| ==> points[i].time == t
  }

  /** The value a reader must find at (t, k) after all of `points` were written in order. */
  function LastValue(points: seq<Point>, t: u32, k: Bytes): Option<u64> {
    if points == [] then None
    else
      var p := points[|points| - 1];
      if p.time == t && p.key == k then Some(p.value)
      else LastValue(points[..|points| - 1], t, k)
  }

  lemma {:induction false} LastValueConcat(a: seq<Point>, b: seq<Point>, t: u32, k: Bytes)
    ensures LastValue(a + b, t, k) == Over(LastValue(b, t, k), LastValue(a, t, k))
  {
    if b == [] {
      assert a + b == a;
    } else {
      var n := |b| - 1;
      assert (a + b)[..|a + b| - 1] == a + b[..n];
      LastValueConcat(a, b[..n], t, k);
    }
  }

  /** LastValue finds a value exactly when some point is stamped (t, k). */
  lemma {:induction false} LastValueDefined(points: seq<Point>, t: u32, k: Bytes)
    ensures LastValue(points, t, k).Some? <==> exists i :: 0 <= i < |points| && points[i].time == t && points[i].key == k
  {
    if points != [] {
      var n := |points| - 1;
      LastValueDefined(points[..n], t, k);
      if i :| 0 <= i < |points| && points[i].time == t && points[i].key == k {
        if i < n {
          assert points[..n][i] == points[i];
        }
      }
    }
  }

  /** The last value under k, whatever its time. */
  function LastOf(points: seq<Point>, k: Bytes): Option<u64> {
    if points == [] then None
    else
      var p := points[|points| - 1];
      if p.key == k then Some(p.value) else LastOf(points[..|points| - 1], k)
  }

  /** The sum of the values written under key k. */
  function SumFor(points: seq<Point>, k: Bytes): nat {
    if points == [] then 0
    else
      var p := points[|points| - 1];
      SumFor(points[..|points| - 1], k) + (if p.key == k then p.value else 0)
  }

  lemma {:induction false} SumForConcat(a: seq<Point>, b: seq<Point>, k: Bytes)
    ensures SumFor(a + b, k) == SumFor(a, k) + SumFor(b, k)
  {
    if b == [] {
      assert a + b == a;
    } else {
      assert (a + b)[..|a + b| - 1] == a + b[..|b| - 1];
      SumForConcat(a, b[..|b| - 1], k);
    }
  }

  lemma ConcatAssoc<T>(a: seq<T>, b: seq<T>, c: seq<T>)
    ensures a + b + c == a + (b + c)
  {
  }
}

/** Bytes, fixed-width two's-complement integers, little-endian layout and
    NUL-terminated C strings: the vocabulary shared by the request and
    response records of the arithmetic service. */
module Bytes {

  type Byte = b: int | 0 <= b < 256

  /** The C types int64_t and int32_t (pid_t is a 32-bit int on Linux). */
  type Int64 = x: int | -0x8000_0000_0000_0000 <= x < 0x8000_0000_0000_0000
  type Int32 = x: int | -0x8000_0000 <= x < 0x8000_0000

  const INT64_MIN: Int64 := -0x8000_0000_0000_0000
  const INT64_MAX: Int64 := 0x7fff_ffff_ffff_ffff
  const TWO_64: int := 0x1_0000_0000_0000_0000

  const NUL: Byte := 0
  const LF: Byte := 10
  const CR: Byte := 13

  function Pow256(k: nat): (p: nat)
    ensures p >= 1
  {
    if k == 0 then 1 else 256 * Pow256(k - 1)
  }

  lemma Pow256Widths()
    ensures Pow256(4) == 0x1_0000_0000
    ensures Pow256(8) == TWO_64
  {
    assert Pow256(1) == 256;
    assert Pow256(2) == 0x1_0000;
    assert Pow256(3) == 0x100_0000;
    assert Pow256(4) == 0x1_0000_0000;
    assert Pow256(5) == 0x100_0000_0000;
    assert Pow256(6) == 0x1_0000_0000_0000;
    assert Pow256(7) == 0x100_0000_0000_0000;
  }

  /** The `width` bytes of `v`, least significant first. */
  function LittleEndian(v: nat, width: nat): (s: seq<Byte>)
    requires v < Pow256(width)
    ensures |s| == width
  {
    if width == 0 then [] else [v % 256] + LittleEndian(v / 256, width - 1)
  }

  /** The unsigned value of a little-endian byte string. */
  function FromLittleEndian(s: seq<Byte>): (v: nat)
    ensures v < Pow256(|s|)
  {
    if s == [] then 0 else s[0] + 256 * FromLittleEndian(s[1..])
  }

  lemma {:induction false} LittleEndianRoundTrip(v: nat, width: nat)
    requires v < Pow256(width)
    ensures FromLittleEndian(LittleEndian(v, width)) == v
  {
    if width > 0 {
      var s := LittleEndian(v, width);
      assert s[1..] == LittleEndian(v / 256, width - 1);
      LittleEndianRoundTrip(v / 256, width - 1);
    }
  }

  lemma {:induction false} FromLittleEndianRoundTrip(s: seq<Byte>)
    ensures LittleEndian(FromLittleEndian(s), |s|) == s
  {
    if s != [] {
      var v := FromLittleEndian(s);
      assert v % 256 == s[0] && v / 256 == FromLittleEndian(s[1..]);
      FromLittleEndianRoundTrip(s[1..]);
    }
  }

  /** Half the range of a `width`-byte word: the first value that does not fit signed. */
  function SignedBound(width: nat): (h: nat)
    requires width > 0
    ensures 2 * h == Pow256(width)
  {
    128 * Pow256(width - 1)
  }

  predicate FitsSigned(x: int, width: nat)
    requires width > 0
  {
    -(SignedBound(width) as int) <= x < SignedBound(width)
  }

  /** A signed integer as the `width` bytes of its two's-complement form, little-endian
      (the in-memory form of int64_t / int32_t on the host the service runs on). */
  function EncodeSigned(x: int, width: nat): (s: seq<Byte>)
    requires width > 0 && FitsSigned(x, width)
    ensures |s| == width
  {
    LittleEndian(if x < 0 then x + Pow256(width) else x, width)
  }

  function DecodeSigned(s: seq<Byte>): (x: int)
    requires |s| > 0
    ensures FitsSigned(x, |s|)
  {
    var u := FromLittleEndian(s);
    if u >= SignedBound(|s|) then u - Pow256(|s|) else u
  }

  lemma SignedRoundTrip(x: int, width: nat)
    requires width > 0 && FitsSigned(x, width)
    ensures DecodeSigned(EncodeSigned(x, width)) == x
  {
    LittleEndianRoundTrip(if x < 0 then x + Pow256(width) else x, width);
  }

  lemma SignedBytesRoundTrip(s: seq<Byte>)
    requires |s| > 0
    ensures EncodeSigned(DecodeSigned(s), |s|) == s
  {
    FromLittleEndianRoundTrip(s);
  }

  lemma Int64Width(x: int)
    ensures FitsSigned(x, 8) <==> -0x8000_0000_0000_0000 <= x < 0x8000_0000_0000_0000
    ensures FitsSigned(x, 4) <==> -0x8000_0000 <= x < 0x8000_0000
  {
    Pow256Widths();
  }

  function EncodeInt64(x: Int64): (s: seq<Byte>)
    ensures |s| == 8
  {
    Int64Width(x);
    EncodeSigned(x, 8)
  }

  function DecodeInt64(s: seq<Byte>): (x: Int64)
    requires |s| == 8
  {
    var v := DecodeSigned(s);
    Int64Width(v);
    v
  }

  function EncodeInt32(x: Int32): (s: seq<Byte>)
    ensures |s| == 4
  {
    Int64Width(x);
    EncodeSigned(x, 4)
  }

  function DecodeInt32(s: seq<Byte>): (x: Int32)
    requires |s| == 4
  {
    var v := DecodeSigned(s);
    Int64Width(v);
    v
  }

  lemma Int64RoundTrip(x: Int64)
    ensures DecodeInt64(EncodeInt64(x)) == x
  {
    Int64Width(x);
    SignedRoundTrip(x, 8);
  }

  lemma Int64BytesRoundTrip(s: seq<Byte>)
    requires |s| == 8
    ensures EncodeInt64(DecodeInt64(s)) == s
  {
    SignedBytesRoundTrip(s);
  }

  lemma Int32RoundTrip(x: Int32)
    ensures DecodeInt32(EncodeInt32(x)) == x
  {
    Int64Width(x);
    SignedRoundTrip(x, 4);
  }

  lemma Int32BytesRoundTrip(s: seq<Byte>)
    requires |s| == 4
    ensures EncodeInt32(DecodeInt32(s)) == s
  {
    SignedBytesRoundTrip(s);
  }

  function Zeros(n: nat): (z: seq<Byte>)
    ensures |z| == n && forall i :: 0 <= i < n ==> z[i] == NUL
  {
    seq(n, _ => NUL)
  }

  /** The text of a string literal as bytes; every literal used here is ASCII. */
  function Ascii(t: string): (s: seq<Byte>)
    requires forall i :: 0 <= i < |t| ==> t[i] as int < 256
    ensures |s| == |t| && forall i :: 0 <= i < |t| ==> s[i] == t[i] as int
  {
    seq(|t|, i requires 0 <= i < |t| => t[i] as int)
  }

  /** strlen: the index of the first NUL, or the whole buffer if it holds none. */
  function CStrLen(s: seq<Byte>): (n: nat)
    ensures n <= |s|
    ensures forall i :: 0 <= i < n ==> s[i] != NUL
    ensures n < |s| ==> s[n] == NUL
  {
    if s == [] || s[0] == NUL then 0 else 1 + CStrLen(s[1..])
  }

  /** The C string a buffer holds: its bytes before the first NUL. */
  function CString(s: seq<Byte>): seq<Byte>
  {
    s[..CStrLen(s)]
  }

  predicate NulTerminated(s: seq<Byte>)
  {
    CStrLen(s) < |s|
  }

  predicate NoNul(t: seq<Byte>)
  {
    forall i :: 0 <= i < |t| ==> t[i] != NUL
  }

  /** A buffer that starts with a NUL-free text followed by a NUL holds exactly that text. */
  lemma {:induction false} CStringOfTerminated(t: seq<Byte>, rest: seq<Byte>)
    requires NoNul(t)
    ensures CStrLen(t + [NUL] + rest) == |t|
    ensures CString(t + [NUL] + rest) == t
  {
    if t != [] {
      assert (t + [NUL] + rest)[1..] == t[1..] + [NUL] + rest;
      CStringOfTerminated(t[1..], rest);
    }
    assert (t + [NUL] + rest)[..|t|] == t;
  }

  /** The first NUL of a buffer does not move when bytes after it change. */
  lemma {:induction false} CStrLenOfPrefix(s: seq<Byte>, k: nat)
    requires CStrLen(s) < k <= |s|
    ensures CStrLen(s[..k]) == CStrLen(s)
    decreases k
  {
    if s[0] != NUL {
      assert s[..k][1..] == s[1..][..k - 1];
      CStrLenOfPrefix(s[1..], k - 1);
    }
  }

  /** snprintf(buf, |buf|, "%s", text): at most |buf| - 1 bytes of the text and a NUL;
      the rest of the buffer keeps what it held. */
  function Snprintf(buf: seq<Byte>, text: seq<Byte>): (r: seq<Byte>)
    requires |buf| > 0 && NoNul(text)
    ensures |r| == |buf|
    ensures CString(r) == if |text| < |buf| then text else text[..|buf| - 1]
    ensures r[|CString(r)| + 1..] == buf[|CString(r)| + 1..]
  {
    var t := if |text| < |buf| then text else text[..|buf| - 1];
    CStringOfTerminated(t, buf[|t| + 1..]);
    t + [NUL] + buf[|t| + 1..]
  }

  /** `s` with the bytes from `off` on overwritten by `x`. */
  function Splice(s: seq<Byte>, off: nat, x: seq<Byte>): (r: seq<Byte>)
    requires off + |x| <= |s|
    ensures |r| == |s|
  {
    s[..off] + x + s[off + |x|..]
  }

  /** A store at the start of a zeroed tail: what precedes it, then `x`, then zeros. */
  lemma SpliceOntoZeros(p: seq<Byte>, x: seq<Byte>, k: nat)
    requires |x| <= k
    ensures Splice(p + Zeros(k), |p|, x) == p + x + Zeros(k - |x|)
  {
    assert (p + Zeros(k))[..|p|] == p;
    assert (p + Zeros(k))[|p| + |x|..] == Zeros(k - |x|);
  }

  lemma ZerosSplit(m: nat, n: nat)
    ensures Zeros(m) + Zeros(n) == Zeros(m + n)
  {
  }

  /** A store leaves the bytes outside its range alone and puts `x` in it. */
  lemma SpliceSlices(s: seq<Byte>, off: nat, x: seq<Byte>)
    requires off + |x| <= |s|
    ensures Splice(s, off, x)[off..off + |x|] == x
    ensures Splice(s, off, x)[..off] == s[..off]
    ensures Splice(s, off, x)[off + |x|..] == s[off + |x|..]
  {
  }

  /** The memcpy / memset primitive: store `x` into `buf` from `off` on. */
  method Store(buf: array<Byte>, off: nat, x: seq<Byte>)
    requires off + |x| <= buf.Length
    modifies buf
    ensures buf[..] == Splice(old(buf[..]), off, x)
  {
    var i := 0;
    while i < |x|
      invariant 0 <= i <= |x|
      invariant forall j :: 0 <= j < buf.Length ==>
                  buf[j] == if off <= j < off + i then x[j - off] else old(buf[j])
    {
      buf[off + i] := x[i];
      i := i + 1;
    }
  }
}

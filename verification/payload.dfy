/** Element payload codecs for the integer and date kinds (section 7 of
    RFC 8794): big-endian, 0 to 8 bytes; dates are a signed 64-bit count of
    nanoseconds from 2001-01-01T00:00:00 UTC. */
module Payload {
  import opened Errors
  import opened ByteOrder

  /** The widest numeric payload a reader accepts. */
  const MaxNumericWidth: nat := 8

  lemma Pow256Word()
    ensures Pow256(MaxNumericWidth) == 0x1_0000_0000_0000_0000
  {
    Pow2Word();
  }

  lemma {:induction false} Pow256Monotonic(a: nat, b: nat)
    requires a <= b
    ensures Pow256(a) <= Pow256(b)
  {
    Pow2Monotonic(8 * a, 8 * b);
  }

  // ---------------------------------------------------------------------
  // Unsigned integers

  /** The fewest bytes whose range holds u: 0 for 0. */
  function UnsignedWidth(u: nat): (w: nat)
    ensures u < Pow256(w)
    ensures w > 0 ==> Pow256(w - 1) <= u
    decreases u
  {
    if u == 0 then 0
    else
      var w' := UnsignedWidth(u / 256);
      UnsignedWidthStep(u, w');
      1 + w'
  }

  lemma UnsignedWidthStep(u: nat, w': nat)
    requires u > 0 && u / 256 < Pow256(w')
    requires w' > 0 ==> Pow256(w' - 1) <= u / 256
    ensures u < Pow256(1 + w') && Pow256(w') <= u
  {
    Pow256Step(1 + w');
    if w' > 0 {
      Pow256Step(w');
    }
  }

  lemma UnsignedWidthOfWord(u: uint64)
    ensures UnsignedWidth(u) <= MaxNumericWidth
  {
    var w := UnsignedWidth(u);
    Pow256Word();
    if w > MaxNumericWidth {
      Pow256Monotonic(MaxNumericWidth, w - 1);
    }
  }

  /** The payload EbmlWriter.Write(id, ulong) emits. */
  function EncodeUInt(u: uint64): (s: seq<byte>)
    ensures |s| <= MaxNumericWidth
    ensures FromBigEndian(s) == u
    ensures |s| > 0 ==> Pow256(|s| - 1) <= u
  {
    var w := UnsignedWidth(u);
    UnsignedWidthOfWord(u);
    FromToBigEndian(u, w);
    ToBigEndian(u, w)
  }

  /** EbmlReader.ReadUInt on a payload: zero-extended big-endian; a payload
      wider than 8 bytes is a format error. */
  function DecodeUInt(s: seq<byte>): (r: Result<uint64>)
    ensures r.Ok? <==> |s| <= MaxNumericWidth
    ensures r.Ok? ==> r.value == FromBigEndian(s)
    ensures r.Err? ==> r.error == FormatError
  {
    if |s| > MaxNumericWidth then Err(FormatError)
    else
      Pow256Word();
      Pow256Monotonic(|s|, MaxNumericWidth);
      Ok(FromBigEndian(s))
  }

  lemma UIntRoundTrip(u: uint64)
    ensures DecodeUInt(EncodeUInt(u)) == Ok(u)
  {
  }

  // ---------------------------------------------------------------------
  // Signed integers

  /** Half the range of a w-byte field: the bound of its signed values. */
  function HalfRange(w: nat): (h: nat)
    requires w > 0
    ensures 2 * h == Pow256(w)
  {
    Pow2(8 * w - 1)
  }

  /** i is representable in w bytes of two's complement (0 bytes hold only 0). */
  predicate FitsSigned(i: int, w: nat) {
    if w == 0 then i == 0 else -(HalfRange(w) as int) <= i < HalfRange(w)
  }

  lemma FitsSignedWord(i: int64)
    ensures FitsSigned(i, MaxNumericWidth)
  {
    Pow256Word();
  }

  lemma FitsSignedWider(i: int, w: nat, w': nat)
    requires FitsSigned(i, w) && w <= w'
    ensures FitsSigned(i, w')
  {
    if w > 0 {
      Pow2Monotonic(8 * w - 1, 8 * w' - 1);
    }
  }

  /** The fewest bytes, from w upwards, that hold i in two's complement. */
  function SignedWidthFrom(i: int64, w: nat): (r: nat)
    requires w <= MaxNumericWidth
    ensures w <= r <= MaxNumericWidth && FitsSigned(i, r)
    ensures r > w ==> !FitsSigned(i, r - 1)
    decreases MaxNumericWidth - w
  {
    if FitsSigned(i, w) then w
    else if w == MaxNumericWidth then FitsSignedWord(i); w
    else SignedWidthFrom(i, w + 1)
  }

  /** The unsigned field value that stores i in w bytes. */
  function TwosComplement(i: int, w: nat): (x: nat)
    requires FitsSigned(i, w)
    ensures x < Pow256(w)
  {
    if i < 0 then i + Pow256(w) else i
  }

  /** The signed value a w-byte field denotes once sign-extended. */
  function SignExtend(x: nat, w: nat): int {
    if w > 0 && x >= HalfRange(w) then x - Pow256(w) else x
  }

  /** The payload EbmlWriter.Write(id, long) emits: the shortest
      two's-complement form. */
  function EncodeInt(i: int64): (s: seq<byte>)
    ensures |s| <= MaxNumericWidth && FitsSigned(i, |s|)
    ensures |s| > 0 ==> !FitsSigned(i, |s| - 1)
  {
    var w := SignedWidthFrom(i, 0);
    ToBigEndian(TwosComplement(i, w), w)
  }

  /** EbmlReader.ReadInt on a payload: sign-extended big-endian; a payload
      wider than 8 bytes is a format error. */
  function DecodeInt(s: seq<byte>): (r: Result<int64>)
    ensures r.Ok? <==> |s| <= MaxNumericWidth
    ensures r.Ok? ==> FitsSigned(r.value, |s|)
    ensures r.Ok? ==> r.value == SignExtend(FromBigEndian(s), |s|)
    ensures r.Ok? ==> TwosComplement(r.value, |s|) == FromBigEndian(s)
    ensures r.Err? ==> r.error == FormatError
  {
    if |s| > MaxNumericWidth then Err(FormatError)
    else
      var i := SignExtend(FromBigEndian(s), |s|);
      FitsSignedWider(i, |s|, MaxNumericWidth);
      Pow256Word();
      Ok(i)
  }

  lemma SignExtendTwosComplement(i: int, w: nat)
    requires FitsSigned(i, w)
    ensures SignExtend(TwosComplement(i, w), w) == i
  {
  }

  lemma IntRoundTrip(i: int64)
    ensures DecodeInt(EncodeInt(i)) == Ok(i)
  {
    var w := SignedWidthFrom(i, 0);
    FromToBigEndian(TwosComplement(i, w), w);
    SignExtendTwosComplement(i, w);
  }

  // ---------------------------------------------------------------------
  // Dates

  /** A DateTime tick is 100 nanoseconds. */
  const NanosecondsPerTick: nat := 100

  /** The 64-bit two's-complement wrap-around of C#'s unchecked arithmetic. */
  function Wrap64(x: int): (r: int64)
    ensures -0x8000_0000_0000_0000 <= x < 0x8000_0000_0000_0000 ==> r == x
  {
    (x + 0x8000_0000_0000_0000) % 0x1_0000_0000_0000_0000 - 0x8000_0000_0000_0000
  }

  /** C#'s integer division, which truncates toward zero. */
  function TruncatingDiv(a: int, d: nat): int
    requires d > 0
  {
    if a >= 0 then a / d else -((-a) / d)
  }

  /** The payload EbmlWriter.Write(id, DateTime) emits for a date `ticks`
      DateTime ticks after 2001-01-01: eight bytes of nanoseconds. */
  function EncodeDate(ticks: int64): (s: seq<byte>)
    ensures |s| == MaxNumericWidth
  {
    var ns := Wrap64(ticks * NanosecondsPerTick);
    FitsSignedWord(ns);
    ToBigEndian(TwosComplement(ns, MaxNumericWidth), MaxNumericWidth)
  }

  /** EbmlReader.ReadDate on a payload, as DateTime ticks after 2001-01-01:
      an empty payload is the epoch itself, eight bytes are nanoseconds, any
      other width is a format error. */
  function DecodeDate(s: seq<byte>): (r: Result<int64>)
    ensures r.Ok? <==> |s| == 0 || |s| == MaxNumericWidth
    ensures |s| == 0 ==> r == Ok(0)
    ensures r.Err? ==> r.error == FormatError
  {
    if |s| == 0 then Ok(0)
    else if |s| != MaxNumericWidth then Err(FormatError)
    else
      var ns := DecodeInt(s).value;
      Ok(TruncatingDiv(ns, NanosecondsPerTick))
  }

  /** Dates whose nanosecond count fits in 64 bits (offsets of up to
      long.MaxValue / 100 ticks either way) read back exactly. */
  lemma TruncatingDivExact(t: int)
    ensures TruncatingDiv(t * NanosecondsPerTick, NanosecondsPerTick) == t
  {
    if t < 0 {
      assert -(t * NanosecondsPerTick) == (-t) * NanosecondsPerTick;
    }
  }

  lemma DateRoundTrip(ticks: int64)
    requires -0x8000_0000_0000_0000 <= ticks * NanosecondsPerTick < 0x8000_0000_0000_0000
    ensures DecodeDate(EncodeDate(ticks)) == Ok(ticks)
  {
    var ns: int64 := ticks * NanosecondsPerTick;
    assert Wrap64(ticks * NanosecondsPerTick) == ns;
    FitsSignedWord(ns);
    var s := ToBigEndian(TwosComplement(ns, MaxNumericWidth), MaxNumericWidth);
    assert EncodeDate(ticks) == s;
    FromToBigEndian(TwosComplement(ns, MaxNumericWidth), MaxNumericWidth);
    SignExtendTwosComplement(ns, MaxNumericWidth);
    assert DecodeInt(s) == Ok(ns);
    TruncatingDivExact(ticks);
  }
}

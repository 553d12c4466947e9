/** EBML variable-size integers (section 4 of RFC 8794): an L-byte field
    whose first byte carries L-1 zero bits and a marker bit, leaving 7L data
    bits; the all-ones data pattern is reserved for "unknown size". */
module VIntCodec {
  import opened Errors
  import opened ByteOrder

  /** The longest encoding the library produces or accepts. */
  const MaxLength: nat := 8

  /** The marker bit of an L-byte encoding, at bit position 7L. */
  function Marker(length: nat): nat {
    Pow2(7 * length)
  }

  /** The all-ones data pattern of an L-byte encoding: the reserved value. */
  function AllOnes(length: nat): nat {
    Marker(length) - 1
  }

  /** A decoded VInt: how many bytes it occupies and the data bits it carries. */
  datatype VInt = VInt(length: nat, value: nat) {

    predicate Valid() {
      1 <= length <= MaxLength && value < Marker(length)
    }

    predicate IsReserved() {
      value == AllOnes(length)
    }

    /** The raw field as one number: the marker bit OR-ed with the data bits
        (an OR that is a sum, since the data stay below the marker). */
    function EncodedValue(): nat {
      Marker(length) + value
    }
  }

  /** The marker bit of every length, as a number. */
  lemma MarkerValues()
    ensures Marker(1) == 0x80 && Marker(2) == 0x4000 && Marker(3) == 0x20_0000
    ensures Marker(4) == 0x1000_0000 && Marker(5) == 0x8_0000_0000
    ensures Marker(6) == 0x400_0000_0000 && Marker(7) == 0x2_0000_0000_0000
    ensures Marker(8) == 0x100_0000_0000_0000
  {
    assert Pow2(7) == 0x80;
    Pow2Add(7, 7);
    Pow2Add(14, 7);
    Pow2Add(21, 7);
    Pow2Add(28, 7);
    Pow2Add(35, 7);
    Pow2Add(42, 7);
    Pow2Add(49, 7);
  }

  lemma AllOnesMonotonic(a: nat, b: nat)
    requires a <= b
    ensures AllOnes(a) <= AllOnes(b)
  {
    Pow2Monotonic(7 * a, 7 * b);
  }

  /** The first length from `length` upwards whose non-reserved range holds
      value, stopping at MaxLength. */
  function FitLength(value: nat, length: nat): (r: nat)
    requires 1 <= length <= MaxLength
    ensures length <= r <= MaxLength
    ensures value < AllOnes(r) || r == MaxLength
    ensures r > length ==> AllOnes(r - 1) <= value
    decreases MaxLength - length
  {
    if value < AllOnes(length) || length == MaxLength then length
    else FitLength(value, length + 1)
  }

  /** The length of the minimal encoding of value. */
  function MinimalLength(value: nat): (r: nat)
    ensures 1 <= r <= MaxLength
    ensures value < AllOnes(r) || r == MaxLength
    ensures forall k :: 1 <= k < r ==> AllOnes(k) <= value
  {
    var r := FitLength(value, 1);
    assert forall k :: 1 <= k < r ==> AllOnes(k) <= value by {
      forall k | 1 <= k < r
        ensures AllOnes(k) <= value
      {
        AllOnesMonotonic(k, r - 1);
      }
    }
    r
  }

  /** VInt.EncodeSize(value): the shortest encoding whose data bits hold
      value without producing the reserved pattern. */
  function EncodeSize(value: uint64): (r: Result<VInt>)
    ensures r.Ok? <==> value < AllOnes(MaxLength)
    ensures r.Ok? ==> r.value.Valid() && r.value.value == value && !r.value.IsReserved()
    ensures r.Ok? ==> forall k :: 1 <= k < r.value.length ==> AllOnes(k) <= value
    ensures r.Err? ==> r.error == OutOfRange
  {
    if value >= AllOnes(MaxLength) then Err(OutOfRange)
    else Ok(VInt(MinimalLength(value), value))
  }

  /** VInt.EncodeSize(value, length): an encoding of the requested width,
      minimal or not, as used to backpatch a reserved size field. */
  function EncodeSizeWithLength(value: uint64, length: int): (r: Result<VInt>)
    ensures r.Ok? <==> 1 <= length <= MaxLength && value < AllOnes(length)
    ensures r.Ok? ==> r.value.Valid() && r.value.length == length && r.value.value == value
    ensures r.Ok? ==> !r.value.IsReserved()
    ensures !(1 <= length <= MaxLength) ==> r == Err(OutOfRange)
    ensures 1 <= length <= MaxLength && value >= AllOnes(length) ==> r == Err(ArgumentError)
  {
    if length < 1 || length > MaxLength then Err(OutOfRange)
    else if value >= AllOnes(length) then Err(ArgumentError)
    else Ok(VInt(length, value))
  }

  /** VInt.UnknownSize(length): the reserved all-ones pattern of that width. */
  function UnknownSize(length: int): (r: Result<VInt>)
    ensures r.Ok? <==> 1 <= length <= MaxLength
    ensures r.Ok? ==> r.value.Valid() && r.value.length == length && r.value.IsReserved()
    ensures r.Ok? ==> r.value.EncodedValue() == Pow2(7 * length + 1) - 1
    ensures r.Err? ==> r.error == OutOfRange
  {
    if length < 1 || length > MaxLength then Err(OutOfRange)
    else Ok(VInt(length, AllOnes(length)))
  }

  /** VInt.FromEncoded(bits): recover length from the marker bit's position
      and strip the marker to obtain the data bits. */
  function FromEncoded(bits: uint64): (r: Result<VInt>)
    ensures r.Ok? ==> r.value.Valid() && r.value.EncodedValue() == bits
    ensures r.Err? ==> r.error == ArgumentError
  {
    if bits == 0 then Err(ArgumentError)
    else
      var p := HighBit(bits);
      if p % 7 != 0 || p / 7 < 1 || p / 7 > MaxLength then Err(ArgumentError)
      else Ok(VInt(p / 7, bits - Pow2(p)))
  }

  /** Every number whose highest set bit is a marker position 7L, 1 <= L <= 8,
      is accepted, with exactly that length. */
  lemma FromEncodedAccepts(bits: uint64, length: nat)
    requires 1 <= length <= MaxLength
    requires Marker(length) <= bits < 2 * Marker(length)
    ensures FromEncoded(bits) == Ok(VInt(length, bits - Marker(length)))
  {
    var p := 7 * length;
    assert Pow2(p + 1) == 2 * Pow2(p);
    HighBitUnique(bits, p);
    assert p % 7 == 0 && p / 7 == length;
  }

  /** Decoding the raw field of any well-formed VInt gives it back. */
  lemma FromEncodedRoundTrip(v: VInt)
    requires v.Valid()
    ensures v.EncodedValue() < 0x1_0000_0000_0000_0000
    ensures FromEncoded(v.EncodedValue()) == Ok(v)
  {
    Pow2Monotonic(7 * v.length + 1, 64);
    Pow2Word();
    FromEncodedAccepts(v.EncodedValue(), v.length);
  }

  /** VInt.IsValidIdentifier: the encoding is the minimal one for its value
      and is not the reserved pattern. */
  predicate IsValidIdentifier(v: VInt)
    ensures IsValidIdentifier(v) ==>
      && v.Valid() && !v.IsReserved()
      && v.EncodedValue() < 0x1_0000_0000_0000_0000 && FromEncoded(v.EncodedValue()) == Ok(v)
  {
    if v.Valid() then
      FromEncodedRoundTrip(v);
      !v.IsReserved() && v.length == MinimalLength(v.value)
    else false
  }

  /** An identifier is valid exactly when it is what EncodeSize produces for
      its value. */
  lemma ValidIdentifierIsMinimalEncoding(v: VInt)
    requires v.Valid()
    ensures v.value < 0x1_0000_0000_0000_0000
    ensures IsValidIdentifier(v) <==> EncodeSize(v.value) == Ok(v)
  {
    Pow2Monotonic(7 * v.length, 64);
    Pow2Word();
    AllOnesMonotonic(v.length, MaxLength);
    if IsValidIdentifier(v) {
      if v.length == MaxLength {
        assert v.value < AllOnes(MaxLength);
      }
    }
  }

  /** The raw field of a well-formed VInt lies between its marker bit and the
      next bit up, and so fits in `length` bytes. */
  lemma EncodedRange(v: VInt)
    requires v.Valid()
    ensures Marker(v.length) <= v.EncodedValue() < 2 * Marker(v.length)
    ensures 2 * Marker(v.length) == Pow2(7 * v.length + 1)
    ensures v.EncodedValue() < Pow256(v.length)
  {
    Pow2Monotonic(7 * v.length + 1, 8 * v.length);
  }

  /** VInt bytes as they appear in a stream: the raw field, big-endian, in
      exactly `length` bytes. */
  function Bytes(v: VInt): (s: seq<byte>)
    requires v.Valid()
    ensures |s| == v.length
    ensures FromBigEndian(s) == v.EncodedValue()
  {
    EncodedRange(v);
    FromToBigEndian(v.EncodedValue(), v.length);
    ToBigEndian(v.EncodedValue(), v.length)
  }

  lemma HighBitOfByte(b: byte)
    requires b > 0
    ensures HighBit(b) < 8
  {
    assert Pow2(8) == 256;
    if HighBit(b) >= 8 {
      Pow2Monotonic(8, HighBit(b));
    }
  }

  /** The encoded length a first byte announces: one more than its count of
      leading zero bits; 0 for a zero byte, which announces no valid length. */
  function LengthOfFirstByte(b: byte): (length: nat)
    ensures b == 0 <==> length == 0
    ensures b != 0 ==> 1 <= length <= MaxLength && Pow2(8 - length) <= b < Pow2(9 - length)
  {
    if b == 0 then 0
    else
      HighBitOfByte(b);
      8 - HighBit(b)
  }

  /** A field whose first byte announces exactly the field's length carries
      the marker bit of that length as its highest set bit. */
  lemma FieldCarriesMarker(field: seq<byte>)
    requires |field| >= 1 && field[0] != 0 && |field| == LengthOfFirstByte(field[0])
    ensures Marker(|field|) <= FromBigEndian(field) < 2 * Marker(|field|)
    ensures FromBigEndian(field) < 0x1_0000_0000_0000_0000
  {
    var length := |field|;
    var d := Pow256(length - 1);
    FromBigEndianHead(field);
    ScaledRange(field[0], FromBigEndian(field[1..]), Pow2(8 - length), Pow2(9 - length), d);
    MarkerScaled(length);
  }

  /** The marker bit of an L-byte field is the first byte's marker bit
      shifted past the L-1 bytes after it. */
  lemma MarkerScaled(length: nat)
    requires 1 <= length <= MaxLength
    ensures Marker(length) == Pow2(8 - length) * Pow256(length - 1)
    ensures 2 * Marker(length) == Pow2(9 - length) * Pow256(length - 1)
    ensures 2 * Marker(length) <= 0x1_0000_0000_0000_0000
  {
    Pow2Add(8 - length, 8 * (length - 1));
    Pow2Add(9 - length, 8 * (length - 1));
    assert 8 - length + 8 * (length - 1) == 7 * length;
    Pow2Monotonic(7 * length + 1, 64);
    Pow2Word();
  }

  /** The n bytes at offset p read as one big-endian number, a byte at a
      time. */
  function BigEndianAt(data: seq<byte>, p: nat, n: nat): nat
    requires p + n <= |data|
  {
    if n == 0 then 0 else BigEndianAt(data, p, n - 1) * 256 + data[p + n - 1]
  }

  lemma {:induction false} BigEndianAtSlice(data: seq<byte>, p: nat, n: nat)
    requires p + n <= |data|
    ensures BigEndianAt(data, p, n) == FromBigEndian(data[p..p + n])
  {
    if n > 0 {
      BigEndianAtSlice(data, p, n - 1);
      assert data[p..p + n][..n - 1] == data[p..p + n - 1];
    }
  }

  /** Reads one VInt at offset p of a stream that must not be read past
      limit: the first byte gives the length, the field is decoded by
      FromEncoded. A zero first byte or a truncated field is a format error. */
  function DecodeAt(data: seq<byte>, p: nat, limit: nat): (r: Result<(VInt, nat)>)
    requires p <= limit <= |data|
    ensures r.Ok? <==> p < limit && data[p] != 0 && p + LengthOfFirstByte(data[p]) <= limit
    ensures r.Ok? ==> r.value.0.Valid() && r.value.0.length == LengthOfFirstByte(data[p])
    ensures r.Ok? ==> r.value.1 == p + r.value.0.length <= limit
    ensures r.Err? ==> r.error == FormatError
  {
    if p >= limit || data[p] == 0 then Err(FormatError)
    else
      var length := LengthOfFirstByte(data[p]);
      if p + length > limit then Err(FormatError)
      else
        var bits := BigEndianAt(data, p, length);
        BigEndianAtSlice(data, p, length);
        FieldCarriesMarker(data[p..p + length]);
        Ok((VInt(length, bits - Marker(length)), p + length))
  }

  /** The identifier or size DecodeAt yields is what FromEncoded makes of
      the field's bytes read as one big-endian number. */
  lemma DecodeAtFromEncoded(data: seq<byte>, p: nat, limit: nat)
    requires p <= limit <= |data| && DecodeAt(data, p, limit).Ok?
    ensures var d := DecodeAt(data, p, limit).value;
      FromBigEndian(data[p..d.1]) < 0x1_0000_0000_0000_0000
      && FromEncoded(FromBigEndian(data[p..d.1])) == Ok(d.0)
  {
    var length := LengthOfFirstByte(data[p]);
    var field := data[p..p + length];
    BigEndianAtSlice(data, p, length);
    FieldCarriesMarker(field);
    MarkerScaled(length);
    Pow2Word();
    FromEncodedAccepts(FromBigEndian(field), length);
  }

  /** The first byte of an encoding announces that encoding's length. */
  lemma FirstByteAnnouncesLength(v: VInt)
    requires v.Valid()
    ensures LengthOfFirstByte(Bytes(v)[0]) == v.length
  {
    var length := v.length;
    var x := v.EncodedValue();
    var k := 8 - length;
    var m := 8 * (length - 1);
    assert k + m == 7 * length;
    EncodedRange(v);
    assert Pow2(k + m) <= x < Pow2(k + m + 1);
    DivPow2Range(x, k, m);
    FirstByte(x, length);
    var b := Bytes(v)[0];
    assert b == x / Pow2(m);
    HighBitUnique(b, k);
  }

  lemma BytesInjective(v: VInt, w: VInt)
    requires v.Valid() && w.Valid() && Bytes(v) == Bytes(w)
    ensures v == w
  {
    assert FromBigEndian(Bytes(v)) == FromBigEndian(Bytes(w));
  }

  /** The bytes DecodeAt consumes are exactly the encoding of the VInt it
      returns. */
  lemma DecodeAtSlice(data: seq<byte>, p: nat, limit: nat)
    requires p <= limit <= |data| && DecodeAt(data, p, limit).Ok?
    ensures var d := DecodeAt(data, p, limit).value;
      data[p..d.1] == Bytes(d.0)
  {
    var length := LengthOfFirstByte(data[p]);
    var field := data[p..p + length];
    var bits := FromBigEndian(field);
    BigEndianAtSlice(data, p, length);
    FieldCarriesMarker(field);
    ToFromBigEndian(field);
    var v := DecodeAt(data, p, limit).value.0;
    assert v == VInt(length, bits - Marker(length));
  }

  /** The bytes of a VInt decode to that VInt and to nothing else. */
  lemma DecodeAtBytes(data: seq<byte>, p: nat, q: nat, limit: nat, v: VInt)
    requires v.Valid() && q == p + v.length && q <= limit <= |data|
    requires data[p..q] == Bytes(v)
    ensures DecodeAt(data, p, limit) == Ok((v, q))
  {
    FirstByteAnnouncesLength(v);
    assert data[p] == Bytes(v)[0];
    BigEndianAtSlice(data, p, v.length);
    assert BigEndianAt(data, p, v.length) == v.EncodedValue();
    assert DecodeAt(data, p, limit) == Ok((VInt(v.length, v.EncodedValue() - Marker(v.length)), q));
  }
}

/** The concrete encodings the library's unit tests pin down, each derived
    from the general definitions of VIntCodec. */
module VIntVectors {
  import opened Errors
  import opened ByteOrder
  import opened VIntCodec

  lemma EncodeSizeVectors()
    ensures EncodeSize(0) == Ok(VInt(1, 0)) && VInt(1, 0).EncodedValue() == 0x80
    ensures EncodeSize(1) == Ok(VInt(1, 1)) && VInt(1, 1).EncodedValue() == 0x81
    ensures EncodeSize(126) == Ok(VInt(1, 126)) && VInt(1, 126).EncodedValue() == 0xfe
    ensures EncodeSize(127) == Ok(VInt(2, 127)) && VInt(2, 127).EncodedValue() == 0x407f
    ensures EncodeSize(128) == Ok(VInt(2, 128)) && VInt(2, 128).EncodedValue() == 0x4080
    ensures EncodeSize(0xdeffad) == Ok(VInt(4, 0xdeffad))
    ensures VInt(4, 0xdeffad).EncodedValue() == 0x10deffad
  {
    MarkerValues();
  }

  /** Minimal encodings are never reserved, keep their value, and grow by a
      byte exactly when the value reaches the all-ones pattern. */
  lemma SizeOrIdVectors()
    ensures EncodeSize(0) == Ok(VInt(1, 0)) && !VInt(1, 0).IsReserved()
    ensures EncodeSize(126) == Ok(VInt(1, 126)) && !VInt(1, 126).IsReserved()
    ensures EncodeSize(127) == Ok(VInt(2, 127)) && !VInt(2, 127).IsReserved()
    ensures EncodeSize(128) == Ok(VInt(2, 128)) && !VInt(2, 128).IsReserved()
    ensures EncodeSize(0xffff) == Ok(VInt(3, 0xffff)) && !VInt(3, 0xffff).IsReserved()
    ensures EncodeSize(0xffffff) == Ok(VInt(4, 0xffffff)) && !VInt(4, 0xffffff).IsReserved()
  {
    MarkerValues();
  }

  lemma EncodeSizeWithLengthVectors()
    ensures EncodeSizeWithLength(0, 1) == Ok(VInt(1, 0)) && VInt(1, 0).EncodedValue() == 0x80
    ensures EncodeSizeWithLength(0, 2) == Ok(VInt(2, 0)) && VInt(2, 0).EncodedValue() == 0x4000
    ensures EncodeSizeWithLength(0, 3) == Ok(VInt(3, 0)) && VInt(3, 0).EncodedValue() == 0x20_0000
    ensures EncodeSizeWithLength(0, 4) == Ok(VInt(4, 0)) && VInt(4, 0).EncodedValue() == 0x1000_0000
    ensures EncodeSizeWithLength(127, 2) == Ok(VInt(2, 127)) && VInt(2, 127).EncodedValue() == 0x407f
    ensures EncodeSizeWithLength(127, 1) == Err(ArgumentError)
  {
    MarkerValues();
  }

  lemma UnknownSizeVectors()
    ensures UnknownSize(1).Ok? && UnknownSize(1).value.EncodedValue() == 0xff
    ensures UnknownSize(2).Ok? && UnknownSize(2).value.EncodedValue() == 0x7fff
    ensures UnknownSize(3).Ok? && UnknownSize(3).value.EncodedValue() == 0x3f_ffff
    ensures UnknownSize(4).Ok? && UnknownSize(4).value.EncodedValue() == 0x1fff_ffff
    ensures UnknownSize(5).Ok? && UnknownSize(5).value.EncodedValue() == 0xf_ffff_ffff
    ensures UnknownSize(6).Ok? && UnknownSize(6).value.EncodedValue() == 0x7ff_ffff_ffff
    ensures UnknownSize(7).Ok? && UnknownSize(7).value.EncodedValue() == 0x3_ffff_ffff_ffff
    ensures UnknownSize(8).Ok? && UnknownSize(8).value.EncodedValue() == 0x1ff_ffff_ffff_ffff
    ensures UnknownSize(-1) == Err(OutOfRange)
    ensures UnknownSize(0) == Err(OutOfRange)
    ensures UnknownSize(9) == Err(OutOfRange)
  {
    MarkerValues();
  }

  lemma FromEncodedVectors()
    ensures FromEncoded(0x80) == Ok(VInt(1, 0))
    ensures FromEncoded(0xaf) == Ok(VInt(1, 0x2f))
    ensures FromEncoded(0x40ff) == Ok(VInt(2, 0xff))
    ensures FromEncoded(0x2000ff) == Ok(VInt(3, 0xff))
    ensures FromEncoded(0x1000_00ff) == Ok(VInt(4, 0xff))
    ensures FromEncoded(0x1f10_20ff) == Ok(VInt(4, 0xf10_20ff))
  {
    MarkerValues();
    FromEncodedAccepts(0x80, 1);
    FromEncodedAccepts(0xaf, 1);
    FromEncodedAccepts(0x40ff, 2);
    FromEncodedAccepts(0x2000ff, 3);
    FromEncodedAccepts(0x1000_00ff, 4);
    FromEncodedAccepts(0x1f10_20ff, 4);
  }

  lemma FromEncodedRejects()
    ensures FromEncoded(0) == Err(ArgumentError)
    ensures FromEncoded(1) == Err(ArgumentError)
    ensures FromEncoded(0x40) == Err(ArgumentError)
    ensures FromEncoded(0x20) == Err(ArgumentError)
    ensures FromEncoded(0x10) == Err(ArgumentError)
    ensures FromEncoded(0x8000) == Err(ArgumentError)
  {
    assert Pow2(8) == 0x100;
    Pow2Add(7, 8);
    Pow2Add(8, 8);
    HighBitUnique(1, 0);
    HighBitUnique(0x40, 6);
    HighBitUnique(0x20, 5);
    HighBitUnique(0x10, 4);
    HighBitUnique(0x8000, 15);
  }

  lemma ValidIdentifierVectors()
    ensures FromEncoded(0x80) == Ok(VInt(1, 0)) && IsValidIdentifier(VInt(1, 0))
    ensures FromEncoded(0x81) == Ok(VInt(1, 1)) && IsValidIdentifier(VInt(1, 1))
  {
    MarkerValues();
    FromEncodedAccepts(0x80, 1);
    FromEncodedAccepts(0x81, 1);
  }

  lemma InvalidIdentifierVectors()
    ensures FromEncoded(0x4001) == Ok(VInt(2, 1)) && !IsValidIdentifier(VInt(2, 1))
    ensures FromEncoded(0xff) == Ok(VInt(1, 0x7f)) && !IsValidIdentifier(VInt(1, 0x7f))
    ensures FromEncoded(0x7fff) == Ok(VInt(2, 0x3fff)) && !IsValidIdentifier(VInt(2, 0x3fff))
  {
    MarkerValues();
    FromEncodedAccepts(0x4001, 2);
    FromEncodedAccepts(0xff, 1);
    FromEncodedAccepts(0x7fff, 2);
  }
}

/** EbmlWriter: appends elements to an output stream, and writes master
    elements whose size field is reserved when they are started and
    backpatched when they are closed. */
module EbmlWriter {
  import opened Errors
  import opened ByteOrder
  import opened VIntCodec
  import opened Elements
  import Payload
  import Utf8

  /** The bytes written so far, and for every master element still open
      (innermost last) the offset of its eight-byte size field. */
  datatype Writer = Writer(out: seq<byte>, open: seq<nat>) {
    predicate Valid() {
      forall i :: 0 <= i < |open| ==> open[i] + MaxLength <= |out|
    }
  }

  /** new EbmlWriter(stream) on an empty stream. */
  function NewWriter(): (w: Writer)
    ensures w.Valid() && w.out == [] && w.open == []
  {
    Writer([], [])
  }

  /** The eight-byte reserved size a master element carries while open. */
  function OpenSize(): (v: VInt)
    ensures v.Valid() && v.length == MaxLength && v.IsReserved()
  {
    UnknownSize(MaxLength).value
  }

  /** Write(id, byte[]): appends one element whose size field is the minimal
      encoding of the payload's length. */
  function Write(w: Writer, id: VInt, payload: seq<byte>): (res: Result<Writer>)
    requires id.Valid()
    ensures res.Ok? <==> |payload| < AllOnes(MaxLength)
    ensures res.Ok? ==> (Make(id, payload).Ok? && res.value == Writer(w.out + Encode(Make(id, payload).value), w.open))
    ensures res.Err? ==> res.error == OutOfRange
    ensures w.Valid() && res.Ok? ==> res.value.Valid()
  {
    var e :- Make(id, payload);
    Ok(Writer(w.out + Encode(e), w.open))
  }

  /** Write(id, ulong): never fails; the element it appends carries the
      shortest big-endian payload that reads back as u. */
  function WriteUInt(w: Writer, id: VInt, u: uint64): (res: Result<Writer>)
    requires id.Valid()
    ensures res.Ok? && res.value.open == w.open
    ensures var p := Payload.EncodeUInt(u);
      && res == Write(w, id, p)
      && Payload.DecodeUInt(p) == Ok(u)
      && (|p| > 0 ==> Pow256(|p| - 1) <= u)
  {
    MarkerValues();
    Payload.UIntRoundTrip(u);
    Write(w, id, Payload.EncodeUInt(u))
  }

  /** Write(id, long): never fails; the element it appends carries the
      shortest two's-complement payload that reads back as i. */
  function WriteInt(w: Writer, id: VInt, i: int64): (res: Result<Writer>)
    requires id.Valid()
    ensures res.Ok? && res.value.open == w.open
    ensures var p := Payload.EncodeInt(i);
      && res == Write(w, id, p)
      && Payload.DecodeInt(p) == Ok(i)
      && (|p| > 0 ==> !Payload.FitsSigned(i, |p| - 1))
  {
    MarkerValues();
    Payload.IntRoundTrip(i);
    Write(w, id, Payload.EncodeInt(i))
  }

  /** Write(id, DateTime), the date given as ticks after 2001-01-01: never
      fails; the element it appends carries eight bytes, which read back as
      the same date whenever its nanosecond count fits in 64 bits. */
  function WriteDate(w: Writer, id: VInt, ticks: int64): (res: Result<Writer>)
    requires id.Valid()
    ensures res.Ok? && res.value.open == w.open
    ensures var p := Payload.EncodeDate(ticks);
      && res == Write(w, id, p)
      && |p| == Payload.MaxNumericWidth
      && (-0x8000_0000_0000_0000 <= ticks * Payload.NanosecondsPerTick < 0x8000_0000_0000_0000 ==>
            Payload.DecodeDate(p) == Ok(ticks))
  {
    MarkerValues();
    if -0x8000_0000_0000_0000 <= ticks * Payload.NanosecondsPerTick < 0x8000_0000_0000_0000 then
      Payload.DateRoundTrip(ticks);
      Write(w, id, Payload.EncodeDate(ticks))
    else
      Write(w, id, Payload.EncodeDate(ticks))
  }

  /** WriteUtf(id, string): a missing (null) string is an argument-null
      error; otherwise the payload is the string's UTF-8 encoding. */
  function WriteUtf(w: Writer, id: VInt, s: Option<string>): (res: Result<Writer>)
    requires id.Valid()
    ensures s.None? ==> res == Err(ArgumentNull)
    ensures s.Some? ==> res == Write(w, id, Utf8.Encode(s.value))
  {
    if s.None? then Err(ArgumentNull)
    else Write(w, id, Utf8.Encode(s.value))
  }

  /** StartMasterElement(id): writes the identifier and a reserved eight-byte
      size, and remembers where that size field is. */
  function StartMaster(w: Writer, id: VInt): (n: Writer)
    requires id.Valid()
    ensures n.out == w.out + Bytes(id) + Bytes(OpenSize())
    ensures n.open == w.open + [|w.out| + id.length]
    ensures w.Valid() ==> n.Valid()
  {
    Writer(w.out + Bytes(id) + Bytes(OpenSize()), w.open + [|w.out| + id.length])
  }

  /** Disposing a master element: the reserved size field of the innermost
      open master is overwritten, at the same width, with the length of
      everything written after it. Closing with no open master is an invalid
      operation; a body too long for eight bytes is an argument error. */
  function CloseMaster(w: Writer): (res: Result<Writer>)
    requires w.Valid()
    ensures |w.open| == 0 ==> res == Err(InvalidOperation)
    ensures res.Ok? ==> |w.open| > 0 && res.value.open == w.open[..|w.open| - 1]
    ensures res.Ok? ==> |res.value.out| == |w.out|
    ensures res.Ok? ==> var off := w.open[|w.open| - 1];
      && res.value.out[..off] == w.out[..off]
      && res.value.out[off + MaxLength..] == w.out[off + MaxLength..]
    ensures res.Ok? ==> res.value.Valid()
  {
    if |w.open| == 0 then Err(InvalidOperation)
    else
      var off := w.open[|w.open| - 1];
      var n := |w.out| - off - MaxLength;
      if n >= 0x1_0000_0000_0000_0000 then Err(ArgumentError)
      else
        var size :- EncodeSizeWithLength(n, MaxLength);
        Ok(Writer(w.out[..off] + Bytes(size) + w.out[off + MaxLength..], w.open[..|w.open| - 1]))
  }

  /** Starting a master element, writing its body, and closing it leaves
      exactly one element behind: the identifier, an eight-byte size equal to
      the body's length, and the body. */
  lemma MasterBackpatch(w: Writer, id: VInt, body: seq<byte>)
    requires w.Valid() && id.Valid() && |body| < AllOnes(MaxLength)
    ensures var s := StartMaster(w, id);
      var e := Element(id, VInt(MaxLength, |body|), body);
      && Framed(e) && !e.size.IsReserved()
      && CloseMaster(Writer(s.out + body, s.open)) == Ok(Writer(w.out + Encode(e), w.open))
  {
    var s := StartMaster(w, id);
    var c := Writer(s.out + body, s.open);
    var off := |w.out| + id.length;
    assert c.open[|c.open| - 1] == off;
    assert c.open[..|c.open| - 1] == w.open;
    MarkerValues();
    var size := VInt(MaxLength, |body|);
    assert EncodeSizeWithLength(|body|, MaxLength) == Ok(size);
    var a := w.out + Bytes(id);
    assert c.out == a + Bytes(OpenSize()) + body;
    Overwrite(a, Bytes(OpenSize()), Bytes(size), body);
    assert |a| == off;
    assert CloseMaster(c) == Ok(Writer(c.out[..off] + Bytes(size) + c.out[off + MaxLength..], w.open));
    assert c.out[..off] + Bytes(size) + c.out[off + MaxLength..] == a + Bytes(size) + body;
    Regroup(w.out, Bytes(id), Bytes(size), body);
    assert Framed(Element(id, size, body)) && !size.IsReserved();
  }
}

/** EbmlReader: a forward cursor over a byte stream that decodes element
    headers, decodes payloads on request, and enters and leaves containers
    through an explicit stack of container end offsets. */
module EbmlReader {
  import opened Errors
  import opened ByteOrder
  import opened VIntCodec
  import opened Elements
  import Payload
  import Utf8

  /** The most recently read element header; the payload occupies
      [start, start + length). */
  datatype Header = Header(id: VInt, size: VInt, start: nat, length: nat) {
    function End(): nat {
      start + length
    }
  }

  /** The reader's state: the stream, the position, the end offsets of the
      entered containers (innermost last), the current header, and whether
      its payload is still unread. */
  datatype Reader = Reader(data: seq<byte>, pos: nat, scopes: seq<nat>, current: Option<Header>, pending: bool) {

    /** Where the current nesting level ends. */
    function Limit(): nat {
      if |scopes| == 0 then |data| else scopes[|scopes| - 1]
    }

    /** Where the enclosing level ends, once the innermost one is left. */
    function ParentLimit(): (n: nat)
      requires Valid()
      ensures Limit() <= n <= |data|
    {
      if |scopes| <= 1 then |data| else scopes[|scopes| - 2]
    }

    /** Where the next header starts: past the unread payload, if any. */
    function Cursor(): nat {
      if pending && current.Some? then current.value.End() else pos
    }

    predicate Valid() {
      && (forall i :: 0 <= i < |scopes| ==> scopes[i] <= |data|)
      && (forall i, j :: 0 <= i < j < |scopes| ==> scopes[j] <= scopes[i])
      && pos <= Limit()
      && (pending ==> current.Some? && current.value.start == pos && current.value.End() <= Limit())
    }
  }

  /** The result of ReadNext: whether a sibling was found, and the new state. */
  datatype Step = Step(more: bool, reader: Reader)

  /** The result of a payload read: the decoded value and the new state. */
  datatype Read<+T> = Read(value: T, reader: Reader)

  /** new EbmlReader(stream), positioned at the stream's start. */
  function NewReader(data: seq<byte>): (r: Reader)
    ensures r.Valid() && r.Cursor() == 0 && r.Limit() == |data|
  {
    Reader(data, 0, [], None, false)
  }

  /** Decodes the header at offset p of a level ending at limit: identifier,
      size, and a payload that must lie inside the level. An unknown size
      extends to the end of the level. */
  function ReadHeader(data: seq<byte>, p: nat, limit: nat): (res: Result<Header>)
    requires p < limit <= |data|
    ensures res.Ok? ==> var h := res.value;
      && h.id.Valid() && h.size.Valid()
      && h.start == p + h.id.length + h.size.length
      && h.End() <= limit
      && h.length == (if h.size.IsReserved() then limit - h.start else h.size.value)
    ensures res.Err? ==> res.error == FormatError
  {
    match DecodeAt(data, p, limit)
    case Err(e) => Err(e)
    case Ok(first) =>
      var id := first.0;
      match DecodeAt(data, first.1, limit)
      case Err(e) => Err(e)
      case Ok(second) =>
        var size := second.0;
        var start := second.1;
        var length := if size.IsReserved() then limit - start else size.value;
        if start + length > limit then Err(FormatError)
        else Ok(Header(id, size, start, length))
  }

  /** The state after a header h of the current level has been decoded: the
      position is at its payload, which is pending. */
  function Positioned(r: Reader, h: Header): (n: Reader)
    requires r.Valid() && r.Cursor() <= h.start && h.End() <= r.Limit()
    ensures n.Valid() && n.data == r.data && n.scopes == r.scopes && n.Limit() == r.Limit()
    ensures n.pending && n.current == Some(h) && n.pos == h.start && n.Cursor() == h.End()
  {
    Reader(r.data, h.start, r.scopes, Some(h), true)
  }

  /** The state once the current level has no further sibling. */
  function Exhausted(r: Reader): (n: Reader)
    requires r.Valid()
    ensures n.Valid() && n.data == r.data && n.scopes == r.scopes && n.Limit() == r.Limit()
    ensures n.Cursor() == r.Limit() && n.current.None? && !n.pending
  {
    Reader(r.data, r.Limit(), r.scopes, None, false)
  }

  /** ReadNext: skip the unread payload of the current element, then decode
      the next header of the current level; false once the level is
      exhausted. */
  function ReadNext(r: Reader): (res: Result<Step>)
    requires r.Valid()
    ensures res.Ok? ==> res.value.reader.Valid()
    ensures res.Ok? ==> res.value.reader.data == r.data && res.value.reader.scopes == r.scopes
    ensures res.Ok? ==> (res.value.more <==> r.Cursor() < r.Limit())
    ensures res.Ok? && !res.value.more ==> res.value.reader == Exhausted(r)
    ensures res.Ok? && res.value.more ==>
      && ReadHeader(r.data, r.Cursor(), r.Limit()).Ok?
      && res.value.reader == Positioned(r, ReadHeader(r.data, r.Cursor(), r.Limit()).value)
    ensures r.Cursor() < r.Limit() && ReadHeader(r.data, r.Cursor(), r.Limit()).Err? ==> res.Err?
    ensures res.Err? ==> res.error == FormatError
  {
    var p := r.Cursor();
    var limit := r.Limit();
    if p >= limit then Ok(Step(false, Exhausted(r)))
    else
      match ReadHeader(r.data, p, limit)
      case Err(e) => Err(e)
      case Ok(h) => Ok(Step(true, Positioned(r, h)))
  }

  /** The raw payload of the current element; afterwards the cursor stands at
      its end. Reading with no unread payload is an invalid operation. */
  function ReadBytes(r: Reader): (res: Result<Read<seq<byte>>>)
    requires r.Valid()
    ensures res.Ok? <==> r.pending
    ensures res.Ok? ==> res.value.value == r.data[r.pos..r.Cursor()]
    ensures res.Ok? ==> |res.value.value| == r.current.value.length
    ensures res.Ok? ==> var n := res.value.reader;
      n.Valid() && n.data == r.data && n.scopes == r.scopes && !n.pending
      && n.pos == r.Cursor() && n.Cursor() == r.Cursor() && n.current == r.current
    ensures res.Err? ==> res.error == InvalidOperation
  {
    if !r.pending then Err(InvalidOperation)
    else
      var h := r.current.value;
      Ok(Read(r.data[h.start..h.End()], r.(pos := h.End(), pending := false)))
  }

  /** The payload bytes the cursor has not yet passed: the current
      element's payload while it is pending, otherwise nothing. */
  function Unread(r: Reader): (s: seq<byte>)
    requires r.Valid()
    ensures r.pending ==> |s| == r.current.value.length
    ensures !r.pending ==> s == []
  {
    r.data[r.pos..r.Cursor()]
  }

  /** n is r once the pending payload has been read: same stream, same
      levels, same current header, and the cursor at the payload's end. */
  predicate PayloadRead(r: Reader, n: Reader)
    requires r.Valid()
  {
    n.Valid() && n.data == r.data && n.scopes == r.scopes && n.current == r.current
    && !n.pending && n.pos == r.Cursor() && n.Cursor() == r.Cursor()
  }

  /** ReadUInt: the payload as an unsigned big-endian number. With no
      unread payload it is an invalid operation; a payload wider than eight
      bytes is a format error. */
  function ReadUInt(r: Reader): (res: Result<Read<uint64>>)
    requires r.Valid()
    ensures res.Ok? <==> r.pending && |Unread(r)| <= Payload.MaxNumericWidth
    ensures res.Err? ==> res.error == (if r.pending then FormatError else InvalidOperation)
    ensures res.Ok? ==> res.value.value == FromBigEndian(Unread(r))
    ensures res.Ok? ==> PayloadRead(r, res.value.reader)
  {
    var body :- ReadBytes(r);
    var u :- Payload.DecodeUInt(body.value);
    Ok(Read(u, body.reader))
  }

  /** ReadInt: the payload as a signed big-endian number, sign-extended from
      its width. Errors as for ReadUInt. */
  function ReadInt(r: Reader): (res: Result<Read<int64>>)
    requires r.Valid()
    ensures res.Ok? <==> r.pending && |Unread(r)| <= Payload.MaxNumericWidth
    ensures res.Err? ==> res.error == (if r.pending then FormatError else InvalidOperation)
    ensures res.Ok? ==> Payload.FitsSigned(res.value.value, |Unread(r)|)
    ensures res.Ok? ==> Payload.TwosComplement(res.value.value, |Unread(r)|) == FromBigEndian(Unread(r))
    ensures res.Ok? ==> PayloadRead(r, res.value.reader)
  {
    var body :- ReadBytes(r);
    var i :- Payload.DecodeInt(body.value);
    Ok(Read(i, body.reader))
  }

  /** ReadDate: the payload as DateTime ticks after 2001-01-01. An empty
      payload is the epoch; only empty and eight-byte payloads are dates. */
  function ReadDate(r: Reader): (res: Result<Read<int64>>)
    requires r.Valid()
    ensures res.Ok? <==> r.pending && (|Unread(r)| == 0 || |Unread(r)| == Payload.MaxNumericWidth)
    ensures res.Err? ==> res.error == (if r.pending then FormatError else InvalidOperation)
    ensures res.Ok? && |Unread(r)| == 0 ==> res.value.value == 0
    ensures res.Ok? ==> Payload.DecodeDate(Unread(r)) == Ok(res.value.value)
    ensures res.Ok? ==> PayloadRead(r, res.value.reader)
  {
    var body :- ReadBytes(r);
    var t :- Payload.DecodeDate(body.value);
    Ok(Read(t, body.reader))
  }

  /** ReadUtf: the payload as UTF-8 text; bytes that are not UTF-8 are a
      format error. */
  function ReadUtf(r: Reader): (res: Result<Read<string>>)
    requires r.Valid()
    ensures res.Ok? <==> r.pending && Utf8.Decode(Unread(r)).Ok?
    ensures res.Err? ==> res.error == (if r.pending then FormatError else InvalidOperation)
    ensures res.Ok? ==> Utf8.Encode(res.value.value) == Unread(r)
    ensures res.Ok? ==> PayloadRead(r, res.value.reader)
  {
    var body :- ReadBytes(r);
    var s :- Utf8.Decode(body.value);
    Ok(Read(s, body.reader))
  }

  /** A pending payload holding the UTF-8 encoding of a string reads back
      as that string. */
  lemma ReadUtfText(r: Reader, s: string)
    requires r.Valid() && r.pending && r.data[r.pos..r.Cursor()] == Utf8.Encode(s)
    ensures ReadUtf(r) == Ok(Read(s, r.(pos := r.Cursor(), pending := false)))
  {
    Utf8.RoundTrip(s);
    assert ReadBytes(r) == Ok(Read(Utf8.Encode(s), r.(pos := r.Cursor(), pending := false)));
  }

  /** EnterContainer: treat the current, unread payload as a nested level
      that ends where the payload ends. */
  function EnterContainer(r: Reader): (res: Result<Reader>)
    requires r.Valid()
    ensures res.Ok? <==> r.pending
    ensures res.Ok? ==> var n := res.value;
      n.Valid() && n.data == r.data && n.scopes == r.scopes + [r.Cursor()]
      && n.Cursor() == r.pos && n.Limit() == r.Cursor() && !n.pending
    ensures res.Err? ==> res.error == InvalidOperation
  {
    if !r.pending then Err(InvalidOperation)
    else Ok(Reader(r.data, r.pos, r.scopes + [r.current.value.End()], None, false))
  }

  /** LeaveContainer: drop the innermost level and stand at its end,
      whatever part of it was read. */
  function LeaveContainer(r: Reader): (res: Result<Reader>)
    requires r.Valid()
    ensures res.Ok? <==> |r.scopes| > 0
    ensures res.Ok? ==> var n := res.value;
      n.Valid() && n.data == r.data && n.scopes == r.scopes[..|r.scopes| - 1]
      && n.Cursor() == r.Limit() && n.Limit() == r.ParentLimit() && !n.pending && n.current.None?
    ensures res.Err? ==> res.error == InvalidOperation
  {
    if |r.scopes| == 0 then Err(InvalidOperation)
    else Ok(Reader(r.data, r.Limit(), r.scopes[..|r.scopes| - 1], None, false))
  }

  /** Every remaining sibling of the current level with its raw payload, read
      by ReadNext and ReadBytes until the level is exhausted. What it returns
      re-encodes to exactly the bytes it consumed. */
  function ReadAll(r: Reader): (res: Result<seq<Element>>)
    requires r.Valid()
    decreases r.Limit() - r.Cursor()
  {
    match ReadNext(r)
    case Err(e) => Err(e)
    case Ok(step) =>
      if !step.more then Ok([])
      else
        var h := ReadHeader(r.data, r.Cursor(), r.Limit()).value;
        assert step.reader == Positioned(r, h) && h.id.length >= 1;
        var body := ReadBytes(step.reader).value;
        assert body.reader.Cursor() == h.End() && body.reader.Limit() == r.Limit();
        match ReadAll(body.reader)
        case Err(e) => Err(e)
        case Ok(rest) => Ok([Element(h.id, h.size, body.value)] + rest)
  }

  /** What ReadAll returns is a readable sibling sequence that re-encodes to
      exactly the bytes it consumed. */
  lemma {:induction false} ReadAllConsumes(r: Reader)
    requires r.Valid() && ReadAll(r).Ok?
    ensures Shaped(ReadAll(r).value) && r.data[r.Cursor()..r.Limit()] == EncodeAll(ReadAll(r).value)
    decreases r.Limit() - r.Cursor()
  {
    var step := ReadNext(r).value;
    if !step.more {
      EncodeAllEmpty([]);
    } else {
      var h := step.reader.current.value;
      var body := ReadBytes(step.reader).value;
      var rest := ReadAll(body.reader).value;
      ReadAllConsumes(body.reader);
      assert h == ReadHeader(r.data, r.Cursor(), r.Limit()).value;
      assert body.reader.Cursor() == h.End() && body.reader.Limit() == r.Limit();
      ReadAllCons(r, h, body.value, rest);
      assert ReadAll(r).value == [Element(h.id, h.size, body.value)] + rest;
    }
  }

  /** A header decoded at the cursor, its payload and the encoding of the
      siblings after it make up the rest of the level. */
  lemma ReadAllCons(r: Reader, h: Header, payload: seq<byte>, rest: seq<Element>)
    requires r.Valid() && r.Cursor() < r.Limit()
    requires ReadHeader(r.data, r.Cursor(), r.Limit()) == Ok(h)
    requires payload == r.data[h.start..h.End()]
    requires Shaped(rest) && r.data[h.End()..r.Limit()] == EncodeAll(rest)
    ensures var e := Element(h.id, h.size, payload);
      Shaped([e] + rest) && r.data[r.Cursor()..r.Limit()] == EncodeAll([e] + rest)
  {
    HeaderElement(r.data, r.Cursor(), r.Limit());
    Consumed(r.data, r.Cursor(), h.End(), r.Limit(), Element(h.id, h.size, payload), rest);
  }

  /** The bytes a decoded header occupies are the encodings of its
      identifier and size. */
  lemma ReadHeaderSlice(data: seq<byte>, p: nat, limit: nat)
    requires p < limit <= |data| && ReadHeader(data, p, limit).Ok?
    ensures var h := ReadHeader(data, p, limit).value;
      data[p..h.start] == Bytes(h.id) + Bytes(h.size)
  {
    var first := DecodeAt(data, p, limit).value;
    DecodeAtSlice(data, p, limit);
    DecodeAtSlice(data, first.1, limit);
    SliceSplit(data, p, first.1, ReadHeader(data, p, limit).value.start);
  }

  /** A decoded header and its payload form a framed element whose encoding
      is exactly the bytes they occupy. */
  lemma HeaderElement(data: seq<byte>, p: nat, limit: nat)
    requires p < limit <= |data| && ReadHeader(data, p, limit).Ok?
    ensures var h := ReadHeader(data, p, limit).value;
      var e := Element(h.id, h.size, data[h.start..h.End()]);
      && Framed(e)
      && data[p..h.End()] == Encode(e)
      && (e.size.IsReserved() ==> h.End() == limit)
  {
    var h := ReadHeader(data, p, limit).value;
    ReadHeaderSlice(data, p, limit);
    SliceSplit(data, p, h.start, h.End());
  }

  /** An element followed by the encoding of a sibling sequence makes a
      longer sibling sequence. */
  lemma Consumed(data: seq<byte>, p: nat, q: nat, limit: nat, e: Element, rest: seq<Element>)
    requires p <= q <= limit <= |data|
    requires Framed(e) && data[p..q] == Encode(e)
    requires e.size.IsReserved() ==> q == limit
    requires Shaped(rest) && data[q..limit] == EncodeAll(rest)
    ensures Shaped([e] + rest) && data[p..limit] == EncodeAll([e] + rest)
  {
    if e.size.IsReserved() {
      EncodeAllEmpty(rest);
    }
    ShapedCons(e, rest);
    SliceSplit(data, p, q, limit);
  }

  /** The elements of a whole stream. */
  function Parse(data: seq<byte>): Result<seq<Element>> {
    ReadAll(NewReader(data))
  }

  /** Decoding a header where a framed element is stored yields that
      element's identifier, size and payload extent. */
  lemma ReadHeaderElement(data: seq<byte>, p: nat, limit: nat, e: Element, rest: seq<byte>)
    requires p <= limit <= |data| && Framed(e)
    requires data[p..limit] == Encode(e) + rest
    requires e.size.IsReserved() ==> rest == []
    ensures p < limit
    ensures var start := p + e.id.length + e.size.length;
      ReadHeader(data, p, limit) == Ok(Header(e.id, e.size, start, |e.payload|))
    ensures data[p + e.id.length + e.size.length..p + |Encode(e)|] == e.payload
    ensures data[p + |Encode(e)|..limit] == rest
  {
    var p1 := p + e.id.length;
    var p2 := p1 + e.size.length;
    var q := p + |Encode(e)|;
    assert q == p2 + |e.payload|;
    ElementSlices(data, p, p1, p2, q, limit, e, rest);
    ReadHeaderAt(data, p, p1, p2, limit, e.id, e.size, |e.payload|);
    assert p < limit;
    assert ReadHeader(data, p, limit) == Ok(Header(e.id, e.size, p2, |e.payload|));
    assert data[p2..q] == e.payload;
    assert data[q..limit] == rest;
  }

  /** The header decoded from an identifier stored at p..q and a size
      stored at q..start. */
  lemma ReadHeaderAt(data: seq<byte>, p: nat, q: nat, start: nat, limit: nat, id: VInt, size: VInt, length: nat)
    requires id.Valid() && size.Valid()
    requires q == p + id.length && start == q + size.length && start + length <= limit <= |data|
    requires data[p..q] == Bytes(id) && data[q..start] == Bytes(size)
    requires if size.IsReserved() then start + length == limit else size.value == length
    ensures p < limit && ReadHeader(data, p, limit) == Ok(Header(id, size, start, length))
  {
    DecodeAtBytes(data, p, q, limit, id);
    DecodeAtBytes(data, q, start, limit, size);
    ReadHeaderDecoded(data, p, limit, id, q, size, start, length);
  }

  /** ReadHeader, once the two fields it decodes are known. */
  lemma ReadHeaderDecoded(data: seq<byte>, p: nat, limit: nat, id: VInt, q: nat, size: VInt, start: nat, length: nat)
    requires p < limit <= |data|
    requires DecodeAt(data, p, limit) == Ok((id, q)) && DecodeAt(data, q, limit) == Ok((size, start))
    requires start + length <= limit
    requires length == if size.IsReserved() then limit - start else size.value
    ensures ReadHeader(data, p, limit) == Ok(Header(id, size, start, length))
  {
    var first := DecodeAt(data, p, limit).value;
    var second := DecodeAt(data, first.1, limit).value;
    assert first.0 == id && second.0 == size && second.1 == start;
  }

  /** Where the parts of a stored element lie. */
  lemma ElementSlices(data: seq<byte>, p: nat, p1: nat, p2: nat, q: nat, limit: nat, e: Element, rest: seq<byte>)
    requires p <= limit <= |data| && Framed(e)
    requires p1 == p + e.id.length && p2 == p1 + e.size.length && q == p2 + |e.payload|
    requires data[p..limit] == Encode(e) + rest
    ensures && q <= limit
      && data[p..p1] == Bytes(e.id)
      && data[p1..p2] == Bytes(e.size)
      && data[p2..q] == e.payload
      && data[q..limit] == rest
  {
    SliceParts(data, p, limit, Bytes(e.id), Bytes(e.size), e.payload, rest);
  }

  /** Reading a stored element: ReadNext yields its header, with the payload
      pending, and the payload ends where the element's encoding ends. */
  lemma ReadElement(r: Reader, e: Element, rest: seq<byte>)
    requires r.Valid() && Framed(e)
    requires r.data[r.Cursor()..r.Limit()] == Encode(e) + rest
    requires e.size.IsReserved() ==> rest == []
    ensures var h := Header(e.id, e.size, r.Cursor() + e.id.length + e.size.length, |e.payload|);
      r.Cursor() <= h.start && h.End() == r.Cursor() + |Encode(e)| <= r.Limit()
    ensures var h := Header(e.id, e.size, r.Cursor() + e.id.length + e.size.length, |e.payload|);
      ReadNext(r) == Ok(Step(true, Positioned(r, h)))
    ensures var h := Header(e.id, e.size, r.Cursor() + e.id.length + e.size.length, |e.payload|);
      r.data[h.start..h.End()] == e.payload
    ensures var h := Header(e.id, e.size, r.Cursor() + e.id.length + e.size.length, |e.payload|);
      r.data[h.End()..r.Limit()] == rest
  {
    var p := r.Cursor();
    var h := Header(e.id, e.size, p + e.id.length + e.size.length, |e.payload|);
    ReadElementAt(r, e, rest, p, r.Limit(), h);
    assert ReadNext(r) == Ok(Step(true, Positioned(r, h)));
    assert r.data[h.start..h.End()] == e.payload;
    assert r.data[h.End()..r.Limit()] == rest;
  }

  /** ReadElement, with the cursor, the level's end and the expected header
      given by name. */
  lemma ReadElementAt(r: Reader, e: Element, rest: seq<byte>, p: nat, limit: nat, h: Header)
    requires r.Valid() && Framed(e) && p == r.Cursor() && limit == r.Limit()
    requires r.data[p..limit] == Encode(e) + rest
    requires e.size.IsReserved() ==> rest == []
    requires h == Header(e.id, e.size, p + e.id.length + e.size.length, |e.payload|)
    ensures p <= h.start && h.End() == p + |Encode(e)| <= limit
    ensures ReadNext(r) == Ok(Step(true, Positioned(r, h)))
    ensures r.data[h.start..h.End()] == e.payload && r.data[h.End()..limit] == rest
  {
    ReadHeaderElement(r.data, p, limit, e, rest);
    assert ReadHeader(r.data, p, limit) == Ok(h);
  }

  /** At the end of a level there is nothing left to read. */
  lemma ReadAllExhausted(r: Reader)
    requires r.Valid() && r.Cursor() == r.Limit()
    ensures ReadAll(r) == Ok([])
  {
    assert ReadNext(r) == Ok(Step(false, Exhausted(r)));
  }

  /** After a stored element has been read, the rest of the level is read
      from just past it. */
  lemma ReadAllStep(r: Reader, e: Element, rest: seq<byte>)
    requires r.Valid() && Framed(e)
    requires r.data[r.Cursor()..r.Limit()] == Encode(e) + rest
    requires e.size.IsReserved() ==> rest == []
    ensures var h := Header(e.id, e.size, r.Cursor() + e.id.length + e.size.length, |e.payload|);
      var m := Reader(r.data, h.End(), r.scopes, Some(h), false);
      && m.Valid() && m.Limit() == r.Limit()
      && r.data[m.Cursor()..m.Limit()] == rest
      && |rest| < r.Limit() - r.Cursor()
      && (ReadAll(m).Ok? ==> ReadAll(r) == Ok([e] + ReadAll(m).value))
  {
    ReadElement(r, e, rest);
    var h := Header(e.id, e.size, r.Cursor() + e.id.length + e.size.length, |e.payload|);
    var n := Positioned(r, h);
    assert ReadBytes(n) == Ok(Read(e.payload, n.(pos := h.End(), pending := false)));
  }

  /** Reading a level that holds the encoding of a sibling sequence returns
      exactly that sequence. */
  lemma {:induction false} ReadAllEncoded(r: Reader, es: seq<Element>)
    requires r.Valid() && Shaped(es)
    requires r.data[r.Cursor()..r.Limit()] == EncodeAll(es)
    ensures ReadAll(r) == Ok(es)
    decreases |es|
  {
    if |es| == 0 {
      assert |r.data[r.Cursor()..r.Limit()]| == 0;
      ReadAllExhausted(r);
    } else {
      var e := es[0];
      ShapedUncons(es);
      ReadAllStep(r, e, EncodeAll(es[1..]));
      var h := Header(e.id, e.size, r.Cursor() + e.id.length + e.size.length, |e.payload|);
      var m := Reader(r.data, h.End(), r.scopes, Some(h), false);
      ReadAllEncoded(m, es[1..]);
    }
  }

  /** Entering a stored element as a container: the new level spans exactly
      its payload and ends where the element ends. */
  lemma EnterElement(r: Reader, e: Element, rest: seq<byte>)
    requires r.Valid() && Framed(e)
    requires r.data[r.Cursor()..r.Limit()] == Encode(e) + rest
    requires e.size.IsReserved() ==> rest == []
    ensures var h := Header(e.id, e.size, r.Cursor() + e.id.length + e.size.length, |e.payload|);
      var c := Reader(r.data, h.start, r.scopes + [h.End()], None, false);
      && r.Cursor() <= h.start && h.End() == r.Cursor() + |Encode(e)| <= r.Limit()
      && ReadNext(r) == Ok(Step(true, Positioned(r, h)))
      && EnterContainer(Positioned(r, h)) == Ok(c)
      && c.Valid() && c.Cursor() == h.start && c.Limit() == h.End()
      && r.data[c.Cursor()..c.Limit()] == e.payload
  {
    ReadElement(r, e, rest);
  }

  /** A container whose payload is the encoding of a sibling sequence yields
      exactly those children, in order. */
  lemma EnterReadsChildren(r: Reader, e: Element, rest: seq<byte>, children: seq<Element>)
    requires r.Valid() && Framed(e)
    requires r.data[r.Cursor()..r.Limit()] == Encode(e) + rest
    requires e.size.IsReserved() ==> rest == []
    requires Shaped(children) && e.payload == EncodeAll(children)
    ensures ReadNext(r).Ok? && ReadNext(r).value.more
    ensures EnterContainer(ReadNext(r).value.reader).Ok?
    ensures ReadAll(EnterContainer(ReadNext(r).value.reader).value) == Ok(children)
  {
    EnterElement(r, e, rest);
    ReadAllEncoded(EnterContainer(ReadNext(r).value.reader).value, children);
  }

  /** Whatever was read inside a container, leaving it stands at the
      container's end, so the next ReadNext yields the container's next
      sibling. */
  lemma LeaveThenNext(m: Reader, f: Element, rest: seq<byte>)
    requires m.Valid() && |m.scopes| > 0 && Framed(f)
    requires m.data[m.Limit()..m.ParentLimit()] == Encode(f) + rest
    requires f.size.IsReserved() ==> rest == []
    ensures LeaveContainer(m).Ok?
    ensures var l := LeaveContainer(m).value;
      && l.Cursor() == m.Limit()
      && ReadNext(l).Ok? && ReadNext(l).value.more
      && ReadNext(l).value.reader.current.value.id == f.id
      && ReadNext(l).value.reader.current.value.size == f.size
      && ReadBytes(ReadNext(l).value.reader).Ok?
      && ReadBytes(ReadNext(l).value.reader).value.value == f.payload
  {
    ReadElement(LeaveContainer(m).value, f, rest);
  }

  /** Parsing is the inverse of encoding, in both directions. */
  lemma ParseRoundTrip(es: seq<Element>)
    requires Shaped(es)
    ensures Parse(EncodeAll(es)) == Ok(es)
  {
    ReadAllEncoded(NewReader(EncodeAll(es)), es);
  }

  lemma ParseExact(data: seq<byte>)
    ensures Parse(data).Ok? ==> Shaped(Parse(data).value) && EncodeAll(Parse(data).value) == data
  {
    if Parse(data).Ok? {
      ReadAllConsumes(NewReader(data));
      assert data[0..|data|] == data;
    }
  }
}

/** What EbmlWriter writes, EbmlReader reads back: one element per value
    type, and a container followed by a sibling. */
module RoundTrip {
  import opened Errors
  import opened ByteOrder
  import opened VIntCodec
  import opened Elements
  import opened EbmlReader
  import opened EbmlWriter
  import Payload
  import Utf8

  /** The header ReadNext reports for the element written first into a
      fresh stream. */
  function FirstHeader(e: Element): Header {
    Header(e.id, e.size, e.id.length + e.size.length, |e.payload|)
  }

  /** A stream holding one written element: ReadNext finds its identifier,
      and reading the payload returns it and leaves the cursor at the end of
      the stream. */
  lemma ReadBack(id: VInt, payload: seq<byte>)
    requires id.Valid() && |payload| < AllOnes(MaxLength)
    ensures Make(id, payload).Ok?
    ensures var e := Make(id, payload).value;
      Write(NewWriter(), id, payload) == Ok(Writer(Encode(e), []))
    ensures var e := Make(id, payload).value;
      FirstHeader(e).End() == |Encode(e)|
    ensures var e := Make(id, payload).value;
      var r := NewReader(Encode(e));
      ReadNext(r) == Ok(Step(true, Positioned(r, FirstHeader(e))))
    ensures var e := Make(id, payload).value;
      var r := NewReader(Encode(e));
      ReadBytes(Positioned(r, FirstHeader(e))) == Ok(Read(payload, Reader(Encode(e), |Encode(e)|, [], Some(FirstHeader(e)), false)))
  {
    var e := Make(id, payload).value;
    var out := Encode(e);
    var r := NewReader(out);
    assert r.data[r.Cursor()..r.Limit()] == Encode(e) + [];
    ReadElement(r, e, []);
    var h := FirstHeader(e);
    assert h == Header(e.id, e.size, r.Cursor() + e.id.length + e.size.length, |e.payload|);
    assert ReadNext(r) == Ok(Step(true, Positioned(r, h)));
    assert h.End() == |out|;
    assert Write(NewWriter(), id, payload) == Ok(Writer([] + out, []));
    assert [] + out == out;
    var n := Positioned(r, h);
    assert ReadBytes(n) == Ok(Read(out[h.start..h.End()], n.(pos := h.End(), pending := false)));
  }

  /** Write(id, long) then ReadNext and ReadInt returns the value, for every
      64-bit value including -1 and both extremes. */
  lemma ReadWriteInt64(id: VInt, i: int64)
    requires id.Valid()
    ensures var payload := Payload.EncodeInt(i);
      var e := Make(id, payload).value;
      var out := Encode(e);
      var r := NewReader(out);
      var h := FirstHeader(e);
      && Make(id, payload).Ok?
      && WriteInt(NewWriter(), id, i) == Ok(Writer(out, []))
      && ReadNext(r) == Ok(Step(true, Positioned(r, h)))
      && h.id == id
      && ReadInt(Positioned(r, h)) == Ok(Read(i, Reader(out, |out|, [], Some(h), false)))
  {
    MarkerValues();
    ReadBack(id, Payload.EncodeInt(i));
    Payload.IntRoundTrip(i);
  }

  /** Write(id, ulong) then ReadNext and ReadUInt returns the value and
      leaves the cursor at the end of the stream. */
  lemma ReadWriteUInt64(id: VInt, u: uint64)
    requires id.Valid()
    ensures var payload := Payload.EncodeUInt(u);
      var e := Make(id, payload).value;
      var out := Encode(e);
      var r := NewReader(out);
      var h := FirstHeader(e);
      && Make(id, payload).Ok?
      && WriteUInt(NewWriter(), id, u) == Ok(Writer(out, []))
      && ReadNext(r) == Ok(Step(true, Positioned(r, h)))
      && h.id == id
      && ReadUInt(Positioned(r, h)) == Ok(Read(u, Reader(out, |out|, [], Some(h), false)))
      && Reader(out, |out|, [], Some(h), false).Cursor() == |out|
  {
    MarkerValues();
    ReadBack(id, Payload.EncodeUInt(u));
    Payload.UIntRoundTrip(u);
  }

  /** Write(id, DateTime) then ReadDate returns the date, for every date
      whose nanosecond offset from 2001-01-01 fits in 64 bits. */
  lemma ReadWriteDate(id: VInt, ticks: int64)
    requires id.Valid()
    requires -0x8000_0000_0000_0000 <= ticks * Payload.NanosecondsPerTick < 0x8000_0000_0000_0000
    ensures var payload := Payload.EncodeDate(ticks);
      var e := Make(id, payload).value;
      var out := Encode(e);
      var r := NewReader(out);
      var h := FirstHeader(e);
      && Make(id, payload).Ok?
      && WriteDate(NewWriter(), id, ticks) == Ok(Writer(out, []))
      && ReadNext(r) == Ok(Step(true, Positioned(r, h)))
      && h.id == id
      && ReadDate(Positioned(r, h)) == Ok(Read(ticks, Reader(out, |out|, [], Some(h), false)))
  {
    MarkerValues();
    ReadBack(id, Payload.EncodeDate(ticks));
    Payload.DateRoundTrip(ticks);
  }

  /** WriteUtf(id, s) then ReadUtf returns s, including the empty string and
      characters outside the Basic Multilingual Plane. */
  lemma ReadWriteStringUtf(id: VInt, s: string)
    requires id.Valid() && |Utf8.Encode(s)| < AllOnes(MaxLength)
    ensures var payload := Utf8.Encode(s);
      var e := Make(id, payload).value;
      var out := Encode(e);
      var r := NewReader(out);
      var h := FirstHeader(e);
      && Make(id, payload).Ok?
      && WriteUtf(NewWriter(), id, Some(s)) == Ok(Writer(out, []))
      && ReadNext(r) == Ok(Step(true, Positioned(r, h)))
      && h.id == id
      && ReadUtf(Positioned(r, h)) == Ok(Read(s, Reader(out, |out|, [], Some(h), false)))
  {
    ReadBack(id, Utf8.Encode(s));
    Utf8.RoundTrip(s);
  }

  /** The stream of the container test: a binary element whose payload is
      the encoding of some children, followed by a text element. */
  function ContainerStream(id: VInt, children: seq<Element>, next: VInt, text: string): (out: seq<byte>)
    requires id.Valid() && next.Valid() && AllFramed(children)
    requires |EncodeAll(children)| < AllOnes(MaxLength) && |Utf8.Encode(text)| < AllOnes(MaxLength)
    ensures var w := Write(NewWriter(), id, EncodeAll(children));
      w.Ok? && WriteUtf(w.value, next, Some(text)) == Ok(Writer(out, []))
  {
    var c := Make(id, EncodeAll(children)).value;
    var t := Make(next, Utf8.Encode(text)).value;
    assert [] + Encode(c) == Encode(c);
    Encode(c) + Encode(t)
  }

  /** Entering the binary element as a container yields the children in the
      order they were written. */
  lemma ReadWriteContainer(id: VInt, children: seq<Element>, next: VInt, text: string)
    requires id.Valid() && next.Valid() && Shaped(children)
    requires |EncodeAll(children)| < AllOnes(MaxLength) && |Utf8.Encode(text)| < AllOnes(MaxLength)
    ensures var c := Make(id, EncodeAll(children)).value;
      && c.id == id
      && ContainerAtStart(ContainerStream(id, children, next, text), c, children)
  {
    var out := ContainerStream(id, children, next, text);
    var c := Make(id, EncodeAll(children)).value;
    var t := Make(next, Utf8.Encode(text)).value;
    assert out == Encode(c) + Encode(t);
    ContainerFirst(out, c, Encode(t), children);
  }

  /** A reader on a fresh stream that starts with the container c finds it,
      and entering it and reading the whole level yields children. */
  predicate ContainerAtStart(out: seq<byte>, c: Element, children: seq<Element>) {
    var r := NewReader(out);
    var h := FirstHeader(c);
    var inside := Reader(out, h.start, [h.End()], None, false);
    && h.End() <= |out|
    && ReadNext(r) == Ok(Step(true, Positioned(r, h)))
    && EnterContainer(Positioned(r, h)) == Ok(inside)
    && ReadAll(inside) == Ok(children)
  }

  /** A stream that starts with a container whose payload encodes a sibling
      sequence. */
  lemma ContainerFirst(out: seq<byte>, c: Element, rest: seq<byte>, children: seq<Element>)
    requires Framed(c) && out == Encode(c) + rest && (c.size.IsReserved() ==> rest == [])
    requires Shaped(children) && c.payload == EncodeAll(children)
    ensures ContainerAtStart(out, c, children)
  {
    var r := NewReader(out);
    assert r.data[r.Cursor()..r.Limit()] == Encode(c) + rest;
    EnterElement(r, c, rest);
    var h := FirstHeader(c);
    assert r.scopes + [h.End()] == [h.End()];
    ReadAllEncoded(Reader(out, h.start, [h.End()], None, false), children);
  }

  /** However much of the container was read, LeaveContainer returns to the
      main stream just past the container, and the next element is the text
      element after it. */
  lemma ReadWriteContainerSibling(id: VInt, children: seq<Element>, next: VInt, text: string, m: Reader)
    requires id.Valid() && next.Valid() && Shaped(children)
    requires |EncodeAll(children)| < AllOnes(MaxLength) && |Utf8.Encode(text)| < AllOnes(MaxLength)
    requires var out := ContainerStream(id, children, next, text);
      var c := Make(id, EncodeAll(children)).value;
      m.Valid() && m.data == out && m.scopes == [|Encode(c)|]
    ensures var out := ContainerStream(id, children, next, text);
      var c := Make(id, EncodeAll(children)).value;
      var t := Make(next, Utf8.Encode(text)).value;
      && t.id == next
      && LeaveContainer(m) == Ok(Reader(out, |Encode(c)|, [], None, false))
      && TextElementAt(out, |Encode(c)|, t, text)
  {
    var out := ContainerStream(id, children, next, text);
    var c := Make(id, EncodeAll(children)).value;
    var t := Make(next, Utf8.Encode(text)).value;
    var l := Reader(out, |Encode(c)|, [], None, false);
    assert LeaveContainer(m) == Ok(l);
    assert out == Encode(c) + Encode(t);
    assert t.id == next && t.payload == Utf8.Encode(text);
    ElementAtEnd(out, Encode(c), t);
    TextAtEnd(out, |Encode(c)|, t, text);
  }

  /** A reader standing at offset p of the top level of out finds the
      element t there, with its payload pending. */
  predicate ElementAt(out: seq<byte>, p: nat, t: Element) {
    var l := Reader(out, p, [], None, false);
    var h := Header(t.id, t.size, p + t.id.length + t.size.length, |t.payload|);
    && p <= h.start && h.End() <= |out|
    && ReadNext(l) == Ok(Step(true, Positioned(l, h)))
    && out[h.start..h.End()] == t.payload
  }

  /** ElementAt, and the pending payload reads back as text, leaving the
      cursor at the end of the stream. */
  predicate TextElementAt(out: seq<byte>, p: nat, t: Element, text: string) {
    var l := Reader(out, p, [], None, false);
    var h := Header(t.id, t.size, p + t.id.length + t.size.length, |t.payload|);
    && ElementAt(out, p, t)
    && h.End() == |out|
    && ReadUtf(Positioned(l, h)) == Ok(Read(text, Reader(out, |out|, [], Some(h), false)))
  }

  /** The last element of a stream is found by a reader standing at its
      start. */
  lemma ElementAtEnd(out: seq<byte>, first: seq<byte>, t: Element)
    requires Framed(t) && out == first + Encode(t)
    ensures ElementAt(out, |first|, t) && |first| + |Encode(t)| == |out|
  {
    Suffix(first, Encode(t));
    ReadElement(Reader(out, |first|, [], None, false), t, []);
  }

  /** A last element whose payload is the UTF-8 encoding of text reads back
      as text. */
  lemma TextAtEnd(out: seq<byte>, p: nat, t: Element, text: string)
    requires Framed(t) && ElementAt(out, p, t) && p + |Encode(t)| == |out|
    requires t.payload == Utf8.Encode(text)
    ensures TextElementAt(out, p, t, text)
  {
    var l := Reader(out, p, [], None, false);
    var h := Header(t.id, t.size, p + t.id.length + t.size.length, |t.payload|);
    var n := Positioned(l, h);
    assert n.(pos := n.Cursor(), pending := false) == Reader(out, |out|, [], Some(h), false);
    ReadUtfText(n, text);
  }
}

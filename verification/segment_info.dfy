/** SegmentInfoUpdater: opens a Matroska file, reads the text fields of the
    Segment's Info element, and writes Info back in place, taking the room
    it needs from (or giving it back to) an adjacent Void filler so that no
    byte outside the Info and Void elements moves. */
module SegmentInfoUpdater {
  import opened Errors
  import opened ByteOrder
  import opened VIntCodec
  import opened Elements
  import opened EbmlReader
  import Utf8

  /** Matroska identifiers, as the data bits of their VInt encodings:
      Segment 0x18538067, Info 0x1549A966, Title 0x7BA9, WritingApp 0x5741,
      MuxingApp 0x4D80 and EBML's Void 0xEC. */
  const SegmentId := VInt(4, 0x853_8067)
  const InfoId := VInt(4, 0x549_A966)
  const TitleId := VInt(2, 0x3BA9)
  const WritingAppId := VInt(2, 0x1741)
  const MuxingAppId := VInt(2, 0xD80)
  const VoidId := VInt(1, 0x6C)

  lemma IdsValid()
    ensures SegmentId.Valid() && InfoId.Valid() && VoidId.Valid()
    ensures TitleId.Valid() && WritingAppId.Valid() && MuxingAppId.Valid()
  {
    MarkerValues();
  }

  /** The position of the first sibling with identifier id, as
      LocateElement finds it. */
  function FirstIndex(es: seq<Element>, id: VInt): (r: Option<nat>)
    ensures r.None? <==> forall j :: 0 <= j < |es| ==> es[j].id != id
    ensures r.Some? ==> r.value < |es| && es[r.value].id == id
    ensures r.Some? ==> forall j :: 0 <= j < r.value ==> es[j].id != id
  {
    if |es| == 0 then None
    else if es[0].id == id then Some(0)
    else match FirstIndex(es[1..], id)
      case None => None
      case Some(k) => Some(k + 1)
  }

  /** The position of the last sibling with identifier id: when Open meets a
      field twice, the later value is the one it keeps. */
  function LastIndex(es: seq<Element>, id: VInt): (r: Option<nat>)
    ensures r.None? <==> forall j :: 0 <= j < |es| ==> es[j].id != id
    ensures r.Some? ==> r.value < |es| && es[r.value].id == id
    ensures r.Some? ==> forall j :: r.value < j < |es| ==> es[j].id != id
  {
    if |es| == 0 then None
    else if es[|es| - 1].id == id then Some(|es| - 1)
    else LastIndex(es[..|es| - 1], id)
  }

  lemma FirstIndexIs(es: seq<Element>, id: VInt, k: nat)
    requires k < |es| && es[k].id == id
    requires forall j :: 0 <= j < k ==> es[j].id != id
    ensures FirstIndex(es, id) == Some(k)
  {
  }

  lemma LastIndexIs(es: seq<Element>, id: VInt, k: nat)
    requires k < |es| && es[k].id == id
    requires forall j :: k < j < |es| ==> es[j].id != id
    ensures LastIndex(es, id) == Some(k)
  {
  }

  /** The text of a string field among Info's children: the last element
      with that identifier, decoded as UTF-8; an absent field reads as the
      empty string. */
  function FieldText(fields: seq<Element>, id: VInt): (r: Result<string>)
    ensures LastIndex(fields, id).None? ==> r == Ok([])
    ensures LastIndex(fields, id).Some? ==> var payload := fields[LastIndex(fields, id).value].payload;
      && (r.Ok? <==> Utf8.Decode(payload).Ok?)
      && (r.Ok? ==> Utf8.Encode(r.value) == payload)
    ensures r.Err? ==> r.error == FormatError
  {
    match LastIndex(fields, id)
    case None => Ok([])
    case Some(k) => Utf8.Decode(fields[k].payload)
  }

  /** Setting a string field: the last element with that identifier is
      replaced by one holding the new text; a field that is absent is added
      in front. */
  function SetText(fields: seq<Element>, id: VInt, s: string): (r: Result<seq<Element>>)
    requires id.Valid()
    ensures r.Ok? <==> |Utf8.Encode(s)| < AllOnes(MaxLength)
    ensures r.Err? ==> r.error == OutOfRange
    ensures r.Ok? && Shaped(fields) ==> Shaped(r.value)
    ensures r.Ok? && LastIndex(fields, id).None? ==>
      && |r.value| == |fields| + 1 && r.value[1..] == fields
      && r.value[0].id == id && r.value[0].payload == Utf8.Encode(s)
    ensures r.Ok? && LastIndex(fields, id).Some? ==> var k := LastIndex(fields, id).value;
      && |r.value| == |fields| && r.value[..k] == fields[..k] && r.value[k + 1..] == fields[k + 1..]
      && r.value[k].id == id && r.value[k].payload == Utf8.Encode(s)
  {
    match Make(id, Utf8.Encode(s))
    case Err(e) => Err(e)
    case Ok(t) =>
      match LastIndex(fields, id)
      case None =>
        if Shaped(fields) then ShapedCons(t, fields); Ok([t] + fields)
        else Ok([t] + fields)
      case Some(k) =>
        if Shaped(fields) then ShapedReplace(fields, k, k + 1, [t]); Ok(fields[..k] + [t] + fields[k + 1..])
        else Ok(fields[..k] + [t] + fields[k + 1..])
  }

  /** After SetText, the field reads back as the text it was set to, and
      every other field reads as before. */
  lemma SetTextFields(fields: seq<Element>, id: VInt, s: string)
    requires id.Valid() && SetText(fields, id, s).Ok?
    ensures FieldText(SetText(fields, id, s).value, id) == Ok(s)
    ensures LastIndex(SetText(fields, id, s).value, id).Some?
    ensures forall other :: other != id ==> FieldText(SetText(fields, id, s).value, other) == FieldText(fields, other)
    ensures forall other :: other != id ==>
      LastIndex(SetText(fields, id, s).value, other).Some? == LastIndex(fields, other).Some?
  {
    var t := Make(id, Utf8.Encode(s)).value;
    var n := SetText(fields, id, s).value;
    Utf8.RoundTrip(s);
    match LastIndex(fields, id)
    case None =>
      assert n == [t] + fields;
      LastIndexIs(n, id, 0);
      forall other | other != id
        ensures FieldText(n, other) == FieldText(fields, other)
        ensures LastIndex(n, other).Some? == LastIndex(fields, other).Some?
      {
        PrependKeepsLast(fields, t, other);
      }
    case Some(k) =>
      assert n == fields[..k] + [t] + fields[k + 1..];
      LastIndexIs(n, id, k);
      forall other | other != id
        ensures FieldText(n, other) == FieldText(fields, other)
        ensures LastIndex(n, other).Some? == LastIndex(fields, other).Some?
      {
        ReplaceKeepsLast(fields, k, t, other);
      }
  }

  lemma PrependKeepsLast(fields: seq<Element>, t: Element, other: VInt)
    requires t.id != other
    ensures FieldText([t] + fields, other) == FieldText(fields, other)
    ensures LastIndex([t] + fields, other).Some? == LastIndex(fields, other).Some?
  {
    var n := [t] + fields;
    match LastIndex(fields, other)
    case None =>
      assert forall j :: 0 <= j < |n| ==> n[j].id != other by {
        forall j | 0 <= j < |n|
          ensures n[j].id != other
        {
          if j > 0 {
            assert n[j] == fields[j - 1];
          }
        }
      }
    case Some(k) =>
      assert n[k + 1] == fields[k];
      forall j | k + 1 < j < |n|
        ensures n[j].id != other
      {
        assert n[j] == fields[j - 1];
      }
      LastIndexIs(n, other, k + 1);
  }

  lemma ReplaceKeepsLast(fields: seq<Element>, k: nat, t: Element, other: VInt)
    requires k < |fields| && fields[k].id != other && t.id != other
    ensures FieldText(fields[..k] + [t] + fields[k + 1..], other) == FieldText(fields, other)
    ensures LastIndex(fields[..k] + [t] + fields[k + 1..], other).Some? == LastIndex(fields, other).Some?
  {
    var n := fields[..k] + [t] + fields[k + 1..];
    assert |n| == |fields|;
    forall j | 0 <= j < |n| && j != k
      ensures n[j] == fields[j]
    {
      if j < k {
        assert n[j] == fields[..k][j];
      } else {
        assert n[j] == fields[k + 1..][j - k - 1];
      }
    }
    match LastIndex(fields, other)
    case None =>
      assert forall j :: 0 <= j < |n| ==> n[j].id != other;
    case Some(i) =>
      LastIndexIs(n, other, i);
  }

  /** The Void filler directly next to Info, if any; one that follows Info
      is preferred over one that precedes it. */
  function AdjacentFiller(children: seq<Element>, info: nat): (r: Option<nat>)
    requires info < |children|
    ensures r.Some? ==> r.value < |children| && children[r.value].id == VoidId
    ensures r.Some? ==> r.value == info + 1 || r.value + 1 == info
    ensures info + 1 < |children| && children[info + 1].id == VoidId ==> r == Some(info + 1)
    ensures r.None? ==>
      && (info + 1 == |children| || children[info + 1].id != VoidId)
      && (info == 0 || children[info - 1].id != VoidId)
  {
    if info + 1 < |children| && children[info + 1].id == VoidId then Some(info + 1)
    else if info > 0 && children[info - 1].id == VoidId then Some(info - 1)
    else None
  }

  /** The state Open leaves behind: the file's top-level elements, the
      Segment among them and its children, Info among those and its own
      children, the adjacent filler, and the three text fields a caller may
      change before Write. */
  datatype Snapshot = Snapshot(
    top: seq<Element>, segment: nat,
    children: seq<Element>, info: nat,
    fields: seq<Element>, filler: Option<nat>,
    title: string, writingApp: string, muxingApp: string)
  {
    predicate Valid() {
      && Shaped(top) && segment < |top| && FirstIndex(top, SegmentId) == Some(segment)
      && Shaped(children) && top[segment].payload == EncodeAll(children)
      && info < |children| && FirstIndex(children, InfoId) == Some(info)
      && Shaped(fields) && children[info].payload == EncodeAll(fields)
      && filler == AdjacentFiller(children, info)
    }

    /** Where the bytes Write may change begin and end among the Segment's
        children: Info, together with its filler when there is one. */
    function RegionStart(): (a: nat)
      requires Valid()
      ensures a <= info && (filler.Some? ==> a <= filler.value)
    {
      match filler
      case None => info
      case Some(f) => if f < info then f else info
    }

    function RegionEnd(): (b: nat)
      requires Valid()
      ensures info < b <= |children| && (filler.Some? ==> filler.value < b)
      ensures b == RegionStart() + (if filler.Some? then 2 else 1)
    {
      RegionStart() + (if filler.Some? then 2 else 1)
    }

    /** The number of bytes Info and its filler occupy. */
    function Room(): nat
      requires Valid()
    {
      TotalLength(children[RegionStart()..RegionEnd()])
    }
  }

  /** Open(stream): parses the file, finds the first Segment, then the first
      Info inside it, and decodes Title, WritingApp and MuxingApp from Info's
      children. A file without a Segment, or a Segment without an Info, is a
      structural error. */
  function Open(data: seq<byte>): (r: Result<Snapshot>)
    ensures r.Ok? ==> r.value.Valid() && EncodeAll(r.value.top) == data
    ensures r.Ok? ==> var s := r.value;
      && FieldText(s.fields, TitleId) == Ok(s.title)
      && FieldText(s.fields, WritingAppId) == Ok(s.writingApp)
      && FieldText(s.fields, MuxingAppId) == Ok(s.muxingApp)
    ensures Parse(data).Ok? && FirstIndex(Parse(data).value, SegmentId).None? ==> r == Err(StructuralError)
    ensures Parse(data).Ok? && FirstIndex(Parse(data).value, SegmentId).Some? ==>
      var top := Parse(data).value;
      var segment := top[FirstIndex(top, SegmentId).value];
      Parse(segment.payload).Ok? && FirstIndex(Parse(segment.payload).value, InfoId).None? ==>
        r == Err(StructuralError)
  {
    ParseExact(data);
    match Parse(data)
    case Err(e) => Err(e)
    case Ok(top) =>
      match FirstIndex(top, SegmentId)
      case None => Err(StructuralError)
      case Some(s) =>
        assert Framed(top[s]);
        ParseExact(top[s].payload);
        match Parse(top[s].payload)
        case Err(e) => Err(e)
        case Ok(children) =>
          match FirstIndex(children, InfoId)
          case None => Err(StructuralError)
          case Some(i) =>
            ParseExact(children[i].payload);
            match Parse(children[i].payload)
            case Err(e) => Err(e)
            case Ok(fields) =>
              match FieldText(fields, TitleId)
              case Err(e) => Err(e)
              case Ok(title) =>
                match FieldText(fields, WritingAppId)
                case Err(e) => Err(e)
                case Ok(writingApp) =>
                  match FieldText(fields, MuxingAppId)
                  case Err(e) => Err(e)
                  case Ok(muxingApp) =>
                    Ok(Snapshot(top, s, children, i, fields, AdjacentFiller(children, i),
                                title, writingApp, muxingApp))
  }

  /** n zero bytes: the payload of a rewritten filler. */
  function Zeros(n: nat): (z: seq<byte>)
    ensures |z| == n && forall i :: 0 <= i < n ==> z[i] == 0
  {
    seq(n, _ => 0)
  }

  /** A filler like v, re-sized to hold n zero bytes with its size field kept
      at the same width; it fails when n does not fit that width. */
  function Refill(v: Element, n: nat): (r: Result<Element>)
    requires Framed(v)
    ensures r.Ok? <==> n < AllOnes(v.size.length)
    ensures r.Err? ==> r.error == CapacityError
    ensures r.Ok? ==> var f := r.value;
      && Closed(f) && f.id == v.id && f.size.length == v.size.length && f.payload == Zeros(n)
  {
    AllOnesMonotonic(v.size.length, MaxLength);
    MarkerValues();
    if n >= AllOnes(v.size.length) then Err(CapacityError)
    else
      match EncodeSizeWithLength(n, v.size.length)
      case Err(_) => Err(CapacityError)
      case Ok(size) => Ok(Element(v.id, size, Zeros(n)))
  }

  /** What takes the place of the old Info and its filler: the new Info,
      then a filler shrunk or grown so that the two together take exactly
      the old room. Without a filler, Info must keep its exact length. */
  function Place(s: Snapshot, newInfo: Element): (r: Result<seq<Element>>)
    requires s.Valid() && Closed(newInfo)
    ensures r.Err? ==> r.error == CapacityError
    ensures s.filler.None? ==> (r.Ok? <==> TotalLength([newInfo]) == s.Room())
    ensures s.filler.Some? ==>
      var v := s.children[s.filler.value];
      var used := TotalLength([newInfo]) + v.id.length + v.size.length;
      (r.Ok? <==> used <= s.Room() && s.Room() - used < AllOnes(v.size.length))
    ensures r.Ok? ==> var mid := r.value;
      && |mid| == s.RegionEnd() - s.RegionStart() && mid[0] == newInfo
      && (forall i :: 0 <= i < |mid| ==> Framed(mid[i]) && !mid[i].size.IsReserved())
      && TotalLength(mid) == s.Room()
    ensures r.Ok? && s.filler.Some? ==> var g := r.value[1];
      && g.id == VoidId && g.size.length == s.children[s.filler.value].size.length
      && g.payload == Zeros(|g.payload|)
  {
    match s.filler
    case None =>
      if TotalLength([newInfo]) != s.Room() then Err(CapacityError)
      else Ok([newInfo])
    case Some(f) =>
      var v := s.children[f];
      var used := TotalLength([newInfo]) + v.id.length + v.size.length;
      if used > s.Room() then Err(CapacityError)
      else
        match Refill(v, s.Room() - used)
        case Err(e) => Err(e)
        case Ok(g) =>
          assert [newInfo, g][1..] == [g] && [g][1..] == [];
          Ok([newInfo, g])
  }

  /** Info's children with the three text fields set to the snapshot's
      values. */
  function NewFields(s: Snapshot): (r: Result<seq<Element>>)
    requires s.Valid()
    ensures r.Ok? <==>
      && |Utf8.Encode(s.title)| < AllOnes(MaxLength)
      && |Utf8.Encode(s.writingApp)| < AllOnes(MaxLength)
      && |Utf8.Encode(s.muxingApp)| < AllOnes(MaxLength)
    ensures r.Err? ==> r.error == OutOfRange
    ensures r.Ok? ==> Shaped(r.value)
    ensures r.Ok? ==> LastIndex(r.value, TitleId).Some?
    ensures r.Ok? ==>
      && FieldText(r.value, TitleId) == Ok(s.title)
      && FieldText(r.value, WritingAppId) == Ok(s.writingApp)
      && FieldText(r.value, MuxingAppId) == Ok(s.muxingApp)
  {
    IdsValid();
    match SetText(s.fields, TitleId, s.title)
    case Err(e) => Err(e)
    case Ok(f1) =>
      match SetText(f1, WritingAppId, s.writingApp)
      case Err(e) => Err(e)
      case Ok(f2) =>
        match SetText(f2, MuxingAppId, s.muxingApp)
        case Err(e) => Err(e)
        case Ok(f3) =>
          SetTextFields(s.fields, TitleId, s.title);
          SetTextFields(f1, WritingAppId, s.writingApp);
          SetTextFields(f2, MuxingAppId, s.muxingApp);
          Ok(f3)
  }

  /** The new Info element: its size field keeps the width of the old one. */
  function NewInfo(s: Snapshot, fields: seq<Element>): (r: Result<Element>)
    requires s.Valid() && Shaped(fields)
    ensures r.Ok? <==> |EncodeAll(fields)| < AllOnes(s.children[s.info].size.length)
    ensures r.Err? ==> r.error == CapacityError
    ensures r.Ok? ==> var e := r.value;
      && Closed(e) && e.id == InfoId && e.payload == EncodeAll(fields)
      && e.size.length == s.children[s.info].size.length
  {
    var prior := s.children[s.info];
    assert Framed(prior);
    var n := |EncodeAll(fields)|;
    IdsValid();
    AllOnesMonotonic(prior.size.length, MaxLength);
    MarkerValues();
    if n >= AllOnes(prior.size.length) then Err(CapacityError)
    else
      match EncodeSizeWithLength(n, prior.size.length)
      case Err(_) => Err(CapacityError)
      case Ok(size) => Ok(Element(InfoId, size, EncodeAll(fields)))
  }

  /** Siblings with es[a..b] replaced by elements of known size that take
      the same number of bytes: the encoding keeps its length, and only the
      bytes of the replaced part change. */
  function Replace(es: seq<Element>, a: nat, b: nat, mid: seq<Element>): (c: seq<Element>)
    requires Shaped(es) && a < b <= |es| && |mid| == b - a
    requires forall i :: 0 <= i < |mid| ==> Framed(mid[i]) && !mid[i].size.IsReserved()
    requires TotalLength(mid) == TotalLength(es[a..b])
    ensures Shaped(c) && |c| == |es|
    ensures c[..a] == es[..a] && c[a..b] == mid && c[b..] == es[b..]
    ensures AllFramed(es[a..b]) && AllFramed(mid)
    ensures |EncodeAll(mid)| == |EncodeAll(es[a..b])|
    ensures EncodeAll(es) == EncodeAll(es[..a]) + EncodeAll(es[a..b]) + EncodeAll(es[b..])
    ensures EncodeAll(c) == EncodeAll(es[..a]) + EncodeAll(mid) + EncodeAll(es[b..])
  {
    var c := Splice(es, a, b, mid);
    EncodeAllLength(mid);
    EncodeAllLength(es[a..b]);
    c
  }

  /** Siblings with the payload of es[k] replaced by one of the same length:
      the element keeps its identifier and size field. */
  function Repack(es: seq<Element>, k: nat, payload: seq<byte>): (t: seq<Element>)
    requires Shaped(es) && k < |es| && |payload| == |es[k].payload|
    ensures Shaped(t) && |t| == |es|
    ensures t[..k] == es[..k] && t[k + 1..] == es[k + 1..]
    ensures t[k] == Element(es[k].id, es[k].size, payload)
    ensures Framed(es[k]) && Framed(t[k])
    ensures EncodeAll(es) == EncodeAll(es[..k]) + Encode(es[k]) + EncodeAll(es[k + 1..])
    ensures EncodeAll(t) == EncodeAll(es[..k]) + Encode(t[k]) + EncodeAll(es[k + 1..])
  {
    assert Framed(es[k]);
    var e := Element(es[k].id, es[k].size, payload);
    var t := Splice(es, k, k + 1, [e]);
    assert es[k..k + 1] == [es[k]];
    SingleEncoding(es[k]);
    SingleEncoding(e);
    t
  }

  lemma SingleEncoding(e: Element)
    requires Framed(e)
    ensures AllFramed([e]) && EncodeAll([e]) == Encode(e)
  {
    assert [e][1..] == [];
    assert EncodeAll([e]) == Encode(e) + EncodeAll([]);
  }

  /** A sequence that agrees with es before position a, where es has no
      element with identifier id, and holds such an element at a, finds its
      first one at a. */
  lemma FirstIndexAfterPrefix(es: seq<Element>, t: seq<Element>, a: nat, id: VInt)
    requires a < |t| && a <= |es| && t[..a] == es[..a] && t[a].id == id
    requires forall j :: 0 <= j < a ==> es[j].id != id
    ensures FirstIndex(t, id) == Some(a)
  {
    forall j | 0 <= j < a
      ensures t[j].id != id
    {
      assert t[j] == t[..a][j] == es[..a][j] == es[j];
    }
    FirstIndexIs(t, id, a);
  }

  /** The snapshot of the file Write produces: the same Segment, the new
      Info at the start of the old room with its filler right after it, and
      the same text fields. */
  function Update(s: Snapshot): (r: Result<Snapshot>)
    requires s.Valid()
    ensures r.Err? ==> r.error == OutOfRange || r.error == CapacityError
    ensures r.Ok? ==> r.value.Valid()
    ensures r.Ok? ==> var n := r.value;
      && n.title == s.title && n.writingApp == s.writingApp && n.muxingApp == s.muxingApp
      && FieldText(n.fields, TitleId) == Ok(s.title)
      && FieldText(n.fields, WritingAppId) == Ok(s.writingApp)
      && FieldText(n.fields, MuxingAppId) == Ok(s.muxingApp)
      && LastIndex(n.fields, TitleId).Some?
    ensures r.Ok? ==> Rebuilt(s, r.value)
  {
    match NewFields(s)
    case Err(e) => Err(e)
    case Ok(fields) =>
      match NewInfo(s, fields)
      case Err(e) => Err(e)
      case Ok(info) =>
        match Place(s, info)
        case Err(e) => Err(e)
        case Ok(mid) =>
          Ok(Rebuild(s, fields, info, mid))
  }

  /** The number of bytes Info takes once rewritten with the given children:
      Info's identifier, a size field of the old Info's width, and the
      encoded children. */
  function NewInfoLength(s: Snapshot, fields: seq<Element>): nat
    requires s.Valid() && AllFramed(fields)
  {
    InfoId.length + s.children[s.info].size.length + |EncodeAll(fields)|
  }

  /** Whether Info, rewritten with the given children, fits the room of the
      old Info and its filler: its payload length still fits the old size
      width, and either there is no filler and it takes exactly the old room,
      or the bytes it leaves over make a filler with the old filler's
      identifier and size width. */
  predicate FitsRoom(s: Snapshot, fields: seq<Element>)
    requires s.Valid() && AllFramed(fields)
  {
    && |EncodeAll(fields)| < AllOnes(s.children[s.info].size.length)
    && match s.filler
       case None => NewInfoLength(s, fields) == s.Room()
       case Some(f) =>
         var v := s.children[f];
         var used := NewInfoLength(s, fields) + v.id.length + v.size.length;
         used <= s.Room() && s.Room() - used < AllOnes(v.size.length)
  }

  /** When the update succeeds and how it fails: it succeeds exactly when the
      three texts can be stored and the rewritten Info fits the room; a text
      too long for any size field is OutOfRange, and an Info that does not
      fit is a CapacityError. */
  lemma UpdateOutcome(s: Snapshot)
    requires s.Valid()
    ensures Update(s).Ok? <==> NewFields(s).Ok? && FitsRoom(s, NewFields(s).value)
    ensures NewFields(s).Err? ==> Update(s) == Err(OutOfRange)
    ensures NewFields(s).Ok? && !FitsRoom(s, NewFields(s).value) ==> Update(s) == Err(CapacityError)
  {
    UpdateSteps(s);
    if NewFields(s).Ok? {
      var fields := NewFields(s).value;
      if NewInfo(s, fields).Ok? {
        var info := NewInfo(s, fields).value;
        SingleLength(info);
        PlaceFits(s, fields, info);
      }
    }
  }

  /** Update fails with the error of the first of its three steps that fails. */
  lemma UpdateSteps(s: Snapshot)
    requires s.Valid()
    ensures NewFields(s).Err? ==> Update(s) == Err(NewFields(s).error)
    ensures NewFields(s).Ok? ==> var fields := NewFields(s).value;
      && (NewInfo(s, fields).Err? ==> Update(s) == Err(NewInfo(s, fields).error))
      && (NewInfo(s, fields).Ok? ==>
            (Update(s).Ok? <==> Place(s, NewInfo(s, fields).value).Ok?)
            && (Update(s).Err? ==> Update(s).error == CapacityError))
  {
  }

  /** Placing a rewritten Info succeeds exactly when it fits the room. */
  lemma PlaceFits(s: Snapshot, fields: seq<Element>, info: Element)
    requires s.Valid() && Shaped(fields) && Closed(info)
    requires |EncodeAll(fields)| < AllOnes(s.children[s.info].size.length)
    requires info.id == InfoId && info.payload == EncodeAll(fields)
    requires info.size.length == s.children[s.info].size.length
    requires TotalLength([info]) == info.id.length + info.size.length + |info.payload|
    ensures Place(s, info).Ok? <==> FitsRoom(s, fields)
  {
    assert TotalLength([info]) == NewInfoLength(s, fields);
  }

  lemma SingleLength(e: Element)
    ensures TotalLength([e]) == e.id.length + e.size.length + |e.payload|
  {
    assert [e][1..] == [];
  }

  /** Two adjacent siblings take the bytes of both. */
  lemma PairLength(es: seq<Element>, a: nat, b: nat)
    requires b == a + 2 <= |es|
    ensures TotalLength(es[a..b]) ==
      es[a].id.length + es[a].size.length + |es[a].payload| + es[a + 1].id.length + es[a + 1].size.length + |es[a + 1].payload|
  {
    var x, y := es[a], es[a + 1];
    assert es[a..b] == [x, y];
    assert [x, y][1..] == [y];
    SingleLength(y);
  }

  /** Info and its filler together take the bytes of both encodings. */
  lemma RoomOfPair(s: Snapshot)
    requires s.Valid() && s.filler.Some?
    ensures var info, v := s.children[s.info], s.children[s.filler.value];
      Framed(info) && Framed(v) && s.Room() == |Encode(info)| + |Encode(v)|
  {
    AdjacentPairLength(s.children, s.info, s.filler.value, s.RegionStart(), s.RegionEnd());
  }

  /** An element and a neighbour, whichever comes first, take the bytes of
      both encodings. */
  lemma AdjacentPairLength(es: seq<Element>, i: nat, f: nat, a: nat, b: nat)
    requires AllFramed(es) && i < |es| && f < |es|
    requires f == i + 1 || f + 1 == i
    requires a == (if f < i then f else i) && b == a + 2
    ensures Framed(es[i]) && Framed(es[f])
    ensures TotalLength(es[a..b]) == |Encode(es[i])| + |Encode(es[f])|
  {
    PairLength(es, a, b);
  }

  /** The outcome the library's filler tests exercise: when a Void of known
      size is adjacent to Info and its payload can absorb Info's growth,
      Write succeeds and the file keeps its length. */
  lemma FillerAbsorbsGrowth(s: Snapshot)
    requires s.Valid() && s.filler.Some? && NewFields(s).Ok?
    requires var fields := NewFields(s).value;
      var info, v := s.children[s.info], s.children[s.filler.value];
      && !v.size.IsReserved()
      && |EncodeAll(fields)| < AllOnes(info.size.length)
      && |Encode(info)| <= NewInfoLength(s, fields) <= |Encode(info)| + |v.payload|
    ensures Write(s).Ok? && |Write(s).value| == |EncodeAll(s.top)|
  {
    var fields := NewFields(s).value;
    var v := s.children[s.filler.value];
    RoomOfPair(s);
    assert v.size.value == |v.payload| < AllOnes(v.size.length);
    FitsWithFiller(s, fields);
    UpdateOutcome(s);
  }

  /** FitsRoom, for a snapshot with a filler. */
  lemma FitsWithFiller(s: Snapshot, fields: seq<Element>)
    requires s.Valid() && AllFramed(fields) && s.filler.Some?
    requires |EncodeAll(fields)| < AllOnes(s.children[s.info].size.length)
    requires var v := s.children[s.filler.value];
      var used := NewInfoLength(s, fields) + v.id.length + v.size.length;
      used <= s.Room() && s.Room() - used < AllOnes(v.size.length)
    ensures FitsRoom(s, fields)
  {
  }

  /** The converse outcome: a filler whose payload cannot absorb Info's
      growth makes Write fail with a CapacityError, leaving the file as it
      was. */
  lemma FillerTooSmall(s: Snapshot)
    requires s.Valid() && s.filler.Some? && NewFields(s).Ok?
    requires var info, v := s.children[s.info], s.children[s.filler.value];
      NewInfoLength(s, NewFields(s).value) > |Encode(info)| + |v.payload|
    ensures Write(s) == Err(CapacityError)
  {
    RoomOfPair(s);
    UpdateOutcome(s);
  }

  /** How a rewritten snapshot n relates to the snapshot s it came from: the
      Segment keeps its place, identifier and size field; outside the room
      the Segment's children are unchanged; the room holds the new Info,
      with the old Info's size width, and a zeroed Void after it when s had
      a filler; and the room's length is the same. */
  predicate Rebuilt(s: Snapshot, n: Snapshot)
    requires s.Valid()
  {
    var a, b := s.RegionStart(), s.RegionEnd();
    && n.segment == s.segment && |n.top| == |s.top|
    && n.top[..s.segment] == s.top[..s.segment] && n.top[s.segment + 1..] == s.top[s.segment + 1..]
    && n.top[s.segment].id == s.top[s.segment].id && n.top[s.segment].size == s.top[s.segment].size
    && n.info == a && |n.children| == |s.children|
    && n.children[..a] == s.children[..a] && n.children[b..] == s.children[b..]
    && AllFramed(n.children[a..b]) && TotalLength(n.children[a..b]) == s.Room()
    && Closed(n.children[a]) && n.children[a].size.length == s.children[s.info].size.length
    && (s.filler.Some? ==>
          && n.children[a + 1].id == VoidId
          && n.children[a + 1].payload == Zeros(|n.children[a + 1].payload|))
  }

  /** The snapshot after the new Info and filler have taken the old room. */
  function Rebuild(s: Snapshot, fields: seq<Element>, info: Element, mid: seq<Element>): (n: Snapshot)
    requires s.Valid() && Shaped(fields)
    requires Closed(info) && info.id == InfoId && info.payload == EncodeAll(fields)
    requires info.size.length == s.children[s.info].size.length
    requires |mid| == s.RegionEnd() - s.RegionStart() && mid[0] == info
    requires forall i :: 0 <= i < |mid| ==> Framed(mid[i]) && !mid[i].size.IsReserved()
    requires TotalLength(mid) == s.Room()
    requires s.filler.Some? ==> mid[1].id == VoidId && mid[1].payload == Zeros(|mid[1].payload|)
    ensures n.Valid() && n.fields == fields
    ensures Rebuilt(s, n)
  {
    var children := RoomReplaced(s, mid);
    var top := SegmentRepacked(s, children);
    var n := Snapshot(top, s.segment, children, s.RegionStart(), fields, AdjacentFiller(children, s.RegionStart()),
                      s.title, s.writingApp, s.muxingApp);
    RebuildValid(s, fields, info, mid, n);
    RebuildRelated(s, fields, info, mid, n);
    n
  }

  /** The Segment's children with the room of Info and its filler replaced
      by mid. */
  function RoomReplaced(s: Snapshot, mid: seq<Element>): (c: seq<Element>)
    requires s.Valid() && |mid| == s.RegionEnd() - s.RegionStart()
    requires forall i :: 0 <= i < |mid| ==> Framed(mid[i]) && !mid[i].size.IsReserved()
    requires TotalLength(mid) == s.Room()
    ensures Shaped(c) && |c| == |s.children| && |EncodeAll(c)| == |EncodeAll(s.children)|
    ensures c[..s.RegionStart()] == s.children[..s.RegionStart()]
    ensures c[s.RegionStart()..s.RegionEnd()] == mid
    ensures c[s.RegionEnd()..] == s.children[s.RegionEnd()..]
  {
    Replace(s.children, s.RegionStart(), s.RegionEnd(), mid)
  }

  /** The top level with the Segment's payload replaced by the encoding of
      children of the same length. */
  function SegmentRepacked(s: Snapshot, children: seq<Element>): (t: seq<Element>)
    requires s.Valid() && Shaped(children) && |EncodeAll(children)| == |EncodeAll(s.children)|
    ensures Shaped(t) && |t| == |s.top|
    ensures t[..s.segment] == s.top[..s.segment] && t[s.segment + 1..] == s.top[s.segment + 1..]
    ensures t[s.segment] == Element(s.top[s.segment].id, s.top[s.segment].size, EncodeAll(children))
  {
    Repack(s.top, s.segment, EncodeAll(children))
  }

  /** The parts of a rebuilt snapshot: the children with the room replaced,
      and the top level with the Segment's payload re-encoded. */
  predicate Rebuilding(s: Snapshot, fields: seq<Element>, info: Element, mid: seq<Element>, n: Snapshot)
    requires s.Valid()
  {
    var a, b := s.RegionStart(), s.RegionEnd();
    && Shaped(fields) && Closed(info) && info.id == InfoId && info.payload == EncodeAll(fields)
    && |mid| == b - a && mid[0] == info
    && (forall i :: 0 <= i < |mid| ==> Framed(mid[i]) && !mid[i].size.IsReserved())
    && TotalLength(mid) == s.Room()
    && Shaped(n.children) && |n.children| == |s.children|
    && n.children[..a] == s.children[..a] && n.children[a..b] == mid && n.children[b..] == s.children[b..]
    && Shaped(n.top) && |n.top| == |s.top|
    && n.top[..s.segment] == s.top[..s.segment] && n.top[s.segment + 1..] == s.top[s.segment + 1..]
    && n.top[s.segment] == Element(s.top[s.segment].id, s.top[s.segment].size, EncodeAll(n.children))
    && n.segment == s.segment && n.info == a && n.fields == fields
    && n.filler == AdjacentFiller(n.children, a)
  }

  lemma RebuildValid(s: Snapshot, fields: seq<Element>, info: Element, mid: seq<Element>, n: Snapshot)
    requires s.Valid() && Rebuilding(s, fields, info, mid, n)
    ensures n.Valid()
  {
    var a, b := s.RegionStart(), s.RegionEnd();
    IdsValid();
    FirstIndexAfterPrefix(s.top, n.top, s.segment, SegmentId);
    assert n.children[a..b][0] == n.children[a];
    FirstIndexAfterPrefix(s.children, n.children, a, InfoId);
  }

  lemma RebuildRelated(s: Snapshot, fields: seq<Element>, info: Element, mid: seq<Element>, n: Snapshot)
    requires s.Valid() && Rebuilding(s, fields, info, mid, n)
    requires info.size.length == s.children[s.info].size.length
    requires s.filler.Some? ==> mid[1].id == VoidId && mid[1].payload == Zeros(|mid[1].payload|)
    ensures Rebuilt(s, n)
  {
    var a, b := s.RegionStart(), s.RegionEnd();
    assert s.filler.Some? ==> n.children[a + 1] == n.children[a..b][1];
    assert AllFramed(mid) by {
      assert forall i :: 0 <= i < |mid| ==> Framed(mid[i]);
    }
    assert n.children[a] == n.children[a..b][0];
    RebuiltIntro(s, n);
  }

  /** Rebuilt, one conjunct at a time. */
  lemma RebuiltIntro(s: Snapshot, n: Snapshot)
    requires s.Valid()
    requires n.segment == s.segment && |n.top| == |s.top|
    requires n.top[..s.segment] == s.top[..s.segment] && n.top[s.segment + 1..] == s.top[s.segment + 1..]
    requires n.top[s.segment].id == s.top[s.segment].id && n.top[s.segment].size == s.top[s.segment].size
    requires n.info == s.RegionStart() && |n.children| == |s.children|
    requires n.children[..n.info] == s.children[..n.info] && n.children[s.RegionEnd()..] == s.children[s.RegionEnd()..]
    requires AllFramed(n.children[n.info..s.RegionEnd()]) && TotalLength(n.children[n.info..s.RegionEnd()]) == s.Room()
    requires Closed(n.children[n.info]) && n.children[n.info].size.length == s.children[s.info].size.length
    requires s.filler.Some? ==>
      && n.children[n.info + 1].id == VoidId
      && n.children[n.info + 1].payload == Zeros(|n.children[n.info + 1].payload|)
    ensures Rebuilt(s, n)
  {
  }

  /** Write(): re-emits Info with the snapshot's fields in the room of the
      old Info and its filler, and returns the whole file. */
  function Write(s: Snapshot): (r: Result<seq<byte>>)
    requires s.Valid()
    ensures r.Err? ==> r.error == OutOfRange || r.error == CapacityError
    ensures r.Ok? <==> Update(s).Ok?
    ensures r.Ok? ==> SameOutside(EncodeAll(s.top), r.value, RoomOffset(s), RoomOffset(s) + s.Room())
  {
    match Update(s)
    case Err(e) => Err(e)
    case Ok(n) =>
      RebuiltInPlace(s, n, RoomOffset(s), s.Room());
      Ok(EncodeAll(n.top))
  }

  /** Opening the encoding of a consistent snapshot whose text fields read
      back as its strings recovers that snapshot. */
  lemma OpenEncoded(n: Snapshot)
    requires n.Valid()
    requires FieldText(n.fields, TitleId) == Ok(n.title)
    requires FieldText(n.fields, WritingAppId) == Ok(n.writingApp)
    requires FieldText(n.fields, MuxingAppId) == Ok(n.muxingApp)
    ensures Open(EncodeAll(n.top)) == Ok(n)
  {
    ParseRoundTrip(n.top);
    ParseRoundTrip(n.children);
    ParseRoundTrip(n.fields);
  }

  /** Write then Open: the file Write produces opens as the updated
      snapshot, with the Title, WritingApp and MuxingApp that were set. */
  lemma WriteThenOpen(s: Snapshot)
    requires s.Valid() && Write(s).Ok?
    ensures Update(s).Ok? && Open(Write(s).value) == Update(s)
    ensures var n := Open(Write(s).value).value;
      n.title == s.title && n.writingApp == s.writingApp && n.muxingApp == s.muxingApp
  {
    OpenEncoded(Update(s).value);
  }

  /** The Info that Write emits declares a size larger than the UTF-8
      length of the Title, and so larger than the Title's character count. */
  lemma InfoHoldsTitle(s: Snapshot)
    requires s.Valid() && Update(s).Ok?
    ensures var n := Update(s).value;
      |s.title| <= |Utf8.Encode(s.title)| < n.children[n.info].size.value
  {
    var n := Update(s).value;
    var k := LastIndex(n.fields, TitleId).value;
    var t := n.fields[k];
    assert Utf8.Encode(s.title) == t.payload;
    assert Framed(t);
    IdsValid();
    TotalLengthCovers(n.fields, k);
    EncodeAllLength(n.fields);
    var info := n.children[n.info];
    assert Closed(info);
    assert info.size.value == |info.payload| == |EncodeAll(n.fields)|;
    assert |t.payload| < TotalLength(n.fields);
  }

  /** Where the room of Info and its filler starts in the file: after the
      siblings before Segment, Segment's header, and Segment's children
      before the room. */
  function RoomOffset(s: Snapshot): nat
    requires s.Valid()
  {
    HeaderEnd(s.top, s.segment) + TotalLength(s.children[..s.RegionStart()])
  }

  /** A rewrite that satisfies Rebuilt changes the file in place: the
      encoding keeps its length, and every byte outside the room of Info and
      its filler is the byte that was there. */
  lemma RebuiltInPlace(s: Snapshot, n: Snapshot, off: nat, room: nat)
    requires s.Valid() && n.Valid() && Rebuilt(s, n) && off == RoomOffset(s) && room == s.Room()
    ensures SameOutside(EncodeAll(s.top), EncodeAll(n.top), off, off + room)
  {
    var a, b := s.RegionStart(), s.RegionEnd();
    var h, q := HeaderEnd(s.top, s.segment), TotalLength(s.children[..a]);
    EncodeAllSameOutside(s.children, n.children, a, b, q, room);
    NestedSameOutside(s.top, n.top, s.segment, h, q, q + room);
  }




}

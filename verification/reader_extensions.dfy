/** ReaderExtensions.LocateElement: a first-match search over the remaining
    siblings of the reader's current level. */
module ReaderExtensions {
  import opened Errors
  import opened ByteOrder
  import opened VIntCodec
  import opened Elements
  import opened EbmlReader

  /** The identifiers ReadNext reports, call after call, until the current
      level is exhausted; the first failing ReadNext makes the whole scan
      fail. */
  function SiblingIds(r: Reader): (res: Result<seq<VInt>>)
    requires r.Valid()
    decreases r.Limit() - r.Cursor()
  {
    match ReadNext(r)
    case Err(e) => Err(e)
    case Ok(step) =>
      if !step.more then Ok([])
      else
        var n := step.reader;
        assert n.Cursor() > r.Cursor() && n.Limit() == r.Limit();
        match SiblingIds(n)
        case Err(e) => Err(e)
        case Ok(ids) => Ok([n.current.value.id] + ids)
  }

  /** A scan result with some identifiers read before it. */
  function Prepend(ids: seq<VInt>, res: Result<seq<VInt>>): Result<seq<VInt>> {
    if res.Ok? then Ok(ids + res.value) else res
  }

  /** ReadNext, called |ids| times from r, reports a sibling each time, with
      exactly these identifiers, and leaves the reader in state last. */
  predicate Path(r: Reader, ids: seq<VInt>, last: Reader)
    decreases |ids|
  {
    if |ids| == 0 then last == r
    else
      && r.Valid()
      && ReadNext(r).Ok? && ReadNext(r).value.more
      && ReadNext(r).value.reader.current.value.id == ids[0]
      && Path(ReadNext(r).value.reader, ids[1..], last)
  }

  /** Two consecutive walks make one. */
  lemma {:induction false} PathAppend(r: Reader, a: seq<VInt>, mid: Reader, b: seq<VInt>, last: Reader)
    requires Path(r, a, mid) && Path(mid, b, last)
    ensures Path(r, a + b, last)
    decreases |a|
  {
    if |a| > 0 {
      var n := ReadNext(r).value.reader;
      assert Path(n, a[1..], mid);
      PathAppend(n, a[1..], mid, b, last);
      HeadTail(a, b);
    } else {
      assert a + b == b;
    }
  }

  /** Prepending nothing changes nothing. Kept apart from the loop of
      LocateElement, whose proof it would otherwise slow down. */
  lemma PrependNothing(res: Result<seq<VInt>>)
    ensures Prepend([], res) == res
  {
    if res.Ok? {
      assert [] + res.value == res.value;
    }
  }

  /** Prepending in two steps is prepending once. */
  lemma PrependTwice(xs: seq<VInt>, id: VInt, res: Result<seq<VInt>>)
    ensures Prepend(xs, Prepend([id], res)) == Prepend(xs + [id], res)
    ensures Prepend(xs + [id], res).Ok? ==> id in Prepend(xs + [id], res).value
  {
    if res.Ok? {
      assert xs + ([id] + res.value) == (xs + [id]) + res.value;
      assert ((xs + [id]) + res.value)[|xs|] == id;
    }
  }

  /** One ReadNext that reports a sibling is a path of length one, and the
      scan from before it is that sibling's identifier followed by the scan
      from after it. */
  lemma SiblingStep(cur: Reader)
    requires cur.Valid() && ReadNext(cur).Ok? && ReadNext(cur).value.more
    ensures var n := ReadNext(cur).value.reader;
      && n.Valid() && n.data == cur.data && n.scopes == cur.scopes && cur.Cursor() <= n.Cursor()
      && n.current.Some? && n.pending
      && Path(cur, [n.current.value.id], n)
      && SiblingIds(cur) == Prepend([n.current.value.id], SiblingIds(n))
  {
    var n := ReadNext(cur).value.reader;
    assert [n.current.value.id][1..] == [];
  }

  /** A ReadNext that fails makes the scan fail; one that reports the end of
      the level ends the scan, with the cursor at the level's limit. */
  lemma SiblingStop(cur: Reader)
    requires cur.Valid() && !(ReadNext(cur).Ok? && ReadNext(cur).value.more)
    ensures ReadNext(cur).Err? ==> SiblingIds(cur).Err? && ReadNext(cur).error == FormatError
    ensures ReadNext(cur).Ok? ==> var n := ReadNext(cur).value.reader;
      && SiblingIds(cur) == Ok([])
      && n.Valid() && n.data == cur.data && n.scopes == cur.scopes
      && n.Cursor() == cur.Limit()
  {
  }

  /** Prepending to an empty scan gives the prefix itself. */
  lemma PrependAll(xs: seq<VInt>)
    ensures Prepend(xs, Ok([])) == Ok(xs)
  {
    assert xs + [] == xs;
  }

  /** One more reported sibling extends the walk from r and moves the
      split point of the scan past it. */
  lemma Advance(r: Reader, skipped: seq<VInt>, cur: Reader)
    requires cur.Valid() && Path(r, skipped, cur)
    requires SiblingIds(r) == Prepend(skipped, SiblingIds(cur))
    requires ReadNext(cur).Ok? && ReadNext(cur).value.more
    ensures var n := ReadNext(cur).value.reader;
      var id := n.current.value.id;
      && n.Valid() && n.data == cur.data && n.scopes == cur.scopes
      && cur.Cursor() < n.Cursor() && n.Limit() == cur.Limit()
      && n.current.Some? && n.pending
      && Path(r, skipped + [id], n)
      && SiblingIds(r) == Prepend(skipped + [id], SiblingIds(n))
      && (SiblingIds(r).Ok? ==> id in SiblingIds(r).value)
  {
    var n := ReadNext(cur).value.reader;
    var id := n.current.value.id;
    SiblingStep(cur);
    PathAppend(r, skipped, cur, [id], n);
    PrependTwice(skipped, id, SiblingIds(n));
  }

  /** LocateElement(reader, descriptor): calls ReadNext until it reports an
      element with the target identifier (true, the reader positioned on that
      element) or reports the end of the level (false). It never enters a
      container. */
  method LocateElement(r: Reader, target: VInt) returns (res: Result<Step>, ghost skipped: seq<VInt>)
    requires r.Valid()
    ensures target !in skipped
    ensures res.Ok? ==> var n := res.value.reader;
      n.Valid() && n.data == r.data && n.scopes == r.scopes && r.Cursor() <= n.Cursor()
    ensures res.Ok? && res.value.more ==>
      && Path(r, skipped + [target], res.value.reader)
      && res.value.reader.current.Some? && res.value.reader.current.value.id == target
      && res.value.reader.pending
    ensures res.Ok? && !res.value.more ==>
      && SiblingIds(r) == Ok(skipped)
      && res.value.reader.Cursor() == r.Limit()
    ensures (res.Ok? && !res.value.more) <==> (SiblingIds(r).Ok? && target !in SiblingIds(r).value)
    ensures res.Err? ==> SiblingIds(r).Err? && res.error == FormatError
  {
    var cur := r;
    skipped := [];
    PrependNothing(SiblingIds(r));
    while true
      invariant cur.Valid() && cur.data == r.data && cur.scopes == r.scopes
      invariant r.Cursor() <= cur.Cursor()
      invariant Path(r, skipped, cur)
      invariant SiblingIds(r) == Prepend(skipped, SiblingIds(cur))
      invariant target !in skipped
      decreases cur.Limit() - cur.Cursor()
    {
      var step := ReadNext(cur);
      if !(step.Ok? && step.value.more) {
        SiblingStop(cur);
      }
      if step.Err? {
        return Err(step.error), skipped;
      }
      var n := step.value.reader;
      if !step.value.more {
        PrependAll(skipped);
        return Ok(Step(false, n)), skipped;
      }
      var id := n.current.value.id;
      Advance(r, skipped, cur);
      if id == target {
        assert Path(r, skipped + [target], n);
        assert SiblingIds(r).Ok? ==> target in SiblingIds(r).value;
        return Ok(Step(true, n)), skipped;
      }
      assert target !in skipped + [id];
      skipped := skipped + [id];
      cur := n;
    }
  }

  /** The identifiers of a sibling sequence, in order. */
  function Ids(es: seq<Element>): (ids: seq<VInt>)
    ensures |ids| == |es|
  {
    if |es| == 0 then [] else [es[0].id] + Ids(es[1..])
  }

  /** On a level that holds the encoding of a sibling sequence, the scan
      reports exactly the siblings' identifiers, in order. */
  lemma {:induction false} SiblingIdsEncoded(r: Reader, es: seq<Element>)
    requires r.Valid() && Shaped(es)
    requires r.data[r.Cursor()..r.Limit()] == EncodeAll(es)
    ensures SiblingIds(r) == Ok(Ids(es))
    decreases |es|
  {
    if |es| == 0 {
      assert |r.data[r.Cursor()..r.Limit()]| == 0;
      assert ReadNext(r) == Ok(Step(false, Exhausted(r)));
    } else {
      var e := es[0];
      ShapedUncons(es);
      ReadElement(r, e, EncodeAll(es[1..]));
      var h := Header(e.id, e.size, r.Cursor() + e.id.length + e.size.length, |e.payload|);
      var n := Positioned(r, h);
      SiblingIdsEncoded(n, es[1..]);
      SiblingStep(r);
    }
  }

  lemma PrefixCons<T>(a: seq<T>, b: seq<T>)
    requires |a| > 0 && a[1..] <= b
    ensures a <= [a[0]] + b
  {
    assert a == [a[0]] + a[1..];
  }

  /** Whatever a walk reports is the beginning of the scan: in particular the
      element LocateElement stops on is the first sibling with its
      identifier. */
  lemma {:induction false} PathPrefix(r: Reader, ids: seq<VInt>, last: Reader)
    requires r.Valid() && Path(r, ids, last) && SiblingIds(r).Ok?
    ensures ids <= SiblingIds(r).value
    decreases |ids|
  {
    if |ids| > 0 {
      var n := ReadNext(r).value.reader;
      SiblingStep(r);
      assert SiblingIds(n).Ok? && SiblingIds(r).value == [ids[0]] + SiblingIds(n).value;
      PathPrefix(n, ids[1..], last);
      PrefixCons(ids, SiblingIds(n).value);
    }
  }
}

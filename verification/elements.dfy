/** EBML elements as stored in a stream: an identifier VInt, a size VInt and
    the payload (section 6 of RFC 8794). */
module Elements {
  import opened Errors
  import opened ByteOrder
  import opened VIntCodec

  /** One element with its size field exactly as written. */
  datatype Element = Element(id: VInt, size: VInt, payload: seq<byte>)

  /** The size field describes the payload: either its length or the
      reserved "unknown size" pattern. */
  predicate Framed(e: Element) {
    e.id.Valid() && e.size.Valid() && (e.size.IsReserved() || e.size.value == |e.payload|)
  }

  function Encode(e: Element): (s: seq<byte>)
    requires Framed(e)
    ensures |s| == e.id.length + e.size.length + |e.payload|
  {
    Bytes(e.id) + Bytes(e.size) + e.payload
  }

  predicate AllFramed(es: seq<Element>) {
    forall i :: 0 <= i < |es| ==> Framed(es[i])
  }

  /** A sibling sequence a reader can delimit: every element framed, and only
      the last one may have an unknown size, reaching to the container's end. */
  predicate Shaped(es: seq<Element>) {
    AllFramed(es) && forall i :: 0 <= i < |es| - 1 ==> !es[i].size.IsReserved()
  }

  function EncodeAll(es: seq<Element>): seq<byte>
    requires AllFramed(es)
  {
    if |es| == 0 then [] else Encode(es[0]) + EncodeAll(es[1..])
  }

  lemma AllFramedAppend(a: seq<Element>, b: seq<Element>)
    requires AllFramed(a) && AllFramed(b)
    ensures AllFramed(a + b)
  {
    forall i | 0 <= i < |a + b|
      ensures Framed((a + b)[i])
    {
      if i < |a| {
        assert (a + b)[i] == a[i];
      } else {
        assert (a + b)[i] == b[i - |a|];
      }
    }
  }

  lemma {:induction false} EncodeAllAppend(a: seq<Element>, b: seq<Element>)
    requires AllFramed(a) && AllFramed(b)
    ensures AllFramed(a + b)
    ensures EncodeAll(a + b) == EncodeAll(a) + EncodeAll(b)
  {
    if |a| == 0 {
      assert a + b == b;
      var z := EncodeAll(b);
      assert EncodeAll(a) == [];
      assert [] + z == z;
    } else {
      var e, tail := a[0], a[1..];
      assert a == [e] + tail;
      assert a + b == [e] + (tail + b);
      AllFramedTail(a);
      EncodeAllAppend(tail, b);
      EncodeAllCons(e, tail);
      EncodeAllCons(e, tail + b);
      Associate(Encode(e), EncodeAll(tail), EncodeAll(b));
    }
  }

  lemma AllFramedTail(es: seq<Element>)
    requires AllFramed(es) && |es| > 0
    ensures Framed(es[0]) && AllFramed(es[1..])
  {
    assert forall i :: 0 <= i < |es| - 1 ==> es[1..][i] == es[i + 1];
  }

  /** An element followed by a framed sequence encodes as its own encoding
      followed by the sequence's. */
  lemma EncodeAllCons(e: Element, rest: seq<Element>)
    requires Framed(e) && AllFramed(rest)
    ensures AllFramed([e] + rest)
    ensures EncodeAll([e] + rest) == Encode(e) + EncodeAll(rest)
  {
    AllFramedAppend([e], rest);
    assert ([e] + rest)[0] == e && ([e] + rest)[1..] == rest;
  }

  /** A sibling sequence is its first element followed by the rest. */
  lemma ShapedCons(e: Element, rest: seq<Element>)
    requires Framed(e) && Shaped(rest)
    requires e.size.IsReserved() ==> rest == []
    ensures Shaped([e] + rest)
    ensures EncodeAll([e] + rest) == Encode(e) + EncodeAll(rest)
  {
    var es := [e] + rest;
    assert es[0] == e;
    assert es[1..] == rest;
    forall i | 0 <= i < |es|
      ensures Framed(es[i])
    {
      if i > 0 {
        assert es[i] == rest[i - 1];
      }
    }
  }

  /** The converse of ShapedCons: a non-empty sibling sequence splits into
      its first element and a shorter sibling sequence. */
  lemma ShapedUncons(es: seq<Element>)
    requires Shaped(es) && |es| > 0
    ensures Framed(es[0]) && Shaped(es[1..])
    ensures es[0].size.IsReserved() ==> es[1..] == []
    ensures EncodeAll(es) == Encode(es[0]) + EncodeAll(es[1..])
    ensures es == [es[0]] + es[1..]
  {
    assert Framed(es[0]);
    forall i | 0 <= i < |es[1..]|
      ensures Framed(es[1..][i])
    {
      assert es[1..][i] == es[i + 1];
    }
    forall i | 0 <= i < |es[1..]| - 1
      ensures !es[1..][i].size.IsReserved()
    {
      assert es[1..][i] == es[i + 1];
    }
  }

  /** Encoding never loses an element: only the empty sequence encodes to
      nothing. */
  lemma EncodeAllEmpty(es: seq<Element>)
    requires AllFramed(es)
    ensures EncodeAll(es) == [] <==> es == []
  {
    if |es| > 0 {
      assert Framed(es[0]);
      assert |Encode(es[0])| >= 1;
    }
  }

  /** The element EbmlWriter.Write emits for a payload: the size field is the
      minimal encoding of the payload's length. */
  function Make(id: VInt, payload: seq<byte>): (r: Result<Element>)
    requires id.Valid()
    ensures r.Ok? <==> |payload| < AllOnes(MaxLength)
    ensures r.Ok? ==> Framed(r.value) && !r.value.size.IsReserved()
    ensures r.Ok? ==> r.value.id == id && r.value.payload == payload
    ensures r.Err? ==> r.error == OutOfRange
  {
    MarkerValues();
    if |payload| >= 0x1_0000_0000_0000_0000 then Err(OutOfRange)
    else
      var size :- EncodeSize(|payload|);
      Ok(Element(id, size, payload))
  }

  /** The number of bytes a sibling sequence occupies, counted from the
      headers' widths and the payloads' lengths. */
  function TotalLength(es: seq<Element>): nat {
    if |es| == 0 then 0 else es[0].id.length + es[0].size.length + |es[0].payload| + TotalLength(es[1..])
  }

  lemma {:induction false} EncodeAllLength(es: seq<Element>)
    requires AllFramed(es)
    ensures |EncodeAll(es)| == TotalLength(es)
  {
    if |es| > 0 {
      assert AllFramed(es[1..]) by {
        forall i | 0 <= i < |es[1..]|
          ensures Framed(es[1..][i])
        {
          assert es[1..][i] == es[i + 1];
        }
      }
      EncodeAllLength(es[1..]);
    }
  }

  /** Every element's header and payload lie inside the sequence's total
      length. */
  lemma {:induction false} TotalLengthCovers(es: seq<Element>, k: nat)
    requires k < |es|
    ensures es[k].id.length + es[k].size.length + |es[k].payload| <= TotalLength(es)
  {
    if k > 0 {
      TotalLengthCovers(es[1..], k - 1);
      assert es[1..][k - 1] == es[k];
    }
  }

  /** An element with a known size: a reader can tell where it ends. */
  predicate Closed(e: Element) {
    Framed(e) && !e.size.IsReserved()
  }

  lemma AllFramedSlice(es: seq<Element>, a: nat, b: nat)
    requires AllFramed(es) && a <= b <= |es|
    ensures AllFramed(es[a..b])
  {
    forall i | 0 <= i < b - a
      ensures Framed(es[a..b][i])
    {
      assert es[a..b][i] == es[a + i];
    }
  }

  /** Replacing the siblings es[a..b] by framed elements keeps the sequence
      readable (an unknown size is allowed only at the very end), and the
      encoding changes only in the replaced part. */
  lemma ShapedSplice(es: seq<Element>, a: nat, b: nat, mid: seq<Element>)
    requires Shaped(es) && a < b <= |es|
    requires forall i :: 0 <= i < |mid| ==> Framed(mid[i])
    requires forall i :: 0 <= i < |mid| && mid[i].size.IsReserved() ==> i == |mid| - 1 && b == |es|
    ensures AllFramed(es[..a]) && AllFramed(es[a..b]) && AllFramed(mid) && AllFramed(es[b..])
    ensures Shaped(es[..a] + mid + es[b..])
    ensures EncodeAll(es) == EncodeAll(es[..a]) + EncodeAll(es[a..b]) + EncodeAll(es[b..])
    ensures EncodeAll(es[..a] + mid + es[b..]) == EncodeAll(es[..a]) + EncodeAll(mid) + EncodeAll(es[b..])
  {
    EncodeAllSlices(es, a, b);
    assert AllFramed(mid);
    EncodeAllThree(es[..a] + mid + es[b..], es[..a], mid, es[b..]);
    ShapedReplace(es, a, b, mid);
  }

  /** es with the siblings es[a..b] replaced by mid. */
  function Splice(es: seq<Element>, a: nat, b: nat, mid: seq<Element>): (t: seq<Element>)
    requires Shaped(es) && a < b <= |es|
    requires forall i :: 0 <= i < |mid| ==> Framed(mid[i])
    requires forall i :: 0 <= i < |mid| && mid[i].size.IsReserved() ==> i == |mid| - 1 && b == |es|
    ensures Shaped(t) && |t| == a + |mid| + (|es| - b)
    ensures t[..a] == es[..a] && t[a..a + |mid|] == mid && t[a + |mid|..] == es[b..]
    ensures AllFramed(es[..a]) && AllFramed(es[a..b]) && AllFramed(mid) && AllFramed(es[b..])
    ensures EncodeAll(es) == EncodeAll(es[..a]) + EncodeAll(es[a..b]) + EncodeAll(es[b..])
    ensures EncodeAll(t) == EncodeAll(es[..a]) + EncodeAll(mid) + EncodeAll(es[b..])
  {
    ShapedSplice(es, a, b, mid);
    SpliceParts(es[..a], mid, es[b..]);
    es[..a] + mid + es[b..]
  }

  lemma ShapedReplace(es: seq<Element>, a: nat, b: nat, mid: seq<Element>)
    requires Shaped(es) && a < b <= |es|
    requires forall i :: 0 <= i < |mid| ==> Framed(mid[i])
    requires forall i :: 0 <= i < |mid| && mid[i].size.IsReserved() ==> i == |mid| - 1 && b == |es|
    ensures Shaped(es[..a] + mid + es[b..])
  {
    var t := es[..a] + mid + es[b..];
    forall i | 0 <= i < |t|
      ensures Framed(t[i]) && (i < |t| - 1 ==> !t[i].size.IsReserved())
    {
      if i < a {
        assert t[i] == es[i];
      } else if i < a + |mid| {
        assert t[i] == mid[i - a];
      } else {
        assert t[i] == es[b + (i - a - |mid|)];
      }
    }
  }

  lemma EncodeAllPair(x: Element, y: Element)
    requires Framed(x) && Framed(y)
    ensures AllFramed([x, y])
    ensures EncodeAll([x, y]) == Encode(x) + Encode(y)
  {
    var t := [x, y];
    assert t[0] == x && t[1..] == [y];
    assert [y][1..] == [];
    assert EncodeAll([y]) == Encode(y) + EncodeAll([]);
    assert EncodeAll(t) == Encode(x) + EncodeAll([y]);
  }

  /** The encoding of three consecutive parts of a sibling sequence. */
  lemma EncodeAllThree(es: seq<Element>, p: seq<Element>, m: seq<Element>, q: seq<Element>)
    requires AllFramed(p) && AllFramed(m) && AllFramed(q) && es == p + m + q
    ensures AllFramed(es)
    ensures EncodeAll(es) == EncodeAll(p) + EncodeAll(m) + EncodeAll(q)
  {
    EncodeAllAppend(p, m);
    EncodeAllAppend(p + m, q);
  }

  /** The three slices of a framed sibling sequence, each framed, and its
      encoding as theirs. */
  lemma EncodeAllSlices(es: seq<Element>, a: nat, b: nat)
    requires AllFramed(es) && a <= b <= |es|
    ensures AllFramed(es[..a]) && AllFramed(es[a..b]) && AllFramed(es[b..])
    ensures EncodeAll(es) == EncodeAll(es[..a]) + EncodeAll(es[a..b]) + EncodeAll(es[b..])
  {
    AllFramedThree(es, a, b);
    SliceThree(es, a, b);
    EncodeAllThree(es, es[..a], es[a..b], es[b..]);
  }

  lemma AllFramedThree(es: seq<Element>, a: nat, b: nat)
    requires AllFramed(es) && a <= b <= |es|
    ensures AllFramed(es[..a]) && AllFramed(es[a..b]) && AllFramed(es[b..])
  {
    forall i | 0 <= i < a
      ensures Framed(es[..a][i])
    {
      assert es[..a][i] == es[i];
    }
    AllFramedSlice(es, a, b);
    forall i | 0 <= i < |es| - b
      ensures Framed(es[b..][i])
    {
      assert es[b..][i] == es[b + i];
    }
  }

  /** The encoding of a sibling sequence around one of its elements. */
  lemma EncodeAllAround(es: seq<Element>, k: nat)
    requires AllFramed(es) && k < |es|
    ensures Framed(es[k])
    ensures EncodeAll(es) == EncodeAll(es[..k]) + Encode(es[k]) + EncodeAll(es[k + 1..])
  {
    EncodeAllSlices(es, k, k + 1);
    assert es[k..k + 1][0] == es[k];
    EncodeAllSingle(es[k..k + 1]);
  }

  lemma EncodeAllSingle(es: seq<Element>)
    requires |es| == 1 && Framed(es[0])
    ensures EncodeAll(es) == Encode(es[0])
  {
    assert |es[1..]| == 0;
    assert EncodeAll(es) == Encode(es[0]) + EncodeAll(es[1..]);
  }

  /** Two sibling sequences that agree outside es[a..b], where the differing
      parts take the same number of bytes, have encodings that agree outside
      the bytes of that part. */
  lemma EncodeAllSameOutside(es: seq<Element>, t: seq<Element>, a: nat, b: nat, p: nat, len: nat)
    requires AllFramed(es) && AllFramed(t) && a <= b <= |es| && |t| == |es|
    requires t[..a] == es[..a] && t[b..] == es[b..]
    requires TotalLength(t[a..b]) == TotalLength(es[a..b])
    requires p == TotalLength(es[..a]) && len == TotalLength(es[a..b])
    ensures SameOutside(EncodeAll(es), EncodeAll(t), p, p + len)
  {
    EncodeAllSlices(es, a, b);
    EncodeAllSlices(t, a, b);
    EncodeAllLength(es[..a]);
    EncodeAllLength(es[a..b]);
    EncodeAllLength(t[a..b]);
    SameOutsideAt(EncodeAll(es), EncodeAll(t), EncodeAll(es[..a]), EncodeAll(es[a..b]), EncodeAll(t[a..b]), EncodeAll(es[b..]), 0, len, p, p + len);
  }


  /** Where the payload of es[k] begins in the encoding of es. */
  function HeaderEnd(es: seq<Element>, k: nat): nat
    requires k < |es|
  {
    TotalLength(es[..k]) + es[k].id.length + es[k].size.length
  }

  /** Changing bytes inside the payload of es[k], and nothing else, changes
      the encoding of es only at the matching positions (off is where that
      payload begins). */
  lemma NestedSameOutside(es: seq<Element>, t: seq<Element>, k: nat, off: nat, lo: nat, hi: nat)
    requires AllFramed(es) && AllFramed(t) && k < |es| && |t| == |es|
    requires t[..k] == es[..k] && t[k + 1..] == es[k + 1..]
    requires t[k].id == es[k].id && t[k].size == es[k].size
    requires SameOutside(es[k].payload, t[k].payload, lo, hi)
    requires off == HeaderEnd(es, k)
    ensures SameOutside(EncodeAll(es), EncodeAll(t), off + lo, off + hi)
  {
    EncodeAllAt(es, k);
    EncodeAllAt(t, k);
    EncodeAllLength(es[..k]);
    var x := EncodeAll(es[..k]) + (Bytes(es[k].id) + Bytes(es[k].size));
    SameOutsideAt(EncodeAll(es), EncodeAll(t), x, es[k].payload, t[k].payload, EncodeAll(es[k + 1..]),
                  lo, hi, off + lo, off + hi);
  }

  /** The encoding of a sibling sequence split at the payload of es[k]. */
  lemma EncodeAllAt(es: seq<Element>, k: nat)
    requires AllFramed(es) && k < |es|
    ensures AllFramed(es[..k]) && AllFramed(es[k + 1..]) && Framed(es[k])
    ensures EncodeAll(es) == EncodeAll(es[..k]) + (Bytes(es[k].id) + Bytes(es[k].size)) + es[k].payload + EncodeAll(es[k + 1..])
  {
    AllFramedThree(es, k, k + 1);
    EncodeAllAround(es, k);
    Reassociate(EncodeAll(es[..k]), Bytes(es[k].id) + Bytes(es[k].size), es[k].payload, EncodeAll(es[k + 1..]));
  }

}

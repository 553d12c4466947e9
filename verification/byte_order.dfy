/** Powers of two, the position of the highest set bit, and big-endian
    conversion between naturals and byte sequences. */
module ByteOrder {

  type byte = x: int | 0 <= x < 256
  type uint64 = x: int | 0 <= x < 0x1_0000_0000_0000_0000
  type int64 = x: int | -0x8000_0000_0000_0000 <= x < 0x8000_0000_0000_0000

  function Pow2(n: nat): (r: nat)
    ensures r > 0
  {
    if n == 0 then 1 else 2 * Pow2(n - 1)
  }

  /** 256 to the power n: the number of values an n-byte field holds. */
  function Pow256(n: nat): (r: nat)
    ensures r > 0
  {
    Pow2(8 * n)
  }

  /** The number of values a 64-bit word holds. */
  lemma Pow2Word()
    ensures Pow2(64) == 0x1_0000_0000_0000_0000
  {
    assert Pow2(8) == 256;
    Pow2Add(8, 8);
    Pow2Add(16, 16);
    Pow2Add(32, 32);
  }

  lemma {:induction false} Pow2Add(a: nat, b: nat)
    ensures Pow2(a + b) == Pow2(a) * Pow2(b)
  {
    if a > 0 {
      Pow2Add(a - 1, b);
      assert Pow2(a + b) == 2 * Pow2(a - 1 + b);
    }
  }

  lemma {:induction false} Pow2Strict(a: nat, b: nat)
    requires a < b
    ensures Pow2(a) < Pow2(b)
  {
    if b > a + 1 {
      Pow2Strict(a, b - 1);
    }
  }

  lemma Pow2Monotonic(a: nat, b: nat)
    requires a <= b
    ensures Pow2(a) <= Pow2(b)
  {
    if a < b {
      Pow2Strict(a, b);
    }
  }

  lemma Pow256Step(n: nat)
    requires n > 0
    ensures Pow256(n) == 256 * Pow256(n - 1)
  {
    Pow2Add(8, 8 * (n - 1));
    assert 8 * n == 8 + 8 * (n - 1);
  }

  /** The 0-based position of the highest set bit of a positive number. */
  function HighBit(n: nat): (p: nat)
    requires n > 0
    ensures Pow2(p) <= n < Pow2(p + 1)
    decreases n
  {
    if n == 1 then 0 else 1 + HighBit(n / 2)
  }

  lemma HighBitUnique(n: nat, k: nat)
    requires Pow2(k) <= n < Pow2(k + 1)
    ensures HighBit(n) == k
  {
    var p := HighBit(n);
    if p < k {
      Pow2Monotonic(p + 1, k);
    } else if p > k {
      Pow2Monotonic(k + 1, p);
    }
  }

  /** Multiplying by the same factor keeps the order. The nonlinear steps of
      the division lemmas below are each stated through one such lemma. */
  lemma MulMonotone(a: nat, b: nat, d: nat)
    requires a <= b
    ensures a * d <= b * d
  {
  }

  lemma DivModOfSum(q: nat, r: nat, d: nat)
    requires d > 0 && r < d
    ensures (q * d + r) / d == q
    ensures (q * d + r) % d == r
  {
    var n := q * d + r;
    var q' := n / d;
    assert n == q' * d + n % d;
    if q' > q {
      MulMonotone(q + 1, q', d);
    } else if q' < q {
      MulMonotone(q' + 1, q, d);
    }
  }

  lemma DivBelow(x: nat, d: nat, k: nat)
    requires d > 0 && x < k * d
    ensures x / d < k
  {
    var q := x / d;
    assert x == q * d + x % d;
    if q >= k {
      MulMonotone(k, q, d);
    }
  }

  /** Scaling a range [lo, hi) of a leading digit by a positive place value. */
  lemma ScaledRange(b: nat, rest: nat, lo: nat, hi: nat, d: nat)
    requires lo <= b < hi && rest < d
    ensures lo * d <= b * d + rest < hi * d
  {
    assert lo * d <= b * d;
    assert (b + 1) * d <= hi * d;
  }

  lemma DivAtLeast(x: nat, d: nat, k: nat)
    requires d > 0 && k * d <= x
    ensures k <= x / d
  {
    var q := x / d;
    assert x == q * d + x % d;
    if q < k {
      MulMonotone(q + 1, k, d);
    }
  }

  /** If x lies in [2^(k+m), 2^(k+m+1)) then x / 2^m lies in [2^k, 2^(k+1)). */
  lemma DivPow2Range(x: nat, k: nat, m: nat)
    requires Pow2(k + m) <= x < Pow2(k + m + 1)
    ensures Pow2(k) <= x / Pow2(m) < Pow2(k + 1)
  {
    Pow2Add(k, m);
    Pow2Add(k + 1, m);
    DivAtLeast(x, Pow2(m), Pow2(k));
    DivBelow(x, Pow2(m), Pow2(k + 1));
  }

  /** The width-byte big-endian representation of x: the lowest byte last. */
  function ToBigEndian(x: nat, width: nat): (s: seq<byte>)
    requires x < Pow256(width)
    ensures |s| == width
    decreases width
  {
    if width == 0 then []
    else
      Pow256Step(width);
      DivBelow(x, 256, Pow256(width - 1));
      ToBigEndian(x / 256, width - 1) + [(x % 256) as byte]
  }

  /** The natural number a big-endian byte sequence denotes. */
  function FromBigEndian(s: seq<byte>): (x: nat)
    ensures x < Pow256(|s|)
  {
    if |s| == 0 then 0
    else
      var high := FromBigEndian(s[..|s| - 1]);
      Pow256Step(|s|);
      ScaledRange(high, s[|s| - 1], 0, Pow256(|s| - 1), 256);
      high * 256 + s[|s| - 1]
  }

  lemma {:induction false} FromToBigEndian(x: nat, width: nat)
    requires x < Pow256(width)
    ensures FromBigEndian(ToBigEndian(x, width)) == x
    decreases width
  {
    if width > 0 {
      Pow256Step(width);
      DivBelow(x, 256, Pow256(width - 1));
      var s := ToBigEndian(x, width);
      assert s[..width - 1] == ToBigEndian(x / 256, width - 1);
      FromToBigEndian(x / 256, width - 1);
    }
  }

  lemma {:induction false} ToFromBigEndian(s: seq<byte>)
    ensures ToBigEndian(FromBigEndian(s), |s|) == s
  {
    if |s| > 0 {
      var high := FromBigEndian(s[..|s| - 1]);
      DivModOfSum(high, s[|s| - 1], 256);
      ToFromBigEndian(s[..|s| - 1]);
      assert s == s[..|s| - 1] + [s[|s| - 1]];
    }
  }

  /** Reading a big-endian sequence from its first byte: the leading byte
      weighs 256 to the power of the number of bytes after it. */
  lemma {:induction false} FromBigEndianHead(s: seq<byte>)
    requires |s| > 0
    ensures FromBigEndian(s) == s[0] * Pow256(|s| - 1) + FromBigEndian(s[1..])
  {
    var n := |s|;
    if n > 1 {
      var front, tail := s[..n - 1], s[1..];
      FromBigEndianHead(front);
      assert front[1..] == tail[..n - 2];
      var d, a, last := Pow256(n - 2), FromBigEndian(front[1..]), s[n - 1];
      assert FromBigEndian(s) == FromBigEndian(front) * 256 + last;
      assert FromBigEndian(tail) == a * 256 + last;
      assert FromBigEndian(front) == s[0] * d + a;
      Pow256Step(n - 1);
      Regroup256(s[0], d, a);
    }
  }

  /** Distributing the byte shift over a partial big-endian value. */
  lemma Regroup256(b: nat, d: nat, a: nat)
    ensures (b * d + a) * 256 == b * (256 * d) + a * 256
  {
  }

  /** The leading byte of a big-endian representation carries its highest digit. */
  lemma FirstByte(x: nat, width: nat)
    requires width > 0 && x < Pow256(width)
    ensures ToBigEndian(x, width)[0] == x / Pow256(width - 1)
  {
    var s := ToBigEndian(x, width);
    FromToBigEndian(x, width);
    FromBigEndianHead(s);
    DivModOfSum(s[0], FromBigEndian(s[1..]), Pow256(width - 1));
  }

  /** A slice is the concatenation of two adjacent slices. */
  lemma SliceSplit<T>(s: seq<T>, a: nat, b: nat, c: nat)
    requires a <= b <= c <= |s|
    ensures s[a..c] == s[a..b] + s[b..c]
  {
  }

  /** Where the four parts of a concatenation lie inside a larger sequence. */
  lemma SliceParts<T>(s: seq<T>, p: nat, limit: nat, a: seq<T>, b: seq<T>, c: seq<T>, d: seq<T>)
    requires p <= limit <= |s| && s[p..limit] == a + b + c + d
    ensures p + |a| + |b| + |c| <= limit
    ensures s[p..p + |a|] == a
    ensures s[p + |a|..p + |a| + |b|] == b
    ensures s[p + |a| + |b|..p + |a| + |b| + |c|] == c
    ensures s[p + |a| + |b| + |c|..limit] == d
  {
    var t := s[p..limit];
    assert s[p..p + |a|] == t[..|a|];
    forall i | 0 <= i < |b|
      ensures s[p + |a| + i] == b[i]
    {
      assert s[p + |a| + i] == t[|a| + i] == (a + b)[|a| + i];
    }
    forall i | 0 <= i < |c|
      ensures s[p + |a| + |b| + i] == c[i]
    {
      assert s[p + |a| + |b| + i] == t[|a| + |b| + i] == (a + b + c)[|a| + |b| + i];
    }
    assert s[p + |a| + |b| + |c|..limit] == t[|a| + |b| + |c|..];
  }

  /** Overwriting the middle part of a three-part sequence with a part of
      the same length. */
  lemma Overwrite<T>(a: seq<T>, b: seq<T>, b': seq<T>, c: seq<T>)
    requires |b| == |b'|
    ensures (a + b + c)[..|a|] + b' + (a + b + c)[|a| + |b|..] == a + b' + c
  {
    assert (a + b + c)[..|a|] == a;
    assert (a + b + c)[|a| + |b|..] == c;
  }

  /** Concatenation is associative. Stated on its own so that callers with
      many sequences in scope do not prove it by extensionality over all of
      them. */
  lemma Associate<T>(x: seq<T>, y: seq<T>, z: seq<T>)
    ensures x + (y + z) == (x + y) + z
  {
  }

  /** Regrouping concatenations, each stated on its own for the same reason
      as Associate. */
  lemma Regroup<T>(p: seq<T>, x: seq<T>, y: seq<T>, z: seq<T>)
    ensures p + (x + y + z) == p + x + y + z
  {
  }

  lemma Reassociate<T>(x: seq<T>, h: seq<T>, p: seq<T>, y: seq<T>)
    ensures x + (h + p) + y == x + h + p + y
  {
  }

  lemma Suffix<T>(a: seq<T>, b: seq<T>)
    ensures (a + b)[|a|..|a + b|] == b + []
  {
  }

  /** Taking the head and tail of a concatenation whose left part is not
      empty. */
  lemma HeadTail<T>(a: seq<T>, b: seq<T>)
    requires |a| > 0
    ensures (a + b)[0] == a[0] && (a + b)[1..] == a[1..] + b
  {
    assert (a + b)[1..] == a[1..] + b;
  }

  /** A sequence is its three consecutive slices put back together. */
  lemma SliceThree<T>(s: seq<T>, a: nat, b: nat)
    requires a <= b <= |s|
    ensures s[..a] + s[a..b] + s[b..] == s
  {
    assert s[..a] + s[a..b] == s[..b];
  }

  /** The three parts of a concatenation, recovered by slicing. */
  lemma SpliceParts<T>(p: seq<T>, m: seq<T>, q: seq<T>)
    ensures (p + m + q)[..|p|] == p
    ensures (p + m + q)[|p|..|p| + |m|] == m
    ensures (p + m + q)[|p| + |m|..] == q
  {
    var t := p + m + q;
    assert t[..|p|] == p;
    assert t[|p|..|p| + |m|] == m;
    assert t[|p| + |m|..] == q;
  }

  /** u and v have the same length and agree at every position outside
      lo up to hi. */
  predicate SameOutside(u: seq<byte>, v: seq<byte>, lo: nat, hi: nat) {
    && |u| == |v| && lo <= hi <= |u|
    && forall i :: 0 <= i < |u| && (i < lo || hi <= i) ==> u[i] == v[i]
  }

  /** Two sequences that differ only inside [lo, hi) still do so, shifted,
      once the same parts are put around them. */
  lemma EmbedSameOutside(x: seq<byte>, u: seq<byte>, v: seq<byte>, y: seq<byte>, lo: nat, hi: nat)
    requires SameOutside(u, v, lo, hi)
    ensures SameOutside(x + u + y, x + v + y, |x| + lo, |x| + hi)
  {
    var p, q := x + u + y, x + v + y;
    forall i | 0 <= i < |p| && (i < |x| + lo || |x| + hi <= i)
      ensures p[i] == q[i]
    {
      if i < |x| {
        assert p[i] == x[i] == q[i];
      } else if i < |x| + |u| {
        assert p[i] == u[i - |x|] && q[i] == v[i - |x|];
      } else {
        assert p[i] == y[i - |x| - |u|] == q[i];
      }
    }
  }

  /** EmbedSameOutside, for sequences known to be assembled from the parts,
      with the bounds of the result given. */
  lemma SameOutsideAt(u: seq<byte>, v: seq<byte>, x: seq<byte>, m: seq<byte>, m': seq<byte>, y: seq<byte>,
                      lo: nat, hi: nat, start: nat, end: nat)
    requires u == x + m + y && v == x + m' + y
    requires SameOutside(m, m', lo, hi) && start == |x| + lo && end == |x| + hi
    ensures SameOutside(u, v, start, end)
  {
    EmbedSameOutside(x, m, m', y, lo, hi);
  }
}

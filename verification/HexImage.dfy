/** The sparse memory image behind the Intel HEX reader and writer: an ordered map from start address to
    byte block that must behave like a partial map from address to byte. */
module HexImage {
  import opened Bytes

  const TOP := 0x1_0000_0000

  /** One element of the std::map: a start address and the bytes from there on. */
  datatype Block = Block(addr: nat, bytes: seq<byte>) {
    function End(): nat { addr + |bytes| }

    predicate Covers(a: int) { addr <= a < End() }

    function At(a: int): byte
      requires Covers(a)
    {
      bytes[a - addr]
    }
  }

  /** The container: keys ascending, blocks nonempty, disjoint and below 2^32. */
  ghost predicate Ordered(bs: seq<Block>) {
    && (forall i :: 0 <= i < |bs| ==> bs[i].bytes != [] && bs[i].End() <= TOP)
    && (forall i, j {:trigger Before(bs[i], bs[j])} :: 0 <= i < j < |bs| ==> Before(bs[i], bs[j]))
  }

  ghost predicate Before(b: Block, c: Block) {
    b.End() <= c.addr
  }

  /** The addresses and values one block sets. */
  ghost function Span(b: Block): map<int, byte> {
    map a | b.addr <= a < b.End() :: b.At(a)
  }

  /** The partial map an image stands for. */
  ghost function View(bs: seq<Block>): map<int, byte> {
    if bs == [] then map[] else Span(bs[0]) + View(bs[1..])
  }

  /** All keys lie in [lo, hi). */
  ghost predicate Within(m: map<int, byte>, lo: int, hi: int) {
    forall a :: a in m ==> lo <= a < hi
  }

  // ----- views -----

  lemma MergeAssoc(a: map<int, byte>, b: map<int, byte>, c: map<int, byte>)
    ensures a + b + c == a + (b + c)
  {
  }

  lemma {:induction false} ViewConcat(xs: seq<Block>, ys: seq<Block>)
    ensures View(xs + ys) == View(xs) + View(ys)
  {
    if xs == [] {
      assert xs + ys == ys;
      assert map[] + View(ys) == View(ys);
    } else {
      var first, rest := xs[0], xs[1..];
      assert (xs + ys)[1..] == rest + ys && (xs + ys)[0] == first;
      ViewConcat(rest, ys);
      MergeAssoc(Span(first), View(rest), View(ys));
    }
  }

  lemma ViewOne(b: Block)
    ensures View([b]) == Span(b)
  {
    assert [b][1..] == [];
    assert View([b]) == Span(b) + map[];
  }

  lemma CutBlocks(bs: seq<Block>, k: nat)
    requires k < |bs|
    ensures bs == bs[..k] + [bs[k]] + bs[k + 1..]
  {
  }

  /** The view of an image cut at index k. */
  lemma ViewCut(bs: seq<Block>, k: nat)
    requires k < |bs|
    ensures View(bs) == View(bs[..k]) + Span(bs[k]) + View(bs[k + 1..])
  {
    var pre, mid, post := bs[..k], [bs[k]], bs[k + 1..];
    CutBlocks(bs, k);
    ViewConcat(pre + mid, post);
    ViewConcat(pre, mid);
    ViewOne(bs[k]);
  }

  lemma {:induction false} ViewKeys(bs: seq<Block>, lo: int, hi: int)
    requires forall i :: 0 <= i < |bs| ==> lo <= bs[i].addr && bs[i].End() <= hi
    ensures Within(View(bs), lo, hi)
  {
    if bs != [] {
      ViewKeys(bs[1..], lo, hi);
    }
  }

  lemma OrderedPart(bs: seq<Block>, i: nat, j: nat)
    requires Ordered(bs) && i <= j <= |bs|
    ensures Ordered(bs[i..j])
  {
    var cs := bs[i..j];
    forall p, q | 0 <= p < q < |cs|
      ensures Before(cs[p], cs[q])
    {
      assert Before(bs[i + p], bs[i + q]);
    }
  }

  /** Everything before block k ends below it, everything after starts above it. */
  lemma Sides(bs: seq<Block>, k: nat)
    requires Ordered(bs) && k < |bs|
    ensures forall i :: 0 <= i < k ==> bs[i].End() <= bs[k].addr
    ensures forall i :: k < i < |bs| ==> bs[k].End() <= bs[i].addr
  {
    forall i | 0 <= i < |bs|
      ensures (i < k ==> bs[i].End() <= bs[k].addr) && (k < i ==> bs[k].End() <= bs[i].addr)
    {
      if i < k {
        assert Before(bs[i], bs[k]);
      } else if k < i {
        assert Before(bs[k], bs[i]);
      }
    }
  }

  /** Addresses set before and after block k lie on their side of it. */
  lemma ViewSides(bs: seq<Block>, k: nat)
    requires Ordered(bs) && k < |bs|
    ensures Within(View(bs[..k]), 0, bs[k].addr) && Within(View(bs[k + 1..]), bs[k].End(), TOP)
  {
    Sides(bs, k);
    ViewKeys(bs[..k], 0, bs[k].addr);
    ViewKeys(bs[k + 1..], bs[k].End(), TOP);
  }

  /** Replacing block k by blocks with a given view. */
  lemma ViewReplace(bs: seq<Block>, k: nat, mid: seq<Block>)
    requires k < |bs|
    ensures View(bs[..k] + mid + bs[k + 1..]) == View(bs[..k]) + View(mid) + View(bs[k + 1..])
  {
    ViewConcat(bs[..k] + mid, bs[k + 1..]);
    ViewConcat(bs[..k], mid);
  }

  lemma OrderedConcat(xs: seq<Block>, ys: seq<Block>, cut: nat)
    requires Ordered(xs) && Ordered(ys)
    requires forall i :: 0 <= i < |xs| ==> xs[i].End() <= cut
    requires forall i :: 0 <= i < |ys| ==> cut <= ys[i].addr
    ensures Ordered(xs + ys)
  {
    var cs := xs + ys;
    forall i, j | 0 <= i < j < |cs|
      ensures Before(cs[i], cs[j])
    {
      if j < |xs| {
        assert Before(xs[i], xs[j]);
      } else if i >= |xs| {
        assert Before(ys[i - |xs|], ys[j - |xs|]);
      }
    }
  }

  /** Block k replaced by blocks between its start and the address hi, below which the next one does not start. */
  lemma OrderedReplace(bs: seq<Block>, k: nat, mid: seq<Block>, hi: nat)
    requires Ordered(bs) && k < |bs| && Ordered(mid) && bs[k].addr <= hi
    requires forall i :: 0 <= i < |mid| ==> bs[k].addr <= mid[i].addr && mid[i].End() <= hi
    requires forall i :: k < i < |bs| ==> hi <= bs[i].addr
    ensures Ordered(bs[..k] + mid + bs[k + 1..])
  {
    OrderedPart(bs, 0, k);
    OrderedPart(bs, k + 1, |bs|);
    Sides(bs, k);
    assert bs[0..k] == bs[..k] && bs[k + 1..|bs|] == bs[k + 1..];
    OrderedConcat(bs[..k], mid, bs[k].addr);
    OrderedConcat(bs[..k] + mid, bs[k + 1..], hi);
  }

  /** Index of the block that holds address a, or -1. */
  lemma {:induction false} Holder(bs: seq<Block>, a: int) returns (k: int)
    requires Ordered(bs)
    ensures -1 <= k < |bs|
    ensures k == -1 ==> a !in View(bs) && forall i :: 0 <= i < |bs| ==> !bs[i].Covers(a)
    ensures k >= 0 ==> bs[k].Covers(a) && a in View(bs) && View(bs)[a] == bs[k].At(a)
  {
    if bs == [] {
      k := -1;
    } else {
      var rest := bs[1..];
      OrderedPart(bs, 1, |bs|);
      assert bs[1..|bs|] == rest;
      ViewSides(bs, 0);
      if bs[0].Covers(a) {
        k := 0;
      } else {
        k := Holder(rest, a);
        if k >= 0 {
          k := k + 1;
        } else {
          forall i | 0 <= i < |bs|
            ensures !bs[i].Covers(a)
          {
            if i > 0 {
              assert bs[i] == rest[i - 1];
            }
          }
        }
      }
    }
  }

  // ----- replacing the contribution of one block -----

  lemma MergeReplace(p: map<int, byte>, s: map<int, byte>, q: map<int, byte>, m: map<int, byte>, lo: int, mid: int,
                     hi: int)
    requires Within(p, 0, lo) && Within(s, lo, mid) && Within(m, lo, hi) && Within(q, hi, TOP) && mid <= hi
    ensures p + m + q == (p + s + q) - s.Keys + m
  {
    var x := p + s + q;
    var y := x - s.Keys;
    var l, r := p + m + q, y + m;
    assert forall a :: a in p || a in q ==> a !in s;
    assert forall a :: a in y <==> a in p || a in q;
    assert forall a :: a in l <==> a in r;
    assert forall a :: a in l ==> l[a] == r[a];
    assert l == r;
  }

  lemma NextAbove(bs: seq<Block>, k: nat, hi: nat)
    requires Ordered(bs) && k < |bs| && (k + 1 < |bs| ==> hi <= bs[k + 1].addr)
    ensures forall i :: k < i < |bs| ==> hi <= bs[i].addr
  {
    if k + 1 < |bs| {
      Sides(bs, k + 1);
    }
  }

  /** Block k replaced by `mid`, all of it between block k's start and the address `hi` below the next block. */
  lemma ReplaceBlock(bs: seq<Block>, k: nat, mid: seq<Block>, hi: nat)
    requires Ordered(bs) && k < |bs| && Ordered(mid)
    requires forall i :: 0 <= i < |mid| ==> bs[k].addr <= mid[i].addr && mid[i].End() <= hi
    requires bs[k].End() <= hi <= TOP && (k + 1 < |bs| ==> hi <= bs[k + 1].addr)
    ensures Ordered(bs[..k] + mid + bs[k + 1..])
    ensures View(bs[..k] + mid + bs[k + 1..]) == View(bs) - Span(bs[k]).Keys + View(mid)
  {
    NextAbove(bs, k, hi);
    OrderedReplace(bs, k, mid, hi);
    ViewReplace(bs, k, mid);
    ViewCut(bs, k);
    ViewSides(bs, k);
    ViewKeys(bs[k + 1..], hi, TOP);
    ViewKeys(mid, bs[k].addr, hi);
    MergeReplace(View(bs[..k]), Span(bs[k]), View(bs[k + 1..]), View(mid), bs[k].addr, bs[k].End(), hi);
  }

  lemma SpanInView(bs: seq<Block>, k: nat)
    requires Ordered(bs) && k < |bs|
    ensures Span(bs[k]).Keys <= View(bs).Keys
    ensures forall a :: a in Span(bs[k]) ==> View(bs)[a] == Span(bs[k])[a]
  {
    ViewCut(bs, k);
    ViewSides(bs, k);
  }

  /** Changing one value within a block changes that value of the image. */
  lemma UpdateInBlock(v: map<int, byte>, s: map<int, byte>, a: int, b: byte)
    requires s.Keys <= v.Keys && forall c :: c in s ==> v[c] == s[c]
    ensures v - s.Keys + s[a := b] == v[a := b]
  {
    var l, r := v - s.Keys + s[a := b], v[a := b];
    assert l.Keys == r.Keys;
    assert forall c :: c in l ==> l[c] == r[c];
    assert l == r;
  }

  /** Removing addresses within a block removes them from the image. */
  lemma RemoveInBlock(v: map<int, byte>, s: map<int, byte>, gone: set<int>)
    requires s.Keys <= v.Keys && forall c :: c in s ==> v[c] == s[c]
    ensures v - s.Keys + (s - gone) == v - (s.Keys * gone)
  {
    var l, r := v - s.Keys + (s - gone), v - (s.Keys * gone);
    assert l.Keys == r.Keys;
    assert forall a :: a in l ==> l[a] == r[a];
    assert l == r;
  }

  /** A new block in the gap before block k. */
  lemma InsertBlock(bs: seq<Block>, k: nat, b: Block)
    requires Ordered(bs) && k <= |bs| && b.bytes != [] && b.End() <= TOP
    requires (k > 0 ==> bs[k - 1].End() <= b.addr) && (k < |bs| ==> b.End() <= bs[k].addr)
    ensures Ordered(bs[..k] + [b] + bs[k..])
    ensures View(bs[..k] + [b] + bs[k..]) == View(bs) + Span(b)
  {
    var pre, post := bs[..k], bs[k..];
    PartsOrdered(bs, k);
    GapAround(bs, k, b);
    InsertOrdered(pre, b, post);
    InsertView(pre, b, post);
  }

  lemma PartsOrdered(bs: seq<Block>, k: nat)
    requires Ordered(bs) && k <= |bs|
    ensures Ordered(bs[..k]) && Ordered(bs[k..]) && bs == bs[..k] + bs[k..]
  {
    OrderedPart(bs, 0, k);
    OrderedPart(bs, k, |bs|);
    assert bs[0..k] == bs[..k] && bs[k..|bs|] == bs[k..];
  }

  lemma InsertOrdered(pre: seq<Block>, b: Block, post: seq<Block>)
    requires Ordered(pre) && Ordered(post) && b.bytes != [] && b.End() <= TOP
    requires forall i :: 0 <= i < |pre| ==> pre[i].End() <= b.addr
    requires forall i :: 0 <= i < |post| ==> b.End() <= post[i].addr
    ensures Ordered(pre + [b] + post)
  {
    OrderedConcat(pre, [b], b.addr);
    OrderedConcat(pre + [b], post, b.End());
  }

  lemma InsertView(pre: seq<Block>, b: Block, post: seq<Block>)
    requires forall i :: 0 <= i < |post| ==> b.End() <= post[i].addr && post[i].End() <= TOP
    ensures View(pre + [b] + post) == View(pre + post) + Span(b)
  {
    ViewConcat(pre, post);
    ViewConcat(pre + [b], post);
    ViewConcat(pre, [b]);
    ViewOne(b);
    ViewKeys(post, b.End(), TOP);
    MergeSwap(View(pre), Span(b), View(post), b.End());
  }

  lemma GapAround(bs: seq<Block>, k: nat, b: Block)
    requires Ordered(bs) && k <= |bs|
    requires (k > 0 ==> bs[k - 1].End() <= b.addr) && (k < |bs| ==> b.End() <= bs[k].addr)
    ensures forall i :: 0 <= i < k ==> bs[i].End() <= b.addr
    ensures forall i :: k <= i < |bs| ==> b.End() <= bs[i].addr
  {
    if k > 0 {
      Sides(bs, k - 1);
    }
    if k < |bs| {
      Sides(bs, k);
    }
  }

  lemma MergeSwap(p: map<int, byte>, s: map<int, byte>, q: map<int, byte>, lo: int)
    requires Within(s, 0, lo) && Within(q, lo, TOP)
    ensures p + s + q == p + q + s
  {
    var l, r := p + s + q, p + q + s;
    assert l.Keys == r.Keys;
    assert forall a :: a in l ==> l[a] == r[a];
    assert l == r;
  }

  ghost function Below(m: map<int, byte>, addr: int): set<int> {
    set a | a in m && a < addr
  }

  /** Passing block i adds its addresses below addr to the count. */
  lemma CountNext(bs: seq<Block>, i: nat, addr: nat)
    requires Ordered(bs) && i < |bs|
    ensures |View(bs[..i + 1])| == |View(bs[..i])| + |bs[i].bytes|
    ensures |Below(View(bs[..i + 1]), addr)| == |Below(View(bs[..i]), addr)|
                                              + if bs[i].End() <= addr then |bs[i].bytes|
                                                  else if bs[i].addr < addr then addr - bs[i].addr else 0
  {
    var b := bs[i];
    var v, w := View(bs[..i]), View(bs[..i + 1]);
    ViewSides(bs, i);
    assert bs[..i + 1] == bs[..i] + [b];
    ViewConcat(bs[..i], [b]);
    ViewOne(b);
    assert w.Keys == v.Keys + Span(b).Keys;
    SpanCount(b, b.End());
    SpanCount(b, addr);
    assert Below(w, addr) == Below(v, addr) + Below(Span(b), addr);
    assert Below(Span(b), b.End()) == Span(b).Keys;
  }

  lemma {:induction false} SpanCount(b: Block, addr: nat)
    ensures |Below(Span(b), addr)| == if b.End() <= addr then |b.bytes| else if b.addr < addr then addr - b.addr else 0
    decreases addr
  {
    if addr <= b.addr {
      assert Below(Span(b), addr) == {};
    } else if b.End() < addr {
      SpanCount(b, addr - 1);
      assert Below(Span(b), addr) == Below(Span(b), addr - 1);
    } else {
      SpanCount(b, addr - 1);
      assert Below(Span(b), addr) == Below(Span(b), addr - 1) + {addr - 1};
    }
  }

  lemma MaxIs(bs: seq<Block>, k: int, hi: nat)
    requires Ordered(bs) && -1 <= k < |bs| && (k >= 0 ==> bs[k].addr <= hi)
    requires forall j :: 0 <= j < |bs| && bs[j].addr <= hi ==> k >= 0 && bs[j].End() <= bs[k].End()
    ensures forall a :: a in View(bs) && a <= hi ==> k >= 0 && a < bs[k].End()
    ensures k >= 0 ==> bs[k].End() - 1 in View(bs) && (bs[k].End() - 1 > hi ==> hi in View(bs))
  {
    forall a | a in View(bs) && a <= hi
      ensures k >= 0 && a < bs[k].End()
    {
      var h := Holder(bs, a);
    }
    if k >= 0 {
      SpanInView(bs, k);
      assert bs[k].End() - 1 in Span(bs[k]);
      assert bs[k].End() - 1 > hi ==> hi in Span(bs[k]);
    }
  }

  /** The single erase acts as removal exactly when the address is not in a block that ends at 2^32. */
  lemma EraseRemovesIff(bs: seq<Block>, a: int)
    requires Ordered(bs)
    ensures (if InTopBlock(bs, a) then View(bs) else View(bs) - {a}) == View(bs) - {a} <==> !InTopBlock(bs, a)
  {
    if InTopBlock(bs, a) {
      var k :| 0 <= k < |bs| && bs[k].Covers(a) && bs[k].End() == TOP;
      SpanInView(bs, k);
      assert a in Span(bs[k]);
      assert a in View(bs) && a !in View(bs) - {a};
    }
  }

  /** The byte at the last address always lies in such a block. */
  lemma TopByte(bs: seq<Block>)
    requires Ordered(bs) && TOP - 1 in View(bs)
    ensures InTopBlock(bs, TOP - 1)
  {
    var k := Holder(bs, TOP - 1);
    assert bs[k].Covers(TOP - 1);
  }

  /** The erase of a range acts as removal exactly when it does not meet a block that ends at 2^32. */
  lemma EraseRangeRemovesIff(bs: seq<Block>, lo: int, hi: int)
    requires Ordered(bs)
    ensures View(bs) - (Range(lo, hi) - TopKeys(bs)) == View(bs) - Range(lo, hi)
            <==> forall a :: lo <= a <= hi ==> !InTopBlock(bs, a)
  {
    var v, r, t := View(bs), Range(lo, hi), TopKeys(bs);
    TopKeysAre(bs);
    if a :| lo <= a <= hi && InTopBlock(bs, a) {
      assert a in v - (r - t) && a !in v - r;
    } else {
      assert r - t == r;
    }
  }

  lemma TopKeysAre(bs: seq<Block>)
    requires Ordered(bs)
    ensures forall a :: a in TopKeys(bs) <==> InTopBlock(bs, a)
    ensures forall a :: InTopBlock(bs, a) ==> a in View(bs)
  {
    forall a | InTopBlock(bs, a)
      ensures a in TopKeys(bs) && a in View(bs)
    {
      TopBlockLast(bs, a);
    }
  }

  lemma TopBlockLast(bs: seq<Block>, a: int)
    requires Ordered(bs) && InTopBlock(bs, a)
    ensures a in TopKeys(bs) && a in View(bs)
  {
    var k :| 0 <= k < |bs| && bs[k].Covers(a) && bs[k].End() == TOP;
    Sides(bs, k);
    SpanInView(bs, k);
    if k + 1 < |bs| {
      assert false;
    }
  }

  /** No two of the first n blocks touch. */
  ghost predicate Apart(bs: seq<Block>, n: nat) {
    n <= |bs| && forall i :: 0 < i < n ==> bs[i - 1].End() < bs[i].addr
  }

  /** Number of bytes in blocks longer than length: what is left to do for tidy. */
  function Longer(bs: seq<Block>, length: nat): nat {
    if bs == [] then 0 else (if |bs[0].bytes| > length then |bs[0].bytes| else 0) + Longer(bs[1..], length)
  }

  lemma MergeBlocks(bs: seq<Block>, k: nat)
    requires Ordered(bs) && k + 1 < |bs| && bs[k].End() == bs[k + 1].addr
    ensures var c := Block(bs[k].addr, bs[k].bytes + bs[k + 1].bytes);
            var cs := bs[..k] + [c] + bs[k + 2..];
            Ordered(cs) && View(cs) == View(bs) && c.End() == bs[k + 1].End()
  {
    var c := Block(bs[k].addr, bs[k].bytes + bs[k + 1].bytes);
    Sides(bs, k);
    Sides(bs, k + 1);
    OrderedPart(bs, 0, k);
    OrderedPart(bs, k + 2, |bs|);
    var pre, post := bs[..k], bs[k + 2..];
    assert bs[0..k] == pre && bs[k + 2..|bs|] == post && bs == pre + [bs[k], bs[k + 1]] + post;
    OrderedConcat(pre, [c], c.addr);
    OrderedConcat(pre + [c], post, c.End());
    SplitSpan(c, bs[k].End());
    assert Part(c, c.addr, bs[k].End()) == bs[k] && Part(c, bs[k].End(), c.End()) == bs[k + 1];
    SwapMiddle(pre, [c], [bs[k], bs[k + 1]], post);
  }

  /** Block b cut in two after n bytes. */
  function Halves(b: Block, n: nat): seq<Block>
    requires n <= |b.bytes|
  {
    [Block(b.addr, b.bytes[..n]), Block(b.addr + n, b.bytes[n..])]
  }

  lemma SplitBlock(bs: seq<Block>, k: nat, n: nat)
    requires Ordered(bs) && k < |bs| && 1 <= n < |bs[k].bytes|
    ensures Ordered(bs[..k] + Halves(bs[k], n) + bs[k + 1..])
    ensures View(bs[..k] + Halves(bs[k], n) + bs[k + 1..]) == View(bs)
  {
    var b := bs[k];
    HalvesOrdered(b, n);
    Sides(bs, k);
    OrderedReplace(bs, k, Halves(b, n), b.End());
    HalvesView(b, n);
    assert bs == bs[..k] + [b] + bs[k + 1..];
    SwapMiddle(bs[..k], Halves(b, n), [b], bs[k + 1..]);
  }

  lemma HalvesOrdered(b: Block, n: nat)
    requires 1 <= n < |b.bytes| && b.End() <= TOP
    ensures var h := Halves(b, n);
            Ordered(h) && forall i :: 0 <= i < |h| ==> b.addr <= h[i].addr && h[i].End() <= b.End()
  {
    var h := Halves(b, n);
    assert Before(h[0], h[1]);
  }

  lemma HalvesView(b: Block, n: nat)
    requires n <= |b.bytes|
    ensures View(Halves(b, n)) == View([b])
  {
    SplitSpan(b, b.addr + n);
    assert Part(b, b.addr, b.addr + n) == Halves(b, n)[0];
    assert Part(b, b.addr + n, b.End()) == Halves(b, n)[1];
  }

  lemma SplitSpan(b: Block, m: nat)
    requires b.addr <= m <= b.End()
    ensures View([Part(b, b.addr, m), Part(b, m, b.End())]) == View([b])
  {
    var p, q := Part(b, b.addr, m), Part(b, m, b.End());
    assert [p, q] == [p] + [q];
    ViewConcat([p], [q]);
    ViewOne(p);
    ViewOne(q);
    ViewOne(b);
    PartSpan(b, b.addr, m);
    PartSpan(b, m, b.End());
    assert Slice(b, b.addr, m) + Slice(b, m, b.End()) == Span(b);
  }

  lemma SwapMiddle(pre: seq<Block>, x: seq<Block>, y: seq<Block>, post: seq<Block>)
    requires View(x) == View(y)
    ensures View(pre + x + post) == View(pre + y + post)
  {
    ViewConcat(pre + x, post);
    ViewConcat(pre + y, post);
    ViewConcat(pre, x);
    ViewConcat(pre, y);
  }

  lemma SplitShorter(bs: seq<Block>, k: nat, n: nat)
    requires k < |bs| && 1 <= n < |bs[k].bytes|
    ensures var cs := bs[..k] + Halves(bs[k], n) + bs[k + 1..];
            |cs| == |bs| + 1 && cs[..k + 1] == bs[..k] + [Halves(bs[k], n)[0]]
                && Longer(cs[k + 1..], n) < Longer(bs[k..], n)
  {
    var cs := bs[..k] + Halves(bs[k], n) + bs[k + 1..];
    var tail := Halves(bs[k], n)[1];
    assert cs[k + 1..] == [tail] + bs[k + 1..];
    assert bs[k..][1..] == bs[k + 1..];
    assert cs[k + 1..][1..] == bs[k + 1..];
  }

  lemma PassedFront(bs: seq<Block>, i: nat, f: nat, g: nat)
    requires Passed(bs, i, f) && i < |bs| && bs[i].addr <= f <= g < bs[i].End()
    ensures Passed(bs[..i] + (Front(bs[i], f) + Rest(bs[i], g)) + bs[i + 1..], i, g + 1)
  {
  }

  /** The addresses of the block that ends at 2^32, if there is one. */
  ghost function TopKeys(bs: seq<Block>): set<int> {
    if bs != [] && bs[|bs| - 1].End() == TOP then Span(bs[|bs| - 1]).Keys else {}
  }

  lemma RangeOne(a: int)
    ensures Range(a, a) == {a}
  {
  }

  lemma NewCell(bs: seq<Block>, k: nat, a: nat, v: byte)
    requires Ordered(bs) && k <= |bs| && a < TOP
    requires (k > 0 ==> bs[k - 1].End() <= a) && (k < |bs| ==> a < bs[k].addr)
    ensures Ordered(bs[..k] + [Block(a, [v])] + bs[k..])
    ensures View(bs[..k] + [Block(a, [v])] + bs[k..]) == View(bs)[a := v]
  {
    var b := Block(a, [v]);
    InsertBlock(bs, k, b);
    MergeOne(View(bs), a, v);
  }

  lemma MergeOne(m: map<int, byte>, a: nat, v: byte)
    ensures m + Span(Block(a, [v])) == m[a := v]
  {
    var b := Block(a, [v]);
    var l, r := m + Span(b), m[a := v];
    assert forall c :: b.Covers(c) <==> c == a;
    assert b.At(a) == v;
    assert forall c :: c in l <==> c in r;
    assert l.Keys == r.Keys;
    assert forall c :: c in l ==> l[c] == r[c];
  }

  lemma NotInTopBlock(bs: seq<Block>, k: nat, a: int)
    requires Ordered(bs) && k < |bs| && bs[k].Covers(a) && bs[k].End() != TOP
    ensures !InTopBlock(bs, a)
  {
    Sides(bs, k);
  }

  lemma NothingErased(bs: seq<Block>, a: int)
    requires Ordered(bs) && forall i :: 0 <= i < |bs| && bs[i].Covers(a) ==> bs[i].End() == TOP
    ensures !InTopBlock(bs, a) ==> View(bs) - {a} == View(bs)
  {
    var h := Holder(bs, a);
  }

  /** The address lies in a block whose last byte is at 2^32 - 1. */
  ghost predicate InTopBlock(bs: seq<Block>, a: int) {
    exists i :: 0 <= i < |bs| && bs[i].Covers(a) && bs[i].End() == TOP
  }

  lemma SetInBlock(bs: seq<Block>, k: nat, c: Block, a: nat, v: byte)
    requires Ordered(bs) && k < |bs| && c.addr == bs[k].addr && a < TOP
    requires if bs[k].Covers(a) then c.bytes == bs[k].bytes[a - c.addr := v]
             else a == bs[k].End() && c.bytes == bs[k].bytes + [v]
    requires k + 1 < |bs| ==> a < bs[k + 1].addr
    ensures Ordered(bs[..k] + [c] + bs[k + 1..])
    ensures View(bs[..k] + [c] + bs[k + 1..]) == View(bs)[a := v]
  {
    Sides(bs, k);
    ReplaceBlock(bs, k, [c], c.End());
    ViewOne(c);
    SpanInView(bs, k);
    SpanUpdate(bs[k], c, a, v);
    UpdateInBlock(View(bs), Span(bs[k]), a, v);
  }

  lemma SpanUpdate(b: Block, c: Block, a: int, v: byte)
    requires c.addr == b.addr
    requires if b.Covers(a) then c.bytes == b.bytes[a - c.addr := v] else a == b.End() && c.bytes == b.bytes + [v]
    ensures Span(c) == Span(b)[a := v]
  {
    assert Span(c).Keys == Span(b)[a := v].Keys;
    forall x | x in Span(c)
      ensures Span(c)[x] == Span(b)[a := v][x]
    {
      assert c.At(x) == if x == a then v else b.At(x);
    }
  }

  ghost function Range(lo: int, hi: int): set<int> {
    set a | lo <= a <= hi && InRange(a, lo, hi)
  }

  ghost predicate InRange(a: int, lo: int, hi: int) {
    lo <= a <= hi
  }

  /** What is left of block b below lo, respectively above hi: no block where nothing is left. */
  function Front(b: Block, lo: nat): seq<Block>
    requires b.addr <= lo <= b.End()
  {
    if lo > b.addr then [Block(b.addr, b.bytes[..lo - b.addr])] else []
  }

  function Rest(b: Block, hi: nat): seq<Block>
    requires b.addr <= hi < b.End()
  {
    if b.End() - hi > 1 then [Block(hi + 1, b.bytes[hi - b.addr + 1..])] else []
  }

  /** Cutting [lo, hi] out of block k removes those addresses from the image. */
  lemma EraseInBlock(bs: seq<Block>, k: nat, lo: nat, hi: nat)
    requires Ordered(bs) && k < |bs| && bs[k].addr <= lo <= hi < bs[k].End()
    ensures Ordered(bs[..k] + (Front(bs[k], lo) + Rest(bs[k], hi)) + bs[k + 1..])
    ensures View(bs[..k] + (Front(bs[k], lo) + Rest(bs[k], hi)) + bs[k + 1..]) == View(bs) - Range(lo, hi)
  {
    var b := bs[k];
    var mid := Front(b, lo) + Rest(b, hi);
    Sides(bs, k);
    CutOrdered(b, lo, hi);
    ReplaceBlock(bs, k, mid, b.End());
    SpanInView(bs, k);
    CutView(b, lo, hi);
    RemoveInBlock(View(bs), Span(b), Range(lo, hi));
    RangeInSpan(b, lo, hi);
  }

  lemma EraseOne(bs: seq<Block>, k: nat, a: nat)
    requires Ordered(bs) && k < |bs| && bs[k].Covers(a) && bs[k].End() != TOP
    ensures Ordered(bs[..k] + (Front(bs[k], a) + Rest(bs[k], a)) + bs[k + 1..])
    ensures View(bs[..k] + (Front(bs[k], a) + Rest(bs[k], a)) + bs[k + 1..]) == View(bs) - {a}
    ensures !InTopBlock(bs, a)
  {
    EraseInBlock(bs, k, a, a);
    RangeOne(a);
    NotInTopBlock(bs, k, a);
  }

  lemma RangeInSpan(b: Block, lo: nat, hi: nat)
    requires b.addr <= lo <= hi < b.End()
    ensures Span(b).Keys * Range(lo, hi) == Range(lo, hi)
  {
  }

  lemma CutOrdered(b: Block, lo: nat, hi: nat)
    requires b.addr <= lo <= hi < b.End() <= TOP
    ensures Ordered(Front(b, lo) + Rest(b, hi))
    ensures forall i :: 0 <= i < |Front(b, lo) + Rest(b, hi)| ==>
              b.addr <= (Front(b, lo) + Rest(b, hi))[i].addr && (Front(b, lo) + Rest(b, hi))[i].End() <= b.End()
  {
    OrderedConcat(Front(b, lo), Rest(b, hi), hi + 1);
  }

  /** The part of block b in [lo, hi). */
  function Part(b: Block, lo: nat, hi: nat): Block
    requires b.addr <= lo <= hi <= b.End()
  {
    Block(lo, b.bytes[lo - b.addr..hi - b.addr])
  }

  lemma PartSpan(b: Block, lo: nat, hi: nat)
    requires b.addr <= lo <= hi <= b.End()
    ensures Span(Part(b, lo, hi)) == Slice(b, lo, hi)
  {
    var p := Part(b, lo, hi);
    assert forall a :: p.Covers(a) ==> p.At(a) == b.At(a);
  }

  /** What block b sets in [lo, hi). */
  ghost function Slice(b: Block, lo: int, hi: int): map<int, byte>
    requires b.addr <= lo <= hi <= b.End()
  {
    map a | lo <= a < hi :: b.At(a)
  }

  lemma SliceCut(b: Block, lo: int, hi: int)
    requires b.addr <= lo <= hi < b.End()
    ensures Slice(b, b.addr, lo) + Slice(b, hi + 1, b.End()) == Span(b) - Range(lo, hi)
  {
  }

  lemma CutView(b: Block, lo: nat, hi: nat)
    requires b.addr <= lo <= hi < b.End()
    ensures View(Front(b, lo) + Rest(b, hi)) == Span(b) - Range(lo, hi)
  {
    ViewConcat(Front(b, lo), Rest(b, hi));
    FrontView(b, lo);
    RestView(b, hi);
    SliceCut(b, lo, hi);
  }

  lemma FrontView(b: Block, lo: nat)
    requires b.addr <= lo <= b.End()
    ensures View(Front(b, lo)) == Slice(b, b.addr, lo)
  {
    if lo > b.addr {
      assert Front(b, lo)[0] == Part(b, b.addr, lo);
      PartSpan(b, b.addr, lo);
      ViewOne(Part(b, b.addr, lo));
    }
  }

  lemma RestView(b: Block, hi: nat)
    requires b.addr <= hi < b.End()
    ensures View(Rest(b, hi)) == Slice(b, hi + 1, b.End())
  {
    if b.End() - hi > 1 {
      assert Rest(b, hi)[0] == Part(b, hi + 1, b.End());
      PartSpan(b, hi + 1, b.End());
      ViewOne(Part(b, hi + 1, b.End()));
    }
  }

  // ----- erasing a range step by step -----

  /** bs is what is left of the image v after [lo, f) has been erased outside the top block. */
  ghost predicate Erased(bs: seq<Block>, v: map<int, byte>, lo: int, f: int, t: set<int>) {
    Ordered(bs) && TopKeys(bs) == t && View(bs) == v - (Range(lo, f - 1) - t)
  }

  /** The first i blocks end at or below f, or at 2^32. */
  ghost predicate Passed(bs: seq<Block>, i: nat, f: int) {
    i <= |bs| && forall j :: 0 <= j < i ==> bs[j].End() <= f || bs[j].End() == TOP
  }

  lemma StartErase(bs: seq<Block>, v: map<int, byte>, lo: int, t: set<int>)
    requires Ordered(bs) && v == View(bs) && t == TopKeys(bs)
    ensures Erased(bs, v, lo, lo, t)
  {
    assert v - (Range(lo, lo - 1) - t) == v;
  }

  /** No address in [f, g) is set outside the top block, so the erased range may be taken to reach g. */
  lemma SkipTo(bs: seq<Block>, i: nat, v: map<int, byte>, lo: int, f: nat, t: set<int>, g: nat)
    requires Erased(bs, v, lo, f, t) && Passed(bs, i, f) && lo <= f <= g
    requires i < |bs| && f < g ==> g <= bs[i].addr
    ensures Erased(bs, v, lo, g, t) && Passed(bs, i, g)
  {
    if f < g {
      forall a | a in View(bs) && f <= a < g
        ensures a in t
      {
        var h := Holder(bs, a);
        if i < |bs| {
          Sides(bs, i);
        }
        Sides(bs, h);
      }
      GapAlgebra(View(bs), v, lo, f, g, t);
    }
  }

  lemma GapAlgebra(w: map<int, byte>, v: map<int, byte>, lo: int, f: int, g: int, t: set<int>)
    requires lo <= f <= g && w == v - (Range(lo, f - 1) - t)
    requires forall a :: a in w && f <= a < g ==> a in t
    ensures w == v - (Range(lo, g - 1) - t)
  {
    assert forall a :: a in v && a !in w ==> a in Range(lo, f - 1) && a in Range(lo, g - 1);
  }

  /** Cutting [f, g] out of block i extends the erased range to g. */
  lemma CutFrom(bs: seq<Block>, i: nat, v: map<int, byte>, lo: int, f: nat, g: nat, t: set<int>)
    requires Erased(bs, v, lo, f, t) && i < |bs| && lo <= f && bs[i].addr <= f <= g < bs[i].End() < TOP
    ensures Erased(bs[..i] + (Front(bs[i], f) + Rest(bs[i], g)) + bs[i + 1..], v, lo, g + 1, t)
  {
    var cs := bs[..i] + (Front(bs[i], f) + Rest(bs[i], g)) + bs[i + 1..];
    EraseInBlock(bs, i, f, g);
    Sides(bs, i);
    CutAlgebra(View(bs), v, lo, f, g, t);
    TopKeysKept(bs, i, Front(bs[i], f) + Rest(bs[i], g));
  }

  /** Replacing a block by blocks below 2^32 leaves the blocks that end there as they are. */
  lemma TopKeysKept(bs: seq<Block>, i: nat, mid: seq<Block>)
    requires Ordered(bs) && i < |bs| && bs[i].End() != TOP && forall k :: 0 <= k < |mid| ==> mid[k].End() != TOP
    ensures TopKeys(bs[..i] + mid + bs[i + 1..]) == TopKeys(bs)
  {
    var cs := bs[..i] + mid + bs[i + 1..];
    Sides(bs, i);
    if i + 1 < |bs| {
      assert cs[|cs| - 1] == bs[|bs| - 1];
    } else if mid != [] {
      assert cs[|cs| - 1] == mid[|mid| - 1];
    } else if i > 0 {
      assert cs[|cs| - 1] == bs[i - 1] && bs[i - 1].End() <= bs[i].addr;
    }
  }

  /** Truncating block i at f, or dropping it if nothing is left. */
  lemma CutTail(bs: seq<Block>, i: nat, v: map<int, byte>, lo: int, f: nat, t: set<int>)
    requires Erased(bs, v, lo, f, t) && Passed(bs, i, f) && i < |bs| && lo <= f && bs[i].addr <= f < bs[i].End() < TOP
    ensures Erased(bs[..i] + Front(bs[i], f) + bs[i + 1..], v, lo, bs[i].End(), t)
    ensures Passed(bs[..i] + Front(bs[i], f) + bs[i + 1..], i + |Front(bs[i], f)|, bs[i].End())
  {
    var b := bs[i];
    CutFrom(bs, i, v, lo, f, b.End() - 1, t);
    assert Rest(b, b.End() - 1) == [];
    assert Front(b, f) + [] == Front(b, f);
    TailPassed(bs, i, f);
  }

  lemma TailPassed(bs: seq<Block>, i: nat, f: nat)
    requires Passed(bs, i, f) && i < |bs| && bs[i].addr <= f < bs[i].End()
    ensures Passed(bs[..i] + Front(bs[i], f) + bs[i + 1..], i + |Front(bs[i], f)|, bs[i].End())
  {
  }

  lemma CutAlgebra(w: map<int, byte>, v: map<int, byte>, lo: int, f: int, g: int, t: set<int>)
    requires lo <= f <= g + 1 && w == v - (Range(lo, f - 1) - t)
    requires forall a :: a in t ==> a !in Range(f, g)
    ensures w - Range(f, g) == v - (Range(lo, g) - t)
  {
    assert forall a :: a in Range(lo, g) <==> a in Range(lo, f - 1) || a in Range(f, g);
  }

  // ----- the container class -----

  class HexData {
    var blocks: seq<Block>
    var fill: byte
    var segment: bool
    var linear: bool

    ghost predicate Valid()
      reads this
    {
      Ordered(blocks)
    }

    /** The partial map this object stands for. */
    ghost function Image(): map<int, byte>
      reads this
    {
      View(blocks)
    }

    constructor ()
      ensures Valid() && Image() == map[] && blocks == [] && fill == 0 && !linear && !segment
    {
      blocks, fill, segment, linear := [], 0, false, false;
    }

    /** The reverse scan of get and set: the last block that starts at or below the address, -1 if none. */
    method LastAtOrBelow(address: nat) returns (k: int)
      requires Valid()
      ensures -1 <= k < |blocks|
      ensures k >= 0 ==> blocks[k].addr <= address
      ensures forall i :: k < i < |blocks| ==> address < blocks[i].addr
    {
      k := |blocks| - 1;
      while k >= 0 && blocks[k].addr > address
        invariant -1 <= k < |blocks|
        invariant forall i :: k < i < |blocks| ==> address < blocks[i].addr
      {
        k := k - 1;
      }
    }

    /** get: lookup with fill as the default. */
    method Get(address: nat) returns (r: byte)
      requires Valid()
      ensures r == if address in Image() then Image()[address] else fill
    {
      var k := LastAtOrBelow(address);
      if k >= 0 {
        SpanInView(blocks, k);
        Sides(blocks, k);
        if address - blocks[k].addr < |blocks[k].bytes| {
          assert address in Span(blocks[k]);
          return blocks[k].bytes[address - blocks[k].addr];
        }
      }
      ghost var h := Holder(blocks, address);
      return fill;
    }

    /** set: an update of the image; setting the fill value erases instead. */
    method Set(address: nat, value: byte)
      requires Valid() && address < TOP
      modifies `blocks
      ensures Valid()
      ensures value != fill ==> Image() == old(Image())[address := value]
      ensures value == fill ==> Image() == if InTopBlock(old(blocks), address) then old(Image())
              else old(Image()) - {address}
    {
      if value == fill {
        Erase(address);
        return;
      }
      var bs := blocks;
      var k := LastAtOrBelow(address);
      if k < 0 || address > bs[k].End() {
        NewCell(bs, k + 1, address, value);
        blocks := bs[..k + 1] + [Block(address, [value])] + bs[k + 1..];
      } else {
        var index := address - bs[k].addr;
        var bytes := bs[k].bytes;
        var c := Block(bs[k].addr, if index < |bytes| then bytes[index := value] else bytes + [value]);
        SetInBlock(bs, k, c, address, value);
        blocks := bs[..k] + [c] + bs[k + 1..];
      }
    }

    /** erase of one address. The end of a block is kept in 32 bits, so a block that ends at 2^32 seems to
        end at 0 and is passed over. */
    method Erase(address: nat)
      requires Valid() && address < TOP
      modifies `blocks
      ensures Valid()
      ensures Image() == if InTopBlock(old(blocks), address) then old(Image()) else old(Image()) - {address}
    {
      var bs := blocks;
      var i := 0;
      while i < |bs|
        invariant 0 <= i <= |bs| && blocks == bs
        invariant forall j :: 0 <= j < i && bs[j].Covers(address) ==> bs[j].End() == TOP
      {
        var b := bs[i];
        Sides(bs, i);
        if address < b.addr {
          break;
        }
        var ope := b.End() % TOP;
        if address < ope {
          EraseOne(bs, i, address);
          blocks := bs[..i] + (Front(b, address) + Rest(b, address)) + bs[i + 1..];
          return;
        }
        i := i + 1;
      }
      NothingErased(bs, address);
    }

    /** erase of a range, given in either order. Blocks that end at 2^32 are passed over here, too. */
    method EraseRange(from: nat, to: nat)
      requires Valid() && from < TOP && to < TOP
      modifies `blocks
      ensures Valid()
      ensures Image() == old(Image()) - (Range(if from <= to then from else to, if from <= to then to
              else from) - TopKeys(old(blocks)))
    {
      if from > to {
        Sweep(to, from);
      } else {
        Sweep(from, to);
      }
    }

    /** The loop of that erase, from low to high addresses. */
    method Sweep(lo: nat, last: nat)
      requires Valid() && lo <= last < TOP
      modifies `blocks
      ensures Valid()
      ensures Image() == old(Image()) - (Range(lo, last) - TopKeys(old(blocks)))
    {
      var bs, i, first := blocks, 0, lo;
      ghost var v, t := View(bs), TopKeys(bs);
      StartErase(bs, v, lo, t);
      while i < |bs| && first <= last
        invariant 0 <= i <= |bs| && lo <= first <= last + 1
        invariant Erased(bs, v, lo, first, t) && Passed(bs, i, first)
        decreases if first <= last then |bs| - i + 1 else 0
      {
        bs, i, first := EraseStep(bs, i, first, last, v, lo, t);
      }
      SkipTo(bs, i, v, lo, first, t, last + 1);
      blocks := bs;
    }

    /** The body of that loop on block i; `next` is the next address to erase, last + 1 when done. */
    static method EraseStep(bs: seq<Block>, i: nat, first: nat, last: nat,
                            ghost v: map<int, byte>, ghost lo: int, ghost t: set<int>)
      returns (cs: seq<Block>, k: nat, next: nat)
      requires i < |bs| && lo <= first <= last < TOP && Erased(bs, v, lo, first, t) && Passed(bs, i, first)
      ensures k <= |cs| && first <= next <= last + 1
      ensures Erased(cs, v, lo, next, t) && Passed(cs, k, next)
      ensures next == last + 1 || |cs| - k < |bs| - i
    {
      var b := bs[i];
      var ope := b.End() % TOP;
      if first >= ope {
        return bs, i + 1, first;
      }
      assert ope == b.End();
      if last < b.addr {
        SkipTo(bs, i, v, lo, first, t, last + 1);
        return bs, i, last + 1;
      }
      var from := if first < b.addr then b.addr else first;
      SkipTo(bs, i, v, lo, first, t, from);
      cs, k, next := EraseHere(bs, i, from, last, v, lo, t);
    }

    /** Block i holds the first address to erase: cut the range out of it, or its tail off. */
    static method EraseHere(bs: seq<Block>, i: nat, from: nat, last: nat,
                            ghost v: map<int, byte>, ghost lo: int, ghost t: set<int>)
      returns (cs: seq<Block>, k: nat, next: nat)
      requires i < |bs| && lo <= from <= last && Erased(bs, v, lo, from, t) && Passed(bs, i, from)
      requires bs[i].addr <= from < bs[i].End() < TOP
      ensures k <= |cs| && from <= next <= last + 1
      ensures Erased(cs, v, lo, next, t) && Passed(cs, k, next)
      ensures next == last + 1 || |cs| - k < |bs| - i
    {
      var b := bs[i];
      if last < b.End() {
        CutFrom(bs, i, v, lo, from, last, t);
        PassedFront(bs, i, from, last);
        return bs[..i] + (Front(b, from) + Rest(b, last)) + bs[i + 1..], i, last + 1;
      }
      CutTail(bs, i, v, lo, from, t);
      return bs[..i] + Front(b, from) + bs[i + 1..], i + |Front(b, from)|, b.End();
    }

    /** compact: merge blocks that touch. On an empty container the source steps past the end, so there
        must be a block. */
    method Compact()
      requires Valid() && blocks != []
      modifies `blocks
      ensures Valid() && Image() == old(Image())
      ensures Apart(blocks, |blocks|)
    {
      var bs := blocks;
      var previous := 0;
      while previous + 1 < |bs|
        invariant 0 <= previous < |bs| && Ordered(bs) && View(bs) == View(blocks) && blocks == old(blocks)
        invariant Apart(bs, previous + 1)
        decreases |bs| - previous
      {
        var i := previous + 1;
        if bs[previous].End() == bs[i].addr {
          MergeBlocks(bs, previous);
          var merged := Block(bs[previous].addr, bs[previous].bytes + bs[i].bytes);
          bs := bs[..previous] + [merged] + bs[i + 1..];
        } else {
          assert Before(bs[previous], bs[i]);
          previous := i;
        }
      }
      blocks := bs;
    }

    /** tidy: split blocks longer than the given length. */
    method Tidy(length: nat)
      requires Valid() && length >= 1
      modifies `blocks
      ensures Valid() && Image() == old(Image())
      ensures forall i :: 0 <= i < |blocks| ==> |blocks[i].bytes| <= length
    {
      var bs := blocks;
      var i := 0;
      while i < |bs|
        invariant 0 <= i <= |bs| && Ordered(bs) && View(bs) == View(blocks) && blocks == old(blocks)
        invariant forall j :: 0 <= j < i ==> |bs[j].bytes| <= length
        decreases Longer(bs[i..], length), |bs| - i
      {
        var b := bs[i];
        if |b.bytes| > length {
          SplitBlock(bs, i, length);
          SplitShorter(bs, i, length);
          bs := bs[..i] + Halves(b, length) + bs[i + 1..];
        } else {
          assert bs[i..][1..] == bs[i + 1..];
        }
        i := i + 1;
      }
      blocks := bs;
    }

    /** size: the number of addresses that are set. */
    method Size() returns (n: nat)
      requires Valid()
      ensures n == |Image()|
    {
      n := 0;
      for i := 0 to |blocks|
        invariant n == |View(blocks[..i])|
      {
        CountNext(blocks, i, TOP);
        n := n + |blocks[i].bytes|;
      }
      assert blocks[..|blocks|] == blocks;
    }

    /** size_below_addr: the number of addresses below addr that are set. */
    method SizeBelow(addr: nat) returns (n: nat)
      requires Valid()
      ensures n == |Below(Image(), addr)|
    {
      n := 0;
      for i := 0 to |blocks|
        invariant n == |Below(View(blocks[..i]), addr)|
      {
        CountNext(blocks, i, addr);
        if blocks[i].End() < addr {
          n := n + |blocks[i].bytes|;
        } else if blocks[i].addr < addr {
          n := n + addr - blocks[i].addr;
        }
      }
      assert blocks[..|blocks|] == blocks;
    }

    /** max_addr_below: the greatest address at or below hi that is set, 0 if there is none. */
    method MaxBelow(hi: nat) returns (s: nat)
      requires Valid()
      ensures forall a :: a in Image() && a <= hi ==> a <= s
      ensures (s in Image() && s <= hi) || (s == 0 && forall a :: a in Image() ==> a > hi)
    {
      s := 0;
      ghost var best := -1;
      for i := 0 to |blocks|
        invariant -1 <= best < i && (best >= 0 ==> blocks[best].addr <= hi && s == blocks[best].End() - 1)
        invariant best == -1 ==> s == 0
        invariant forall j :: 0 <= j < i && blocks[j].addr <= hi ==> best >= 0 && blocks[j].End() - 1 <= s
      {
        if blocks[i].addr <= hi {
          var a := blocks[i].End() - 1;
          if a > s || best == -1 {
            best := i;
          }
          if a > s {
            s := a;
          }
        }
      }
      MaxIs(blocks, best, hi);
      if s > hi {
        s := hi;
      }
    }
  }

  /** For instance, the byte at the last address is set but not erased. */
  method LastByteStays() returns (d: HexData)
    ensures fresh(d) && d.Valid() && TOP - 1 in d.Image()
  {
    d := new HexData();
    d.Set(TOP - 1, 7);
    TopByte(d.blocks);
    d.Erase(TOP - 1);
  }
}

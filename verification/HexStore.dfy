/** How a data record read from an Intel HEX file is stored among the blocks of an image, and exactly when that
    overlays the record's bytes on the image. */
module HexStore {
  import opened Bytes
  import opened HexImage

  /** Index of the first block that does not start below the address. */
  function Position(bs: seq<Block>, address: nat): (k: nat)
    ensures k <= |bs|
  {
    if bs == [] || bs[0].addr >= address then 0 else 1 + Position(bs[1..], address)
  }

  /** std::map's operator[] followed by assign. */
  function Assign(bs: seq<Block>, address: nat, data: seq<byte>): (cs: seq<Block>)
    ensures |bs| <= |cs|
  {
    var k := Position(bs, address);
    if k < |bs| && bs[k].addr == address then bs[k := Block(address, data)]
        else bs[..k] + [Block(address, data)] + bs[k..]
  }

  /** Block b with the bytes d at address a, all inside the block. */
  function Over(b: Block, a: nat, d: seq<byte>): (c: Block)
    requires b.Covers(a) && a + |d| <= b.End()
    ensures c.addr == b.addr && c.End() == b.End()
  {
    Block(b.addr, b.bytes[..a - b.addr] + d + b.bytes[a - b.addr + |d|..])
  }

  /** State of the loop of read that stores a data record: the blocks, the next of them to look at, and
      the address and bytes still to be stored. */
  datatype Cursor = Cursor(blocks: seq<Block>, i: nat, address: nat, data: seq<byte>) {
    predicate Active() { i < |blocks| && data != [] }

    /** The address behind the record. */
    function Stop(): nat { address + |data| }
  }

  /** The body of that loop. */
  function StoreStep(c: Cursor): (d: Cursor)
    requires c.Active()
    ensures |d.blocks| - d.i < |c.blocks| - c.i
  {
    var b := c.blocks[c.i];
    if b.Covers(c.address) then
      var num := if b.End() - c.address > |c.data| then |c.data| else b.End() - c.address;
      Cursor(c.blocks[c.i := Over(b, c.address, c.data[..num])], c.i + 1, (c.address + num) % TOP, c.data[num..])
    else if c.address < b.addr && (c.address + |c.data|) % TOP > b.addr then
      var num := if b.addr - c.address > |c.data| then |c.data| else b.addr - c.address;
      var bs := Assign(c.blocks, c.address, c.data[..num]);
      Cursor(bs, c.i + 1 + (|bs| - |c.blocks|), (c.address + num) % TOP, c.data[num..])
    else Cursor(c.blocks, c.i + 1, c.address % TOP, c.data)
  }

  /** The whole loop and the assignment of leftover bytes behind it. */
  function Store(c: Cursor): seq<Block>
    decreases |c.blocks| - c.i
  {
    if c.data == [] then c.blocks
    else if c.i >= |c.blocks| then Assign(c.blocks, c.address, c.data)
    else Store(StoreStep(c))
  }

  /** The part of read that stores a data record, as the source runs it. */
  method StoreRecord(blocks: seq<Block>, start: nat, record: seq<byte>) returns (bs: seq<Block>)
    ensures bs == Store(Cursor(blocks, 0, start, record))
  {
    var c := Cursor(blocks, 0, start, record);
    while c.i < |c.blocks| && c.data != []
      invariant Store(Cursor(blocks, 0, start, record)) == Store(c)
      decreases |c.blocks| - c.i
    {
      c := StoreOne(c);
    }
    bs := if c.data != [] then Assign(c.blocks, c.address, c.data) else c.blocks;
  }

  method StoreOne(c: Cursor) returns (d: Cursor)
    requires c.Active()
    ensures d == StoreStep(c)
  {
    var bs, i, b, num := c.blocks, c.i, c.blocks[c.i], 0;
    if b.addr <= c.address && b.End() > c.address {
      var index := c.address - b.addr;
      num := |b.bytes| - index;
      if num > |c.data| {
        num := |c.data|;
      }
      bs := bs[i := Block(b.addr, b.bytes[..index] + c.data[..num] + b.bytes[index + num..])];
    }
    if c.address < b.addr && (c.address + |c.data|) % TOP > b.addr {
      num := b.addr - c.address;
      if num > |c.data| {
        num := |c.data|;
      }
      bs := Assign(bs, c.address, c.data[..num]);
      i := i + (|bs| - |c.blocks|);
    }
    d := Cursor(bs, i + 1, (c.address + num) % TOP, c.data[num..]);
  }

  // ----- single steps -----

  lemma {:induction false} PositionAt(bs: seq<Block>, address: nat, k: nat)
    requires k <= |bs| && (forall i :: 0 <= i < k ==> bs[i].addr < address) && (k < |bs| ==> bs[k].addr >= address)
    ensures Position(bs, address) == k
    decreases k
  {
    if k > 0 {
      PositionAt(bs[1..], address, k - 1);
    }
  }

  lemma Unfold(c: Cursor)
    requires c.Active()
    ensures Store(c) == Store(StoreStep(c))
  {
  }

  /** The first n blocks end at or below the address. */
  ghost predicate Behind(bs: seq<Block>, n: nat, a: nat) {
    n <= |bs| && forall j :: 0 <= j < n ==> bs[j].End() <= a
  }

  lemma BehindPosition(bs: seq<Block>, k: nat, a: nat)
    requires Ordered(bs) && Behind(bs, k, a) && (k < |bs| ==> bs[k].addr >= a)
    ensures Position(bs, a) == k
  {
    assert forall j :: 0 <= j < k ==> bs[j].bytes != [] && bs[j].End() <= a;
    PositionAt(bs, a, k);
  }

  lemma BlockPosition(bs: seq<Block>, k: nat)
    requires Ordered(bs) && k < |bs|
    ensures Position(bs, bs[k].addr) == k
  {
    Sides(bs, k);
    BehindPosition(bs, k, bs[k].addr);
  }

  /** Neither test of the loop succeeds. */
  ghost predicate Passes(b: Block, a: nat, n: nat) {
    !b.Covers(a) && !(a < b.addr && (a + n) % TOP > b.addr)
  }

  lemma PassStep(c: Cursor)
    requires c.Active() && c.address < TOP && Passes(c.blocks[c.i], c.address, |c.data|)
    ensures StoreStep(c) == c.(i := c.i + 1)
  {
  }

  lemma CoverAllStep(c: Cursor)
    requires c.Active() && c.blocks[c.i].Covers(c.address) && c.address + |c.data| <= c.blocks[c.i].End()
    ensures var d := StoreStep(c); d.blocks == c.blocks[c.i := Over(c.blocks[c.i], c.address, c.data)] && d.data == []
  {
    assert c.data[..|c.data|] == c.data;
  }

  lemma CoverStep(c: Cursor)
    requires c.Active() && c.blocks[c.i].Covers(c.address) && c.blocks[c.i].End() < c.address + |c.data| <= TOP
    ensures var b := c.blocks[c.i];
            var n := b.End() - c.address;
            StoreStep(c) == Cursor(c.blocks[c.i := Over(b, c.address, c.data[..n])], c.i + 1, b.End(), c.data[n..])
  {
  }

  /** The loop comes to a block that starts inside the record, but not at its start. */
  ghost predicate Meets(c: Cursor) {
    Ordered(c.blocks) && c.Active() && c.address < c.blocks[c.i].addr < c.address + |c.data| < TOP
  }

  lemma NewStep(c: Cursor)
    requires Meets(c) && Behind(c.blocks, c.i, c.address)
    ensures var b := c.blocks[c.i];
            var n := b.addr - c.address;
            StoreStep(c) == Cursor(c.blocks[..c.i] + [Block(c.address, c.data[..n])] + c.blocks[c.i..], c.i + 2,
                b.addr, c.data[n..])
  {
    BehindPosition(c.blocks, c.i, c.address);
  }

  lemma ReplaceStep(c: Cursor)
    requires Meets(c) && c.i > 0 && c.blocks[c.i - 1].addr == c.address
    ensures var b := c.blocks[c.i];
            var n := b.addr - c.address;
            StoreStep(c) == Cursor(c.blocks[c.i - 1 := Block(c.address, c.data[..n])], c.i + 1, b.addr, c.data[n..])
  {
    BlockPosition(c.blocks, c.i - 1);
  }

  // ----- runs of steps -----

  lemma {:induction false} PassBehind(c: Cursor, k: nat)
    requires c.i <= k && Behind(c.blocks, k, c.address) && c.address < TOP && c.data != []
    ensures Store(c) == Store(c.(i := k))
    decreases k - c.i
  {
    if c.i < k {
      PassStep(c);
      Unfold(c);
      PassBehind(c.(i := c.i + 1), k);
    } else {
      assert c == c.(i := k);
    }
  }

  /** The bytes go into a gap: before the next block, or up to 2^32, where the sum wraps and no block is noticed. */
  lemma {:induction false} StoreGap(c: Cursor, k: nat)
    requires Ordered(c.blocks) && k <= c.i <= |c.blocks| && Behind(c.blocks, k, c.address) && c.address < TOP
             && c.data != []
    requires k < |c.blocks| ==>
               c.address < c.blocks[k].addr && (c.address + |c.data| == TOP || c.address + |c.data| <= c.blocks[k].addr)
    ensures Store(c) == c.blocks[..k] + [Block(c.address, c.data)] + c.blocks[k..]
    decreases |c.blocks| - c.i
  {
    if c.i == |c.blocks| {
      BehindPosition(c.blocks, k, c.address);
    } else {
      AtOrAfter(c.blocks, k, c.i);
      PassStep(c);
      Unfold(c);
      StoreGap(c.(i := c.i + 1), k);
    }
  }

  lemma AtOrAfter(bs: seq<Block>, k: nat, i: nat)
    requires Ordered(bs) && k <= i < |bs|
    ensures bs[k].addr <= bs[i].addr
  {
    Sides(bs, k);
  }

  /** A record above all blocks becomes a new block at the end. */
  lemma StoreAppend(bs: seq<Block>, a: nat, d: seq<byte>)
    requires Ordered(bs) && Behind(bs, |bs|, a) && a < TOP && d != []
    ensures Store(Cursor(bs, 0, a, d)) == bs + [Block(a, d)]
  {
    PassBehind(Cursor(bs, 0, a, d), |bs|);
    StoreGap(Cursor(bs, |bs|, a, d), |bs|);
    assert bs[..|bs|] == bs && bs[|bs|..] == [];
  }

  /** The last bytes replace a block that has been passed. */
  lemma {:induction false} StoreReplace(c: Cursor, k: nat)
    requires Ordered(c.blocks) && k < c.i <= |c.blocks| && c.blocks[k].addr == c.address && c.address < TOP
             && c.data != []
    requires c.address + |c.data| < TOP && (k + 1 < |c.blocks| ==> c.address + |c.data| <= c.blocks[k + 1].addr)
    ensures Store(c) == c.blocks[k := Block(c.address, c.data)]
    decreases |c.blocks| - c.i
  {
    if c.i == |c.blocks| {
      BlockPosition(c.blocks, k);
    } else {
      AtOrAfter(c.blocks, k + 1, c.i);
      PassStep(c);
      Unfold(c);
      StoreReplace(c.(i := c.i + 1), k);
    }
  }

  // ----- what the steps do to the image -----

  /** cs is the image bs with the bytes d laid over it at a. */
  ghost predicate Overlays(bs: seq<Block>, a: nat, d: seq<byte>, cs: seq<Block>) {
    Ordered(cs) && View(cs) == View(bs) + Span(Block(a, d))
  }

  lemma OverlayNone(bs: seq<Block>, a: nat)
    requires Ordered(bs)
    ensures Overlays(bs, a, [], bs)
  {
    var none := Span(Block(a, []));
    assert none.Keys == {};
    assert View(bs) + none == View(bs);
  }

  lemma SpanAt(a: nat, d: seq<byte>, c: int)
    ensures c in Span(Block(a, d)) <==> a <= c < a + |d|
    ensures a <= c < a + |d| ==> Span(Block(a, d))[c] == d[c - a]
  {
  }

  lemma SpanConcat(a: nat, d: seq<byte>, n: nat)
    requires n <= |d|
    ensures Span(Block(a, d)) == Span(Block(a, d[..n])) + Span(Block(a + n, d[n..]))
  {
    var l, r := Span(Block(a, d)), Span(Block(a, d[..n])) + Span(Block(a + n, d[n..]));
    forall c: int
      ensures (c in l <==> c in r) && (c in l ==> l[c] == r[c])
    {
      SpanAt(a, d, c);
      SpanAt(a, d[..n], c);
      SpanAt(a + n, d[n..], c);
    }
    assert l.Keys == r.Keys;
  }

  /** Laying over in two parts. */
  lemma OverlayTwice(bs: seq<Block>, a: nat, d: seq<byte>, n: nat, cs: seq<Block>, ds: seq<Block>)
    requires n <= |d| && Overlays(bs, a, d[..n], cs) && Overlays(cs, a + n, d[n..], ds)
    ensures Overlays(bs, a, d, ds)
  {
    SpanConcat(a, d, n);
    MergeAssoc(View(bs), Span(Block(a, d[..n])), Span(Block(a + n, d[n..])));
  }

  lemma SpanOver(b: Block, a: nat, d: seq<byte>)
    requires b.Covers(a) && a + |d| <= b.End()
    ensures Span(Over(b, a, d)) == Span(b) + Span(Block(a, d))
  {
    var l, r := Span(Over(b, a, d)), Span(b) + Span(Block(a, d));
    forall c: int
      ensures (c in l <==> c in r) && (c in l ==> l[c] == r[c])
    {
      SpanAt(b.addr, Over(b, a, d).bytes, c);
      SpanAt(b.addr, b.bytes, c);
      SpanAt(a, d, c);
      assert b == Block(b.addr, b.bytes) && Over(b, a, d) == Block(b.addr, Over(b, a, d).bytes);
      if b.Covers(c) {
        OverAt(b.bytes, a - b.addr, d, c - b.addr);
      }
    }
    assert l.Keys == r.Keys;
  }

  lemma OverAt(s: seq<byte>, i: nat, d: seq<byte>, k: nat)
    requires i + |d| <= |s| && k < |s|
    ensures (s[..i] + d + s[i + |d|..])[k] == if i <= k < i + |d| then d[k - i] else s[k]
  {
  }

  lemma UpdateKeys(v: map<int, byte>, s: map<int, byte>, m: map<int, byte>)
    requires s.Keys <= v.Keys && forall c :: c in s ==> v[c] == s[c]
    ensures v - s.Keys + (s + m) == v + m
    ensures s.Keys <= m.Keys ==> v - s.Keys + m == v + m
  {
    var l, r := v - s.Keys + (s + m), v + m;
    assert forall c :: c in l <==> c in r;
    assert forall c :: c in l ==> l[c] == r[c];
    if s.Keys <= m.Keys {
      var k := v - s.Keys + m;
      assert forall c :: c in k <==> c in r;
      assert forall c :: c in k ==> k[c] == r[c];
    }
  }

  lemma PutBlock(bs: seq<Block>, k: nat, c: Block)
    requires Ordered(bs) && k < |bs| && c.addr == bs[k].addr && c.bytes != [] && bs[k].End() <= c.End() <= TOP
    requires k + 1 < |bs| ==> c.End() <= bs[k + 1].addr
    ensures Ordered(bs[k := c]) && View(bs[k := c]) == View(bs) - Span(bs[k]).Keys + Span(c)
    ensures Span(bs[k]).Keys <= View(bs).Keys && forall x :: x in Span(bs[k]) ==> View(bs)[x] == Span(bs[k])[x]
  {
    assert bs[k := c] == bs[..k] + [c] + bs[k + 1..];
    ReplaceBlock(bs, k, [c], c.End());
    ViewOne(c);
    SpanInView(bs, k);
  }

  lemma OverView(bs: seq<Block>, k: nat, a: nat, d: seq<byte>)
    requires Ordered(bs) && k < |bs| && bs[k].Covers(a) && a + |d| <= bs[k].End()
    ensures Overlays(bs, a, d, bs[k := Over(bs[k], a, d)])
    ensures View(bs[k := Over(bs[k], a, d)]).Keys == View(bs).Keys
  {
    Sides(bs, k);
    PutBlock(bs, k, Over(bs[k], a, d));
    SpanOver(bs[k], a, d);
    UpdateKeys(View(bs), Span(bs[k]), Span(Block(a, d)));
    assert forall c :: c in Span(Block(a, d)) ==> c in Span(bs[k]);
  }

  lemma GrowView(bs: seq<Block>, k: nat, d: seq<byte>)
    requires Ordered(bs) && k < |bs| && bs[k].End() <= bs[k].addr + |d| <= TOP
    requires k + 1 < |bs| ==> bs[k].addr + |d| <= bs[k + 1].addr
    ensures Overlays(bs, bs[k].addr, d, bs[k := Block(bs[k].addr, d)])
  {
    var c := Block(bs[k].addr, d);
    assert |bs[k].bytes| > 0;
    PutBlock(bs, k, c);
    assert forall x :: x in Span(bs[k]) ==> x in Span(c);
    UpdateKeys(View(bs), Span(bs[k]), Span(c));
  }

  /** From c to d some bytes have been laid over the image, and the rest is still to be stored. */
  ghost predicate Moves(c: Cursor, d: Cursor) {
    exists n :: MovesBy(c, d, n)
  }

  ghost predicate MovesBy(c: Cursor, d: Cursor, n: int) {
    && 0 < n < |c.data| && d.address == c.address + n && d.data == c.data[n..]
    && Overlays(c.blocks, c.address, c.data[..n], d.blocks)
  }

  lemma MoveOn(c: Cursor, d: Cursor, cs: seq<Block>)
    requires Moves(c, d) && Overlays(d.blocks, d.address, d.data, cs)
    ensures Overlays(c.blocks, c.address, c.data, cs)
  {
    var n :| MovesBy(c, d, n);
    OverlayTwice(c.blocks, c.address, c.data, n, d.blocks, cs);
  }

  lemma MovesStop(c: Cursor, d: Cursor)
    requires Moves(c, d)
    ensures c.address < d.address && d.data != [] && d.Stop() == c.Stop()
  {
  }

  // ----- after a block has been passed -----

  /** The block before the cursor starts where the rest of the record does, and the loop will not look at it again. */
  ghost predicate Overtaken(c: Cursor) {
    && Ordered(c.blocks) && 0 < c.i <= |c.blocks| && c.blocks[c.i - 1].addr == c.address
    && c.data != [] && c.Stop() < TOP
  }

  /** Block b begins below the end of a record and goes on behind it. */
  ghost predicate Cut(b: Block, end: nat) {
    b.addr < end < b.End()
  }

  /** From index k on, no block that starts inside the record goes on behind it. */
  ghost predicate NoCut(c: Cursor, k: nat) {
    forall j :: k <= j < |c.blocks| ==> !Cut(c.blocks[j], c.Stop())
  }

  lemma ReplacedOverlay(c: Cursor) returns (d: Cursor)
    requires Overtaken(c) && c.i < |c.blocks| && c.blocks[c.i].addr < c.Stop()
    ensures StoreStep(c) == d && MovesBy(c, d, c.blocks[c.i].addr - c.address)
    ensures d.i == c.i + 1 && d.blocks == c.blocks[c.i - 1 := d.blocks[c.i - 1]]
  {
    var n := c.blocks[c.i].addr - c.address;
    Sides(c.blocks, c.i);
    assert |c.blocks[c.i - 1].bytes| > 0;
    ReplaceStep(c);
    GrowView(c.blocks, c.i - 1, c.data[..n]);
    d := Cursor(c.blocks[c.i - 1 := Block(c.address, c.data[..n])], c.i + 1, c.blocks[c.i].addr, c.data[n..]);
  }

  /** The loop comes to another block that starts inside the record. */
  lemma OvertakenStep(c: Cursor) returns (d: Cursor)
    requires Overtaken(c) && c.i < |c.blocks| && c.blocks[c.i].addr < c.Stop()
    ensures Store(c) == Store(d) && Moves(c, d) && Overtaken(d) && d.i == c.i + 1 && d.Stop() == c.Stop()
    ensures |d.blocks| == |c.blocks| && d.blocks[c.i..] == c.blocks[c.i..]
  {
    d := ReplacedOverlay(c);
    Unfold(c);
    MovesStop(c, d);
  }

  lemma OvertakenLast(c: Cursor)
    requires Overtaken(c) && (c.i < |c.blocks| ==> c.blocks[c.i].addr >= c.Stop())
    ensures Store(c) == c.blocks[c.i - 1 := Block(c.address, c.data)]
    ensures !Cut(c.blocks[c.i - 1], c.Stop()) ==> Overlays(c.blocks, c.address, c.data, Store(c))
  {
    StoreReplace(c, c.i - 1);
    if !Cut(c.blocks[c.i - 1], c.Stop()) {
      GrowView(c.blocks, c.i - 1, c.data);
    }
  }

  lemma SameTail(c: Cursor, d: Cursor, k: nat, m: nat)
    requires k <= |c.blocks| && m <= |d.blocks| && d.blocks[m..] == c.blocks[k..] && d.Stop() == c.Stop()
    ensures NoCut(c, k) <==> NoCut(d, m)
    ensures forall j :: k <= j < |c.blocks| ==> m + j - k < |d.blocks| && d.blocks[m + j - k] == c.blocks[j]
  {
    forall j | k <= j < |c.blocks|
      ensures m + j - k < |d.blocks| && d.blocks[m + j - k] == c.blocks[j]
      ensures NoCut(d, m) ==> !Cut(c.blocks[j], c.Stop())
    {
      assert d.blocks[m..][j - k] == c.blocks[k..][j - k];
    }
    forall j | m <= j < |d.blocks|
      ensures NoCut(c, k) ==> !Cut(d.blocks[j], d.Stop())
    {
      assert d.blocks[m..][j - m] == c.blocks[k..][j - m];
    }
  }

  lemma {:induction false} StoreOvertaken(c: Cursor)
    requires Overtaken(c) && NoCut(c, c.i - 1)
    ensures Overlays(c.blocks, c.address, c.data, Store(c))
    decreases |c.blocks| - c.i
  {
    if c.i == |c.blocks| || c.blocks[c.i].addr >= c.Stop() {
      OvertakenLast(c);
    } else {
      var d := OvertakenStep(c);
      SameTail(c, d, c.i, c.i);
      StoreOvertaken(d);
      MoveOn(c, d, Store(d));
    }
  }

  lemma {:induction false} Uncovered(bs: seq<Block>, x: int)
    requires forall k :: 0 <= k < |bs| ==> !bs[k].Covers(x)
    ensures x !in View(bs)
  {
    if bs != [] {
      Uncovered(bs[1..], x);
    }
  }

  lemma CutLoses(bs: seq<Block>, k: nat, d: seq<byte>)
    requires Ordered(bs) && k < |bs| && Cut(bs[k], bs[k].addr + |d|)
    ensures bs[k].addr + |d| !in View(bs[k := Block(bs[k].addr, d)])
  {
    Sides(bs, k);
    Uncovered(bs[k := Block(bs[k].addr, d)], bs[k].addr + |d|);
  }

  /** A block that is cut loses its bytes behind the record. */
  lemma {:induction false} StoreCuts(c: Cursor, j: nat)
    requires Overtaken(c) && c.i - 1 <= j < |c.blocks| && Cut(c.blocks[j], c.Stop())
    ensures c.Stop() !in View(Store(c))
    decreases |c.blocks| - c.i
  {
    if j == c.i - 1 {
      Sides(c.blocks, j);
      OvertakenLast(c);
      CutLoses(c.blocks, j, c.data);
    } else {
      AtOrAfter(c.blocks, c.i, j);
      var d := OvertakenStep(c);
      SameTail(c, d, c.i, c.i);
      StoreCuts(d, j);
    }
  }

  // ----- the whole record -----

  /** Some address in [lo, hi) is not set. */
  ghost predicate Gap(bs: seq<Block>, lo: int, hi: int) {
    exists x :: lo <= x < hi && x !in View(bs)
  }

  /** Block b starts inside a record of n bytes at a, behind an address of the record that was not set, and the
      record ends inside b or at 2^32. */
  ghost predicate ClippedBy(bs: seq<Block>, b: Block, a: nat, n: nat) {
    a < b.addr < a + n && Gap(bs, a, b.addr) && (a + n < b.End() || a + n == TOP)
  }

  ghost predicate Clipped(bs: seq<Block>, a: nat, n: nat) {
    exists j :: 0 <= j < |bs| && ClippedBy(bs, bs[j], a, n)
  }

  /** Writing inside block i does not change what is clipped behind it. */
  lemma ClippedBehind(bs: seq<Block>, i: nat, c: Block, a: nat, n: nat)
    requires Ordered(bs) && i < |bs| && bs[i].Covers(a) && bs[i].End() < a + n
    requires c.addr == bs[i].addr && c.End() == bs[i].End() && View(bs[i := c]).Keys == View(bs).Keys
    ensures Clipped(bs[i := c], c.End(), a + n - c.End()) <==> Clipped(bs, a, n)
  {
    var cs, e := bs[i := c], c.End();
    Sides(bs, i);
    SpanInView(bs, i);
    assert forall x :: a <= x < e ==> x in Span(bs[i]);
    if j :| 0 <= j < |cs| && ClippedBy(cs, cs[j], e, a + n - e) {
      assert Gap(bs, a, bs[j].addr);
      assert ClippedBy(bs, bs[j], a, n);
    }
    if j :| 0 <= j < |bs| && ClippedBy(bs, bs[j], a, n) {
      assert j > i;
      assert Gap(cs, e, cs[j].addr);
      assert e < cs[j].addr;
      assert ClippedBy(cs, cs[j], e, a + n - e);
    }
  }

  /** The cursor has come no further than the first block that does not lie behind the address. */
  ghost predicate Clean(c: Cursor) {
    && Ordered(c.blocks) && c.i <= |c.blocks| && Behind(c.blocks, c.i, c.address)
    && c.address < TOP && c.data != [] && c.Stop() <= TOP
  }

  lemma BehindStep(c: Cursor)
    requires Clean(c) && c.i < |c.blocks| && c.blocks[c.i].End() <= c.address
    ensures Clean(c.(i := c.i + 1)) && Store(c) == Store(c.(i := c.i + 1)) && c.(i := c.i + 1).Stop() == c.Stop()
  {
    PassBehind(c, c.i + 1);
  }

  /** A record that starts outside all blocks and ends before the next one. */
  lemma StoreInGap(c: Cursor)
    requires Clean(c) && (c.i < |c.blocks| ==> c.Stop() <= c.blocks[c.i].addr)
    ensures Overlays(c.blocks, c.address, c.data, Store(c))
  {
    StoreGap(c, c.i);
    InsertBlock(c.blocks, c.i, Block(c.address, c.data));
  }

  /** At 2^32 the sum wraps to 0, so a block inside the record goes unnoticed and is overlapped. */
  lemma StoreOverlaps(c: Cursor)
    requires Clean(c) && c.i < |c.blocks| && c.address < c.blocks[c.i].addr && c.Stop() == TOP
    ensures !Ordered(Store(c))
  {
    StoreGap(c, c.i);
    var cs := Store(c);
    assert cs[c.i] == Block(c.address, c.data) && cs[c.i + 1] == c.blocks[c.i];
    assert !Before(cs[c.i], cs[c.i + 1]);
  }

  lemma NewOverlay(c: Cursor) returns (d: Cursor)
    requires Clean(c) && Meets(c)
    ensures StoreStep(c) == d && MovesBy(c, d, c.blocks[c.i].addr - c.address)
    ensures d.i == c.i + 2 && |d.blocks| == |c.blocks| + 1 && d.blocks[c.i + 1..] == c.blocks[c.i..]
  {
    var n := c.blocks[c.i].addr - c.address;
    var b := Block(c.address, c.data[..n]);
    NewStep(c);
    InsertBlock(c.blocks, c.i, b);
    d := Cursor(c.blocks[..c.i] + [b] + c.blocks[c.i..], c.i + 2, c.blocks[c.i].addr, c.data[n..]);
  }

  /** A record that starts in a gap and runs into the next block: a new block takes the bytes up to there. */
  lemma GapStep(c: Cursor) returns (d: Cursor)
    requires Clean(c) && Meets(c)
    ensures Store(c) == Store(d) && Moves(c, d) && Overtaken(d) && d.i == c.i + 2 && d.Stop() == c.Stop()
    ensures |d.blocks| == |c.blocks| + 1 && d.blocks[c.i + 1..] == c.blocks[c.i..]
  {
    d := NewOverlay(c);
    Unfold(c);
    MovesStop(c, d);
    assert d.blocks[c.i + 1] == d.blocks[c.i + 1..][0];
  }

  lemma InnerOverlay(c: Cursor) returns (d: Cursor)
    requires Clean(c) && c.i < |c.blocks| && c.blocks[c.i].Covers(c.address) && c.blocks[c.i].End() < c.Stop()
    ensures StoreStep(c) == d && MovesBy(c, d, c.blocks[c.i].End() - c.address) && d.i == c.i + 1
    ensures d.blocks == c.blocks[c.i := d.blocks[c.i]] && d.blocks[c.i].End() == c.blocks[c.i].End() == d.address
    ensures d.blocks[c.i].addr == c.blocks[c.i].addr && View(d.blocks).Keys == View(c.blocks).Keys
  {
    var b, n := c.blocks[c.i], c.blocks[c.i].End() - c.address;
    CoverStep(c);
    OverView(c.blocks, c.i, c.address, c.data[..n]);
    d := Cursor(c.blocks[c.i := Over(b, c.address, c.data[..n])], c.i + 1, b.End(), c.data[n..]);
  }

  /** A record that starts inside a block and goes on behind it. */
  lemma InnerStep(c: Cursor) returns (d: Cursor)
    requires Clean(c) && c.i < |c.blocks| && c.blocks[c.i].Covers(c.address) && c.blocks[c.i].End() < c.Stop()
    ensures Store(c) == Store(d) && Moves(c, d) && Clean(d) && d.i == c.i + 1 && d.Stop() == c.Stop()
    ensures |d.blocks| == |c.blocks| && View(d.blocks).Keys == View(c.blocks).Keys
    ensures Clipped(d.blocks, d.address, |d.data|) <==> Clipped(c.blocks, c.address, |c.data|)
  {
    d := InnerOverlay(c);
    Unfold(c);
    MovesStop(c, d);
    ClippedBehind(c.blocks, c.i, d.blocks[c.i], c.address, |c.data|);
    Sides(c.blocks, c.i);
  }

  /** A record that starts and ends inside a block. */
  lemma StoreInside(c: Cursor)
    requires Clean(c) && c.i < |c.blocks| && c.blocks[c.i].Covers(c.address) && c.Stop() <= c.blocks[c.i].End()
    ensures Overlays(c.blocks, c.address, c.data, Store(c))
  {
    CoverAllStep(c);
    Unfold(c);
    OverView(c.blocks, c.i, c.address, c.data);
  }

  lemma GapIsUnset(bs: seq<Block>, i: nat, a: nat)
    requires Ordered(bs) && i < |bs| && Behind(bs, i, a) && a < bs[i].addr
    ensures a !in View(bs)
  {
    Sides(bs, i);
    Uncovered(bs, a);
  }

  /** For a record that starts in a gap, being clipped is a matter of the blocks alone. */
  lemma ClippedInGap(bs: seq<Block>, i: nat, a: nat, n: nat, j: nat)
    requires Ordered(bs) && i <= j < |bs| && Behind(bs, i, a) && a < bs[i].addr
    ensures ClippedBy(bs, bs[j], a, n) <==> bs[j].addr < a + n && (a + n < bs[j].End() || a + n == TOP)
  {
    GapIsUnset(bs, i, a);
    AtOrAfter(bs, i, j);
    assert Gap(bs, a, bs[j].addr);
  }

  lemma NotClippedInGap(c: Cursor)
    requires Clean(c) && c.i < |c.blocks| && c.address < c.blocks[c.i].addr < c.Stop()
    requires !Clipped(c.blocks, c.address, |c.data|)
    ensures c.Stop() < TOP && NoCut(c, c.i)
  {
    forall j | c.i <= j < |c.blocks|
      ensures !ClippedBy(c.blocks, c.blocks[j], c.address, |c.data|) && !Cut(c.blocks[j], c.Stop())
    {
      ClippedInGap(c.blocks, c.i, c.address, |c.data|, j);
    }
    ClippedInGap(c.blocks, c.i, c.address, |c.data|, c.i);
  }

  lemma StoreRunsInto(c: Cursor)
    requires Clean(c) && c.i < |c.blocks| && c.address < c.blocks[c.i].addr < c.Stop()
    requires !Clipped(c.blocks, c.address, |c.data|)
    ensures Overlays(c.blocks, c.address, c.data, Store(c))
  {
    NotClippedInGap(c);
    var d := GapStep(c);
    SameTail(c, d, c.i, c.i + 1);
    StoreOvertaken(d);
    MoveOn(c, d, Store(d));
  }

  /** A record that is not clipped is laid over the image. */
  lemma {:induction false} StoreOverlays(c: Cursor)
    requires Clean(c) && !Clipped(c.blocks, c.address, |c.data|)
    ensures Overlays(c.blocks, c.address, c.data, Store(c))
    decreases |c.blocks| - c.i
  {
    if c.i == |c.blocks| || c.Stop() <= c.blocks[c.i].addr {
      StoreInGap(c);
    } else if c.blocks[c.i].addr > c.address {
      StoreRunsInto(c);
    } else if c.blocks[c.i].End() <= c.address {
      BehindStep(c);
      StoreOverlays(c.(i := c.i + 1));
    } else if c.Stop() <= c.blocks[c.i].End() {
      StoreInside(c);
    } else {
      var d := InnerStep(c);
      StoreOverlays(d);
      MoveOn(c, d, Store(d));
    }
  }

  /** What goes wrong: a byte behind the record is lost or, at 2^32, blocks overlap. */
  ghost predicate Damages(bs: seq<Block>, end: nat, cs: seq<Block>) {
    if end == TOP then !Ordered(cs) else end in View(bs) && end !in View(cs)
  }

  lemma ClipsFromGap(c: Cursor, j: nat)
    requires Clean(c) && c.i <= j < |c.blocks| && c.address < c.blocks[c.i].addr
    requires ClippedBy(c.blocks, c.blocks[j], c.address, |c.data|)
    ensures Damages(c.blocks, c.Stop(), Store(c))
  {
    AtOrAfter(c.blocks, c.i, j);
    if c.Stop() == TOP {
      StoreOverlaps(c);
    } else {
      CoveredIsSet(c.blocks, j, c.Stop());
      CutFromGap(c, j);
    }
  }

  lemma CoveredIsSet(bs: seq<Block>, j: nat, x: int)
    requires Ordered(bs) && j < |bs| && bs[j].Covers(x)
    ensures x in View(bs)
  {
    SpanInView(bs, j);
    assert x in Span(bs[j]);
  }

  lemma CutFromGap(c: Cursor, j: nat)
    requires Clean(c) && Meets(c) && c.i <= j < |c.blocks| && Cut(c.blocks[j], c.Stop())
    ensures c.Stop() !in View(Store(c))
  {
    var d := GapStep(c);
    SameTail(c, d, c.i, c.i + 1);
    StoreCuts(d, j + 1);
  }

  /** A record that is clipped does damage. */
  lemma {:induction false} StoreClips(c: Cursor)
    requires Clean(c) && Clipped(c.blocks, c.address, |c.data|)
    ensures Damages(c.blocks, c.Stop(), Store(c))
    decreases |c.blocks| - c.i
  {
    var j := ClippingBlock(c);
    if c.blocks[c.i].addr > c.address {
      ClipsFromGap(c, j);
    } else if c.blocks[c.i].End() <= c.address {
      BehindStep(c);
      StoreClips(c.(i := c.i + 1));
    } else {
      var d := InnerStep(c);
      StoreClips(d);
    }
  }

  lemma ClippingBlock(c: Cursor) returns (j: nat)
    requires Clean(c) && Clipped(c.blocks, c.address, |c.data|)
    ensures c.i <= j < |c.blocks| && ClippedBy(c.blocks, c.blocks[j], c.address, |c.data|)
    ensures c.blocks[c.i].Covers(c.address) ==> c.blocks[c.i].End() < c.Stop()
  {
    j :| 0 <= j < |c.blocks| && ClippedBy(c.blocks, c.blocks[j], c.address, |c.data|);
    assert j >= c.i;
    Sides(c.blocks, c.i);
  }

  /** Storing a record that ends at or below 2^32 overlays its bytes on the image if and only if it is not clipped. */
  lemma StoreOverlaysIff(bs: seq<Block>, a: nat, d: seq<byte>)
    requires Ordered(bs) && a < TOP && a + |d| <= TOP
    ensures Overlays(bs, a, d, Store(Cursor(bs, 0, a, d))) <==> !Clipped(bs, a, |d|)
  {
    var c := Cursor(bs, 0, a, d);
    if d == [] {
      OverlayNone(bs, a);
    } else if Clipped(bs, a, |d|) {
      StoreClips(c);
    } else {
      StoreOverlays(c);
    }
  }

  /** For instance, a record that ends inside a block it does not start in cuts that block off: the byte at 5 is
      lost. */
  lemma BytesLost()
    ensures var bs := [Block(4, [1, 2, 3])];
            Clipped(bs, 3, 2) && 5 in View(bs) && 5 !in View(Store(Cursor(bs, 0, 3, [9, 9])))
  {
    var bs := [Block(4, [1, 2, 3])];
    GapIsUnset(bs, 0, 3);
    assert Gap(bs, 3, 4);
    assert ClippedBy(bs, bs[0], 3, 2);
    StoreClips(Cursor(bs, 0, 3, [9, 9]));
  }

  // ----- records that go beyond 2^32 -----

  /** The bytes d written one after the other from address a on, modulo 2^32. */
  ghost function WriteAll(v: map<int, byte>, a: nat, d: seq<byte>): map<int, byte>
    decreases |d|
  {
    if d == [] then v else WriteAll(v[a := d[0]], (a + 1) % TOP, d[1..])
  }

  /** cs is the image bs with those bytes written. */
  ghost predicate Written(bs: seq<Block>, a: nat, d: seq<byte>, cs: seq<Block>) {
    Ordered(cs) && View(cs) == WriteAll(View(bs), a, d)
  }

  lemma {:induction false} WriteSplit(v: map<int, byte>, a: nat, d: seq<byte>, n: nat)
    requires n <= |d| && a + n <= TOP && a < TOP
    ensures WriteAll(v, a, d) == WriteAll(WriteAll(v, a, d[..n]), (a + n) % TOP, d[n..])
    decreases n
  {
    if n <= 1 {
      WriteFirst(v, a, d, n);
    } else {
      WriteSplit(v[a := d[0]], a + 1, d[1..], n - 1);
      WriteAfterFirst(v, a, d, n);
    }
  }

  lemma WriteAfterFirst(v: map<int, byte>, a: nat, d: seq<byte>, n: nat)
    requires 1 < n <= |d| && a + n <= TOP
    ensures d[n..] == d[1..][n - 1..] && WriteAll(v, a, d[..n]) == WriteAll(v[a := d[0]], a + 1, d[1..][..n - 1])
  {
    CutAfterFirst(d, n);
  }

  lemma WriteFirst(v: map<int, byte>, a: nat, d: seq<byte>, n: nat)
    requires n <= |d| && n <= 1 && a < TOP
    ensures WriteAll(v, a, d) == WriteAll(WriteAll(v, a, d[..n]), (a + n) % TOP, d[n..])
  {
    if n == 0 {
      assert d[..0] == [] && d[0..] == d;
    } else {
      assert d[..1][1..] == [];
      assert WriteAll(v, a, d[..1]) == v[a := d[0]];
    }
  }

  lemma CutAfterFirst(d: seq<byte>, n: nat)
    requires 0 < n <= |d|
    ensures d[..n][1..] == d[1..][..n - 1] && d[n..] == d[1..][n - 1..]
  {
  }

  /** Some bytes laid over, and the rest written. */
  lemma WriteRest(v: map<int, byte>, a: nat, d: seq<byte>, n: nat)
    requires n <= |d| && a + n <= TOP && a < TOP
    ensures WriteAll(v, a, d) == WriteAll(v + Span(Block(a, d[..n])), (a + n) % TOP, d[n..])
  {
    WriteSplit(v, a, d, n);
    WriteSpan(v, a, d[..n]);
  }

  /** Below 2^32, writing is laying over. */
  lemma {:induction false} WriteSpan(v: map<int, byte>, a: nat, d: seq<byte>)
    requires a + |d| <= TOP
    ensures WriteAll(v, a, d) == v + Span(Block(a, d))
    decreases |d|
  {
    if d == [] {
      assert Span(Block(a, d)).Keys == {};
      assert v + Span(Block(a, d)) == v;
    } else if |d| == 1 {
      assert d == [d[0]] && d[1..] == [];
      MergeOne(v, a, d[0]);
    } else {
      WriteSpan(v[a := d[0]], a + 1, d[1..]);
      SpanFirst(v, a, d);
    }
  }

  lemma SpanFirst(v: map<int, byte>, a: nat, d: seq<byte>)
    requires d != []
    ensures v[a := d[0]] + Span(Block(a + 1, d[1..])) == v + Span(Block(a, d))
  {
    SpanConcat(a, d, 1);
    assert d[..1] == [d[0]];
    MergeOne(v, a, d[0]);
    MergeAssoc(v, Span(Block(a, [d[0]])), Span(Block(a + 1, d[1..])));
  }

  lemma OverlaysIsWritten(bs: seq<Block>, a: nat, d: seq<byte>, cs: seq<Block>)
    requires a + |d| <= TOP
    ensures Overlays(bs, a, d, cs) <==> Written(bs, a, d, cs)
  {
    WriteSpan(View(bs), a, d);
  }

  /** A block at the start goes on behind the first e addresses, or a later one starts among them. */
  ghost predicate Cropped(bs: seq<Block>, e: nat) {
    exists j :: 0 <= j < |bs| && Crops(bs[j], e)
  }

  ghost predicate Crops(b: Block, e: nat) {
    if b.addr == 0 then b.End() > e else b.addr < e
  }

  /** What keeps a record of n bytes at a from being laid over the image: an unset address below 2^32 in it, where
      the rest of the record becomes a block that ends beyond 2^32, or a block that is cropped at the bottom. */
  ghost predicate Broken(bs: seq<Block>, a: nat, n: nat)
    requires a < TOP < a + n
  {
    Gap(bs, a, TOP) || Cropped(bs, a + n - TOP)
  }

  /** The last bytes, from address 0 on, replace a block there or become a new one. */
  lemma AssignBottom(bs: seq<Block>, d: seq<byte>)
    requires Ordered(bs) && d != [] && |d| < TOP
    ensures Overlays(bs, 0, d, Assign(bs, 0, d)) <==> !Cropped(bs, |d|)
  {
    PositionAt(bs, 0, 0);
    if bs != [] && bs[0].addr == 0 {
      BottomReplaced(bs, d);
    } else {
      BottomInserted(bs, d);
    }
  }

  lemma BottomReplaced(bs: seq<Block>, d: seq<byte>)
    requires Ordered(bs) && d != [] && |d| < TOP && bs != [] && bs[0].addr == 0
    ensures Overlays(bs, 0, d, bs[0 := Block(0, d)]) <==> !Cropped(bs, |d|)
  {
    var cs := bs[0 := Block(0, d)];
    Sides(bs, 0);
    if Crops(bs[0], |d|) {
      CutLoses(bs, 0, d);
      CoveredIsSet(bs, 0, |d|);
      assert |d| !in View(cs) && |d| in View(bs);
    } else if j :| 0 < j < |bs| && Crops(bs[j], |d|) {
      assert !Before(cs[0], cs[j]);
    } else {
      assert 1 < |bs| ==> !Crops(bs[1], |d|);
      GrowView(bs, 0, d);
    }
  }

  lemma BottomInserted(bs: seq<Block>, d: seq<byte>)
    requires Ordered(bs) && d != [] && |d| < TOP && (bs != [] ==> bs[0].addr != 0)
    ensures Overlays(bs, 0, d, bs[..0] + [Block(0, d)] + bs[0..]) <==> !Cropped(bs, |d|)
  {
    var cs := bs[..0] + [Block(0, d)] + bs[0..];
    if j :| 0 <= j < |bs| && Crops(bs[j], |d|) {
      Sides(bs, 0);
      assert cs[0] == Block(0, d) && cs[j + 1] == bs[j];
      assert !Before(cs[0], cs[j + 1]);
    } else {
      assert bs != [] ==> !Crops(bs[0], |d|);
      InsertBlock(bs, 0, Block(0, d));
    }
  }

  /** The cursor of such a record, no further than the first block that does not lie behind the address. */
  ghost predicate Crossing(c: Cursor) {
    && Ordered(c.blocks) && c.i <= |c.blocks| && Behind(c.blocks, c.i, c.address)
    && c.address < TOP < c.Stop() && |c.data| < TOP
  }

  /** The record comes to a gap: the rest of it becomes one block, which ends beyond 2^32. */
  lemma {:induction false} StoreBeyond(c: Cursor, k: nat)
    requires Ordered(c.blocks) && k <= c.i <= |c.blocks| && Behind(c.blocks, k, c.address)
    requires c.address < TOP < c.Stop() && |c.data| < TOP && (k < |c.blocks| ==> c.address < c.blocks[k].addr)
    ensures Store(c) == c.blocks[..k] + [Block(c.address, c.data)] + c.blocks[k..]
    decreases |c.blocks| - c.i
  {
    if c.i == |c.blocks| {
      BehindPosition(c.blocks, k, c.address);
    } else {
      AtOrAfter(c.blocks, k, c.i);
      PassStep(c);
      Unfold(c);
      StoreBeyond(c.(i := c.i + 1), k);
    }
  }

  lemma BeyondIsBroken(c: Cursor)
    requires Crossing(c) && (c.i < |c.blocks| ==> c.address < c.blocks[c.i].addr)
    ensures !Ordered(Store(c)) && Gap(c.blocks, c.address, TOP)
  {
    StoreBeyond(c, c.i);
    var cs := Store(c);
    assert cs[c.i] == Block(c.address, c.data);
    if c.i < |c.blocks| {
      GapIsUnset(c.blocks, c.i, c.address);
    } else {
      Uncovered(c.blocks, c.address);
    }
  }

  /** The block the address lies in ends at 2^32: the rest of the record goes to the bottom. */
  lemma LastBlock(c: Cursor)
    requires Crossing(c) && c.i < |c.blocks| && c.blocks[c.i].Covers(c.address) && c.blocks[c.i].End() == TOP
    ensures Written(c.blocks, c.address, c.data, Store(c)) <==> !Broken(c.blocks, c.address, |c.data|)
  {
    var bs, rest := LastOver(c);
    NoGap(c.blocks, c.i, c.address);
    AssignBottom(bs, rest);
    OverlaysIsWritten(bs, 0, rest, Store(c));
  }

  lemma LastOver(c: Cursor) returns (bs: seq<Block>, rest: seq<byte>)
    requires Crossing(c) && c.i < |c.blocks| && c.blocks[c.i].Covers(c.address) && c.blocks[c.i].End() == TOP
    ensures Store(c) == Assign(bs, 0, rest) && Ordered(bs) && rest != [] && |rest| == c.Stop() - TOP
    ensures Cropped(bs, |rest|) <==> Cropped(c.blocks, |rest|)
    ensures WriteAll(View(c.blocks), c.address, c.data) == WriteAll(View(bs), 0, rest)
  {
    var n := TOP - c.address;
    var o := Over(c.blocks[c.i], c.address, c.data[..n]);
    bs, rest := c.blocks[c.i := o], c.data[n..];
    LastStep(c);
    SameCrops(c.blocks, c.i, o, |rest|);
    OverWritten(c.blocks, c.i, c.address, c.data, n);
  }

  lemma OverWritten(bs: seq<Block>, i: nat, a: nat, d: seq<byte>, n: nat)
    requires Ordered(bs) && i < |bs| && bs[i].Covers(a) && n <= |d| && a + n == bs[i].End() == TOP
    ensures var cs := bs[i := Over(bs[i], a, d[..n])];
            Ordered(cs) && WriteAll(View(bs), a, d) == WriteAll(View(cs), 0, d[n..])
  {
    OverView(bs, i, a, d[..n]);
    WriteRest(View(bs), a, d, n);
  }

  lemma NoGap(bs: seq<Block>, i: nat, a: nat)
    requires Ordered(bs) && i < |bs| && bs[i].Covers(a)
    ensures !Gap(bs, a, bs[i].End())
  {
    SpanInView(bs, i);
    assert forall x :: a <= x < bs[i].End() ==> x in Span(bs[i]);
  }

  lemma LastStep(c: Cursor)
    requires Crossing(c) && c.i < |c.blocks| && c.blocks[c.i].Covers(c.address) && c.blocks[c.i].End() == TOP
    ensures var b, n := c.blocks[c.i], TOP - c.address;
            Store(c) == Assign(c.blocks[c.i := Over(b, c.address, c.data[..n])], 0, c.data[n..])
  {
    var b, n := c.blocks[c.i], TOP - c.address;
    TopIsLast(c.blocks, c.i);
    Unfold(c);
    assert StoreStep(c) == Cursor(c.blocks[c.i := Over(b, c.address, c.data[..n])], c.i + 1, 0, c.data[n..]);
  }

  lemma TopIsLast(bs: seq<Block>, i: nat)
    requires Ordered(bs) && i < |bs| && bs[i].End() == TOP
    ensures i + 1 == |bs|
  {
    var m := |bs| - 1;
    Sides(bs, i);
    assert |bs[m].bytes| > 0 && bs[m].End() <= TOP;
  }

  lemma SameCrops(bs: seq<Block>, i: nat, c: Block, e: nat)
    requires i < |bs| && c.addr == bs[i].addr && c.End() == bs[i].End()
    ensures Cropped(bs[i := c], e) <==> Cropped(bs, e)
  {
    var cs := bs[i := c];
    assert forall j :: 0 <= j < |bs| ==> (Crops(cs[j], e) <==> Crops(bs[j], e));
  }

  /** The record passes the end of block i: nothing that can break it changes. */
  lemma CrossStep(c: Cursor) returns (d: Cursor)
    requires Crossing(c) && c.i < |c.blocks| && c.blocks[c.i].Covers(c.address) && c.blocks[c.i].End() < TOP
    ensures Store(c) == Store(d) && Crossing(d) && d.i == c.i + 1 && |d.blocks| == |c.blocks| && d.Stop() == c.Stop()
    ensures Moves(c, d)
    ensures Broken(d.blocks, d.address, |d.data|) <==> Broken(c.blocks, c.address, |c.data|)
  {
    var b, n := c.blocks[c.i], c.blocks[c.i].End() - c.address;
    var o := Over(b, c.address, c.data[..n]);
    CrossCover(c);
    Unfold(c);
    OverView(c.blocks, c.i, c.address, c.data[..n]);
    d := Cursor(c.blocks[c.i := o], c.i + 1, b.End(), c.data[n..]);
    assert MovesBy(c, d, n);
    Sides(c.blocks, c.i);
    SameCrops(c.blocks, c.i, o, c.Stop() - TOP);
    GapBehind(c.blocks, d.blocks, c.i, c.address);
  }

  lemma CrossCover(c: Cursor)
    requires Crossing(c) && c.i < |c.blocks| && c.blocks[c.i].Covers(c.address) && c.blocks[c.i].End() < TOP
    ensures var b, n := c.blocks[c.i], c.blocks[c.i].End() - c.address;
            StoreStep(c) == Cursor(c.blocks[c.i := Over(b, c.address, c.data[..n])], c.i + 1, b.End(), c.data[n..])
  {
  }

  /** Inside block i no address is unset. */
  lemma GapBehind(bs: seq<Block>, cs: seq<Block>, i: nat, a: nat)
    requires Ordered(bs) && i < |bs| && bs[i].Covers(a) && View(cs).Keys == View(bs).Keys && bs[i].End() <= TOP
    ensures Gap(cs, bs[i].End(), TOP) <==> Gap(bs, a, TOP)
  {
    SpanInView(bs, i);
    assert forall x :: a <= x < bs[i].End() ==> x in Span(bs[i]);
    if x :| a <= x < TOP && x !in View(bs) {
      assert bs[i].End() <= x;
    }
  }

  lemma WriteOn(c: Cursor, d: Cursor)
    requires Moves(c, d) && d.address < TOP
    ensures WriteAll(View(c.blocks), c.address, c.data) == WriteAll(View(d.blocks), d.address, d.data)
  {
    var n :| MovesBy(c, d, n);
    WriteRest(View(c.blocks), c.address, c.data, n);
    assert (c.address + n) % TOP == d.address;
    assert View(d.blocks) == View(c.blocks) + Span(Block(c.address, c.data[..n]));
  }

  lemma {:induction false} StoreWraps(c: Cursor)
    requires Crossing(c)
    ensures Written(c.blocks, c.address, c.data, Store(c)) <==> !Broken(c.blocks, c.address, |c.data|)
    decreases |c.blocks| - c.i
  {
    if c.i == |c.blocks| || c.blocks[c.i].addr > c.address {
      BeyondIsBroken(c);
    } else if c.blocks[c.i].End() <= c.address {
      PassBehind(c, c.i + 1);
      StoreWraps(c.(i := c.i + 1));
    } else if c.blocks[c.i].End() == TOP {
      LastBlock(c);
    } else {
      var d := CrossStep(c);
      StoreWraps(d);
      WriteOn(c, d);
    }
  }

  /** What keeps a record of n bytes at a from being written to the image. */
  ghost predicate Damaged(bs: seq<Block>, a: nat, n: nat)
    requires a < TOP
  {
    if a + n <= TOP then Clipped(bs, a, n) else Broken(bs, a, n)
  }

  /** Storing a record writes its bytes to the image, modulo 2^32, if and only if it does no damage. For a record
      that goes beyond 2^32 this means that all its addresses up to there are set already and that it cuts no block
      at the bottom. */
  lemma StoreWritesIff(bs: seq<Block>, a: nat, d: seq<byte>)
    requires Ordered(bs) && a < TOP && |d| < TOP
    ensures Written(bs, a, d, Store(Cursor(bs, 0, a, d))) <==> !Damaged(bs, a, |d|)
  {
    if a + |d| <= TOP {
      StoreOverlaysIff(bs, a, d);
      OverlaysIsWritten(bs, a, d, Store(Cursor(bs, 0, a, d)));
    } else {
      StoreWraps(Cursor(bs, 0, a, d));
    }
  }

  /** A record that goes beyond 2^32 continues at address 0. */
  lemma WrapsToZero()
    ensures Store(Cursor([Block(TOP - 1, [1])], 0, TOP - 1, [2, 3])) == [Block(0, [3]), Block(TOP - 1, [2])]
  {
    var c := Cursor([Block(TOP - 1, [1])], 0, TOP - 1, [2, 3]);
    Unfold(c);
    var d := Cursor([Block(TOP - 1, [2])], 1, 0, [3]);
    var one, both: seq<byte> := [1], [2, 3];
    assert one[..0] + both[..1] + one[1..] == [2] && both[1..] == [3];
    assert StoreStep(c) == d;
    PositionAt(d.blocks, 0, 0);
    assert d.blocks[..0] == [] && d.blocks[0..] == d.blocks;
  }
}

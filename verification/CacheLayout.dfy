/** The packed layout of the DNS answer cache: which bytes a sequence of live entries, oldest first,
    occupies, and why inserting at the head and unlinking at the tail of a bucket keep it.
    All statements are about a snapshot `xs` of the byte buffer. */
module CacheLayout {
  import opened Bits
  import opened Bytes

  /** One cache entry at offset `pos`, in the bucket whose head cell is at offset `head`. */
  datatype Entry = Entry(pos: nat, head: nat, key: seq<byte>, data: seq<byte>, expire: seq<byte>) {
    function Len(): nat { |key| + |data| + 20 }

    function End(): nat { pos + Len() }

    /** b is everything after the link: key length, data length, expiry, key, data. */
    predicate Stored(b: seq<byte>) {
      && |b| == Len() - 4 && |expire| == 8
      && Word(b, 0) == |key| && Word(b, 4) == |data| && b[8..16] == expire
      && b[16..16 + |key|] == key && b[16 + |key|..] == data
    }
  }

  // ----- the ends of a bucket -----

  /** Offset of the newest entry of bucket h among es[..n] (oldest first), 0 if there is none. */
  function Newest(es: seq<Entry>, n: nat, h: nat): nat
    requires n <= |es|
  {
    if n == 0 then 0 else if es[n - 1].head == h then es[n - 1].pos else Newest(es, n - 1, h)
  }

  /** Offset of the oldest entry of bucket h among es[n..], h itself if there is none. */
  function Oldest(es: seq<Entry>, n: nat, h: nat): nat
    requires n <= |es|
    decreases |es| - n
  {
    if n == |es| then h else if es[n].head == h then es[n].pos else Oldest(es, n + 1, h)
  }

  /** What the link cell of es[j] must hold: the exclusive or of its two neighbours' offsets. */
  function LinkOf(es: seq<Entry>, j: nat): nat
    requires j < |es|
  {
    Xor(Oldest(es, j + 1, es[j].head), Newest(es, j, es[j].head))
  }

  ghost predicate Disjoint(e: Entry, f: Entry) {
    e.End() <= f.pos || f.End() <= e.pos
  }

  /** Entries lie in [lo, hi) without overlapping, and the head cells lie below lo. */
  ghost predicate Placed(es: seq<Entry>, lo: nat, hi: nat) {
    && 4 <= lo
    && (forall j :: 0 <= j < |es| ==>
          lo <= es[j].pos && es[j].End() <= hi && es[j].head + 4 <= lo && es[j].head % 4 == 0)
    && (forall i, j {:trigger Disjoint(es[i], es[j])} :: 0 <= i < j < |es| ==> Disjoint(es[i], es[j]))
  }

  /** What the list arguments need of the placement: offsets are distinct and above every head. */
  ghost predicate Apart(es: seq<Entry>, lo: nat) {
    && (forall j :: 0 <= j < |es| ==> es[j].head < lo <= es[j].pos)
    && (forall i, j {:trigger Distinct(es[i], es[j])} :: 0 <= i < j < |es| ==> Distinct(es[i], es[j]))
  }

  ghost predicate Distinct(e: Entry, f: Entry) {
    e.pos != f.pos
  }

  /** Entries at the same offset are the same entry. */
  lemma SameIndex(es: seq<Entry>, lo: nat, i: nat, j: nat)
    requires Apart(es, lo) && i < |es| && j < |es|
    ensures es[i].pos == es[j].pos <==> i == j
  {
    assert i < j ==> Distinct(es[i], es[j]);
    assert j < i ==> Distinct(es[j], es[i]);
  }

  lemma PlacedApart(es: seq<Entry>, lo: nat, hi: nat)
    requires Placed(es, lo, hi)
    ensures Apart(es, lo)
  {
    forall i, j | 0 <= i < j < |es|
      ensures Distinct(es[i], es[j])
    {
      assert Disjoint(es[i], es[j]);
    }
  }

  /** es fills [lo, hi) exactly, in order. */
  ghost predicate Tiles(es: seq<Entry>, lo: nat, hi: nat) {
    if es == [] then lo == hi else es[0].pos == lo && Tiles(es[1..], es[0].End(), hi)
  }

  lemma {:induction false} TilesBounds(es: seq<Entry>, lo: nat, hi: nat)
    requires Tiles(es, lo, hi)
    ensures lo <= hi
    ensures forall j :: 0 <= j < |es| ==> lo <= es[j].pos && es[j].End() <= hi
    ensures forall i, j :: 0 <= i < j < |es| ==> es[i].End() <= es[j].pos
  {
    if es != [] {
      TilesBounds(es[1..], es[0].End(), hi);
      forall i, j | 0 <= i < j < |es|
        ensures es[i].End() <= es[j].pos
      {
        assert es[j] == es[1..][j - 1];
        if i > 0 {
          assert es[i] == es[1..][i - 1];
        }
      }
      forall j | 0 <= j < |es|
        ensures lo <= es[j].pos && es[j].End() <= hi
      {
        if j > 0 {
          assert es[j] == es[1..][j - 1];
        }
      }
    }
  }

  lemma {:induction false} TilesAppend(es: seq<Entry>, lo: nat, hi: nat, e: Entry)
    requires Tiles(es, lo, hi) && e.pos == hi
    ensures Tiles(es + [e], lo, e.End())
  {
    if es == [] {
      assert (es + [e])[1..] == [];
    } else {
      TilesAppend(es[1..], es[0].End(), hi, e);
      assert (es + [e])[1..] == es[1..] + [e];
    }
  }

  // ----- the snapshot invariant -----

  ghost predicate HeadOk(xs: seq<byte>, es: seq<Entry>, h: nat) {
    h + 4 <= |xs| && Word(xs, h) == Newest(es, |es|, h)
  }

  /** The bytes of entry e are in place, and its link cell holds the given word. */
  ghost predicate CellOk(xs: seq<byte>, e: Entry, link: nat) {
    e.End() <= |xs| && Word(xs, e.pos) == link && e.Stored(xs[e.pos + 4..e.End()])
  }

  ghost predicate EntryOk(xs: seq<byte>, es: seq<Entry>, j: nat)
    requires j < |es|
  {
    CellOk(xs, es[j], LinkOf(es, j))
  }

  /** Buffer xs holds exactly the bucket lists of the live entries es. */
  ghost predicate Holds(xs: seq<byte>, hsize: nat, es: seq<Entry>) {
    && Placed(es, hsize, |xs|)
    && |xs| <= 1_000_000_000
    && hsize % 4 == 0 && hsize <= |xs|
    && HeadsOk(xs, hsize, es)
    && EntriesOk(xs, es)
  }

  ghost predicate HeadsOk(xs: seq<byte>, hsize: nat, es: seq<Entry>) {
    forall h :: 0 <= h < hsize && h % 4 == 0 ==> HeadOk(xs, es, h)
  }

  ghost predicate EntriesOk(xs: seq<byte>, es: seq<Entry>) {
    forall j :: 0 <= j < |es| ==> EntryOk(xs, es, j)
  }

  /** The words and byte strings a walk or an eviction reads back from an entry. */
  lemma ReadEntry(xs: seq<byte>, es: seq<Entry>, j: nat)
    requires j < |es| && EntryOk(xs, es, j)
    ensures var e := es[j];
            && Word(xs, e.pos + 4) == |e.key|
            && Word(xs, e.pos + 8) == |e.data|
            && xs[e.pos + 12..e.pos + 20] == e.expire
            && xs[e.pos + 20..e.pos + 20 + |e.key|] == e.key
            && xs[e.pos + 20 + |e.key|..e.End()] == e.data
  {
    var e := es[j];
    SliceOfSlice(xs, e.pos + 4, e.End(), 0, 4);
    SliceOfSlice(xs, e.pos + 4, e.End(), 4, 8);
    SliceOfSlice(xs, e.pos + 4, e.End(), 8, 16);
    SliceOfSlice(xs, e.pos + 4, e.End(), 16, 16 + |e.key|);
    SliceOfSlice(xs, e.pos + 4, e.End(), 16 + |e.key|, e.Len() - 4);
  }

  // ----- bucket ends under insertion and eviction -----

  /** The index of the newest entry of bucket h, -1 if there is none. */
  lemma {:induction false} FindNewest(es: seq<Entry>, n: nat, h: nat) returns (k: int)
    requires n <= |es|
    ensures -1 <= k < n
    ensures Newest(es, n, h) == if k == -1 then 0 else es[k].pos
    ensures k >= 0 ==> es[k].head == h
    ensures forall i :: k < i < n ==> es[i].head != h
  {
    if n == 0 || es[n - 1].head == h {
      k := n - 1;
    } else {
      k := FindNewest(es, n - 1, h);
    }
  }

  /** The index of the oldest entry of bucket h from n on, |es| if there is none. */
  lemma {:induction false} FindOldest(es: seq<Entry>, n: nat, h: nat) returns (k: nat)
    requires n <= |es|
    ensures n <= k <= |es|
    ensures Oldest(es, n, h) == if k == |es| then h else es[k].pos
    ensures k < |es| ==> es[k].head == h
    ensures forall i :: n <= i < k ==> es[i].head != h
    decreases |es| - n
  {
    if n == |es| || es[n].head == h {
      k := n;
    } else {
      k := FindOldest(es, n + 1, h);
    }
  }

  /** Inserting e as the newest entry changes the newer neighbour only of the entry that was the
      newest of e's bucket. */
  lemma NewerAfterInsert(es: seq<Entry>, e: Entry, lo: nat, j: nat)
    requires Apart(es, lo) && j < |es|
    ensures Oldest(es + [e], j + 1, es[j].head)
         == if es[j].head == e.head && es[j].pos == Newest(es, |es|, e.head) then e.pos
             else Oldest(es, j + 1, es[j].head)
    ensures es[j].head == e.head && es[j].pos == Newest(es, |es|, e.head) ==> Oldest(es, j + 1, e.head) == e.head
  {
    var h := es[j].head;
    var fs := es + [e];
    var a := FindOldest(fs, j + 1, h);
    var b := FindOldest(es, j + 1, h);
    assert fs[|es|] == e && forall i :: 0 <= i < |es| ==> fs[i] == es[i];
    assert a == if b < |es| then b else if e.head == h then |es| else |fs|;
    var c := FindNewest(es, |es|, h);
    SameIndex(es, lo, c, j);
  }

  lemma OlderAfterInsert(es: seq<Entry>, e: Entry, j: nat, h: nat)
    requires j <= |es|
    ensures Newest(es + [e], j, h) == Newest(es, j, h)
  {
    var a := FindNewest(es + [e], j, h);
    var b := FindNewest(es, j, h);
  }

  /** The newest entry of a bucket, if it is not the oldest of all, is the newest among the rest. */
  lemma NewestInRest(es: seq<Entry>, n: nat, h: nat, a: int)
    requires 1 <= n <= |es| && -1 <= a < n && (a >= 0 ==> es[a].head == h)
    requires forall i :: a < i < n ==> es[i].head != h
    ensures Newest(es[1..], n - 1, h) == if a >= 1 then es[a].pos else 0
  {
    var rest := es[1..];
    var b := FindNewest(rest, n - 1, h);
    assert b >= 0 ==> rest[b] == es[b + 1];
    assert a >= 1 ==> rest[a - 1] == es[a];
  }

  /** Evicting the oldest entry changes the older neighbour only of the entry that was next in its bucket. */
  lemma OlderAfterEvict(es: seq<Entry>, lo: nat, j: nat)
    requires Apart(es, lo) && 1 <= j < |es|
    ensures Newest(es, j, es[j].head)
         == if es[j].head == es[0].head && es[j].pos == Oldest(es, 1, es[0].head) then es[0].pos
            else Newest(es[1..], j - 1, es[j].head)
    ensures es[j].head == es[0].head && es[j].pos == Oldest(es, 1, es[0].head) ==>
            Newest(es[1..], j - 1, es[j].head) == 0
  {
    var h := es[j].head;
    var a := FindNewest(es, j, h);
    var c := FindOldest(es, 1, h);
    NewestInRest(es, j, h, a);
    if a >= 1 {
      SameIndex(es, lo, c, j);
    } else {
      assert c == j;
    }
  }

  lemma NewerAfterEvict(es: seq<Entry>, j: nat, h: nat)
    requires 1 <= j <= |es|
    ensures Oldest(es[1..], j - 1, h) == Oldest(es, j, h)
  {
    var a := FindOldest(es, j, h);
    var b := FindOldest(es[1..], j - 1, h);
    assert a < |es| ==> es[1..][a - 1] == es[a];
  }

  /** Evicting the oldest entry empties its bucket exactly when it was alone in it. */
  lemma HeadAfterEvict(es: seq<Entry>, lo: nat, h: nat)
    requires Apart(es, lo) && es != [] && h < lo
    ensures Newest(es, |es|, h) == if h == es[0].head && Oldest(es, 1, h) == h then es[0].pos
            else Newest(es[1..], |es| - 1, h)
    ensures h == es[0].head && Oldest(es, 1, h) == h ==> Newest(es[1..], |es| - 1, h) == 0
  {
    var a := FindNewest(es, |es|, h);
    var c := FindOldest(es, 1, h);
    NewestInRest(es, |es|, h, a);
  }

  /** The links after an eviction: only the entry next in the bucket loses a neighbour. */
  lemma LinkAfterEvict(es: seq<Entry>, lo: nat, j: nat)
    requires Apart(es, lo) && 1 <= j < |es|
    ensures LinkOf(es[1..], j - 1)
         == if es[j].pos == Oldest(es, 1, es[0].head) then Xor(LinkOf(es, j), es[0].pos) else LinkOf(es, j)
  {
    NewerAfterEvict(es, j + 1, es[j].head);
    OlderAfterEvict(es, lo, j);
    NextInBucket(es, lo, j);
    Unlinked(Oldest(es, j + 1, es[j].head), es[0].pos);
  }

  lemma NextInBucket(es: seq<Entry>, lo: nat, j: nat)
    requires Apart(es, lo) && 1 <= j < |es|
    ensures es[j].pos == Oldest(es, 1, es[0].head) ==> es[j].head == es[0].head
  {
    var k := FindOldest(es, 1, es[0].head);
    if k < |es| {
      SameIndex(es, lo, k, j);
    }
  }

  lemma Unlinked(newer: nat, gone: nat)
    ensures Xor(Xor(newer, gone), gone) == newer == Xor(newer, 0)
  {
    XorCancel(newer, gone);
    XorZero(newer);
  }

  /** The links after an insertion: only the entry that was newest in the bucket gains a neighbour. */
  lemma LinkAfterInsert(es: seq<Entry>, e: Entry, lo: nat, j: nat)
    requires Apart(es, lo) && j < |es| && e.head < lo
    ensures LinkOf(es + [e], j)
         == if es[j].pos == Newest(es, |es|, e.head) then Xor(Xor(LinkOf(es, j), e.head), e.pos) else LinkOf(es, j)
  {
    NewerAfterInsert(es, e, lo, j);
    OlderAfterInsert(es, e, j, es[j].head);
    NewestInBucket(es, lo, j, e.head);
    Relinked(es[j].head, Newest(es, j, es[j].head), e.pos);
  }

  lemma NewestInBucket(es: seq<Entry>, lo: nat, j: nat, h: nat)
    requires Apart(es, lo) && j < |es|
    ensures es[j].pos == Newest(es, |es|, h) ==> es[j].head == h
  {
    var k := FindNewest(es, |es|, h);
    if k >= 0 {
      SameIndex(es, lo, k, j);
    }
  }

  lemma Relinked(h: nat, older: nat, pos: nat)
    ensures Xor(Xor(Xor(h, older), h), pos) == Xor(pos, older)
  {
    XorComm(h, older);
    XorCancel(older, h);
    XorComm(older, pos);
  }

  // ----- eviction: the one-cell unlink -----

  /** A word at p overlaps entry e at most in e's link. */
  ghost predicate Clear(e: Entry, p: nat) {
    p == e.pos || p + 4 <= e.pos || e.End() <= p
  }

  lemma EntryClear(es: seq<Entry>, lo: nat, hi: nat, k: nat)
    requires Placed(es, lo, hi) && k < |es|
    ensures forall j :: 0 <= j < |es| ==> Clear(es[j], es[k].pos)
  {
    forall j | 0 <= j < |es|
      ensures Clear(es[j], es[k].pos)
    {
      if j < k {
        assert Disjoint(es[j], es[k]);
      } else if k < j {
        assert Disjoint(es[k], es[j]);
      }
    }
  }

  /** Where the link of the oldest entry leads. Since that entry is the tail of its bucket, the link is
      the offset of its newer neighbour itself: another entry's link cell, or the head cell. */
  lemma UnlinkTarget(xs: seq<byte>, hsize: nat, es: seq<Entry>, p: nat)
    requires Holds(xs, hsize, es) && es != [] && p == Oldest(es, 1, es[0].head)
    ensures es[0].End() <= |xs| && Word(xs, es[0].pos) == p && p + 4 <= |xs|
    ensures p < hsize ==> p % 4 == 0
    ensures forall j :: 0 <= j < |es| ==> Clear(es[j], p)
    ensures p != es[0].pos
  {
    assert EntryOk(xs, es, 0);
    XorZero(p);
    PlacedApart(es, hsize, |xs|);
    var k := FindOldest(es, 1, es[0].head);
    if k < |es| {
      SameIndex(es, hsize, 0, k);
      EntryClear(es, hsize, |xs|, k);
    } else {
      assert forall j :: 0 <= j < |es| ==> es[j].pos >= hsize >= p + 4;
    }
  }

  lemma UnlinkKeepsEntry(xs: seq<byte>, ys: seq<byte>, lo: nat, es: seq<Entry>, p: nat, j: nat)
    requires Apart(es, lo) && 1 <= j < |es| && EntryOk(xs, es, j)
    requires p == Oldest(es, 1, es[0].head) && Clear(es[j], p)
    requires SameOutside(xs, ys, p, p + 4) && Word(ys, p) == Xor(Word(xs, p), es[0].pos)
    ensures EntryOk(ys, es[1..], j - 1)
  {
    LinkAfterEvict(es, lo, j);
    assert es[1..][j - 1] == es[j];
    CellAfterWord(xs, ys, es[j], p, es[0].pos, LinkOf(es, j));
  }

  lemma CellAfterWord(xs: seq<byte>, ys: seq<byte>, e: Entry, p: nat, v: nat, link: nat)
    requires CellOk(xs, e, link) && Clear(e, p)
    requires SameOutside(xs, ys, p, p + 4) && Word(ys, p) == Xor(Word(xs, p), v)
    ensures CellOk(ys, e, if e.pos == p then Xor(link, v) else link)
  {
    SliceSame(xs, ys, p, p + 4, e.pos + 4, e.End());
    if e.pos != p {
      SliceSame(xs, ys, p, p + 4, e.pos, e.pos + 4);
    }
  }

  lemma UnlinkKeepsHead(xs: seq<byte>, ys: seq<byte>, lo: nat, es: seq<Entry>, p: nat, h: nat)
    requires Apart(es, lo) && es != [] && h < lo && HeadOk(xs, es, h)
    requires p == Oldest(es, 1, es[0].head) && (p == h || p + 4 <= h || h + 4 <= p)
    requires SameOutside(xs, ys, p, p + 4) && Word(ys, p) == Xor(Word(xs, p), es[0].pos)
    ensures HeadOk(ys, es[1..], h)
  {
    HeadAfterEvict(es, lo, h);
    if h == p {
      var k := FindOldest(es, 1, es[0].head);
      XorSelf(es[0].pos);
    } else {
      SliceSame(xs, ys, p, p + 4, h, h + 4);
    }
  }

  lemma PlacedRest(es: seq<Entry>, lo: nat, hi: nat)
    requires Placed(es, lo, hi) && es != []
    ensures Placed(es[1..], lo, hi)
  {
    var rest := es[1..];
    forall i, j | 0 <= i < j < |rest|
      ensures Disjoint(rest[i], rest[j])
    {
      assert Disjoint(es[i + 1], es[j + 1]);
    }
  }

  lemma UnlinkKeepsEntries(xs: seq<byte>, ys: seq<byte>, lo: nat, es: seq<Entry>, p: nat)
    requires Apart(es, lo) && es != [] && EntriesOk(xs, es)
    requires p == Oldest(es, 1, es[0].head) && forall j :: 1 <= j < |es| ==> Clear(es[j], p)
    requires SameOutside(xs, ys, p, p + 4) && Word(ys, p) == Xor(Word(xs, p), es[0].pos)
    ensures EntriesOk(ys, es[1..])
  {
    forall j | 0 <= j < |es[1..]|
      ensures EntryOk(ys, es[1..], j)
    {
      EntryLeft(xs, ys, lo, es, p, j);
    }
  }

  lemma EntryLeft(xs: seq<byte>, ys: seq<byte>, lo: nat, es: seq<Entry>, p: nat, j: nat)
    requires Apart(es, lo) && j + 1 < |es| && EntriesOk(xs, es)
    requires p == Oldest(es, 1, es[0].head) && forall j :: 1 <= j < |es| ==> Clear(es[j], p)
    requires SameOutside(xs, ys, p, p + 4) && Word(ys, p) == Xor(Word(xs, p), es[0].pos)
    ensures EntryOk(ys, es[1..], j)
  {
    assert EntryOk(xs, es, j + 1);
    UnlinkKeepsEntry(xs, ys, lo, es, p, j + 1);
  }

  lemma UnlinkKeepsHeads(xs: seq<byte>, ys: seq<byte>, hsize: nat, es: seq<Entry>, p: nat)
    requires Apart(es, hsize) && es != [] && HeadsOk(xs, hsize, es) && hsize % 4 == 0
    requires p == Oldest(es, 1, es[0].head) && (p < hsize ==> p % 4 == 0)
    requires SameOutside(xs, ys, p, p + 4) && Word(ys, p) == Xor(Word(xs, p), es[0].pos)
    ensures HeadsOk(ys, hsize, es[1..])
  {
    forall h | 0 <= h < hsize && h % 4 == 0
      ensures HeadOk(ys, es[1..], h)
    {
      assert HeadOk(xs, es, h);
      AlignedApart(h, p, hsize);
      UnlinkKeepsHead(xs, ys, hsize, es, p, h);
    }
  }

  lemma AlignedApart(h: nat, p: nat, hsize: nat)
    requires h < hsize && h % 4 == 0 && hsize % 4 == 0 && (p < hsize ==> p % 4 == 0)
    ensures p == h || p + 4 <= h || h + 4 <= p
  {
  }

  /** Rewriting that one cell leaves exactly the remaining entries' bucket lists. */
  lemma UnlinkHolds(xs: seq<byte>, ys: seq<byte>, hsize: nat, es: seq<Entry>, p: nat)
    requires Holds(xs, hsize, es) && es != [] && p == Oldest(es, 1, es[0].head)
    requires SameOutside(xs, ys, p, p + 4) && Word(ys, p) == Xor(Word(xs, p), es[0].pos)
    ensures Holds(ys, hsize, es[1..])
  {
    PlacedApart(es, hsize, |xs|);
    PlacedRest(es, hsize, |xs|);
    UnlinkTarget(xs, hsize, es, p);
    UnlinkKeepsEntries(xs, ys, hsize, es, p);
    UnlinkKeepsHeads(xs, ys, hsize, es, p);
  }

  // ----- insertion at the head -----

  /** Entry e can be written without touching the live entries or the head cells. */
  ghost predicate Fits(xs: seq<byte>, hsize: nat, es: seq<Entry>, e: Entry) {
    && 4 <= hsize <= e.pos && e.End() <= |xs|
    && e.head % 4 == 0 && e.head + 4 <= hsize
    && forall j :: 0 <= j < |es| ==> Disjoint(es[j], e)
  }

  /** The three writes of an insertion: the previously newest entry of the bucket, at pos, is pointed
      at e (x1), e itself is written (x2), and the head cell is pointed at e (ys). */
  ghost predicate Writes(xs: seq<byte>, x1: seq<byte>, x2: seq<byte>, ys: seq<byte>, e: Entry, pos: nat) {
    && (if pos == 0 then x1 == xs
        else SameOutside(xs, x1, pos, pos + 4) && Word(x1, pos) == Xor(Xor(Word(xs, pos), e.head), e.pos))
    && SameOutside(x1, x2, e.pos, e.End())
    && Word(x2, e.pos) == Xor(pos, e.head) && e.Stored(x2[e.pos + 4..e.End()])
    && SameOutside(x2, ys, e.head, e.head + 4)
    && Word(ys, e.head) == e.pos
  }

  lemma WritesAway(xs: seq<byte>, x1: seq<byte>, x2: seq<byte>, ys: seq<byte>, e: Entry, pos: nat, lo: nat, hi: nat)
    requires Writes(xs, x1, x2, ys, e, pos) && lo <= hi <= |xs|
    requires (hi <= e.pos || e.End() <= lo) && (hi <= e.head || e.head + 4 <= lo)
    ensures ys[lo..hi] == x1[lo..hi]
    ensures pos == 0 || hi <= pos || pos + 4 <= lo ==> ys[lo..hi] == xs[lo..hi]
  {
    SliceSame(x2, ys, e.head, e.head + 4, lo, hi);
    SliceSame(x1, x2, e.pos, e.End(), lo, hi);
    if pos != 0 && (hi <= pos || pos + 4 <= lo) {
      SliceSame(xs, x1, pos, pos + 4, lo, hi);
    }
  }

  lemma HeadCell(xs: seq<byte>, hsize: nat, es: seq<Entry>, h: nat)
    requires Holds(xs, hsize, es) && h + 4 <= hsize && h % 4 == 0
    ensures var p := Newest(es, |es|, h);
            && h + 4 <= |xs| && Word(xs, h) == p && p + 4 <= |xs|
            && (p != 0 ==> hsize <= p && forall j :: 0 <= j < |es| ==> Clear(es[j], p))
  {
    assert HeadOk(xs, es, h);
    var k := FindNewest(es, |es|, h);
    if k >= 0 {
      EntryClear(es, hsize, |xs|, k);
    }
  }

  /** What the three writes do to a live entry f: its link changes if it was the newest of e's bucket. */
  ghost predicate Updated(xs: seq<byte>, ys: seq<byte>, f: Entry, e: Entry, pos: nat) {
    && f.End() <= |ys| == |xs| && ys[f.pos + 4..f.End()] == xs[f.pos + 4..f.End()]
    && Word(ys, f.pos) == if f.pos == pos then Xor(Xor(Word(xs, f.pos), e.head), e.pos) else Word(xs, f.pos)
  }

  lemma WritesUpdate(xs: seq<byte>, x1: seq<byte>, x2: seq<byte>, ys: seq<byte>, e: Entry, pos: nat, f: Entry)
    requires Writes(xs, x1, x2, ys, e, pos)
    requires f.End() <= |xs| && e.head + 4 <= f.pos && Disjoint(f, e) && (pos != 0 ==> Clear(f, pos))
    ensures Updated(xs, ys, f, e, pos)
  {
    WritesAway(xs, x1, x2, ys, e, pos, f.pos, f.pos + 4);
    WritesAway(xs, x1, x2, ys, e, pos, f.pos + 4, f.End());
  }

  lemma WritesNew(xs: seq<byte>, x1: seq<byte>, x2: seq<byte>, ys: seq<byte>, e: Entry, pos: nat)
    requires Writes(xs, x1, x2, ys, e, pos) && e.head + 4 <= e.pos
    ensures |ys| == |xs| && CellOk(ys, e, Xor(pos, e.head))
  {
    SliceSame(x2, ys, e.head, e.head + 4, e.pos, e.pos + 4);
    SliceSame(x2, ys, e.head, e.head + 4, e.pos + 4, e.End());
  }

  lemma InsertKeepsEntry(xs: seq<byte>, ys: seq<byte>, lo: nat, es: seq<Entry>, e: Entry, pos: nat, j: nat)
    requires Apart(es, lo) && j < |es| && EntryOk(xs, es, j) && e.head < lo && pos == Newest(es, |es|, e.head)
    requires Updated(xs, ys, es[j], e, pos)
    ensures EntryOk(ys, es + [e], j)
  {
    assert (es + [e])[j] == es[j];
    LinkAfterInsert(es, e, lo, j);
    CellAfterUpdate(xs, ys, es[j], e, pos, LinkOf(es, j));
  }

  lemma CellAfterUpdate(xs: seq<byte>, ys: seq<byte>, f: Entry, e: Entry, pos: nat, link: nat)
    requires CellOk(xs, f, link) && Updated(xs, ys, f, e, pos)
    ensures CellOk(ys, f, if f.pos == pos then Xor(Xor(link, e.head), e.pos) else link)
  {
  }

  /** Every entry is in order after the three writes, old ones and the new one. */
  lemma InsertKeepsEntries(xs: seq<byte>, ys: seq<byte>, lo: nat, es: seq<Entry>, e: Entry, pos: nat)
    requires Apart(es, lo) && EntriesOk(xs, es) && e.head < lo && pos == Newest(es, |es|, e.head)
    requires AllUpdated(xs, ys, es, e, pos) && CellOk(ys, e, Xor(pos, e.head))
    ensures EntriesOk(ys, es + [e])
  {
    forall j | 0 <= j < |es + [e]|
      ensures EntryOk(ys, es + [e], j)
    {
      EntryKept(xs, ys, lo, es, e, pos, j);
    }
  }

  ghost predicate AllUpdated(xs: seq<byte>, ys: seq<byte>, es: seq<Entry>, e: Entry, pos: nat) {
    forall j :: 0 <= j < |es| ==> Updated(xs, ys, es[j], e, pos)
  }

  lemma EntryKept(xs: seq<byte>, ys: seq<byte>, lo: nat, es: seq<Entry>, e: Entry, pos: nat, j: nat)
    requires Apart(es, lo) && EntriesOk(xs, es) && j <= |es| && e.head < lo && pos == Newest(es, |es|, e.head)
    requires AllUpdated(xs, ys, es, e, pos) && CellOk(ys, e, Xor(pos, e.head))
    ensures EntryOk(ys, es + [e], j)
  {
    if j < |es| {
      assert EntryOk(xs, es, j) && Updated(xs, ys, es[j], e, pos);
      InsertKeepsEntry(xs, ys, lo, es, e, pos, j);
    } else {
      assert (es + [e])[j] == e;
      LinkOfNew(es, e);
    }
  }

  lemma LinkOfNew(es: seq<Entry>, e: Entry)
    ensures LinkOf(es + [e], |es|) == Xor(Newest(es, |es|, e.head), e.head)
  {
    OlderAfterInsert(es, e, |es|, e.head);
    XorComm(Newest(es, |es|, e.head), e.head);
  }

  lemma HeadAfterInsert(xs: seq<byte>, ys: seq<byte>, es: seq<Entry>, e: Entry, h: nat)
    requires HeadOk(xs, es, h) && HeadChanged(xs, ys, e, h)
    ensures HeadOk(ys, es + [e], h)
  {
    OlderAfterInsert(es, e, |es|, h);
  }

  /** The first of the three writes, if there is an entry to be pointed at e. */
  ghost predicate PointsBack(xs: seq<byte>, x1: seq<byte>, e: Entry, pos: nat) {
    if pos == 0 then x1 == xs else SameOutside(xs, x1, pos, pos + 4)
  }

  /** What the three writes do to a head cell. */
  lemma HeadWritten(xs: seq<byte>, x1: seq<byte>, x2: seq<byte>, ys: seq<byte>, e: Entry, pos: nat, h: nat)
    requires PointsBack(xs, x1, e, pos) && SameOutside(x1, x2, e.pos, e.End()) && WroteWord(x2, ys, e.head, e.pos)
    requires h + 4 <= e.pos && (pos == 0 || h + 4 <= pos) && h % 4 == 0 && e.head % 4 == 0
    ensures HeadChanged(xs, ys, e, h)
  {
    if h != e.head {
      WordSame(x2, ys, e.head, e.head + 4, h);
      WordSame(x1, x2, e.pos, e.End(), h);
      if pos != 0 {
        WordSame(xs, x1, pos, pos + 4, h);
      }
    }
  }

  ghost predicate HeadChanged(xs: seq<byte>, ys: seq<byte>, e: Entry, h: nat) {
    |ys| == |xs| && h + 4 <= |xs| && Word(ys, h) == if h == e.head then e.pos else Word(xs, h)
  }

  ghost predicate HeadsChanged(xs: seq<byte>, ys: seq<byte>, hsize: nat, e: Entry) {
    forall h :: 0 <= h < hsize && h % 4 == 0 ==> HeadChanged(xs, ys, e, h)
  }

  lemma PlacedAppend(es: seq<Entry>, e: Entry, lo: nat, hi: nat)
    requires Placed(es, lo, hi) && lo <= e.pos && e.End() <= hi && e.head + 4 <= lo && e.head % 4 == 0
    requires forall j :: 0 <= j < |es| ==> Disjoint(es[j], e)
    ensures Placed(es + [e], lo, hi)
  {
    var fs := es + [e];
    forall i, j | 0 <= i < j < |fs|
      ensures Disjoint(fs[i], fs[j])
    {
      if j < |es| {
        assert Disjoint(es[i], es[j]);
      } else {
        assert Disjoint(es[i], e);
      }
    }
  }

  lemma WritesHeads(xs: seq<byte>, x1: seq<byte>, x2: seq<byte>, ys: seq<byte>, hsize: nat, e: Entry, pos: nat)
    requires PointsBack(xs, x1, e, pos) && SameOutside(x1, x2, e.pos, e.End()) && WroteWord(x2, ys, e.head, e.pos)
    requires hsize % 4 == 0 && hsize <= e.pos && e.head % 4 == 0 && (pos == 0 || hsize <= pos)
    ensures HeadsChanged(xs, ys, hsize, e)
  {
    forall h | 0 <= h < hsize && h % 4 == 0
      ensures HeadChanged(xs, ys, e, h)
    {
      HeadWritten(xs, x1, x2, ys, e, pos, h);
    }
  }

  lemma InsertKeepsHeads(xs: seq<byte>, ys: seq<byte>, hsize: nat, es: seq<Entry>, e: Entry)
    requires HeadsOk(xs, hsize, es) && HeadsChanged(xs, ys, hsize, e)
    ensures HeadsOk(ys, hsize, es + [e])
  {
    forall h | 0 <= h < hsize && h % 4 == 0
      ensures HeadOk(ys, es + [e], h)
    {
      HeadKept(xs, ys, hsize, es, e, h);
    }
  }

  lemma HeadKept(xs: seq<byte>, ys: seq<byte>, hsize: nat, es: seq<Entry>, e: Entry, h: nat)
    requires HeadsOk(xs, hsize, es) && HeadsChanged(xs, ys, hsize, e) && h < hsize && h % 4 == 0
    ensures HeadOk(ys, es + [e], h)
  {
    assert HeadOk(xs, es, h) && HeadChanged(xs, ys, e, h);
    HeadAfterInsert(xs, ys, es, e, h);
  }

  /** The three writes leave exactly the bucket lists of the old entries followed by e. */
  lemma InsertHolds(xs: seq<byte>, x1: seq<byte>, x2: seq<byte>, ys: seq<byte>, hsize: nat, es: seq<Entry>, e: Entry,
                    pos: nat)
    requires Holds(xs, hsize, es) && Fits(xs, hsize, es, e) && pos == Newest(es, |es|, e.head)
    requires Writes(xs, x1, x2, ys, e, pos)
    ensures Holds(ys, hsize, es + [e])
  {
    HeadCell(xs, hsize, es, e.head);
    forall j | 0 <= j < |es|
      ensures Updated(xs, ys, es[j], e, pos)
    {
      WritesUpdate(xs, x1, x2, ys, e, pos, es[j]);
    }
    WritesNew(xs, x1, x2, ys, e, pos);
    PlacedApart(es, hsize, |xs|);
    InsertKeepsEntries(xs, ys, hsize, es, e, pos);
    WritesHeads(xs, x1, x2, ys, hsize, e, pos);
    InsertKeepsHeads(xs, ys, hsize, es, e);
    PlacedAppend(es, e, hsize, |xs|);
  }
}

/** The DNS answer cache: a hash table with exclusive-or linked buckets in one circular byte buffer,
    evicted first in, first out. */
module DnsCache {
  import opened Bits
  import opened Bytes
  import opened CacheLayout
  import opened Wrappers

  const WORD64 := 0x1_0000_0000_0000_0000
  const MAX_KEY := 1000
  const MAX_DATA := 1_000_000
  const MAX_TTL := 604_800
  const WALK_LIMIT := 100

  // ----- the hash -----

  function Mix(acc: nat, b: byte): (r: nat)
    ensures acc < WORD ==> r < WORD
  {
    Pow2Values();
    XorBound(33 * acc % WORD, b, 32);
    Xor(33 * acc % WORD, b)
  }

  function Digest(key: seq<byte>): (r: nat)
    ensures r < WORD
  {
    if key == [] then 5381 else Mix(Digest(key[..|key| - 1]), key[|key| - 1])
  }

  lemma DigestStep(key: seq<byte>, i: nat)
    requires i < |key|
    ensures Digest(key[..i + 1]) == Mix(Digest(key[..i]), key[i])
  {
    assert key[..i + 1][..i] == key[..i];
  }

  /** A shift and an addition of 32-bit words multiply by 33. */
  lemma HashStep(r: nat, b: byte)
    ensures Xor(((r * 32) % WORD + r) % WORD, b) == Mix(r, b)
  {
    WrapSum(r * 32, r);
  }

  /** Offset of the head cell for a key in a table of hsize bytes. */
  function Bucket(key: seq<byte>, hsize: nat): nat
    requires hsize >= 4
  {
    And(4 * Digest(key) % WORD, hsize - 4)
  }

  lemma BucketIsHead(key: seq<byte>, hsize: nat)
    requires 4 <= hsize
    ensures Bucket(key, hsize) % 4 == 0 && Bucket(key, hsize) + 4 <= hsize
  {
    var m := Digest(key) % 0x4000_0000;
    assert 4 * Digest(key) % WORD == 4 * m;
    AndMultipleOfFour(m, hsize - 4);
    AndBound(4 * m, hsize - 4);
  }

  /** In a table of 2^k bytes the hash modulo the number of heads selects the head. */
  lemma BucketIs(key: seq<byte>, k: nat)
    requires 2 <= k <= 32
    ensures Pow2(k) >= 4 && Bucket(key, Pow2(k)) == 4 * (Digest(key) % Pow2(k - 2))
  {
    FourHeads(k);
    LowBits(Digest(key));
    MaskHeads(Digest(key) % 0x4000_0000, k, Pow2(k) - 4);
    WithoutTop(Digest(key), k);
  }

  lemma LowBits(d: nat)
    ensures 4 * d % WORD == 4 * (d % 0x4000_0000)
  {
  }

  lemma MaskHeads(m: nat, k: nat, mask: nat)
    requires 2 <= k && mask == 4 * (Pow2(k - 2) - 1)
    ensures And(4 * m, mask) == 4 * (m % Pow2(k - 2))
  {
    AndFour(m, Pow2(k - 2) - 1);
    AndMask(m, k - 2);
  }

  lemma FourHeads(k: nat)
    requires 2 <= k
    ensures Pow2(k) >= 4 && Pow2(k) - 4 == 4 * (Pow2(k - 2) - 1)
  {
    Pow2Add(2, k - 2);
    Pow2Values();
  }

  lemma WithoutTop(d: nat, k: nat)
    requires 2 <= k <= 32
    ensures d % 0x4000_0000 % Pow2(k - 2) == d % Pow2(k - 2)
  {
    Pow2Add(k - 2, 32 - k);
    Pow2Add(2, 30);
    Pow2Values();
    assert Pow2(30) == 0x4000_0000;
    ModSplit(d, Pow2(k - 2), Pow2(32 - k));
  }

  // ----- what a lookup means -----

  datatype Answer = Answer(data: seq<byte>, expire: seq<byte>)

  /** Index of the newest entry for key among es[..n], -1 if there is none. */
  function Latest(es: seq<Entry>, n: nat, key: seq<byte>): (k: int)
    requires n <= |es|
    ensures -1 <= k < n
    ensures k >= 0 ==> es[k].key == key
    ensures forall i :: k < i < n ==> es[i].key != key
  {
    if n == 0 then -1 else if es[n - 1].key == key then n - 1 else Latest(es, n - 1, key)
  }

  /** Number of entries of bucket h from index n on. */
  function Crowd(es: seq<Entry>, n: nat, h: nat): nat
    requires n <= |es|
    decreases |es| - n
  {
    if n == |es| then 0 else (if es[n].head == h then 1 else 0) + Crowd(es, n + 1, h)
  }

  /** The newest live entry for the key, unless more than WALK_LIMIT newer ones share its bucket. */
  function Lookup(es: seq<Entry>, key: seq<byte>): Option<Answer> {
    var k := Latest(es, |es|, key);
    if k >= 0 && Crowd(es, k + 1, es[k].head) <= WALK_LIMIT then Some(Answer(es[k].data, es[k].expire)) else None
  }

  lemma {:induction false} CrowdGap(es: seq<Entry>, m: nat, n: nat, h: nat)
    requires m <= n <= |es|
    ensures Crowd(es, n, h) <= Crowd(es, m, h)
    ensures (forall i :: m <= i < n ==> es[i].head != h) ==> Crowd(es, m, h) == Crowd(es, n, h)
    decreases n - m
  {
    if m < n {
      CrowdGap(es, m + 1, n, h);
    }
  }

  /** More than WALK_LIMIT newer entries in its bucket hide a live entry. */
  lemma Overlooked(e: Entry, es: seq<Entry>)
    requires |es| > WALK_LIMIT && forall i :: 0 <= i < |es| ==> es[i].head == e.head && es[i].key != e.key
    ensures Lookup([e] + es, e.key) == None
  {
    var all := [e] + es;
    assert all[0] == e && forall i :: 0 < i < |all| ==> all[i] == es[i - 1];
    LatestAt(all, |all|, e.key, 0);
    FullCrowd(all, 1, e.head);
  }

  lemma {:induction false} FullCrowd(es: seq<Entry>, n: nat, h: nat)
    requires n <= |es| && forall i :: n <= i < |es| ==> es[i].head == h
    ensures Crowd(es, n, h) == |es| - n
    decreases |es| - n
  {
    if n < |es| {
      FullCrowd(es, n + 1, h);
    }
  }

  /** A lookup among the entries that are left answers as one among all entries ever stored. */
  lemma LatestInSuffix(es: seq<Entry>, m: nat, key: seq<byte>)
    requires m <= |es| && Latest(es[m..], |es| - m, key) >= 0
    ensures Latest(es, |es|, key) == m + Latest(es[m..], |es| - m, key)
  {
    var l := Latest(es[m..], |es| - m, key);
    forall i | m + l < i < |es|
      ensures es[i].key != key
    {
      assert es[m..][i - m] == es[i];
    }
    LatestAt(es, |es|, key, m + l);
  }

  lemma LatestAt(es: seq<Entry>, n: nat, key: seq<byte>, k: nat)
    requires k < n <= |es| && es[k].key == key && forall i :: k < i < n ==> es[i].key != key
    ensures Latest(es, n, key) == k
  {
  }

  /** Bytes ever written for the given entries. */
  function Total(es: seq<Entry>): nat {
    if es == [] then 0 else Total(es[..|es| - 1]) + es[|es| - 1].Len()
  }

  /** Every entry is filed under the bucket of its key. */
  ghost predicate Filed(es: seq<Entry>, hsize: nat) {
    hsize >= 4 && forall j {:trigger FiledAt(es[j], hsize)} :: 0 <= j < |es| ==> FiledAt(es[j], hsize)
  }

  ghost predicate FiledAt(e: Entry, hsize: nat)
    requires hsize >= 4
  {
    e.head == Bucket(e.key, hsize)
  }

  ghost predicate PowerOfTwo(n: nat) {
    exists k :: Pow2(k) == n
  }

  /** lib/tai/tai_pack.c: a time stamp as eight bytes, most significant first. */
  function BigEndian(t: nat, n: nat): (s: seq<byte>)
    ensures |s| == n
  {
    if n == 0 then [] else BigEndian(t / 0x100, n - 1) + [t % 0x100]
  }

  /** The expiry stamp stored by cache_set at time now. */
  function Expiry(now: nat, ttl: nat): (s: seq<byte>)
    ensures |s| == 8
  {
    BigEndian(now + if ttl > MAX_TTL then MAX_TTL else ttl, 8)
  }

  /** The number that bytes denote, most significant first. */
  function Denoted(s: seq<byte>): nat {
    if s == [] then 0 else 0x100 * Denoted(s[..|s| - 1]) + s[|s| - 1] as nat
  }

  lemma {:induction false} DenotedBigEndian(t: nat, n: nat)
    requires n <= 8 && t < Pow2(8 * n)
    ensures Denoted(BigEndian(t, n)) == t
  {
    if n > 0 {
      Pow2Add(8 * (n - 1), 8);
      Pow2Values();
      assert 8 * (n - 1) + 8 == 8 * n;
      DenotedBigEndian(t / 0x100, n - 1);
      var s := BigEndian(t, n);
      assert s[..|s| - 1] == BigEndian(t / 0x100, n - 1);
    }
  }

  /** The stamp denotes the time of the call plus the time to live, which is at most a week. */
  lemma ExpiryDenotes(now: nat, ttl: nat)
    requires now + 604_800 < 0x1_0000_0000_0000_0000
    ensures Denoted(Expiry(now, ttl)) == if ttl <= 604_800 then now + ttl else now + 604_800
  {
    Pow2Add(32, 32);
    Pow2Values();
    DenotedBigEndian(if ttl <= 604_800 then now + ttl else now + 604_800, 8);
  }

  // ----- where the free gap is after n evictions -----

  /** Start of the free gap once the n oldest entries are gone: evicting past the old region wraps. */
  function GapStart(aged: seq<Entry>, writer: nat, hsize: nat, n: nat): nat {
    if n <= |aged| then writer else hsize
  }

  /** End of the free gap once the n oldest entries are gone. */
  function GapEnd(aged: seq<Entry>, recent: seq<Entry>, size: nat, n: nat): nat
    requires n <= |aged| + |recent|
  {
    if n == |aged| || n == |aged| + |recent| then size else (aged + recent)[n].pos
  }

  /** What is left was stored last. */
  ghost predicate Suffix(live: seq<Entry>, stored: seq<Entry>) {
    |live| <= |stored| && live == stored[|stored| - |live|..]
  }

  /** The fixed points of the layout: the hash table, then the newer region, a gap, the older region. */
  ghost predicate Geometry(size: nat, hsize: nat, writer: nat, oldest: nat, unused: nat) {
    && 100 <= size <= 1_000_000_000
    && PowerOfTwo(hsize) && 4 <= hsize <= size / 16
    && hsize <= writer <= oldest <= unused <= size
    && (oldest == unused ==> unused == size)
  }

  /** The whole invariant of an allocated cache. */
  ghost predicate Packed(xs: seq<byte>, hsize: nat, writer: nat, oldest: nat, unused: nat, aged: seq<Entry>,
                         recent: seq<Entry>) {
    && Geometry(|xs|, hsize, writer, oldest, unused)
    && Tiles(aged, oldest, unused)
    && Tiles(recent, hsize, writer)
    && Filed(aged + recent, hsize)
    && Holds(xs, hsize, aged + recent)
  }

  /** The effect of an accepted cache_set: the new entry goes into the gap left by the fewest evictions
      that make it large enough; an entry longer than the whole buffer empties the cache instead. */
  ghost predicate Stores(aged: seq<Entry>, recent: seq<Entry>, writer: nat, hsize: nat, size: nat,
                         key: seq<byte>, data: seq<byte>, expire: seq<byte>, evicted: nat,
                         live: seq<Entry>, stored: seq<Entry>, stored': seq<Entry>)
  {
    var len := |key| + |data| + 20;
    && hsize >= 4
    && NoRoomBefore(aged, recent, writer, hsize, size, len, evicted)
    && if len <= size - hsize then
         var e := Entry(GapStart(aged, writer, hsize, evicted), Bucket(key, hsize), key, data, expire);
         && Room(aged, recent, writer, hsize, size, len, evicted)
         && live == (aged + recent)[evicted..] + [e]
         && stored' == stored + [e]
       else
         live == [] && stored' == stored
  }

  predicate Accepts(open: bool, key: seq<byte>, data: seq<byte>, ttl: nat) {
    open && |key| <= MAX_KEY && |data| <= MAX_DATA && ttl != 0
  }

  /** An answer from the live entries is the one stored last for the key. */
  lemma FoundIsStored(live: seq<Entry>, stored: seq<Entry>, key: seq<byte>)
    requires Suffix(live, stored)
    ensures var r, k := Lookup(live, key), Latest(stored, |stored|, key);
            r.Some? ==> k >= 0 && r.value == Answer(stored[k].data, stored[k].expire)
  {
    if Lookup(live, key).Some? {
      LatestInSuffix(stored, |stored| - |live|, key);
    }
  }

  /** A call is refused without a cache, for too long a key or too much data, or for a zero time to live. */
  lemma RefusedIff(open: bool, key: seq<byte>, data: seq<byte>, ttl: nat)
    ensures !Accepts(open, key, data, ttl) <==> !open || |key| > 1000 || |data| > 1_000_000 || ttl == 0
  {
  }

  lemma SuffixNone(stored: seq<Entry>)
    ensures Suffix([], stored) && Suffix([] + [], stored)
  {
    var none: seq<Entry> := [];
    assert none + none == none == stored[|stored|..];
  }

  lemma SuffixDrop(es: seq<Entry>, stored: seq<Entry>, n: nat)
    requires Suffix(es, stored) && n <= |es|
    ensures Suffix(es[n..], stored)
  {
    assert es[n..] == stored[|stored| - |es| + n..];
  }

  lemma SuffixAppend(es: seq<Entry>, stored: seq<Entry>, e: Entry)
    requires Suffix(es, stored)
    ensures Suffix(es + [e], stored + [e])
  {
    assert es + [e] == (stored + [e])[|stored| - |es|..];
  }

  lemma TotalAppend(es: seq<Entry>, e: Entry)
    ensures Total(es + [e]) % WORD64 == (Total(es) % WORD64 + e.Len()) % WORD64
  {
    assert (es + [e])[..|es|] == es;
    assert Total(es + [e]) == Total(es) + e.Len();
  }

  /** A lookup after a store finds the stored value; any other key answers as before or, when its entry
      has been evicted or pushed beyond the walk limit, not at all. */
  lemma LookupAfterSet(es: seq<Entry>, n: nat, e: Entry, key: seq<byte>)
    requires n <= |es|
    ensures Lookup(es[n..] + [e], e.key) == Some(Answer(e.data, e.expire))
    ensures key != e.key ==> Lookup(es[n..] + [e], key) in {None, Lookup(es, key)}
  {
    var fs := es[n..] + [e];
    assert Latest(fs, |fs|, e.key) == |fs| - 1;
    if key != e.key {
      var k := Latest(fs, |fs|, key);
      if k >= 0 {
        assert fs[k] == es[n + k] && n + k < |es|;
        forall i | n + k < i < |es|
          ensures es[i].key != key
        {
          assert fs[i - n] == es[i];
        }
        LatestAt(es, |es|, key, n + k);
        CrowdShift(es, n, e, k + 1, es[n + k].head);
      }
    }
  }

  lemma {:induction false} CrowdShift(es: seq<Entry>, n: nat, e: Entry, j: nat, h: nat)
    requires n + j <= |es|
    ensures Crowd(es, n + j, h) <= Crowd(es[n..] + [e], j, h)
    decreases |es| - j
  {
    if n + j < |es| {
      assert (es[n..] + [e])[j] == es[n + j];
      CrowdShift(es, n, e, j + 1, h);
    }
  }

  lemma XorWord3(xs: seq<byte>, p: nat, u: nat, v: nat)
    requires p + 4 <= |xs| && u < WORD && v < WORD
    ensures Xor(Xor(Word(xs, p), u), v) < WORD
  {
    XorWord(xs, p, u);
    Pow2Values();
    XorBound(Xor(Word(xs, p), u), v, 32);
  }

  lemma NewFits(xs: seq<byte>, hsize: nat, writer: nat, oldest: nat, unused: nat, aged: seq<Entry>,
                recent: seq<Entry>, e: Entry)
    requires Packed(xs, hsize, writer, oldest, unused, aged, recent)
    requires e.pos == writer && e.End() <= oldest && e.head % 4 == 0 && e.head + 4 <= hsize
    ensures Fits(xs, hsize, aged + recent, e)
  {
    TilesBounds(aged, oldest, unused);
    TilesBounds(recent, hsize, writer);
    var es := aged + recent;
    forall j | 0 <= j < |es|
      ensures Disjoint(es[j], e)
    {
      if j < |aged| {
        assert es[j] == aged[j];
      } else {
        assert es[j] == recent[j - |aged|];
      }
    }
  }

  lemma InsertPacked(xs: seq<byte>, ys: seq<byte>, hsize: nat, writer: nat, oldest: nat, unused: nat,
                     aged: seq<Entry>, recent: seq<Entry>, e: Entry)
    requires Packed(xs, hsize, writer, oldest, unused, aged, recent) && |ys| == |xs|
    requires e.pos == writer && e.End() <= oldest && FiledAt(e, hsize) && Holds(ys, hsize, aged + recent + [e])
    ensures Packed(ys, hsize, e.End(), oldest, unused, aged, recent + [e])
  {
    TilesAppend(recent, hsize, writer, e);
    var es := aged + recent;
    assert aged + (recent + [e]) == es + [e];
    forall j | 0 <= j < |es + [e]|
      ensures FiledAt((es + [e])[j], hsize)
    {
      if j < |es| {
        assert FiledAt(es[j], hsize);
      }
    }
  }

  /** Six writes side by side add up to one stored entry. */
  /** The same writes in terms of the entry. */
  lemma StringsOf(x3: seq<byte>, x4: seq<byte>, x5: seq<byte>, x6: seq<byte>, p: nat, key: seq<byte>, data: seq<byte>,
      expire: seq<byte>, e: Entry)
    requires e.pos == p && e.key == key && e.data == data && e.expire == expire
    requires Wrote(x3, x4, p + 12, expire) && Wrote(x4, x5, p + 20, key) && Wrote(x5, x6, p + 20 + |key|, data)
    ensures Wrote(x3, x4, e.pos + 12, e.expire) && Wrote(x4, x5, e.pos + 20, e.key)
    ensures Wrote(x5, x6, e.pos + 20 + |e.key|, e.data)
  {
  }

  lemma SixWrites(x0: seq<byte>, x1: seq<byte>, x2: seq<byte>, x3: seq<byte>, x4: seq<byte>, x5: seq<byte>,
                  x6: seq<byte>, e: Entry)
    requires |e.expire| == 8 && e.End() <= |x0| && SameOutside(x0, x1, e.pos, e.pos + 4)
    requires WroteWord(x1, x2, e.pos + 4, |e.key|) && WroteWord(x2, x3, e.pos + 8, |e.data|)
    requires Wrote(x3, x4, e.pos + 12, e.expire) && Wrote(x4, x5, e.pos + 20, e.key)
             && Wrote(x5, x6, e.pos + 20 + |e.key|, e.data)
    ensures SameOutside(x0, x6, e.pos, e.End())
    ensures Word(x6, e.pos) == Word(x1, e.pos) && e.Stored(x6[e.pos + 4..e.End()])
  {
    var p, k := e.pos, |e.key|;
    Widen(x0, x1, p, p, p + 4, p + 20 + k);
    SameOutsideTrans(x0, x1, x2, p, p + 4, p + 8, p + 20 + k);
    SameOutsideTrans(x0, x2, x3, p, p + 8, p + 12, p + 20 + k);
    SameOutsideTrans(x0, x3, x4, p, p + 12, p + 20, p + 20 + k);
    SameOutsideTrans(x0, x4, x5, p, p + 20, p + 20 + k, p + 20 + k);
    Widen(x0, x5, p, p, p + 20 + k, e.End());
    SameOutsideTrans(x0, x5, x6, p, p + 20 + k, e.End(), e.End());
    LaterWrites(x1, x2, x3, x4, x5, x6, e, p, p + 4);
    LaterWrites(x2, x2, x3, x4, x5, x6, e, p + 4, p + 8);
    LaterWrites(x3, x3, x3, x4, x5, x6, e, p + 8, p + 12);
    LaterWrites(x4, x4, x4, x4, x5, x6, e, p + 12, p + 20);
    SliceSame(x5, x6, p + 20 + k, e.End(), p + 20, p + 20 + k);
    StoredSlices(x6, e);
  }

  lemma Widen<T>(s: seq<T>, t: seq<T>, lo: nat, p: nat, q: nat, hi: nat)
    requires SameOutside(s, t, p, q) && lo <= p && q <= hi <= |s|
    ensures SameOutside(s, t, lo, hi)
  {
    SliceSame(s, t, p, q, 0, lo);
    SliceSame(s, t, p, q, hi, |s|);
    assert s[0..lo] == s[..lo] && t[0..lo] == t[..lo] && s[hi..|s|] == s[hi..] && t[hi..|s|] == t[hi..];
  }

  /** What was written in [lo, hi) is not touched by the writes to the right of it. */
  lemma LaterWrites(x1: seq<byte>, x2: seq<byte>, x3: seq<byte>, x4: seq<byte>, x5: seq<byte>, x6: seq<byte>,
                    e: Entry, lo: nat, hi: nat)
    requires lo <= hi <= e.pos + 20 && e.End() <= |x1|
    requires x1 == x2 || (SameOutside(x1, x2, e.pos + 4, e.pos + 8) && hi <= e.pos + 4)
    requires x2 == x3 || (SameOutside(x2, x3, e.pos + 8, e.pos + 12) && hi <= e.pos + 8)
    requires x3 == x4 || (SameOutside(x3, x4, e.pos + 12, e.pos + 20) && hi <= e.pos + 12)
    requires SameOutside(x4, x5, e.pos + 20, e.pos + 20 + |e.key|)
    requires SameOutside(x5, x6, e.pos + 20 + |e.key|, e.End())
    ensures x6[lo..hi] == x1[lo..hi]
  {
    if x1 != x2 {
      SliceSame(x1, x2, e.pos + 4, e.pos + 8, lo, hi);
    }
    if x2 != x3 {
      SliceSame(x2, x3, e.pos + 8, e.pos + 12, lo, hi);
    }
    if x3 != x4 {
      SliceSame(x3, x4, e.pos + 12, e.pos + 20, lo, hi);
    }
    SliceSame(x4, x5, e.pos + 20, e.pos + 20 + |e.key|, lo, hi);
    SliceSame(x5, x6, e.pos + 20 + |e.key|, e.End(), lo, hi);
  }

  lemma StoredSlices(xs: seq<byte>, e: Entry)
    requires |e.expire| == 8 && ReadsBack(xs, e)
    ensures e.Stored(xs[e.pos + 4..e.End()])
  {
    SliceOfSlice(xs, e.pos + 4, e.End(), 0, 4);
    SliceOfSlice(xs, e.pos + 4, e.End(), 4, 8);
    SliceOfSlice(xs, e.pos + 4, e.End(), 8, 16);
    SliceOfSlice(xs, e.pos + 4, e.End(), 16, 16 + |e.key|);
    SliceOfSlice(xs, e.pos + 4, e.End(), 16 + |e.key|, e.Len() - 4);
    var b := xs[e.pos + 4..e.End()];
    assert b[16 + |e.key|..] == b[16 + |e.key|..e.Len() - 4];
  }

  ghost predicate Room(aged: seq<Entry>, recent: seq<Entry>, writer: nat, hsize: nat, size: nat, len: nat, n: nat)
    requires n <= |aged| + |recent|
  {
    GapStart(aged, writer, hsize, n) + len <= GapEnd(aged, recent, size, n)
  }

  /** Fewer than n evictions leave no gap of len bytes. */
  ghost predicate NoRoomBefore(aged: seq<Entry>, recent: seq<Entry>, writer: nat, hsize: nat, size: nat, len: nat,
                               n: nat) {
    n <= |aged| + |recent| && forall m :: 0 <= m < n ==> !Room(aged, recent, writer, hsize, size, len, m)
  }

  /** What is left of the two regions after n evictions: the newer one becomes the older one when that is gone. */
  ghost predicate Remain(a: seq<Entry>, r: seq<Entry>, n: nat, aged: seq<Entry>, recent: seq<Entry>) {
    && n <= |a| + |r|
    && if n <= |a| then aged == a[n..] && recent == r else aged == r[n - |a|..] && recent == []
  }

  /** How far the eviction loop has come after n evictions, none of which left room for len bytes before. */
  ghost predicate Progress(a: seq<Entry>, r: seq<Entry>, w: nat, hsize: nat, size: nat, len: nat, n: nat,
                           aged: seq<Entry>, recent: seq<Entry>, writer: nat, oldest: nat)
  {
    && Remain(a, r, n, aged, recent)
    && writer == GapStart(a, w, hsize, n) && oldest == GapEnd(a, r, size, n)
    && NoRoomBefore(a, r, w, hsize, size, len, n)
  }

  lemma ProgressStart(a: seq<Entry>, r: seq<Entry>, w: nat, hsize: nat, size: nat, len: nat)
    ensures Progress(a, r, w, hsize, size, len, 0, a, r, w, GapEnd(a, r, size, 0))
  {
    assert a[0..] == a;
  }

  lemma ProgressLive(a: seq<Entry>, r: seq<Entry>, w: nat, hsize: nat, size: nat, len: nat, n: nat,
                     aged: seq<Entry>, recent: seq<Entry>, writer: nat, oldest: nat)
    requires Progress(a, r, w, hsize, size, len, n, aged, recent, writer, oldest)
    ensures aged + recent == (a + r)[n..] && |aged + recent| == |a| + |r| - n
    ensures writer + len <= oldest <==> Room(a, r, w, hsize, size, len, n)
    ensures n == 0 ==> aged == a && recent == r
  {
  }

  lemma ProgressNext(a: seq<Entry>, r: seq<Entry>, w: nat, hsize: nat, size: nat, len: nat, n: nat,
                     was: seq<Entry>, newer: seq<Entry>, aged: seq<Entry>, recent: seq<Entry>, writer: nat, oldest: nat)
    requires Remain(a, r, n, was, newer) && NoRoomBefore(a, r, w, hsize, size, len, n)
    requires n < |a| + |r| && !Room(a, r, w, hsize, size, len, n)
    requires was != [] ==> aged == was[1..] && recent == newer && writer == GapStart(a, w, hsize, n)
    requires was == [] ==> newer != [] && aged == newer[1..] && recent == [] && writer == hsize
    requires oldest == if aged == [] then size else aged[0].pos
    ensures Progress(a, r, w, hsize, size, len, n + 1, aged, recent, writer, oldest)
  {
    RemainNext(a, r, n, was, newer, aged, recent);
    RemainGap(a, r, size, n + 1, aged, recent);
    StillNoRoom(a, r, w, hsize, size, len, n);
  }

  lemma RemainNext(a: seq<Entry>, r: seq<Entry>, n: nat, aged: seq<Entry>, recent: seq<Entry>, aged': seq<Entry>,
                   recent': seq<Entry>)
    requires Remain(a, r, n, aged, recent) && n < |a| + |r|
    requires aged != [] ==> aged' == aged[1..] && recent' == recent
    requires aged == [] ==> recent != [] && aged' == recent[1..] && recent' == []
    ensures Remain(a, r, n + 1, aged', recent')
    ensures aged == [] <==> n == |a|
  {
  }

  lemma RemainGap(a: seq<Entry>, r: seq<Entry>, size: nat, n: nat, aged: seq<Entry>, recent: seq<Entry>)
    requires Remain(a, r, n, aged, recent)
    ensures GapEnd(a, r, size, n) == if aged == [] then size else aged[0].pos
  {
    if aged != [] {
      assert (a + r)[n] == aged[0];
    }
  }

  lemma StillNoRoom(aged: seq<Entry>, recent: seq<Entry>, writer: nat, hsize: nat, size: nat, len: nat, n: nat)
    requires NoRoomBefore(aged, recent, writer, hsize, size, len, n) && n < |aged| + |recent|
    requires !Room(aged, recent, writer, hsize, size, len, n)
    ensures NoRoomBefore(aged, recent, writer, hsize, size, len, n + 1)
  {
  }

  lemma GapNow(xs: seq<byte>, hsize: nat, writer: nat, oldest: nat, unused: nat, aged: seq<Entry>, recent: seq<Entry>)
    requires Packed(xs, hsize, writer, oldest, unused, aged, recent)
    ensures oldest == GapEnd(aged, recent, |xs|, 0)
  {
    TilesBounds(aged, oldest, unused);
    if oldest == unused {
      TilesNone(aged, oldest, unused);
    }
  }

  /** Starting over at the bottom: the newer region becomes the older one. */
  lemma WrapPacked(xs: seq<byte>, hsize: nat, writer: nat, aged: seq<Entry>, recent: seq<Entry>)
    requires Packed(xs, hsize, writer, |xs|, |xs|, aged, recent) && aged == [] && hsize < writer
    ensures Packed(xs, hsize, hsize, hsize, writer, recent, [])
  {
    assert aged + recent == recent == recent + [];
  }

  lemma XorWord(xs: seq<byte>, p: nat, v: nat)
    requires p + 4 <= |xs| && v < WORD
    ensures Xor(Word(xs, p), v) < WORD
  {
    WordBound(xs, p);
    Pow2Values();
    XorBound(Word(xs, p), v, 32);
  }

  /** The unlink does not touch the lengths of the entry being evicted, which are read after it. */
  lemma LengthsKept(xs: seq<byte>, ys: seq<byte>, es: seq<Entry>, p: nat)
    requires es != [] && EntryOk(xs, es, 0) && SameOutside(xs, ys, p, p + 4) && Clear(es[0], p) && p != es[0].pos
    ensures Word(ys, es[0].pos + 4) == |es[0].key| && Word(ys, es[0].pos + 8) == |es[0].data|
  {
    ReadEntry(xs, es, 0);
    SliceSame(xs, ys, p, p + 4, es[0].pos + 4, es[0].pos + 8);
    SliceSame(xs, ys, p, p + 4, es[0].pos + 8, es[0].pos + 12);
  }

  lemma EvictFirst(aged: seq<Entry>, recent: seq<Entry>, lo: nat, hi: nat)
    requires Tiles(aged, lo, hi) && lo < hi
    ensures aged != [] && (aged + recent)[0] == aged[0] && aged[0].pos == lo
    ensures (aged + recent)[1..] == aged[1..] + recent
  {
    assert (aged + recent)[1..] == aged[1..] + recent;
  }

  lemma FiledRest(es: seq<Entry>, hsize: nat)
    requires Filed(es, hsize) && es != []
    ensures Filed(es[1..], hsize)
  {
    forall j | 0 <= j < |es[1..]|
      ensures FiledAt(es[1..][j], hsize)
    {
      assert FiledAt(es[j + 1], hsize);
    }
  }

  /** Moving `oldest` past the evicted entry, and both ends to the top once the old region is empty. */
  lemma EvictPacked(xs: seq<byte>, ys: seq<byte>, hsize: nat, writer: nat, lo: nat, hi: nat, aged: seq<Entry>,
                    recent: seq<Entry>)
    requires Packed(xs, hsize, writer, lo, hi, aged, recent) && aged != []
    requires |ys| == |xs| && Holds(ys, hsize, aged[1..] + recent)
    ensures aged[0].End() <= hi
    ensures if aged[0].End() == hi then
              aged[1..] == [] && Packed(ys, hsize, writer, |ys|, |ys|, aged[1..], recent)
            else
              && aged[1..] != [] && aged[1].pos == aged[0].End()
              && Packed(ys, hsize, writer, aged[0].End(), hi, aged[1..], recent)
  {
    var end := aged[0].End();
    TilesFirst(aged, lo, hi);
    TilesBounds(aged[1..], end, hi);
    EvictFirst(aged, recent, lo, hi);
    FiledRest(aged + recent, hsize);
    if end == hi {
      TilesNone(aged[1..], end, hi);
    }
  }

  lemma TilesFirst(es: seq<Entry>, lo: nat, hi: nat)
    requires Tiles(es, lo, hi) && es != []
    ensures es[0].pos == lo && Tiles(es[1..], es[0].End(), hi)
  {
  }

  lemma TilesNone(es: seq<Entry>, lo: nat, hi: nat)
    requires Tiles(es, lo, hi) && lo == hi
    ensures es == []
  {
    if es != [] {
      TilesFirst(es, lo, hi);
      TilesBounds(es[1..], es[0].End(), hi);
    }
  }

  /** One step of the walk: the entry at the current offset is read back whole, nothing between it and
      the previous one has the key, and its link undoes to the next older offset. */
  lemma WalkStep(xs: seq<byte>, hsize: nat, es: seq<Entry>, n: nat, h: nat, key: seq<byte>) returns (k: nat)
    requires Holds(xs, hsize, es) && n <= |es| && Keyed(es, key, h) && Newest(es, n, h) != 0
    ensures k < n && es[k].pos == Newest(es, n, h)
    ensures ReadsBack(xs, es[k])
    ensures es[k].head == h && forall i :: k < i < n ==> es[i].key != key
    ensures Xor(Oldest(es, n, h), Word(xs, es[k].pos)) == Newest(es, k, h)
    ensures Oldest(es, k, h) == es[k].pos
    ensures Crowd(es, k, h) == Crowd(es, n, h) + 1 && Crowd(es, k + 1, h) == Crowd(es, n, h)
  {
    k := FindNewest(es, n, h);
    NotInGap(es, k, n, h, key);
    assert EntryOk(xs, es, k);
    ReadEntry(xs, es, k);
    OldestGap(es, k + 1, n, h);
    XorCancel(Oldest(es, n, h), Newest(es, k, h));
    CrowdGap(es, k + 1, n, h);
  }

  ghost predicate ReadsBack(xs: seq<byte>, e: Entry) {
    && e.End() <= |xs|
    && Word(xs, e.pos + 4) == |e.key| && Word(xs, e.pos + 8) == |e.data|
    && xs[e.pos + 12..e.pos + 20] == e.expire
    && xs[e.pos + 20..e.pos + 20 + |e.key|] == e.key
    && xs[e.pos + 20 + |e.key|..e.End()] == e.data
  }

  lemma {:induction false} OldestGap(es: seq<Entry>, m: nat, n: nat, h: nat)
    requires m <= n <= |es| && forall i :: m <= i < n ==> es[i].head != h
    ensures Oldest(es, m, h) == Oldest(es, n, h)
    decreases n - m
  {
    if m < n {
      OldestGap(es, m + 1, n, h);
    }
  }

  /** Entries for the key lie in bucket h. */
  ghost predicate Keyed(es: seq<Entry>, key: seq<byte>, h: nat) {
    forall j :: 0 <= j < |es| && es[j].key == key ==> es[j].head == h
  }

  lemma FiledKeyed(es: seq<Entry>, key: seq<byte>, hsize: nat)
    requires Filed(es, hsize)
    ensures Keyed(es, key, Bucket(key, hsize))
  {
    forall j | 0 <= j < |es| && es[j].key == key
      ensures es[j].head == Bucket(key, hsize)
    {
      assert FiledAt(es[j], hsize);
    }
  }

  lemma NotInGap(es: seq<Entry>, k: int, n: nat, h: nat, key: seq<byte>)
    requires Keyed(es, key, h) && -1 <= k < n <= |es|
    requires forall i :: k < i < n ==> es[i].head != h
    ensures forall i :: k < i < n ==> es[i].key != key
  {
  }

  lemma Hit(es: seq<Entry>, k: nat, key: seq<byte>)
    requires k < |es| && es[k].key == key && Crowd(es, k + 1, es[k].head) <= WALK_LIMIT
    requires forall i :: k < i < |es| ==> es[i].key != key
    ensures Latest(es, |es|, key) == k && Lookup(es, key) == Some(Answer(es[k].data, es[k].expire))
  {
  }

  lemma Flooded(es: seq<Entry>, n: nat, h: nat, key: seq<byte>)
    requires n <= |es| && Keyed(es, key, h) && Crowd(es, n, h) > WALK_LIMIT
    requires forall i :: n <= i < |es| ==> es[i].key != key
    ensures Lookup(es, key) == None
  {
    var k := Latest(es, |es|, key);
    if k >= 0 {
      CrowdGap(es, k + 1, n, h);
    }
  }

  lemma Miss(xs: seq<byte>, hsize: nat, es: seq<Entry>, n: nat, h: nat, key: seq<byte>)
    requires Holds(xs, hsize, es) && n <= |es| && Keyed(es, key, h) && Newest(es, n, h) == 0
    requires forall i :: n <= i < |es| ==> es[i].key != key
    ensures Lookup(es, key) == None
  {
    var k := FindNewest(es, n, h);
  }

  lemma EmptyPacked(xs: seq<byte>, hsize: nat)
    requires 100 <= |xs| <= 1_000_000_000 && PowerOfTwo(hsize) && 4 <= hsize <= |xs| / 16 && hsize % 4 == 0
    requires forall i :: 0 <= i < |xs| ==> xs[i] == 0
    ensures Packed(xs, hsize, hsize, |xs|, |xs|, [], [])
  {
    EmptyHolds(xs, hsize);
    var none: seq<Entry> := [];
    assert none + none == none;
  }

  lemma EmptyHolds(xs: seq<byte>, hsize: nat)
    requires 4 <= hsize <= |xs| <= 1_000_000_000 && hsize % 4 == 0
    requires forall i :: 0 <= i < |xs| ==> xs[i] == 0
    ensures Holds(xs, hsize, [])
  {
    forall h | 0 <= h < hsize && h % 4 == 0
      ensures HeadOk(xs, [], h)
    {
      ZeroWord(xs[h..h + 4]);
    }
  }

  lemma {:induction false} ZeroWord(s: seq<byte>)
    requires forall i :: 0 <= i < |s| ==> s[i] == 0
    ensures Unpack(s) == 0
  {
    if s != [] {
      ZeroWord(s[1..]);
    }
  }

  // ----- the whole of a bucket -----

  /** Offsets of the entries of bucket h among es[..n], newest first. */
  function Trail(es: seq<Entry>, n: nat, h: nat): seq<nat>
    requires n <= |es|
  {
    if n == 0 then [] else if es[n - 1].head == h then [es[n - 1].pos] + Trail(es, n - 1, h) else Trail(es, n - 1, h)
  }

  /** The offsets visited by following links from pos, coming from prev, for at most `steps` steps. */
  function Follow(xs: seq<byte>, prev: nat, pos: nat, steps: nat): seq<nat>
    decreases steps
  {
    if steps == 0 || pos == 0 || pos + 4 > |xs| then []
    else [pos] + Follow(xs, pos, Xor(prev, Word(xs, pos)), steps - 1)
  }

  lemma {:induction false} TrailGap(es: seq<Entry>, m: nat, n: nat, h: nat)
    requires m <= n <= |es| && forall i :: m <= i < n ==> es[i].head != h
    ensures Trail(es, n, h) == Trail(es, m, h)
  {
    if m < n {
      TrailGap(es, m, n - 1, h);
    }
  }

  lemma {:induction false} FollowFrom(xs: seq<byte>, hsize: nat, es: seq<Entry>, n: nat, h: nat, steps: nat)
    requires Holds(xs, hsize, es) && n <= |es| && n <= steps
    ensures Follow(xs, Oldest(es, n, h), Newest(es, n, h), steps) == Trail(es, n, h)
    decreases n
  {
    var k := FindNewest(es, n, h);
    TrailGap(es, k + 1, n, h);
    if k >= 0 {
      assert EntryOk(xs, es, k);
      OldestGap(es, k + 1, n, h);
      XorCancel(Oldest(es, n, h), Newest(es, k, h));
      FollowFrom(xs, hsize, es, k, h, steps - 1);
    }
  }

  /** Following the links of any bucket from its head visits exactly its live entries, newest first, and
      then stops. */
  lemma BucketWalk(xs: seq<byte>, hsize: nat, es: seq<Entry>, h: nat, steps: nat)
    requires Holds(xs, hsize, es) && h < hsize && h % 4 == 0 && |es| <= steps
    ensures h + 4 <= |xs| && Follow(xs, h, Word(xs, h), steps) == Trail(es, |es|, h)
  {
    assert HeadOk(xs, es, h);
    FollowFrom(xs, hsize, es, |es|, h, steps);
  }

  lemma DoubleSize(h: nat, size: nat)
    requires h <= size / 32 && h % 4 == 0
    ensures 2 * h <= size / 16 && 2 * h % 4 == 0 && 2 * h / 2 == h
  {
  }

  lemma FitsAtOnce(recent: seq<Entry>, writer: nat, hsize: nat, size: nat, len: nat, n: nat)
    requires writer + len <= size && NoRoomBefore([], recent, writer, hsize, size, len, n)
    ensures n == 0
  {
    assert Room([], recent, writer, hsize, size, len, 0);
  }

  lemma NothingGone(es: seq<Entry>)
    ensures ([] + es)[0..] == [] + es
  {
  }

  lemma StoredFree(recent: seq<Entry>, writer: nat, hsize: nat, size: nat, key: seq<byte>, n: nat, live: seq<Entry>,
      before: seq<Entry>, after: seq<Entry>)
    requires 4 <= hsize <= writer && writer + |key| + 20 <= size
    requires Stores([], recent, writer, hsize, size, key, [], Expiry(0, 1), n, live, before, after)
    ensures n == 0 && live == [] + recent + [Entry(writer, Bucket(key, hsize), key, [], Expiry(0, 1))]
  {
    FitsAtOnce(recent, writer, hsize, size, |key| + 20, n);
    NothingGone(recent);
  }

  class Cache {
    var x: array?<byte>
    var size: nat
    var hsize: nat
    var writer: nat
    var oldest: nat
    var unused: nat
    var motion: nat
    /** Entries in [oldest, unused), oldest first. */
    ghost var aged: seq<Entry>
    /** Entries in [hsize, writer), oldest first; all newer than the aged ones. */
    ghost var recent: seq<Entry>
    /** Every entry ever stored, oldest first. */
    ghost var stored: seq<Entry>

    /** The live entries, oldest first. */
    ghost function Live(): seq<Entry>
      reads this
    {
      aged + recent
    }

    ghost predicate Valid()
      reads this, x
    {
      && Suffix(Live(), stored)
      && motion == Total(stored) % WORD64
      && if x == null then aged == [] && recent == []
         else x.Length == size && Packed(x[..], hsize, writer, oldest, unused, aged, recent)
    }

    /** The program starts without a cache. */
    constructor ()
      ensures Valid() && x == null && stored == []
    {
      x := null;
      size, hsize, writer, oldest, unused, motion := 0, 0, 0, 0, 0, 0;
      aged, recent, stored := [], [], [];
    }

    // ----- cells -----

    function Get4(pos: nat): nat
      requires x != null && pos + 4 <= x.Length
      reads this, x
    {
      Word(x[..], pos)
    }

    method Set4(pos: nat, u: nat)
      requires x != null && pos + 4 <= x.Length && u < WORD
      modifies x
      ensures WroteWord(old(x[..]), x[..], pos, u)
    {
      var b := Pack(u);
      x[pos], x[pos + 1], x[pos + 2], x[pos + 3] := b[0], b[1], b[2], b[3];
      UnpackPack(u);
      assert x[..][pos..pos + 4] == b;
    }

    method SetBytes(pos: nat, b: seq<byte>)
      requires x != null && pos + |b| <= x.Length
      modifies x
      ensures Wrote(old(x[..]), x[..], pos, b)
    {
      ghost var before := x[..];
      for i := 0 to |b|
        invariant SameOutside(before, x[..], pos, pos + |b|)
        invariant forall k :: 0 <= k < i ==> x[pos + k] == b[k]
      {
        x[pos + i] := b[i];
      }
    }

    // ----- set up -----

    /** The sizing loop of cache_init: the least power of two above size / 32, but at least 4. */
    static method TableSize(size: nat) returns (h: nat)
      requires size >= 100
      ensures PowerOfTwo(h) && 4 <= h <= size / 16 && h % 4 == 0
      ensures size / 32 < h && (h == 4 || h / 2 <= size / 32)
    {
      h := 4;
      ghost var k := 2;
      while h <= size / 32
        invariant Pow2(k) == h && 4 <= h <= size / 16 && h % 4 == 0
        invariant h == 4 || h / 2 <= size / 32
        decreases size - h
      {
        DoubleSize(h, size);
        h := 2 * h;
        k := k + 1;
      }
    }

    /** cache_free */
    method Free()
      requires Valid()
      modifies this
      ensures Valid() && x == null
      ensures stored == old(stored) && motion == old(motion)
    {
      x := null;
      aged, recent := [], [];
    }

    /** cache_init; `memory` tells whether alloc_zero succeeds. */
    method Init(cachesize: nat, memory: bool) returns (ok: bool)
      requires Valid()
      modifies this
      ensures Valid() && ok == memory && (x != null <==> ok) && Live() == []
      ensures size == if cachesize > 1_000_000_000 then 1_000_000_000 else if cachesize < 100 then 100 else cachesize
      ensures size / 32 < hsize && (hsize == 4 || hsize / 2 <= size / 32)
      ensures stored == old(stored) && motion == old(motion)
      ensures ok ==> fresh(x) && aged == [] && writer == hsize
    {
      Free();
      var n := if cachesize > 1_000_000_000 then 1_000_000_000 else if cachesize < 100 then 100 else cachesize;
      var h := TableSize(n);
      size, hsize := n, h;
      if !memory {
        return false;
      }
      Allocate();
      SuffixNone(stored);
      ok := true;
    }

    /** An empty buffer of the size computed. */
    method Allocate()
      requires 100 <= size <= 1_000_000_000 && PowerOfTwo(hsize) && 4 <= hsize <= size / 16 && hsize % 4 == 0
      modifies `x, `writer, `oldest, `unused, `aged, `recent
      ensures fresh(x) && Sound() && aged == [] && recent == [] && writer == hsize
    {
      x := new byte[size](_ => 0);
      writer, oldest, unused := hsize, size, size;
      aged, recent := [], [];
      EmptyPacked(x[..], hsize);
    }

    // ----- the hash loop -----

    method Hash(key: seq<byte>) returns (r: nat)
      requires hsize >= 4
      ensures r == Bucket(key, hsize)
    {
      r := 5381;
      for i := 0 to |key|
        invariant r == Digest(key[..i])
      {
        DigestStep(key, i);
        HashStep(r, key[i]);
        r := ((r * 32) % WORD + r) % WORD;
        r := Xor(r, key[i]);
      }
      assert key[..|key|] == key;
      r := And(r * 4 % WORD, hsize - 4);
    }

    // ----- lookup -----

    /** cache_find: walk the bucket from its head, newest entry first. */
    method Find(key: seq<byte>) returns (r: Option<Answer>)
      requires Valid()
      ensures r == if x == null || |key| > MAX_KEY then None else Lookup(Live(), key)
      ensures r.Some? ==>
                var k := Latest(stored, |stored|, key);
                k >= 0 && r.value == Answer(stored[k].data, stored[k].expire)
    {
      if x == null {
        return None;
      }
      if |key| > MAX_KEY {
        return None;
      }
      var head := Hash(key);
      BucketIsHead(key, hsize);
      FiledKeyed(Live(), key, hsize);
      r := Walk(key, head, Live());
      FoundIsStored(Live(), stored, key);
    }

    /** The test of one entry in cache_find; neither call of cache_impossible is reached. */
    method Match(key: seq<byte>, pos: nat, ghost e: Entry) returns (r: Option<Answer>)
      requires x != null && x.Length == size && ReadsBack(x[..], e) && e.pos == pos
      ensures r == if e.key == key then Some(Answer(e.data, e.expire)) else None
    {
      if Get4(pos + 4) == |key| {
        if pos + 20 + |key| > size {
          assert false;
        }
        if x[pos + 20..pos + 20 + |key|] == key {
          var u := Get4(pos + 8);
          if u > size - pos - 20 - |key| {
            assert false;
          }
          return Some(Answer(x[pos + 20 + |key|..pos + 20 + |key| + u], x[pos + 12..pos + 20]));
        }
      }
      return None;
    }

    /** The list walk of cache_find. */
    method Walk(key: seq<byte>, head: nat, ghost es: seq<Entry>) returns (r: Option<Answer>)
      requires x != null && x.Length == size && Holds(x[..], hsize, es)
      requires Keyed(es, key, head) && head % 4 == 0 && head + 4 <= hsize
      ensures r == Lookup(es, key)
    {
      ghost var xs := x[..];
      HeadCell(xs, hsize, es, head);
      var prevpos := head;
      var pos := Get4(prevpos);
      var loop := 0;
      ghost var n: nat := |es|;
      while pos != 0
        invariant n <= |es| && pos == Newest(es, n, head) && prevpos == Oldest(es, n, head)
        invariant loop == Crowd(es, n, head) <= WALK_LIMIT
        invariant forall i :: n <= i < |es| ==> es[i].key != key
        decreases n
      {
        ghost var k := WalkStep(xs, hsize, es, n, head, key);
        r := Match(key, pos, es[k]);
        if r.Some? {
          Hit(es, k, key);
          return;
        }
        var nextpos := Xor(prevpos, Get4(pos));
        prevpos := pos;
        pos := nextpos;
        n := k;
        loop := loop + 1;
        if loop > WALK_LIMIT {
          Flooded(es, n, head, key);
          return None;
        }
      }
      Miss(xs, hsize, es, n, head, key);
      return None;
    }

    // ----- eviction -----

    /** The layout part of Valid. */
    ghost predicate Sound()
      reads this, x
    {
      x != null && x.Length == size && Packed(x[..], hsize, writer, oldest, unused, aged, recent)
    }

    /** The body of the eviction loop once the oldest entry is the one at `oldest`. */
    method EvictOldest()
      requires Sound() && oldest < unused
      modifies x, `oldest, `unused, `aged
      ensures Sound()
      ensures old(aged) != [] && aged == old(aged)[1..]
      ensures oldest == if aged == [] then size else aged[0].pos
    {
      ghost var xs, was, lo, hi := x[..], aged, oldest, unused;
      EvictFirst(was, recent, lo, hi);
      var next := Unlink(oldest, was + recent);
      EvictPacked(xs, x[..], hsize, writer, lo, hi, was, recent);
      oldest := next;
      aged := was[1..];
      if oldest > unused {
        assert false;
      }
      if oldest == unused {
        unused := size;
        oldest := size;
      }
    }

    /** The one-cell unlink of the entry at offset `tail`, and the offset after that entry. */
    method Unlink(tail: nat, ghost es: seq<Entry>) returns (next: nat)
      requires x != null && es != [] && Holds(x[..], hsize, es) && tail == es[0].pos
      modifies x
      ensures |x[..]| == |old(x[..])|
      ensures Holds(x[..], hsize, es[1..])
      ensures next == es[0].End()
    {
      ghost var xs := x[..];
      ghost var p := Oldest(es, 1, es[0].head);
      UnlinkTarget(xs, hsize, es, p);
      var pos := Get4(tail);
      XorWord(xs, pos, tail);
      Set4(pos, Xor(Get4(pos), tail));
      UnlinkHolds(xs, x[..], hsize, es, p);
      LengthsKept(xs, x[..], es, p);
      next := tail + Get4(tail + 4) + Get4(tail + 8) + 20;
    }

    /** Wrap around: the newer region becomes the older one and writing starts over below it. */
    method StartOver()
      requires Sound() && oldest == unused && hsize < writer
      modifies `writer, `oldest, `unused, `aged, `recent
      ensures Sound() && oldest < unused
      ensures old(aged) == [] && aged == old(recent) && recent == [] && writer == hsize
    {
      TilesNone(aged, oldest, unused);
      WrapPacked(x[..], hsize, writer, aged, recent);
      unused := writer;
      oldest := hsize;
      writer := hsize;
      aged, recent := recent, [];
    }

    /** The body of the eviction loop: false if there is nothing to evict. */
    method EvictNext() returns (ok: bool)
      requires Sound()
      modifies x, `writer, `oldest, `unused, `aged, `recent
      ensures Sound()
      ensures ok <==> old(Live()) != []
      ensures !ok ==> aged == [] && recent == [] && writer == hsize && oldest == size
      ensures ok && old(aged) != [] ==> aged == old(aged)[1..] && recent == old(recent) && writer == old(writer)
      ensures ok && old(aged) == [] ==> old(recent) != [] && aged == old(recent)[1..] && recent == [] && writer == hsize
      ensures ok ==> oldest == if aged == [] then size else aged[0].pos
    {
      if oldest == unused {
        TilesNone(aged, oldest, unused);
        if writer <= hsize {
          TilesNone(recent, hsize, writer);
          return false;
        }
        StartOver();
      }
      EvictOldest();
      ok := true;
    }

    /** One more eviction for an entry of len bytes, the n-th after the first. */
    method EvictFor(len: nat, ghost a: seq<Entry>, ghost r: seq<Entry>, ghost w: nat, ghost n: nat) returns (ok: bool)
      requires Sound() && Progress(a, r, w, hsize, size, len, n, aged, recent, writer, oldest) && writer + len > oldest
      modifies x, `writer, `oldest, `unused, `aged, `recent
      ensures Sound()
      ensures ok ==> Progress(a, r, w, hsize, size, len, n + 1, aged, recent, writer, oldest)
      ensures ok ==> |aged| + |recent| < |old(aged)| + |old(recent)|
      ensures !ok ==> aged == [] && recent == [] && n == |a| + |r| && len > size - hsize
    {
      ghost var was, newer := aged, recent;
      ProgressLive(a, r, w, hsize, size, len, n, aged, recent, writer, oldest);
      ok := EvictNext();
      if ok {
        ProgressNext(a, r, w, hsize, size, len, n, was, newer, aged, recent, writer, oldest);
      }
    }

    /** The eviction loop of cache_set: `evicted` oldest entries go, no more than needed. */
    method MakeRoom(len: nat) returns (ok: bool, ghost evicted: nat)
      requires Sound() && len > 0
      modifies x, `writer, `oldest, `unused, `aged, `recent
      ensures Sound()
      ensures evicted <= |old(Live())| && Live() == old(Live())[evicted..]
      ensures ok <==> len <= size - hsize
      ensures !ok ==> Live() == []
      ensures ok ==> writer + len <= oldest && writer == GapStart(old(aged), old(writer), hsize, evicted)
      ensures NoRoomBefore(old(aged), old(recent), old(writer), hsize, size, len, evicted)
      ensures ok ==> Room(old(aged), old(recent), old(writer), hsize, size, len, evicted)
      ensures ok && evicted == 0 ==> aged == old(aged) && recent == old(recent)
    {
      ghost var a, r, w := aged, recent, writer;
      GapNow(x[..], hsize, writer, oldest, unused, a, r);
      ProgressStart(a, r, w, hsize, size, len);
      ok, evicted := EvictUntil(len, a, r, w);
      if ok {
        ProgressLive(a, r, w, hsize, size, len, evicted, aged, recent, writer, oldest);
      }
    }

    method EvictUntil(len: nat, ghost a: seq<Entry>, ghost r: seq<Entry>, ghost w: nat)
      returns (ok: bool, ghost evicted: nat)
      requires Sound() && Progress(a, r, w, hsize, size, len, 0, aged, recent, writer, oldest)
      modifies x, `writer, `oldest, `unused, `aged, `recent
      ensures Sound() && NoRoomBefore(a, r, w, hsize, size, len, evicted)
      ensures ok ==> Progress(a, r, w, hsize, size, len, evicted, aged, recent, writer, oldest)
      ensures ok ==> writer + len <= oldest
      ensures !ok ==> aged == [] && recent == [] && evicted == |a| + |r| && len > size - hsize
    {
      evicted := 0;
      while writer + len > oldest
        invariant Sound() && Progress(a, r, w, hsize, size, len, evicted, aged, recent, writer, oldest)
        decreases |aged| + |recent|
      {
        ok := EvictFor(len, a, r, w, evicted);
        if !ok {
          return;
        }
        evicted := evicted + 1;
      }
      ok := true;
    }

    // ----- insertion -----

    /** The writes that store an entry behind its link; the caller names the entry they amount to. */
    method WriteEntry(link: nat, key: seq<byte>, data: seq<byte>, expire: seq<byte>, ghost e: Entry)
      requires x != null && link < WORD && |key| < WORD && |data| < WORD && |expire| == 8
      requires e.pos == writer && e.key == key && e.data == data && e.expire == expire && e.End() <= x.Length
      modifies x
      ensures SameOutside(old(x[..]), x[..], e.pos, e.End())
      ensures Get4(e.pos) == link && e.Stored(x[..][e.pos + 4..e.End()])
    {
      ghost var x0 := x[..];
      ghost var x1, x2 := WriteWords(link, |key|, |data|, e);
      ghost var x3 := x[..];
      ghost var x4, x5 := WriteStrings(key, data, expire);
      StringsOf(x3, x4, x5, x[..], writer, key, data, expire, e);
      SixWrites(x0, x1, x2, x3, x4, x5, x[..], e);
    }

    /** The expiry, the key and the data. */
    method WriteStrings(key: seq<byte>, data: seq<byte>, expire: seq<byte>)
        returns (ghost x4: seq<byte>, ghost x5: seq<byte>)
      requires x != null && |expire| == 8 && writer + 20 + |key| + |data| <= x.Length
      modifies x
      ensures Wrote(old(x[..]), x4, writer + 12, expire) && Wrote(x4, x5, writer + 20, key)
      ensures Wrote(x5, x[..], writer + 20 + |key|, data)
    {
      SetBytes(writer + 12, expire);
      x4 := x[..];
      SetBytes(writer + 20, key);
      x5 := x[..];
      SetBytes(writer + 20 + |key|, data);
    }

    /** The link and the two lengths. */
    method WriteWords(link: nat, keylen: nat, datalen: nat, ghost e: Entry)
        returns (ghost x1: seq<byte>, ghost x2: seq<byte>)
      requires x != null && link < WORD && keylen < WORD && datalen < WORD && e.End() <= x.Length
      requires e.pos == writer && |e.key| == keylen && |e.data| == datalen
      modifies x
      ensures WroteWord(old(x[..]), x1, e.pos, link) && WroteWord(x1, x2, e.pos + 4, |e.key|)
      ensures WroteWord(x2, x[..], e.pos + 8, |e.data|)
    {
      Set4(writer, link);
      x1 := x[..];
      Set4(writer + 4, keylen);
      x2 := x[..];
      Set4(writer + 8, datalen);
    }

    /** The rest of cache_set, once there is room: link the new entry in as the newest of its bucket. */
    method Insert(key: seq<byte>, data: seq<byte>, expire: seq<byte>)
      requires Sound() && |key| <= MAX_KEY && |data| <= MAX_DATA && |expire| == 8
      requires writer + |key| + |data| + 20 <= oldest
      modifies x, `writer, `recent
      ensures Sound()
      ensures Live() == old(Live()) + [Entry(old(writer), Bucket(key, hsize), key, data, expire)]
      ensures writer == old(writer) + |key| + |data| + 20
    {
      ghost var xs := x[..];
      var keyhash := Hash(key);
      BucketIsHead(key, hsize);
      ghost var e := Entry(writer, keyhash, key, data, expire);
      NewFits(xs, hsize, writer, oldest, unused, aged, recent, e);
      Link(keyhash, key, data, expire, aged + recent, e);
      InsertPacked(xs, x[..], hsize, writer, oldest, unused, aged, recent, e);
      assert aged + (recent + [e]) == aged + recent + [e];
      recent := recent + [e];
      writer := writer + |key| + |data| + 20;
    }

    /** The writes of cache_set at the head of a bucket. */
    method Link(keyhash: nat, key: seq<byte>, data: seq<byte>, expire: seq<byte>, ghost es: seq<Entry>, ghost e: Entry)
      requires x != null && Holds(x[..], hsize, es) && Fits(x[..], hsize, es, e)
      requires |key| <= MAX_KEY && |data| <= MAX_DATA && |expire| == 8
      requires e == Entry(writer, keyhash, key, data, expire)
      modifies x
      ensures |x[..]| == |old(x[..])| && Holds(x[..], hsize, es + [e])
    {
      ghost var xs := x[..];
      HeadCell(xs, hsize, es, keyhash);
      var pos := Get4(keyhash);
      XorWord(xs, keyhash, keyhash);
      PointBack(pos, keyhash);
      ghost var x1 := x[..];
      WriteEntry(Xor(pos, keyhash), key, data, expire, e);
      ghost var x2 := x[..];
      Set4(keyhash, writer);
      InsertHolds(xs, x1, x2, x[..], hsize, es, e, pos);
    }

    /** The link of the entry at pos, until now the newest of its bucket, gains the new entry. */
    method PointBack(pos: nat, keyhash: nat)
      requires x != null && pos + 4 <= x.Length && keyhash < WORD && writer < WORD
      modifies x
      ensures if pos == 0 then x[..] == old(x[..])
              else SameOutside(old(x[..]), x[..], pos, pos + 4)
                   && Get4(pos) == Xor(Xor(Word(old(x[..]), pos), keyhash), writer)
    {
      if pos != 0 {
        XorWord3(x[..], pos, keyhash, writer);
        Set4(pos, Xor(Xor(Get4(pos), keyhash), writer));
      }
    }

    /** cache_set at time now. A refused call changes nothing; an accepted one evicts the fewest oldest
        entries that leave a large enough gap, then stores the new entry there, unless no gap can ever
        be large enough, in which case the cache ends up empty. */
    method Set(key: seq<byte>, data: seq<byte>, ttl: nat, now: nat) returns (ghost evicted: nat)
      requires Valid()
      modifies x, `writer, `oldest, `unused, `aged, `recent, `stored, `motion
      ensures Valid()
      ensures !Accepts(x != null, key, data, ttl) ==>
                evicted == 0 && aged == old(aged) && recent == old(recent) && stored == old(stored)
                    && motion == old(motion)
      ensures Accepts(x != null, key, data, ttl) ==>
                Stores(old(aged), old(recent), old(writer), hsize, size, key, data, Expiry(now, ttl), evicted,
                       Live(), old(stored), stored)
      ensures Accepts(x != null, key, data, ttl) && evicted == 0 && |key| + |data| + 20 <= size - hsize ==>
                aged == old(aged) && writer == old(writer) + |key| + |data| + 20
      ensures Accepts(x != null, key, data, ttl) && |key| + |data| + 20 <= size - hsize ==>
                Lookup(Live(), key) == Some(Answer(data, Expiry(now, ttl)))
    {
      evicted := 0;
      if !Accepts(x != null, key, data, ttl) {
        return;
      }
      evicted := SetAccepted(key, data, Expiry(now, ttl));
    }

    method SetAccepted(key: seq<byte>, data: seq<byte>, expire: seq<byte>) returns (ghost evicted: nat)
      requires Valid() && x != null && |key| <= MAX_KEY && |data| <= MAX_DATA && |expire| == 8
      modifies x, `writer, `oldest, `unused, `aged, `recent, `stored, `motion
      ensures Valid()
      ensures Stores(old(aged), old(recent), old(writer), hsize, size, key, data, expire, evicted, Live(),
              old(stored), stored)
      ensures evicted == 0 && |key| + |data| + 20 <= size - hsize ==>
                aged == old(aged) && writer == old(writer) + |key| + |data| + 20
      ensures |key| + |data| + 20 <= size - hsize ==> Lookup(Live(), key) == Some(Answer(data, expire))
    {
      ghost var live, a, w := Live(), aged, writer;
      var ok;
      ok, evicted := Store(key, data, expire);
      SuffixDrop(live, stored, evicted);
      if ok {
        ghost var e := Entry(GapStart(a, w, hsize, evicted), Bucket(key, hsize), key, data, expire);
        Record(e, live[evicted..], |key| + |data| + 20);
        LookupAfterSet(live, evicted, e, key);
      }
    }

    /** A store for which nothing has to be evicted. */
    method SetFree(key: seq<byte>)
      requires Valid() && x != null && |key| <= MAX_KEY && aged == [] && hsize <= writer && writer + |key| + 20 <= size
      modifies x, `writer, `oldest, `unused, `aged, `recent, `stored, `motion
      ensures Valid() && aged == [] && writer == old(writer) + |key| + 20 && hsize >= 4
      ensures Live() == old(Live()) + [Entry(old(writer), Bucket(key, hsize), key, [], Expiry(0, 1))]
    {
      ghost var recent0, writer0, stored0 := recent, writer, stored;
      ghost var n := Set(key, [], 1, 0);
      StoredFree(recent0, writer0, hsize, size, key, n, Live(), stored0, stored);
    }

    /** Book keeping of a stored entry of len bytes: cache_motion and the history. */
    method Record(ghost e: Entry, ghost left: seq<Entry>, len: nat)
      requires Sound() && Suffix(left, stored) && Live() == left + [e] && e.Len() == len
      requires motion == Total(stored) % WORD64
      modifies `stored, `motion
      ensures Valid() && stored == old(stored) + [e]
    {
      SuffixAppend(left, stored, e);
      TotalAppend(stored, e);
      ghost var ys := x[..];
      stored := stored + [e];
      motion := (motion + len) % WORD64;
      StillSound(ys);
    }

    lemma StillSound(ys: seq<byte>)
      requires x != null && x.Length == size && ys == x[..] && Packed(ys, hsize, writer, oldest, unused, aged, recent)
      ensures Sound()
    {
    }

    method Store(key: seq<byte>, data: seq<byte>, expire: seq<byte>) returns (ok: bool, ghost evicted: nat)
      requires Sound() && |key| <= MAX_KEY && |data| <= MAX_DATA && |expire| == 8
      modifies x, `writer, `oldest, `unused, `aged, `recent
      ensures Sound()
      ensures ok <==> |key| + |data| + 20 <= size - hsize
      ensures NoRoomBefore(old(aged), old(recent), old(writer), hsize, size, |key| + |data| + 20, evicted)
      ensures ok ==> Room(old(aged), old(recent), old(writer), hsize, size, |key| + |data| + 20, evicted)
      ensures evicted <= |old(Live())|
      ensures ok ==> Live() == old(Live())[evicted..] +
                               [Entry(GapStart(old(aged), old(writer), hsize, evicted), Bucket(key, hsize), key, data,
                                   expire)]
      ensures !ok ==> Live() == [] == old(Live())[evicted..]
      ensures ok && evicted == 0 ==> aged == old(aged) && writer == old(writer) + |key| + |data| + 20
    {
      ok, evicted := MakeRoom(|key| + |data| + 20);
      if ok {
        Insert(key, data, expire);
      }
    }
  }

  // ----- a run in which a live entry is not found -----

  lemma XorStep(a: nat, b: nat, r: nat)
    requires Xor(a / 2, b / 2) == r
    ensures Xor(a, b) == 2 * r + if a % 2 == b % 2 then 0 else 1
  {
    XorDigits(a, b);
  }

  lemma XorLast(a: nat, r: nat)
    requires a == r
    ensures Xor(a, 0) == r
  {
    XorZero(a);
  }

  lemma XorValue()
    ensures Xor(5_859_876, 97) == 5_859_909
  {
    XorLast(45_780, 45_780);
    XorStep(91_560, 1, 45_780);
    XorStep(183_121, 3, 91_561);
    XorStep(366_242, 6, 183_122);
    XorStep(732_484, 12, 366_244);
    XorStep(1_464_969, 24, 732_488);
    XorStep(2_929_938, 48, 1_464_977);
    XorStep(5_859_876, 97, 2_929_954);
  }

  lemma XorOne()
    ensures Xor(177_573, 1) == 177_572
  {
    XorLast(88_786, 88_786);
    XorStep(177_573, 1, 88_786);
  }

  lemma DigestTwo(a: byte, b: byte, acc: nat, m: nat, r: nat)
    requires Xor(177_573, a) == acc && 33 * acc == m < WORD && Xor(m, b) == r
    ensures Digest([a, b]) == r
  {
    assert [a, b][..1] == [a] && [a][..0] == [];
    MixIs(5381, a, 177_573, acc);
    MixIs(acc, b, m, r);
    assert Digest([]) == 5381;
  }

  lemma MixIs(acc: nat, b: byte, m: nat, r: nat)
    requires 33 * acc == m < WORD && Xor(m, b) == r
    ensures Mix(acc, b) == r
  {
    assert m % WORD == m;
  }

  /** Two keys with the same 32-bit hash, which share a bucket in every table. */
  lemma SameBucket(hsize: nat)
    requires hsize >= 4
    ensures Bucket([0, 0], hsize) == Bucket([1, 97], hsize)
  {
    HashValues();
  }

  /** The entry for one key, followed by n entries for the other. */
  ghost predicate Crowded(es: seq<Entry>, n: nat, h: nat) {
    && |es| == n + 1 && es[0].key == [0, 0] && es[0].head == h
    && forall i :: 0 < i < |es| ==> es[i].key == [1, 97] && es[i].head == h
  }

  lemma CrowdedMiss(es: seq<Entry>, n: nat, h: nat)
    requires Crowded(es, n, h) && n > 100
    ensures Latest(es, |es|, [0, 0]) == 0 && Lookup(es, [0, 0]) == None
  {
    assert [1, 97][0] != [0, 0][0];
    LatestAt(es, |es|, [0, 0], 0);
    assert es == [es[0]] + es[1..];
    Overlooked(es[0], es[1..]);
  }

  lemma CrowdedHit(es: seq<Entry>, n: nat, h: nat)
    requires Crowded(es, n, h) && n <= 100
    ensures Lookup(es, [0, 0]) == Some(Answer(es[0].data, es[0].expire))
  {
    assert [1, 97][0] != [0, 0][0];
    LatestAt(es, |es|, [0, 0], 0);
    FullCrowd(es, 1, h);
  }

  lemma CrowdedNext(es: seq<Entry>, n: nat, h: nat, e: Entry)
    requires Crowded(es, n, h) && e.key == [1, 97] && e.head == h
    ensures Crowded(es + [e], n + 1, h)
  {
  }

  /** So many stores under the other key. */
  method Flood(c: Cache, times: nat, ghost h: nat)
    requires c.Valid() && c.x != null && c.aged == [] && Crowded(c.Live(), 0, h)
    requires 4 <= c.hsize <= c.writer <= c.size - 22 * times && h == Bucket([1, 97], c.hsize)
    modifies c.x, c`writer, c`oldest, c`unused, c`aged, c`recent, c`stored, c`motion
    ensures c.Valid() && Crowded(c.Live(), times, h)
  {
    for k := 0 to times
      invariant c.Valid() && c.aged == [] && c.writer == old(c.writer) + 22 * k && Crowded(c.Live(), k, h)
    {
      ghost var es := c.Live();
      c.SetFree([1, 97]);
      CrowdedNext(es, k, h, c.Live()[|es|]);
    }
  }

  /** A fresh cache of 10,000 bytes with one entry, and so many stores under another key of its bucket. */
  method FillBucket(times: nat) returns (c: Cache, ghost h: nat)
    requires times <= 101
    ensures fresh(c) && c.Valid() && c.x != null && Crowded(c.Live(), times, h)
  {
    c := new Cache();
    var ok := c.Init(10_000, true);
    h := Bucket([0, 0], c.hsize);
    SameBucket(c.hsize);
    c.SetFree([0, 0]);
    Flood(c, times, h);
  }

  /** After 101 such stores the entry is live and yet not found. Nothing has been evicted. */
  method FloodedRun() returns (c: Cache, r: Option<Answer>)
    ensures fresh(c) && c.Valid() && c.x != null && Latest(c.Live(), |c.Live()|, [0, 0]) == 0
    ensures r == None
  {
    ghost var h;
    c, h := FillBucket(101);
    CrowdedMiss(c.Live(), 101, h);
    r := c.Find([0, 0]);
  }

  /** After 100 such stores it is found. */
  method CrowdedRun() returns (c: Cache, r: Option<Answer>)
    ensures fresh(c) && c.Valid() && c.x != null && r.Some?
  {
    ghost var h;
    c, h := FillBucket(100);
    CrowdedHit(c.Live(), 100, h);
    r := c.Find([0, 0]);
  }

  /** A store whose entry fits, and a lookup after it: the data come back, with the time at which they expire. */
  method SetThenFind(c: Cache, key: seq<byte>, data: seq<byte>, ttl: nat, now: nat) returns (r: Option<Answer>)
    requires c.Valid() && c.x != null && |key| <= 1000 && |data| <= 1_000_000 && ttl != 0
    requires |key| + |data| + 20 <= c.size - c.hsize && now + 604_800 < 0x1_0000_0000_0000_0000
    modifies c.x, c`writer, c`oldest, c`unused, c`aged, c`recent, c`stored, c`motion
    ensures c.Valid() && r.Some? && r.value.data == data
    ensures |r.value.expire| == 8 && Denoted(r.value.expire) == if ttl <= 604_800 then now + ttl else now + 604_800
  {
    RefusedIff(c.x != null, key, data, ttl);
    ghost var n := c.Set(key, data, ttl, now);
    ExpiryDenotes(now, ttl);
    r := c.Find(key);
  }

  /** Two hashes in full. */
  lemma HashValues()
    ensures Digest([]) == 5381 && Digest([0, 0]) == 5_859_909 && Digest([1, 97]) == 5_859_909
  {
    XorLast(177_573, 177_573);
    XorLast(5_859_909, 5_859_909);
    XorOne();
    XorValue();
    DigestTwo(0, 0, 177_573, 5_859_909, 5_859_909);
    DigestTwo(1, 97, 177_572, 5_859_876, 5_859_909);
  }
}

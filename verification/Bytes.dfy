/** Byte strings, little-endian words and in-place replacement of a stretch of bytes. */
module Bytes {

  type byte = x: int | 0 <= x < 256

  const WORD := 0x1_0000_0000

  /** lib/uint32/uint32_pack.c */
  function Pack(u: nat): (s: seq<byte>)
    ensures |s| == 4
  {
    [u % 0x100, u / 0x100 % 0x100, u / 0x1_0000 % 0x100, u / 0x100_0000 % 0x100]
  }

  /** lib/uint32/uint32_unpack.c: the number a byte string denotes, least significant byte first. */
  function Unpack(s: seq<byte>): nat {
    if s == [] then 0 else s[0] as int + 0x100 * Unpack(s[1..])
  }

  lemma UnpackFour(a: byte, b: byte, c: byte, d: byte)
    ensures Unpack([a, b, c, d]) == a as int + 0x100 * b as int + 0x1_0000 * c as int + 0x100_0000 * d as int
  {
    assert [a, b, c, d][1..] == [b, c, d] && [b, c, d][1..] == [c, d] && [c, d][1..] == [d] && [d][1..] == [];
    UnpackByte(d);
    assert Unpack([c, d]) == c as int + 0x100 * d as int;
  }

  /** The four digits of a word to the base 256. */
  lemma Digits256(u: nat)
    requires u < WORD
    ensures u == u % 0x100 + 0x100 * (u / 0x100 % 0x100)
                 + 0x1_0000 * (u / 0x1_0000 % 0x100) + 0x100_0000 * (u / 0x100_0000 % 0x100)
  {
    assert u / 0x100 == u / 0x100 % 0x100 + 0x100 * (u / 0x1_0000);
    assert u / 0x1_0000 == u / 0x1_0000 % 0x100 + 0x100 * (u / 0x100_0000);
  }

  lemma UnpackPack(u: nat)
    requires u < WORD
    ensures Unpack(Pack(u)) == u
  {
    UnpackFour(u % 0x100, u / 0x100 % 0x100, u / 0x1_0000 % 0x100, u / 0x100_0000 % 0x100);
    Digits256(u);
  }

  lemma {:induction false} WholeWords(a: nat, q: nat)
    ensures (a + WORD * q) % WORD == a % WORD
  {
    if q > 0 {
      WholeWords(a, q - 1);
    }
  }

  /** Wrapping an intermediate sum makes no difference. */
  lemma WrapSum(a: nat, b: nat)
    ensures (a % WORD + b) % WORD == (a + b) % WORD
  {
    WholeWords(a % WORD + b, a / WORD);
  }

  lemma WordBound(s: seq<byte>, p: nat)
    requires p + 4 <= |s|
    ensures Word(s, p) < WORD
  {
    var t := s[p..p + 4];
    assert t[1..][1..][1..][1..] == [];
    assert Unpack(t[1..][1..][1..]) < 0x100;
    assert Unpack(t[1..][1..]) < 0x1_0000;
    assert Unpack(t[1..]) < 0x100_0000;
  }

  lemma UnpackByte(b: byte)
    ensures Unpack([b]) == b
  {
    assert [b][1..] == [];
  }

  /** The word stored at offset p. */
  function Word(s: seq<byte>, p: nat): nat
    requires p + 4 <= |s|
  {
    Unpack(s[p..p + 4])
  }

  /** t differs from s at most in [p, q). */
  ghost predicate SameOutside<T>(s: seq<T>, t: seq<T>, p: nat, q: nat) {
    |s| == |t| && p <= q <= |s| && s[..p] == t[..p] && s[q..] == t[q..]
  }

  /** t is s with the word u written at p. */
  ghost predicate WroteWord(s: seq<byte>, t: seq<byte>, p: nat, u: nat) {
    SameOutside(s, t, p, p + 4) && Word(t, p) == u
  }

  /** t is s with the bytes b written at p. */
  ghost predicate Wrote(s: seq<byte>, t: seq<byte>, p: nat, b: seq<byte>) {
    SameOutside(s, t, p, p + |b|) && t[p..p + |b|] == b
  }

  /** Two successive changes within [lo, hi) are one. */
  lemma SameOutsideTrans<T>(s: seq<T>, t: seq<T>, u: seq<T>, lo: nat, p: nat, q: nat, hi: nat)
    requires SameOutside(s, t, lo, hi) && SameOutside(t, u, p, q) && lo <= p && q <= hi
    ensures SameOutside(s, u, lo, hi)
  {
    SliceSame(t, u, p, q, 0, lo);
    SliceSame(t, u, p, q, hi, |s|);
    assert t[0..lo] == t[..lo] && u[0..lo] == u[..lo] && t[hi..|s|] == t[hi..] && u[hi..|s|] == u[hi..];
  }

  lemma SliceSame<T>(s: seq<T>, t: seq<T>, p: nat, q: nat, lo: nat, hi: nat)
    requires SameOutside(s, t, p, q) && lo <= hi <= |s|
    requires hi <= p || q <= lo
    ensures t[lo..hi] == s[lo..hi]
  {
    if hi <= p {
      TakeSlice(s, p, lo, hi);
      TakeSlice(t, p, lo, hi);
    } else {
      DropSlice(s, q, lo, hi);
      DropSlice(t, q, lo, hi);
    }
  }

  lemma WordSame(s: seq<byte>, t: seq<byte>, p: nat, q: nat, h: nat)
    requires SameOutside(s, t, p, q) && h + 4 <= |s| && (h + 4 <= p || q <= h)
    ensures Word(t, h) == Word(s, h)
  {
    SliceSame(s, t, p, q, h, h + 4);
  }

  lemma TakeSlice<T>(s: seq<T>, p: nat, lo: nat, hi: nat)
    requires lo <= hi <= p <= |s|
    ensures s[..p][lo..hi] == s[lo..hi]
  {
  }

  lemma DropSlice<T>(s: seq<T>, q: nat, lo: nat, hi: nat)
    requires q <= lo <= hi <= |s|
    ensures s[q..][lo - q..hi - q] == s[lo..hi]
  {
    var t := s[q..];
    assert forall k :: 0 <= k < |t| ==> t[k] == s[q + k];
    assert t[lo - q..hi - q] == s[lo..hi];
  }

  lemma SliceOfSlice<T>(s: seq<T>, lo: nat, hi: nat, i: nat, j: nat)
    requires lo <= hi <= |s| && i <= j <= hi - lo
    ensures s[lo..hi][i..j] == s[lo + i..lo + j]
  {
    var t := s[lo..hi];
    assert forall k :: 0 <= k < |t| ==> t[k] == s[lo + k];
    assert t[i..j] == s[lo + i..lo + j];
  }

  lemma Regroup(a: seq<byte>, b: seq<byte>, c: seq<byte>, d: seq<byte>)
    ensures a + b + c + d == a + (b + c + d) && [] + c + d == c + d
  {
  }
}

/** Domain names in wire format: labels of at most 63 octets, each after its length, then a zero (section 3.1
    of RFC 1035), compared without regard to case (section 2.3.3). */
module DomainNames {
  import opened Bytes

  type Name = seq<seq<byte>>

  /** Labels are nonempty and at most 63 octets long. */
  predicate WellFormed(n: Name) {
    forall i :: 0 <= i < |n| ==> 1 <= |n[i]| <= 63
  }

  /** lib/case: letters are folded to lower case, everything else is kept. */
  function Lower(b: byte): byte {
    if 65 <= b <= 90 then b + 32 else b
  }

  function Fold(s: seq<byte>): (t: seq<byte>)
    ensures |t| == |s|
  {
    if s == [] then [] else [Lower(s[0])] + Fold(s[1..])
  }

  /** The name with all labels folded: equal for names that differ only in case. */
  function Canon(n: Name): (c: Name)
    ensures |c| == |n|
  {
    if n == [] then [] else [Fold(n[0])] + Canon(n[1..])
  }

  predicate Same(a: Name, b: Name) {
    Canon(a) == Canon(b)
  }

  /** a lies under zone z: z is a suffix of a, label by label. */
  predicate Under(a: Name, z: Name) {
    |z| <= |a| && Canon(z) == Canon(a)[|a| - |z|..]
  }

  function Wire(n: Name): (w: seq<byte>)
    requires WellFormed(n)
    ensures w != []
  {
    if n == [] then [0] else [|n[0]|] + n[0] + Wire(n[1..])
  }

  // ----- folding and wire format -----

  lemma {:induction false} FoldConcat(a: seq<byte>, b: seq<byte>)
    ensures Fold(a + b) == Fold(a) + Fold(b)
  {
    if a == [] {
      assert a + b == b;
    } else {
      assert (a + b)[1..] == a[1..] + b;
      FoldConcat(a[1..], b);
    }
  }

  lemma {:induction false} CanonWellFormed(n: Name)
    requires WellFormed(n)
    ensures WellFormed(Canon(n))
  {
    if n != [] {
      CanonWellFormed(n[1..]);
    }
  }

  /** Lengths are below the letters, so folding a wire name folds just its labels. */
  lemma {:induction false} FoldWire(n: Name)
    requires WellFormed(n)
    ensures WellFormed(Canon(n)) && Fold(Wire(n)) == Wire(Canon(n))
  {
    CanonWellFormed(n);
    if n == [] {
      assert Fold([0]) == [0] + Fold([]);
    } else {
      var l, rest := n[0], n[1..];
      FoldWire(rest);
      FoldConcat([|l|] + l, Wire(rest));
      FoldConcat([|l|], l);
      assert [|l|][1..] == [];
      assert Canon(n)[1..] == Canon(rest);
    }
  }

  lemma {:induction false} WireInjective(a: Name, b: Name)
    requires WellFormed(a) && WellFormed(b) && Wire(a) == Wire(b)
    ensures a == b
  {
    if a != [] && b != [] {
      var x, y := a[0], b[0];
      assert Wire(a)[0] == |x| && Wire(b)[0] == |y|;
      assert Wire(a)[1..1 + |x|] == x && Wire(b)[1..1 + |y|] == y;
      assert Wire(a)[1 + |x|..] == Wire(a[1..]) && Wire(b)[1 + |y|..] == Wire(b[1..]);
      WireInjective(a[1..], b[1..]);
      assert a == [x] + a[1..] && b == [y] + b[1..];
    } else {
      assert Wire(a)[0] == Wire(b)[0];
    }
  }

  // ----- the comparisons of lib/dns/dns_domain.c, on wire names -----

  /** dns_domain_length: skip from length to length until the zero. */
  method Length(w: seq<byte>, ghost n: Name) returns (len: nat)
    requires WellFormed(n) && w == Wire(n)
    ensures len == |w|
  {
    var x := 0;
    ghost var rest := n;
    while w[x] != 0
      invariant WellFormed(rest) && 0 <= x < |w| && w[x..] == Wire(rest)
      decreases rest
    {
      assert w[x] == w[x..][0];
      assert w[x..][1 + |rest[0]|..] == w[x + 1 + |rest[0]|..];
      x := x + 1 + w[x] as nat;
      rest := rest[1..];
    }
    assert w[x] == w[x..][0] && rest == [];
    len := x + 1;
  }

  /** dns_domain_equal: names are equal up to case exactly when their wire forms are, octet by octet. */
  method Equal(v: seq<byte>, w: seq<byte>, ghost a: Name, ghost b: Name) returns (r: bool)
    requires WellFormed(a) && WellFormed(b) && v == Wire(a) && w == Wire(b)
    ensures r == Same(a, b)
  {
    SameWire(a, b);
    var len := Length(v, a);
    var len2 := Length(w, b);
    if len != len2 {
      return false;
    }
    for i := 0 to len
      invariant Fold(v[..i]) == Fold(w[..i])
    {
      FoldAt(v, i);
      FoldAt(w, i);
      assert v[..i + 1] == v[..i] + [v[i]] && w[..i + 1] == w[..i] + [w[i]];
      FoldConcat(v[..i], [v[i]]);
      FoldConcat(w[..i], [w[i]]);
      assert [v[i]][1..] == [] && [w[i]][1..] == [];
      if Lower(v[i]) != Lower(w[i]) {
        return false;
      }
    }
    assert v[..len] == v && w[..len] == w;
    return true;
  }

  lemma SameWire(a: Name, b: Name)
    requires WellFormed(a) && WellFormed(b)
    ensures Same(a, b) <==> Fold(Wire(a)) == Fold(Wire(b))
  {
    FoldWire(a);
    FoldWire(b);
    if Fold(Wire(a)) == Fold(Wire(b)) {
      WireInjective(Canon(a), Canon(b));
    }
  }

  lemma {:induction false} FoldAt(s: seq<byte>, i: nat)
    requires i < |s|
    ensures Fold(s)[i] == Lower(s[i])
  {
    if i > 0 {
      FoldAt(s[1..], i - 1);
    }
  }

  /** dns_domain_suffix: drop labels from the front of big until it equals little. */
  method Suffix(big: seq<byte>, little: seq<byte>, ghost a: Name, ghost z: Name) returns (r: bool)
    requires WellFormed(a) && WellFormed(z) && big == Wire(a) && little == Wire(z)
    ensures r == Under(a, z)
  {
    var w := big;
    ghost var rest := a;
    while true
      invariant WellFormed(rest) && w == Wire(rest) && |rest| <= |a| && rest == a[|a| - |rest|..]
      invariant Under(a, z) ==> |z| <= |rest|
      decreases rest
    {
      var same := Equal(w, little, rest, z);
      CanonSuffix(a, |a| - |rest|);
      if same {
        return true;
      }
      if w[0] == 0 {
        return false;
      }
      assert rest != [];
      w := w[1 + w[0] as nat..];
      rest := rest[1..];
    }
  }

  lemma {:induction false} CanonSuffix(n: Name, k: nat)
    requires k <= |n|
    ensures Canon(n[k..]) == Canon(n)[k..]
  {
    if k > 0 {
      CanonSuffix(n[1..], k - 1);
      assert n[1..][k - 1..] == n[k..];
    }
  }

  // ----- sameness in octets -----

  /** The same octet, or the two cases of a letter. */
  predicate SameOctet(x: byte, y: byte) {
    x == y || (65 <= x <= 90 && y == x + 32) || (65 <= y <= 90 && x == y + 32)
  }

  predicate SameOctets(v: seq<byte>, w: seq<byte>) {
    |v| == |w| && forall i :: 0 <= i < |v| ==> SameOctet(v[i], w[i])
  }

  lemma {:induction false} FoldSame(v: seq<byte>, w: seq<byte>)
    ensures Fold(v) == Fold(w) <==> SameOctets(v, w)
  {
    if |v| == |w| {
      forall i | 0 <= i < |v|
        ensures Fold(v)[i] == Fold(w)[i] <==> SameOctet(v[i], w[i])
      {
        FoldAt(v, i);
        FoldAt(w, i);
      }
    }
  }

  lemma {:induction false} CanonAt(n: Name, i: nat)
    requires i < |n|
    ensures Canon(n)[i] == Fold(n[i])
  {
    if i > 0 {
      CanonAt(n[1..], i - 1);
    }
  }

  /** Names are the same if they have the same labels, octet by octet, apart from the case of letters. */
  lemma SameIff(a: Name, b: Name)
    ensures Same(a, b) <==> |a| == |b| && forall i :: 0 <= i < |a| ==> SameOctets(a[i], b[i])
  {
    if |a| == |b| {
      forall i | 0 <= i < |a|
        ensures Canon(a)[i] == Canon(b)[i] <==> SameOctets(a[i], b[i])
      {
        CanonAt(a, i);
        CanonAt(b, i);
        FoldSame(a[i], b[i]);
      }
    }
  }

  /** A name lies under a zone if its last labels are the zone's, up to case. */
  lemma UnderIff(a: Name, z: Name)
    ensures Under(a, z) <==> |z| <= |a| && Same(a[|a| - |z|..], z)
  {
    if |z| <= |a| {
      CanonSuffix(a, |a| - |z|);
    }
  }
}

/** Binary patching: the bsdiff control interpreter, which writes the new file or prints byte patches, and the
    engine of the hex editor that checks and applies byte patches. */
module BinaryPatch {
  import opened Bytes
  import opened Wrappers

  /** Replace byte `from` at the offset by byte `to`. */
  datatype Patch = Patch(offset: nat, from: byte, to: byte)

  // ----- the patch engine -----

  function ApplyOne(xs: seq<byte>, p: Patch): (ys: seq<byte>)
    ensures |ys| == |xs|
  {
    if p.offset < |xs| && xs[p.offset] == p.from then xs[p.offset := p.to] else xs
  }

  function ApplyAll(xs: seq<byte>, ps: seq<Patch>): (ys: seq<byte>)
    ensures |ys| == |xs|
    decreases |ps|
  {
    if ps == [] then xs else ApplyAll(ApplyOne(xs, ps[0]), ps[1..])
  }

  /** All records address bytes of the file; the source does not check this. */
  predicate Inside(ps: seq<Patch>, n: nat) {
    forall i :: 0 <= i < |ps| ==> ps[i].offset < n
  }

  /** record_apply */
  method RecordApply(x: array<byte>, p: Patch)
    requires p.offset < x.Length
    modifies x
    ensures x[..] == ApplyOne(old(x[..]), p)
  {
    if x[p.offset] == p.from {
      x[p.offset] := p.to;
    }
  }

  /** patch_apply: nothing happens if a file size is given and differs. */
  method PatchApply(x: array<byte>, fileSize: nat, records: seq<Patch>)
    requires Inside(records, x.Length)
    modifies x
    ensures x[..] == if fileSize != 0 && fileSize != x.Length then old(x[..]) else ApplyAll(old(x[..]), records)
  {
    if fileSize != 0 && fileSize != x.Length {
      return;
    }
    ghost var was := x[..];
    for i := 0 to |records|
      invariant ApplyAll(was, records) == ApplyAll(x[..], records[i..])
    {
      assert records[i..][0] == records[i] && records[i..][1..] == records[i + 1..];
      RecordApply(x, records[i]);
    }
  }

  ghost predicate Patched(xs: seq<byte>, p: Patch) {
    p.offset < |xs| && xs[p.offset] == p.to
  }

  ghost predicate Patchable(xs: seq<byte>, p: Patch) {
    p.offset < |xs| && xs[p.offset] in {p.from, p.to}
  }

  /** patch_check: -1 for a file of another size, -2 if some byte is neither old nor new, 1 if all are new. */
  method PatchCheck(x: array<byte>, fileSize: nat, records: seq<Patch>) returns (r: int)
    requires Inside(records, x.Length)
    ensures r in {-2, -1, 0, 1}
    ensures r == -1 <==> fileSize != 0 && fileSize != x.Length
    ensures r != -1 ==> (r == -2 <==> exists i :: 0 <= i < |records| && !Patchable(x[..], records[i]))
    ensures r != -1 ==> (r == 1 <==> forall i :: 0 <= i < |records| ==> Patched(x[..], records[i]))
  {
    if fileSize != 0 && fileSize != x.Length {
      return -1;
    }
    var done := 0;
    for i := 0 to |records|
      invariant done <= i && forall j :: 0 <= j < i ==> Patchable(x[..], records[j])
      invariant done == i <==> forall j :: 0 <= j < i ==> Patched(x[..], records[j])
    {
      var r := records[i];
      if x[r.offset] != r.from && x[r.offset] != r.to {
        assert !Patchable(x[..], records[i]);
        return -2;
      }
      if x[r.offset] == r.to {
        done := done + 1;
      }
    }
    return if done == |records| then 1 else 0;
  }

  /** Records address different bytes. */
  ghost predicate Separate(ps: seq<Patch>) {
    forall i, j :: 0 <= i < j < |ps| ==> ps[i].offset != ps[j].offset
  }

  /** Records about the same byte want the same new value. */
  ghost predicate Agree(ps: seq<Patch>) {
    forall i, j :: 0 <= i < |ps| && 0 <= j < |ps| && ps[i].offset == ps[j].offset ==> ps[i].to == ps[j].to
  }

  ghost predicate About(ps: seq<Patch>, k: nat) {
    exists i :: 0 <= i < |ps| && ps[i].offset == k
  }

  /** All records about byte k turn it into t, or find it so. */
  ghost predicate Leads(xs: seq<byte>, ps: seq<Patch>, k: nat, t: byte)
    requires k < |xs|
  {
    forall i :: 0 <= i < |ps| && ps[i].offset == k ==> ps[i].to == t && (xs[k] == ps[i].from || xs[k] == t)
  }

  lemma {:induction false} Settles(xs: seq<byte>, ps: seq<Patch>, k: nat, t: byte)
    requires k < |xs| && Leads(xs, ps, k, t)
    ensures xs[k] == t || About(ps, k) ==> ApplyAll(xs, ps)[k] == t
    decreases |ps|
  {
    if ps != [] {
      var ys, rest := ApplyOne(xs, ps[0]), ps[1..];
      assert forall i :: 0 <= i < |rest| ==> rest[i] == ps[i + 1];
      assert ps[0].offset == k ==> ys[k] == t;
      assert ps[0].offset != k ==> ys[k] == xs[k];
      assert About(ps, k) && ps[0].offset != k ==> About(rest, k) by {
        if i :| 0 <= i < |ps| && ps[i].offset == k {
          assert i > 0 ==> rest[i - 1].offset == k;
        }
      }
      Settles(ys, rest, k, t);
    }
  }

  /** If a check finds only old and new bytes, applying the patch makes the next check find it applied, if and only if
      records about the same byte agree. */
  lemma ApplyCompletesIff(xs: seq<byte>, ps: seq<Patch>)
    requires forall i :: 0 <= i < |ps| ==> Patchable(xs, ps[i])
    ensures (forall i :: 0 <= i < |ps| ==> Patched(ApplyAll(xs, ps), ps[i])) <==> Agree(ps)
  {
    if Agree(ps) {
      forall i | 0 <= i < |ps|
        ensures Patched(ApplyAll(xs, ps), ps[i])
      {
        assert forall j :: 0 <= j < |ps| ==> Patchable(xs, ps[j]);
        assert About(ps, ps[i].offset);
        Settles(xs, ps, ps[i].offset, ps[i].to);
      }
    } else {
      var i, j :| 0 <= i < |ps| && 0 <= j < |ps| && ps[i].offset == ps[j].offset && ps[i].to != ps[j].to;
      assert !(Patched(ApplyAll(xs, ps), ps[i]) && Patched(ApplyAll(xs, ps), ps[j]));
    }
  }

  // ----- the control stream -----

  const HALF := 0x8000_0000_0000_0000

  /** buffer_getint64: sign and magnitude, least significant byte first. */
  function Int64(s: seq<byte>): int
    requires |s| == 8
  {
    var u := Unpack(s);
    if u >= HALF then -(u % HALF) else u
  }

  /** The eight bytes that denote v. */
  function Bytes64(v: int): seq<byte> {
    LittleEndian(if v < 0 then HALF - v else v, 8)
  }

  function LittleEndian(u: nat, n: nat): (s: seq<byte>)
    ensures |s| == n
  {
    if n == 0 then [] else [u % 0x100] + LittleEndian(u / 0x100, n - 1)
  }

  function Pow256(n: nat): nat {
    if n == 0 then 1 else 0x100 * Pow256(n - 1)
  }

  lemma {:induction false} UnpackLittleEndian(u: nat, n: nat)
    requires u < Pow256(n)
    ensures Unpack(LittleEndian(u, n)) == u
  {
    if n > 0 {
      UnpackLittleEndian(u / 0x100, n - 1);
      assert LittleEndian(u, n)[1..] == LittleEndian(u / 0x100, n - 1);
    }
  }

  /** Every 64-bit magnitude with a sign survives encoding and decoding. */
  lemma Int64RoundTrip(v: int)
    requires -HALF < v < HALF
    ensures Int64(Bytes64(v)) == v
  {
    assert Pow256(2) == 0x1_0000;
    assert Pow256(4) == 0x1_0000_0000;
    assert Pow256(6) == 0x1_0000_0000_0000;
    assert Pow256(8) == 2 * HALF;
    UnpackLittleEndian(if v < 0 then HALF - v else v, 8);
  }

  // ----- the interpreter -----

  /** Byte-wise sum modulo 256. */
  function Plus(a: seq<byte>, b: seq<byte>): (c: seq<byte>)
    requires |a| == |b|
    ensures |c| == |a|
  {
    seq(|a|, i requires 0 <= i < |a| => (a[i] as int + b[i] as int) % 0x100)
  }

  /** The patch lines that turn the first n bytes of a into those of b, both starting at offset base. */
  function Diff(a: seq<byte>, b: seq<byte>, base: nat, n: nat): seq<Patch>
    requires n <= |a| == |b|
  {
    if n == 0 then []
    else Diff(a, b, base, n - 1) + if a[n - 1] != b[n - 1] then [Patch(base + n - 1, a[n - 1], b[n - 1])] else []
  }

  /** State of the interpreter: r and w as in the source, the position p in the old file, what is left of the
      data and extra streams, the bytes for the new file and the patch lines. */
  datatype Walk = Walk(r: int, p: int, w: nat, data: seq<byte>, extra: seq<byte>, out: seq<byte>, lines: seq<Patch>)

  function Start(data: seq<byte>, extra: seq<byte>): Walk {
    Walk(0, 0, 0, data, extra, [], [])
  }

  /** The add part of a record; None when a stream ends early. A negative length ends the run, too. */
  function AddPart(s: Walk, len: int, old_: Option<seq<byte>>): Option<Walk> {
    if len == 0 then Some(s)
    else if len < 0 || len > |s.data| then None
    else
      match old_
      case None => Some(s.(r := s.r + len, w := s.w + len, data := s.data[len..]))
      case Some(o) =>
        if s.p < 0 || s.p + len > |o| then None
        else
          var src := o[s.p..s.p + len];
          var dst := Plus(s.data[..len], src);
          Some(Walk(s.r + len, s.p + len, s.w + len, s.data[len..], s.extra, s.out + dst,
              s.lines + Diff(src, dst, s.w, len)))
  }

  /** The extra part of a record. */
  function ExtraPart(s: Walk, len: int): Option<Walk> {
    if len == 0 then Some(s)
    else if len < 0 || len > |s.extra| then None
    else Some(s.(w := s.w + len, extra := s.extra[len..], out := s.out + s.extra[..len]))
  }

  function Seek(s: Walk, off: int, old_: Option<seq<byte>>): Walk {
    s.(r := s.r + off, p := if old_.Some? then s.p + off else s.p)
  }

  /** bsdiff_read over decompressed streams, from state s on. */
  function Interpret(s: Walk, ctrl: seq<byte>, old_: Option<seq<byte>>): Walk
    decreases |ctrl|
  {
    if |ctrl| < 24 then s
    else
      match AddPart(s, Int64(ctrl[0..8]), old_)
      case None => s
      case Some(t) =>
        match ExtraPart(t, Int64(ctrl[8..16]))
        case None => t
        case Some(u) => Interpret(Seek(u, Int64(ctrl[16..24]), old_), ctrl[24..], old_)
  }

  /** bsdiff_read: with a new file the bytes are written to it, without one the patch lines are printed. */
  method BsdiffRead(ctrl: seq<byte>, data: seq<byte>, extra: seq<byte>, old_: Option<seq<byte>>, hasNew: bool)
    returns (r: int, w: nat, written: seq<byte>, printed: seq<Patch>)
    ensures var s := Interpret(Start(data, extra), ctrl, old_);
            && r == s.r && w == s.w
            && written == (if hasNew then s.out else [])
            && printed == (if hasNew then [] else s.lines)
  {
    var s := Start(data, extra);
    var c := ctrl;
    while |c| >= 24
      invariant Interpret(Start(data, extra), ctrl, old_) == Interpret(s, c, old_)
      decreases |c|
    {
      var add, ext, seek := Int64(c[0..8]), Int64(c[8..16]), Int64(c[16..24]);
      var t := RunAdd(s, add, old_);
      if t.None? {
        break;
      }
      s := t.value;
      var u := ExtraPart(s, ext);
      if u.None? {
        break;
      }
      s := Seek(u.value, seek, old_);
      c := c[24..];
    }
    r, w, written, printed := s.r, s.w, if hasNew then s.out else [], if hasNew then [] else s.lines;
  }

  /** The add part as the source runs it, byte by byte. */
  method RunAdd(s: Walk, len: int, old_: Option<seq<byte>>) returns (t: Option<Walk>)
    ensures t == AddPart(s, len, old_)
  {
    if len == 0 {
      return Some(s);
    }
    if len < 0 || len > |s.data| {
      return None;
    }
    if old_.None? {
      return Some(s.(r := s.r + len, w := s.w + len, data := s.data[len..]));
    }
    if s.p < 0 || s.p + len > |old_.value| {
      return None;
    }
    var src := old_.value[s.p..s.p + len];
    var dst, lines := AddBytes(s.data[..len], src, s.w);
    t := Some(Walk(s.r + len, s.p + len, s.w + len, s.data[len..], s.extra, s.out + dst, s.lines + lines));
  }

  /** The byte loop of the add part: the sums, and a patch line for each byte that changes. */
  method AddBytes(add: seq<byte>, src: seq<byte>, base: nat) returns (dst: seq<byte>, lines: seq<Patch>)
    requires |add| == |src|
    ensures dst == Plus(add, src) && lines == Diff(src, dst, base, |src|)
  {
    dst, lines := [], [];
    ghost var sum := Plus(add, src);
    for j := 0 to |add|
      invariant dst == sum[..j] && lines == Diff(src, sum, base, j)
    {
      var to: byte := (add[j] as int + src[j] as int) % 0x100;
      if src[j] != to {
        lines := lines + [Patch(base + j, src[j], to)];
      }
      dst := dst + [to];
    }
  }

  // ----- positions -----

  /** With an old file, r is the position in it and w the number of bytes for the new one, after any run. */
  lemma {:induction false} Positions(s: Walk, ctrl: seq<byte>, old_: seq<byte>)
    requires s.r == s.p && |s.out| == s.w
    ensures var t := Interpret(s, ctrl, Some(old_)); t.r == t.p && |t.out| == t.w
    decreases |ctrl|
  {
    if |ctrl| >= 24 {
      var t := AddPart(s, Int64(ctrl[0..8]), Some(old_));
      if t.Some? {
        var u := ExtraPart(t.value, Int64(ctrl[8..16]));
        if u.Some? {
          Positions(Seek(u.value, Int64(ctrl[16..24]), Some(old_)), ctrl[24..], old_);
        }
      }
    }
  }

  // ----- the printed lines of any run -----

  /** n old positions from p on, and n bytes that come from nowhere in the old file. */
  function From(p: int, n: int): (s: seq<int>)
    ensures |s| == if n < 0 then 0 else n
    ensures forall j :: 0 <= j < |s| ==> s[j] == p + j
  {
    if n <= 0 then [] else seq(n, j => p + j)
  }

  function Nowhere(n: int): (s: seq<int>)
    ensures |s| == if n < 0 then 0 else n
    ensures forall j :: 0 <= j < |s| ==> s[j] == -1
  {
    if n <= 0 then [] else seq(n, _ => -1)
  }

  /** Where each byte of the new file comes from: a position in the old file, or -1 for a byte of an extra part. */
  ghost function Origins(s: Walk, ctrl: seq<byte>, old_: seq<byte>): seq<int>
    decreases |ctrl|
  {
    if |ctrl| < 24 then []
    else
      var add, ext, move := Int64(ctrl[0..8]), Int64(ctrl[8..16]), Int64(ctrl[16..24]);
      match AddPart(s, add, Some(old_))
      case None => []
      case Some(t) =>
        match ExtraPart(t, ext)
        case None => From(s.p, add)
        case Some(u) => From(s.p, add) + Nowhere(ext) + Origins(Seek(u, move, Some(old_)), ctrl[24..], old_)
  }

  /** The line is about a byte made from the old file, and gives that byte before and after. */
  ghost predicate Right(p: Patch, out: seq<byte>, org: seq<int>, old_: seq<byte>) {
    && p.offset < |out| == |org| && 0 <= org[p.offset] < |old_|
    && p.from == old_[org[p.offset]] && p.to == out[p.offset] && p.from != p.to
  }

  ghost predicate AllRight(ps: seq<Patch>, out: seq<byte>, org: seq<int>, old_: seq<byte>) {
    forall i :: 0 <= i < |ps| ==> Right(ps[i], out, org, old_)
  }

  ghost predicate Rising(ps: seq<Patch>) {
    forall i, j :: 0 <= i < j < |ps| ==> ps[i].offset < ps[j].offset
  }

  /** There is a line for every byte that differs from the old one it is made from. */
  ghost predicate AllThere(ps: seq<Patch>, out: seq<byte>, org: seq<int>, old_: seq<byte>) {
    && |out| == |org|
    && forall o :: 0 <= o < |out| && 0 <= org[o] < |old_| && out[o] != old_[org[o]] ==> About(ps, o)
  }

  /** The lines are exactly the differences, in order. */
  ghost predicate LinesFor(ps: seq<Patch>, out: seq<byte>, org: seq<int>, old_: seq<byte>) {
    AllRight(ps, out, org, old_) && Rising(ps) && AllThere(ps, out, org, old_)
  }

  lemma {:induction false} DiffTells(a: seq<byte>, b: seq<byte>, base: nat, n: nat)
    requires n <= |a| == |b|
    ensures AllTell(Diff(a, b, base, n), a, b, base, n)
  {
    if n > 0 {
      DiffTells(a, b, base, n - 1);
    }
  }

  lemma {:induction false} DiffRising(a: seq<byte>, b: seq<byte>, base: nat, n: nat)
    requires n <= |a| == |b|
    ensures Rising(Diff(a, b, base, n))
  {
    if n > 0 {
      DiffRising(a, b, base, n - 1);
      DiffTells(a, b, base, n - 1);
    }
  }

  lemma {:induction false} DiffAbout(a: seq<byte>, b: seq<byte>, base: nat, n: nat, k: nat)
    requires k < n <= |a| == |b| && a[k] != b[k]
    ensures About(Diff(a, b, base, n), base + k)
  {
    var before, ps := Diff(a, b, base, n - 1), Diff(a, b, base, n);
    if k == n - 1 {
      assert ps[|before|].offset == base + k;
    } else {
      DiffAbout(a, b, base, n - 1, k);
      MoreAbout(before, ps[|before|..], base + k);
      assert ps == before + ps[|before|..];
    }
  }

  ghost predicate Tells(p: Patch, a: seq<byte>, b: seq<byte>, base: nat, n: nat)
    requires n <= |a| == |b|
  {
    base <= p.offset < base + n && p.from == a[p.offset - base] && p.to == b[p.offset - base] && p.from != p.to
  }

  ghost predicate AllTell(ps: seq<Patch>, a: seq<byte>, b: seq<byte>, base: nat, n: nat)
    requires n <= |a| == |b|
  {
    forall i :: 0 <= i < |ps| ==> Tells(ps[i], a, b, base, n)
  }

  lemma MoreAbout(ps: seq<Patch>, qs: seq<Patch>, o: nat)
    ensures About(ps, o) || About(qs, o) <==> About(ps + qs, o)
  {
    var rs := ps + qs;
    if i :| 0 <= i < |ps| && ps[i].offset == o {
      assert rs[i].offset == o;
    }
    if i :| 0 <= i < |qs| && qs[i].offset == o {
      assert rs[|ps| + i].offset == o;
    }
    if i :| 0 <= i < |rs| && rs[i].offset == o {
      assert i < |ps| ==> ps[i].offset == o;
      assert i >= |ps| ==> qs[i - |ps|].offset == o;
    }
  }

  /** The lines before and those of an add part. */
  lemma AddLines(ps: seq<Patch>, out: seq<byte>, org: seq<int>, old_: seq<byte>, p: nat, dst: seq<byte>)
    requires LinesFor(ps, out, org, old_) && p + |dst| <= |old_|
    ensures var qs := Diff(old_[p..p + |dst|], dst, |out|, |dst|);
            LinesFor(ps + qs, out + dst, org + From(p, |dst|), old_)
  {
    var src, n := old_[p..p + |dst|], |dst|;
    var qs := Diff(src, dst, |out|, n);
    DiffTells(src, dst, |out|, n);
    AddRight(ps, qs, out, org, old_, p, dst);
    DiffRising(src, dst, |out|, n);
    AddRising(ps, qs, out, org, old_, src, dst);
    AddThere(ps, out, org, old_, p, dst);
  }

  lemma AddRising(ps: seq<Patch>, qs: seq<Patch>, out: seq<byte>, org: seq<int>, old_: seq<byte>, src: seq<byte>,
      dst: seq<byte>)
    requires Rising(ps) && AllRight(ps, out, org, old_) && Rising(qs) && |src| == |dst|
    requires AllTell(qs, src, dst, |out|, |dst|)
    ensures Rising(ps + qs)
  {
    assert forall i :: 0 <= i < |ps| ==> Right(ps[i], out, org, old_);
  }

  lemma AddThere(ps: seq<Patch>, out: seq<byte>, org: seq<int>, old_: seq<byte>, p: nat, dst: seq<byte>)
    requires AllThere(ps, out, org, old_) && p + |dst| <= |old_|
    ensures var qs := Diff(old_[p..p + |dst|], dst, |out|, |dst|);
            AllThere(ps + qs, out + dst, org + From(p, |dst|), old_)
  {
    var qs := Diff(old_[p..p + |dst|], dst, |out|, |dst|);
    var out', org' := out + dst, org + From(p, |dst|);
    forall o | 0 <= o < |out'| && 0 <= org'[o] < |old_| && out'[o] != old_[org'[o]]
      ensures About(ps + qs, o)
    {
      MoreAbout(ps, qs, o);
      if o >= |out| {
        DiffAbout(old_[p..p + |dst|], dst, |out|, |dst|, o - |out|);
      }
    }
  }

  lemma AddRight(ps: seq<Patch>, qs: seq<Patch>, out: seq<byte>, org: seq<int>, old_: seq<byte>, p: nat, dst: seq<byte>)
    requires AllRight(ps, out, org, old_) && p + |dst| <= |old_| && |out| == |org|
    requires AllTell(qs, old_[p..p + |dst|], dst, |out|, |dst|)
    ensures AllRight(ps + qs, out + dst, org + From(p, |dst|), old_)
  {
    forall i | 0 <= i < |ps + qs|
      ensures Right((ps + qs)[i], out + dst, org + From(p, |dst|), old_)
    {
      if i < |ps| {
        assert Right(ps[i], out, org, old_);
      } else {
        assert Tells(qs[i - |ps|], old_[p..p + |dst|], dst, |out|, |dst|);
      }
    }
  }

  /** Extra bytes bring no lines. */
  lemma ExtraLines(ps: seq<Patch>, out: seq<byte>, org: seq<int>, old_: seq<byte>, more: seq<byte>)
    requires LinesFor(ps, out, org, old_)
    ensures LinesFor(ps, out + more, org + Nowhere(|more|), old_)
  {
    forall i | 0 <= i < |ps|
      ensures Right(ps[i], out + more, org + Nowhere(|more|), old_)
    {
      assert Right(ps[i], out, org, old_);
    }
  }

  lemma AddPartLines(s: Walk, len: int, old_: seq<byte>, org: seq<int>)
    requires LinesFor(s.lines, s.out, org, old_) && s.w == |s.out|
    ensures var t := AddPart(s, len, Some(old_));
            t.Some? ==> LinesFor(t.value.lines, t.value.out, org + From(s.p, len), old_) && t.value.w == |t.value.out|
  {
    var t := AddPart(s, len, Some(old_));
    if t.Some? {
      if len == 0 {
        assert org + From(s.p, 0) == org;
      } else {
        AddLines(s.lines, s.out, org, old_, s.p, Plus(s.data[..len], old_[s.p..s.p + len]));
      }
    }
  }

  lemma ExtraPartLines(s: Walk, len: int, old_: seq<byte>, org: seq<int>)
    requires LinesFor(s.lines, s.out, org, old_) && s.w == |s.out|
    ensures var t := ExtraPart(s, len);
            t.Some? ==> LinesFor(t.value.lines, t.value.out, org + Nowhere(len), old_) && t.value.w == |t.value.out|
  {
    var t := ExtraPart(s, len);
    if t.Some? {
      if len == 0 {
        assert org + Nowhere(0) == org;
      } else {
        ExtraLines(s.lines, s.out, org, old_, s.extra[..len]);
      }
    }
  }

  lemma {:induction false} WalkLines(s: Walk, ctrl: seq<byte>, old_: seq<byte>, org: seq<int>)
    requires LinesFor(s.lines, s.out, org, old_) && s.w == |s.out|
    ensures var t := Interpret(s, ctrl, Some(old_)); LinesFor(t.lines, t.out, org + Origins(s, ctrl, old_), old_)
    decreases |ctrl|
  {
    if |ctrl| < 24 {
      assert org + [] == org;
    } else {
      var add, ext, move := Int64(ctrl[0..8]), Int64(ctrl[8..16]), Int64(ctrl[16..24]);
      AddPartLines(s, add, old_, org);
      var t := AddPart(s, add, Some(old_));
      if t.None? {
        assert org + [] == org;
      } else {
        var org1 := org + From(s.p, add);
        ExtraPartLines(t.value, ext, old_, org1);
        var u := ExtraPart(t.value, ext);
        if u.Some? {
          var v := Seek(u.value, move, Some(old_));
          WalkLines(v, ctrl[24..], old_, org1 + Nowhere(ext));
          Sum4(org, From(s.p, add), Nowhere(ext), Origins(v, ctrl[24..], old_));
        }
      }
    }
  }

  lemma Sum4(a: seq<int>, b: seq<int>, c: seq<int>, d: seq<int>)
    ensures a + b + c + d == a + (b + c + d)
  {
  }

  /** In any run with an old file, whatever it adds, takes or skips, the lines are exactly the differences between the
      bytes made from the old file and the bytes they are made from, at their offsets in the new file. */
  lemma LinesAreDifferences(ctrl: seq<byte>, data: seq<byte>, extra: seq<byte>, old_: seq<byte>)
    ensures var s := Interpret(Start(data, extra), ctrl, Some(old_));
            LinesFor(s.lines, s.out, Origins(Start(data, extra), ctrl, old_), old_)
  {
    var s := Start(data, extra);
    WalkLines(s, ctrl, old_, []);
    assert [] + Origins(s, ctrl, old_) == Origins(s, ctrl, old_);
  }

  // ----- the numbers and sums in full -----

  /** Eight bytes are a sign, in the top bit of the last, and a magnitude, lowest byte first. */
  lemma Int64Is(a: byte, b: byte, c: byte, d: byte, e: byte, f: byte, g: byte, h: byte)
    ensures Int64([a, b, c, d, e, f, g, h]) ==
            (if h >= 128 then -1 else 1)
            * (a as int + 0x100 * b as int + 0x1_0000 * c as int + 0x100_0000 * d as int
               + 0x1_0000_0000 * (e as int + 0x100 * f as int + 0x1_0000 * g as int + 0x100_0000 * (h % 128) as int))
  {
    var s: seq<byte> := [a, b, c, d, e, f, g, h];
    UnpackEight(a, b, c, d, e, f, g, h);
    assert h as int == if h >= 128 then h % 128 + 128 else h % 128;
  }

  lemma UnpackEight(a: byte, b: byte, c: byte, d: byte, e: byte, f: byte, g: byte, h: byte)
    ensures Unpack([a, b, c, d, e, f, g, h]) ==
            a as int + 0x100 * b as int + 0x1_0000 * c as int + 0x100_0000 * d as int
            + 0x1_0000_0000 * (e as int + 0x100 * f as int + 0x1_0000 * g as int + 0x100_0000 * h as int)
  {
    UnpackFour(e, f, g, h);
    assert [a, b, c, d, e, f, g, h][1..] == [b, c, d, e, f, g, h] && [b, c, d, e, f, g, h][1..] == [c, d, e, f, g, h];
    assert [c, d, e, f, g, h][1..] == [d, e, f, g, h] && [d, e, f, g, h][1..] == [e, f, g, h];
    assert Unpack([d, e, f, g, h]) == d as int + 0x100 * Unpack([e, f, g, h]);
    assert Unpack([c, d, e, f, g, h]) == c as int + 0x100 * Unpack([d, e, f, g, h]);
    assert Unpack([b, c, d, e, f, g, h]) == b as int + 0x100 * Unpack([c, d, e, f, g, h]);
  }

  /** Each byte is the sum of the two, less 256 if it would be too large. */
  lemma PlusIs(a: seq<byte>, b: seq<byte>, i: nat)
    requires i < |a| == |b|
    ensures var c := Plus(a, b)[i] as int; c == a[i] as int + b[i] as int || c == a[i] as int + b[i] as int - 256
  {
  }

  // ----- making patches -----

  /** One piece of a new file: bytes to be made from the old file, bytes to be taken as they are, and a move. */
  datatype Piece = Piece(add: seq<byte>, extra: seq<byte>, seek: int)

  /** The pieces one after the other. */
  function Flat(plan: seq<Piece>): seq<byte>
    decreases |plan|
  {
    if plan == [] then [] else plan[0].add + plan[0].extra + Flat(plan[1..])
  }

  /** From position p on, the plan reads inside the old file; its numbers fit the control format. */
  ghost predicate Feasible(plan: seq<Piece>, p: int, old_: seq<byte>)
    decreases |plan|
  {
    plan != [] ==>
      var c := plan[0];
      && |c.add| < HALF && |c.extra| < HALF && -HALF < c.seek < HALF
      && (c.add == [] || 0 <= p <= |old_| - |c.add|)
      && Feasible(plan[1..], p + |c.add| + c.seek, old_)
  }

  /** Byte-wise difference modulo 256. */
  function Minus(b: seq<byte>, a: seq<byte>): (c: seq<byte>)
    requires |a| == |b|
    ensures |c| == |a|
  {
    seq(|a|, i requires 0 <= i < |a| => (b[i] as int - a[i] as int) % 0x100)
  }

  lemma SumBack(b: byte, a: byte)
    ensures ((b as int - a as int) % 0x100 + a as int) % 0x100 == b as int
  {
    if b < a {
      assert (b as int - a as int) % 0x100 == b as int - a as int + 0x100;
    }
  }

  lemma PlusMinus(b: seq<byte>, a: seq<byte>)
    requires |a| == |b|
    ensures Plus(Minus(b, a), a) == b
  {
    forall i | 0 <= i < |a|
      ensures Plus(Minus(b, a), a)[i] == b[i]
    {
      SumBack(b[i], a[i]);
    }
  }

  function CtrlOf(plan: seq<Piece>): seq<byte>
    decreases |plan|
  {
    if plan == [] then []
    else Bytes64(|plan[0].add|) + Bytes64(|plan[0].extra|) + Bytes64(plan[0].seek) + CtrlOf(plan[1..])
  }

  /** What must be added to the old bytes at p to get b. */
  function Addends(b: seq<byte>, p: int, old_: seq<byte>): seq<byte> {
    if b == [] || !(0 <= p <= |old_| - |b|) then [] else Minus(b, old_[p..p + |b|])
  }

  function DataOf(plan: seq<Piece>, p: int, old_: seq<byte>): seq<byte>
    decreases |plan|
  {
    if plan == [] then []
    else Addends(plan[0].add, p, old_) + DataOf(plan[1..], p + |plan[0].add| + plan[0].seek, old_)
  }

  function ExtraOf(plan: seq<Piece>): seq<byte>
    decreases |plan|
  {
    if plan == [] then [] else plan[0].extra + ExtraOf(plan[1..])
  }

  lemma HeadRecord(a: nat, e: nat, m: int, rest: seq<byte>)
    requires a < HALF && e < HALF && -HALF < m < HALF
    ensures var ctrl := Bytes64(a) + Bytes64(e) + Bytes64(m) + rest;
            |ctrl| >= 24 && ctrl[24..] == rest && Int64(ctrl[0..8]) == a && Int64(ctrl[8..16]) == e
                && Int64(ctrl[16..24]) == m
  {
    Int64RoundTrip(a);
    Int64RoundTrip(e);
    Int64RoundTrip(m);
    var ctrl := Bytes64(a) + Bytes64(e) + Bytes64(m) + rest;
    assert ctrl[0..8] == Bytes64(a) && ctrl[8..16] == Bytes64(e) && ctrl[16..24] == Bytes64(m);
  }

  lemma AddRestores(s: Walk, b: seq<byte>, old_: seq<byte>, rest: seq<byte>)
    requires (b == [] || 0 <= s.p <= |old_| - |b|) && s.data == Addends(b, s.p, old_) + rest
    ensures var t := AddPart(s, |b|, Some(old_));
            && t.Some? && t.value.p == s.p + |b| && t.value.data == rest && t.value.extra == s.extra
            && t.value.out == s.out + b
  {
    if b == [] {
      assert s.data == rest && s.out + b == s.out;
    } else {
      PlusMinus(b, old_[s.p..s.p + |b|]);
      assert s.data[..|b|] == Addends(b, s.p, old_) && s.data[|b|..] == rest;
    }
  }

  lemma ExtraRestores(t: Walk, b: seq<byte>, rest: seq<byte>)
    requires t.extra == b + rest
    ensures var u := ExtraPart(t, |b|);
            && u.Some? && u.value.p == t.p && u.value.data == t.data && u.value.extra == rest
                && u.value.out == t.out + b
  {
    if b == [] {
      assert t.extra == rest && t.out + b == t.out;
    } else {
      assert t.extra[..|b|] == b && t.extra[|b|..] == rest;
    }
  }

  /** The streams hold what the rest of the plan needs. */
  ghost predicate Ready(s: Walk, plan: seq<Piece>, old_: seq<byte>) {
    Feasible(plan, s.p, old_) && s.data == DataOf(plan, s.p, old_) && s.extra == ExtraOf(plan)
  }

  /** One record of the patch makes one piece. */
  lemma PieceRestores(s: Walk, plan: seq<Piece>, old_: seq<byte>) returns (u: Walk)
    requires plan != [] && Ready(s, plan, old_)
    ensures AddPart(s, |plan[0].add|, Some(old_)).Some?
    ensures ExtraPart(AddPart(s, |plan[0].add|, Some(old_)).value, |plan[0].extra|) == Some(u)
    ensures Ready(Seek(u, plan[0].seek, Some(old_)), plan[1..], old_)
    ensures u.out == s.out + plan[0].add + plan[0].extra
  {
    var c, rest := plan[0], plan[1..];
    AddRestores(s, c.add, old_, DataOf(rest, s.p + |c.add| + c.seek, old_));
    var t := AddPart(s, |c.add|, Some(old_)).value;
    ExtraRestores(t, c.extra, ExtraOf(rest));
    u := ExtraPart(t, |c.extra|).value;
  }

  lemma {:induction false} PlanRestores(s: Walk, plan: seq<Piece>, old_: seq<byte>)
    requires Ready(s, plan, old_)
    ensures Interpret(s, CtrlOf(plan), Some(old_)).out == s.out + Flat(plan)
    decreases |plan|
  {
    if plan == [] {
      assert s.out + [] == s.out;
    } else {
      var c, rest := plan[0], plan[1..];
      HeadRecord(|c.add|, |c.extra|, c.seek, CtrlOf(rest));
      var u := PieceRestores(s, plan, old_);
      PlanRestores(Seek(u, c.seek, Some(old_)), rest, old_);
      Regroup(s.out, c.add, c.extra, Flat(rest));
    }
  }

  /** However a new file was cut into pieces and a patch made of them, interpreting the patch writes that file. */
  lemma PatchRoundTrip(plan: seq<Piece>, old_: seq<byte>, new_: seq<byte>)
    requires Feasible(plan, 0, old_) && Flat(plan) == new_
    ensures Interpret(Start(DataOf(plan, 0, old_), ExtraOf(plan)), CtrlOf(plan), Some(old_)).out == new_
  {
    PlanRestores(Start(DataOf(plan, 0, old_), ExtraOf(plan)), plan, old_);
    assert [] + new_ == new_;
  }

  // ----- equivalence of printing and writing -----

  /** No record has extra bytes or moves in the old file. */
  predicate Plain(ctrl: seq<byte>)
    decreases |ctrl|
  {
    |ctrl| < 24 || (Int64(ctrl[8..16]) == 0 && Int64(ctrl[16..24]) == 0 && Plain(ctrl[24..]))
  }

  lemma {:induction false} DiffConcat(a: seq<byte>, b: seq<byte>, c: seq<byte>, d: seq<byte>, base: nat, n: nat)
    requires |a| == |b| && n <= |c| == |d|
    ensures Diff(a + c, b + d, base, |a| + n) == Diff(a, b, base, |a|) + Diff(c, d, base + |a|, n)
  {
    if n == 0 {
      DiffPrefix(a, b, c, d, base, |a|);
    } else {
      DiffConcat(a, b, c, d, base, n - 1);
      assert (a + c)[|a| + n - 1] == c[n - 1] && (b + d)[|a| + n - 1] == d[n - 1];
    }
  }

  lemma {:induction false} DiffPrefix(a: seq<byte>, b: seq<byte>, c: seq<byte>, d: seq<byte>, base: nat, n: nat)
    requires n <= |a| == |b| && |c| == |d|
    ensures Diff(a + c, b + d, base, n) == Diff(a, b, base, n)
  {
    if n > 0 {
      DiffPrefix(a, b, c, d, base, n - 1);
    }
  }

  /** The lines so far are the differences between the old prefix and the new bytes. */
  ghost predicate InStep(s: Walk, old_: seq<byte>) {
    s.p == s.w == |s.out| <= |old_| && s.lines == Diff(old_[..s.w], s.out, 0, s.w)
  }

  lemma AddInStep(s: Walk, len: int, old_: seq<byte>)
    requires InStep(s, old_)
    ensures var t := AddPart(s, len, Some(old_)); t.Some? ==> InStep(t.value, old_)
  {
    var t := AddPart(s, len, Some(old_));
    if t.Some? && len != 0 {
      var src := old_[s.p..s.p + len];
      var dst := Plus(s.data[..len], src);
      assert old_[..s.w + len] == old_[..s.w] + src;
      DiffConcat(old_[..s.w], s.out, src, dst, 0, len);
    }
  }

  lemma {:induction false} PlainInStep(s: Walk, ctrl: seq<byte>, old_: seq<byte>)
    requires InStep(s, old_) && Plain(ctrl)
    ensures InStep(Interpret(s, ctrl, Some(old_)), old_)
    decreases |ctrl|
  {
    if |ctrl| >= 24 {
      var t := AddPart(s, Int64(ctrl[0..8]), Some(old_));
      AddInStep(s, Int64(ctrl[0..8]), old_);
      if t.Some? {
        PlainInStep(Seek(t.value, 0, Some(old_)), ctrl[24..], old_);
      }
    }
  }

  lemma {:induction false} ApplyLast(xs: seq<byte>, ps: seq<Patch>, p: Patch)
    ensures ApplyAll(xs, ps + [p]) == ApplyOne(ApplyAll(xs, ps), p)
    decreases |ps|
  {
    if ps == [] {
      assert ps + [p] == [p] && [p][1..] == [];
    } else {
      assert (ps + [p])[1..] == ps[1..] + [p];
      ApplyLast(ApplyOne(xs, ps[0]), ps[1..], p);
    }
  }

  /** Applying the differences between a and b to a file that begins with a makes it begin with b. */
  lemma {:induction false} ApplyDiff(xs: seq<byte>, b: seq<byte>, n: nat)
    requires n <= |b| <= |xs|
    ensures ApplyAll(xs, Diff(xs[..|b|], b, 0, n)) == b[..n] + xs[n..]
  {
    if n > 0 {
      var a, ys := xs[..|b|], b[..n - 1] + xs[n - 1..];
      var before := Diff(a, b, 0, n - 1);
      ApplyDiff(xs, b, n - 1);
      assert ys[n - 1] == a[n - 1];
      assert b[..n] + xs[n..] == ys[n - 1 := b[n - 1]];
      if a[n - 1] == b[n - 1] {
        assert before + [] == before;
      } else {
        ApplyLast(xs, before, Patch(n - 1, a[n - 1], b[n - 1]));
      }
    }
  }

  /** Each line is about one of the first n bytes, and no two about the same. */
  ghost predicate Describes(ps: seq<Patch>, a: seq<byte>, b: seq<byte>, n: nat)
    requires n <= |a| == |b|
  {
    forall i :: 0 <= i < |ps| ==> ps[i].offset < n && ps[i].from == a[ps[i].offset] && ps[i].to == b[ps[i].offset]
  }

  lemma {:induction false} DiffRecords(a: seq<byte>, b: seq<byte>, n: nat)
    requires n <= |a| == |b|
    ensures Separate(Diff(a, b, 0, n)) && Describes(Diff(a, b, 0, n), a, b, n)
  {
    if n > 0 {
      DiffRecords(a, b, n - 1);
    }
  }

  /** When no record has extra bytes or moves, applying the printed lines to the old bytes gives the bytes
      that would have been written, followed by the rest of the old file, and every line is then in effect. */
  lemma PrintedEqualsWritten(ctrl: seq<byte>, data: seq<byte>, extra: seq<byte>, old_: seq<byte>)
    requires Plain(ctrl)
    ensures var s := Interpret(Start(data, extra), ctrl, Some(old_));
            && |s.out| == s.w <= |old_| && Inside(s.lines, |old_|) && Separate(s.lines)
            && ApplyAll(old_, s.lines) == s.out + old_[s.w..]
            && forall i :: 0 <= i < |s.lines| ==> Patched(s.out + old_[s.w..], s.lines[i])
  {
    var s := Interpret(Start(data, extra), ctrl, Some(old_));
    PlainInStep(Start(data, extra), ctrl, old_);
    var a, post := old_[..s.w], old_[s.w..];
    ApplyDiff(old_, s.out, s.w);
    assert s.out[..s.w] == s.out;
    DiffRecords(a, s.out, s.w);
  }

  /** The whole cycle: print patch lines for an old file, apply them to a copy of it, check the result, and
      compare with the file written directly. */
  method PrintApplyCheck(ctrl: seq<byte>, data: seq<byte>, extra: seq<byte>, old_: seq<byte>)
    returns (x: array<byte>, w: nat, written: seq<byte>, verdict: int)
    requires Plain(ctrl)
    ensures fresh(x) && x.Length == |old_| && |written| == w <= |old_|
    ensures x[..w] == written && x[w..] == old_[w..]
    ensures verdict == 1
  {
    PrintedEqualsWritten(ctrl, data, extra, old_);
    var r, v, none, lines := BsdiffRead(ctrl, data, extra, Some(old_), false);
    var r2, empty;
    r2, w, written, empty := BsdiffRead(ctrl, data, extra, Some(old_), true);
    x := new byte[|old_|](i requires 0 <= i < |old_| => old_[i]);
    assert x[..] == old_;
    PatchApply(x, 0, lines);
    assert x[..w] == x[..][..w] && x[w..] == x[..][w..];
    verdict := PatchCheck(x, 0, lines);
  }
}

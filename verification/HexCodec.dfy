/** Writing a memory image as Intel HEX text and reading it back (Intel Hexadecimal Object File Format
    Specification, Revision A: record types 00, 01 and 04). Text is a sequence of ASCII codes. */
module HexCodec {
  import opened Bits
  import opened Bytes
  import opened HexImage
  import opened HexStore

  const COLON: byte := 58
  const NEWLINE: byte := 10

  // ----- hexadecimal digits -----

  /** Upper-case digit, as the stream prints it. */
  function Digit(d: nat): byte
    requires d < 16
  {
    if d < 10 then 48 + d else 55 + d
  }

  /** A number as the stream prints it, without padding. */
  function Hex(n: nat): seq<byte> {
    if n < 16 then [Digit(n)] else Hex(n / 16) + [Digit(n % 16)]
  }

  function Zeros(n: nat): seq<byte> {
    if n == 0 then [] else [48] + Zeros(n - 1)
  }

  /** A number padded with zeros to the given width; longer numbers are not cut. */
  function Padded(n: nat, width: nat): seq<byte> {
    if |Hex(n)| < width then Zeros(width - |Hex(n)|) + Hex(n) else Hex(n)
  }

  /** Two digits per byte. */
  function HexBytes(s: seq<byte>): (t: seq<byte>)
    ensures |t| == 2 * |s|
  {
    if s == [] then [] else [Digit(s[0] / 16), Digit(s[0] % 16)] + HexBytes(s[1..])
  }

  lemma HexOne(b: byte)
    ensures HexBytes([b]) == [Digit(b / 16), Digit(b % 16)]
  {
    assert [b][1..] == [];
  }

  lemma HexTwo(a: byte, b: byte)
    ensures HexBytes([a, b]) == [Digit(a / 16), Digit(a % 16), Digit(b / 16), Digit(b % 16)]
  {
    assert [a, b][1..] == [b];
    HexOne(b);
  }

  lemma PaddedByte(b: byte)
    ensures Padded(b, 2) == HexBytes([b])
  {
    HexOne(b);
    HexOf(b);
    ZerosUpTo3();
    assert b / 16 % 16 == b / 16;
  }

  lemma NibblesOf(u: nat)
    requires u < 0x1_0000
    ensures u / 0x100 / 16 == u / 0x1000 && u % 0x100 / 16 == u / 16 % 16 && u % 0x100 % 16 == u % 16
  {
  }

  lemma PaddedWord(u: nat)
    requires u < 0x1_0000
    ensures Padded(u, 4) == HexBytes([u / 0x100, u % 0x100])
  {
    HexTwo(u / 0x100, u % 0x100);
    NibblesOf(u);
    HexOf(u);
    ZerosUpTo3();
    var d0, d1, d2, d3 := Digit(u / 0x1000), Digit(u / 0x100 % 16), Digit(u / 16 % 16), Digit(u % 16);
    assert HexBytes([u / 0x100, u % 0x100]) == [d0, d1, d2, d3];
    if u < 0x10 {
      assert Padded(u, 4) == [48, 48, 48, d3];
    } else if u < 0x100 {
      assert Padded(u, 4) == [48, 48, d2, d3];
    } else if u < 0x1000 {
      assert Padded(u, 4) == [48, d1, d2, d3];
    }
  }

  lemma ZerosUpTo3()
    ensures Zeros(1) == [48] && Zeros(2) == [48, 48] && Zeros(3) == [48, 48, 48]
  {
    assert Zeros(1) == [48] + Zeros(0);
    assert Zeros(2) == [48] + Zeros(1);
    assert Zeros(3) == [48] + Zeros(2);
  }

  lemma HexOf(u: nat)
    requires u < 0x1_0000
    ensures var d0, d1, d2, d3 := u / 0x1000, u / 0x100 % 16, u / 16 % 16, u % 16;
            Hex(u) == if u < 0x10 then [Digit(d3)]
                      else if u < 0x100 then [Digit(d2), Digit(d3)]
                      else if u < 0x1000 then [Digit(d1), Digit(d2), Digit(d3)]
                      else [Digit(d0), Digit(d1), Digit(d2), Digit(d3)]
  {
    assert u / 16 / 16 == u / 0x100 && u / 16 / 16 / 16 == u / 0x1000;
    if u >= 0x1000 {
      assert Hex(u / 0x1000) == [Digit(u / 0x1000)];
      assert Hex(u / 0x100) == Hex(u / 0x1000) + [Digit(u / 0x100 % 16)];
      assert Hex(u / 16) == Hex(u / 0x100) + [Digit(u / 16 % 16)];
    } else if u >= 0x100 {
      assert Hex(u / 0x100) == [Digit(u / 0x100)];
      assert Hex(u / 16) == Hex(u / 0x100) + [Digit(u / 16 % 16)];
    }
  }

  lemma {:induction false} HexConcat(a: seq<byte>, b: seq<byte>)
    ensures HexBytes(a + b) == HexBytes(a) + HexBytes(b)
  {
    if a == [] {
      assert a + b == b;
    } else {
      assert (a + b)[1..] == a[1..] + b;
      HexConcat(a[1..], b);
    }
  }

  // ----- records -----

  function Sum(s: seq<byte>): nat {
    if s == [] then 0 else s[0] as nat + Sum(s[1..])
  }

  /** The checksum byte: one plus the complement of the sum, in eight bits. */
  function CheckOf(total: nat): byte {
    (1 + (0xff - total % 0x100)) % 0x100
  }

  function Check(s: seq<byte>): byte {
    CheckOf(Sum(s))
  }

  lemma {:induction false} SumConcat(a: seq<byte>, b: seq<byte>)
    ensures Sum(a + b) == Sum(a) + Sum(b)
  {
    if a == [] {
      assert a + b == b;
    } else {
      assert (a + b)[1..] == a[1..] + b;
      SumConcat(a[1..], b);
    }
  }

  /** A record with its checksum sums to zero. */
  lemma RecordSum(s: seq<byte>)
    ensures Sum(s + [Check(s)]) % 0x100 == 0
  {
    SumConcat(s, [Check(s)]);
    SumTwo(Check(s), 0);
    CheckCompletes(Sum(s));
  }

  lemma CheckCompletes(x: nat)
    ensures (x + CheckOf(x) as int) % 0x100 == 0
  {
    var r := x % 0x100;
    assert x == r + 0x100 * (x / 0x100);
  }

  /** A colon, any characters, and a newline. */
  function TextLine(line: seq<byte>): seq<byte> {
    [COLON] + line + [NEWLINE]
  }

  /** The line of one record, checksum included. */
  function Line(record: seq<byte>): seq<byte> {
    TextLine(HexBytes(record + [Check(record)]))
  }

  /** Length, address and type followed by the data: a record of type 00. */
  function DataRecord(b: Block): seq<byte>
    requires |b.bytes| < 0x100
  {
    [|b.bytes|, b.addr / 0x100 % 0x100, b.addr % 0x100, 0] + b.bytes
  }

  /** An extended linear address record: type 04. */
  function LinearRecord(seg: nat): seq<byte>
    requires seg < 0x1_0000
  {
    [2, 0, 0, 4, seg / 0x100, seg % 0x100]
  }

  // ----- the writer -----

  /** ":020000040000FA" and the end record, each with its newline. */
  const HEADER: seq<byte> := [58, 48, 50, 48, 48, 48, 48, 48, 52, 48, 48, 48, 48, 70, 65, 10]
  const FOOTER: seq<byte> := [58, 48, 48, 48, 48, 48, 48, 48, 49, 70, 70, 10]

  /** What write prints for one block. */
  function DataText(b: Block): seq<byte> {
    [COLON] + Padded(|b.bytes|, 2) + Padded(b.addr % 0x1_0000, 4) + [48, 48] + HexBytes(b.bytes)
    + Padded(Check([|b.bytes| % 0x100, b.addr % 0x100, b.addr / 0x100 % 0x100] + b.bytes), 2) + [NEWLINE]
  }

  /** What write prints before a block in a new 64 KiB segment. */
  function LinearText(seg: nat): seq<byte> {
    [58, 48, 50, 48, 48, 48, 48, 48, 52] + Padded(seg, 4)
    + Padded(CheckOf(6 + seg + seg / 0x100), 2) + [NEWLINE]
  }

  /** What write prints for the remaining blocks once segment seg has been announced. */
  function BlocksText(bs: seq<Block>, seg: nat): seq<byte>
    decreases |bs|
  {
    if bs == [] then FOOTER
    else
      var upper := bs[0].addr / 0x1_0000;
      if bs[0].addr > 0xffff && upper != seg then LinearText(upper) + DataText(bs[0]) + BlocksText(bs[1..], upper)
      else DataText(bs[0]) + BlocksText(bs[1..], seg)
  }

  predicate NeedsLinear(bs: seq<Block>) {
    exists i :: 0 <= i < |bs| && bs[i].addr > 0xffff
  }

  function WriteText(bs: seq<Block>, linear: bool): seq<byte> {
    (if linear || NeedsLinear(bs) then HEADER else []) + BlocksText(bs, 0)
  }

  /** write: announce 32-bit addressing if it is used anywhere, then print the blocks. */
  method Write(d: HexData) returns (text: seq<byte>)
    modifies d`linear
    ensures text == WriteText(d.blocks, old(d.linear))
    ensures d.linear == (old(d.linear) || NeedsLinear(d.blocks))
  {
    var header := [];
    if d.linear {
      header := HEADER;
    } else {
      var found := FindLinear(d.blocks);
      if found {
        d.linear := true;
        header := HEADER;
      }
    }
    var body := WriteBlocks(d.blocks);
    text := header + body;
  }

  method FindLinear(bs: seq<Block>) returns (found: bool)
    ensures found == NeedsLinear(bs)
  {
    for i := 0 to |bs|
      invariant forall j :: 0 <= j < i ==> bs[j].addr <= 0xffff
    {
      if bs[i].addr > 0xffff {
        return true;
      }
    }
    return false;
  }

  method WriteBlocks(bs: seq<Block>) returns (text: seq<byte>)
    ensures text == BlocksText(bs, 0)
  {
    text := [];
    var seg: nat := 0;
    for i := 0 to |bs|
      invariant BlocksText(bs, 0) == text + BlocksText(bs[i..], seg)
    {
      var upper := bs[i].addr / 0x1_0000;
      assert bs[i..][1..] == bs[i + 1..] && bs[i..][0] == bs[i];
      var announce := if bs[i].addr > 0xffff && upper != seg then LinearText(upper) else [];
      seg := if bs[i].addr > 0xffff then upper else seg;
      Regroup(text, announce, DataText(bs[i]), BlocksText(bs[i + 1..], seg));
      text := text + announce + DataText(bs[i]);
    }
    text := text + FOOTER;
  }

  // ----- the printed lines are well-formed records -----

  lemma DataTextIsLine(b: Block)
    requires |b.bytes| < 0x100
    ensures DataText(b) == Line(DataRecord(b))
  {
    var hi, lo, n := b.addr / 0x100 % 0x100, b.addr % 0x100, |b.bytes|;
    var c := Check([n % 0x100, lo, hi] + b.bytes);
    DataCheck(b);
    DataFields(n, b.addr, c);
    RecordParts(n, hi, lo, b.bytes, c);
    HexJoin([n], [hi, lo], [0], b.bytes, [c]);
    Enclose(HexBytes([n]), HexBytes([hi, lo]), HexBytes([0]), HexBytes(b.bytes), HexBytes([c]));
  }

  lemma DataFields(n: byte, a: nat, c: byte)
    ensures Padded(n, 2) == HexBytes([n]) && Padded(c, 2) == HexBytes([c]) && [48, 48] == HexBytes([0])
    ensures Padded(a % 0x1_0000, 4) == HexBytes([a / 0x100 % 0x100, a % 0x100])
  {
    PaddedByte(n);
    PaddedByte(c);
    HexOne(0);
    LowWord(a);
    PaddedWord(a % 0x1_0000);
  }

  lemma RecordParts(n: byte, hi: byte, lo: byte, data: seq<byte>, c: byte)
    ensures [n, hi, lo, 0] + data + [c] == [n] + [hi, lo] + [0] + data + [c]
  {
  }

  lemma HexJoin(a: seq<byte>, b: seq<byte>, c: seq<byte>, d: seq<byte>, e: seq<byte>)
    ensures HexBytes(a + b + c + d + e) == HexBytes(a) + HexBytes(b) + HexBytes(c) + HexBytes(d) + HexBytes(e)
  {
    HexConcat(a + b + c + d, e);
    HexConcat(a + b + c, d);
    HexConcat(a + b, c);
    HexConcat(a, b);
  }

  lemma Enclose(a: seq<byte>, b: seq<byte>, c: seq<byte>, d: seq<byte>, e: seq<byte>)
    ensures [COLON] + a + b + c + d + e + [NEWLINE] == [COLON] + (a + b + c + d + e) + [NEWLINE]
  {
  }

  lemma DataCheck(b: Block)
    requires |b.bytes| < 0x100
    ensures Check(DataRecord(b)) == Check([|b.bytes| % 0x100, b.addr % 0x100, b.addr / 0x100 % 0x100] + b.bytes)
    ensures b.addr % 0x1_0000 / 0x100 == b.addr / 0x100 % 0x100 && b.addr % 0x1_0000 % 0x100 == b.addr % 0x100
  {
    var hi, lo, n := b.addr / 0x100 % 0x100, b.addr % 0x100, |b.bytes|;
    SumConcat([n % 0x100, lo, hi], b.bytes);
    SumConcat([n, hi, lo, 0], b.bytes);
    SumFour(n, lo, hi, 0);
    SumFour(n, hi, lo, 0);
    assert Sum([n % 0x100, lo, hi] + b.bytes) == Sum(DataRecord(b));
    LowWord(b.addr);
  }

  lemma LowWord(a: nat)
    ensures a % 0x1_0000 / 0x100 == a / 0x100 % 0x100 && a % 0x1_0000 % 0x100 == a % 0x100
  {
  }

  lemma SumFour(a: byte, b: byte, c: byte, d: byte)
    ensures Sum([a, b, c]) == a as int + b as int + c as int
    ensures Sum([a, b, c, d]) == a as int + b as int + c as int + d as int
  {
    assert [a, b, c, d][1..] == [b, c, d] && [a, b, c][1..] == [b, c];
    assert [b, c, d][1..] == [c, d] && [b, c][1..] == [c];
    SumTwo(c, d);
    assert Sum([b, c, d]) == b as int + Sum([c, d]);
    assert Sum([b, c]) == b as int + Sum([c]);
  }

  lemma SumTwo(a: byte, b: byte)
    ensures Sum([a]) == a as int && Sum([a, b]) == a as int + b as int
  {
    assert [a, b][1..] == [b] && [b][1..] == [] && [a][1..] == [];
    assert Sum([b]) == b;
  }

  lemma CheckShift(x: nat, h: nat)
    ensures CheckOf(x + 0x100 * h) == CheckOf(x)
  {
    assert (x + 0x100 * h) % 0x100 == x % 0x100;
  }

  lemma LinearCheck(seg: nat)
    requires seg < 0x1_0000
    ensures Check(LinearRecord(seg)) == CheckOf(6 + seg + seg / 0x100)
  {
    var hi, lo := seg / 0x100, seg % 0x100;
    assert LinearRecord(seg) == [2, 0, 0, 4] + [hi, lo];
    SumConcat([2, 0, 0, 4], [hi, lo]);
    SumFour(2, 0, 0, 4);
    SumTwo(hi, lo);
    CheckShift(6 + lo + hi, hi);
    assert 6 + seg + hi == 6 + lo + hi + 0x100 * hi;
  }

  lemma RecordParts6(hi: byte, lo: byte, c: byte)
    ensures [2, 0, 0, 4, hi, lo] + [c] == [2, 0] + [0, 4] + [] + [hi, lo] + [c]
  {
  }

  lemma LinearPrefix(a: seq<byte>, b: seq<byte>)
    ensures [58, 48, 50, 48, 48, 48, 48, 48, 52] + a + b + [NEWLINE]
         == [COLON] + ([48, 50, 48, 48] + [48, 48, 48, 52] + [] + a + b) + [NEWLINE]
  {
  }

  lemma LinearTextIsLine(seg: nat)
    requires seg < 0x1_0000
    ensures LinearText(seg) == Line(LinearRecord(seg))
  {
    var hi, lo, c := seg / 0x100, seg % 0x100, Check(LinearRecord(seg));
    LinearCheck(seg);
    PaddedWord(seg);
    PaddedByte(c);
    HexTwo(2, 0);
    HexTwo(0, 4);
    RecordParts6(hi, lo, c);
    HexJoin([2, 0], [0, 4], [], [hi, lo], [c]);
    LinearPrefix(Padded(seg, 4), Padded(c, 2));
  }

  // ----- the reader -----

  /** What a character stands for: digits and letters, also beyond F; -1 for anything else. */
  function Value(c: byte): (v: int)
    ensures -1 <= v < 36
  {
    if 48 <= c <= 57 then c - 48 else if 65 <= c <= 90 then c - 55 else if 97 <= c <= 122 then c - 87 else -1
  }

  /** Bitwise or. */
  function Or(a: nat, b: nat): (r: nat)
    ensures a < 0x100 && b < 0x100 ==> r < 0x100
  {
    OrBound(a, b, 8);
    Pow2Values();
    a + b - And(a, b)
  }

  lemma {:induction false} OrBound(a: nat, b: nat, n: nat)
    ensures And(a, b) <= a && And(a, b) <= b
    ensures a < Pow2(n) && b < Pow2(n) ==> a + b - And(a, b) < Pow2(n)
    decreases a
  {
    AndBound(a, b);
    if a != 0 && n > 0 {
      OrBound(a / 2, b / 2, n - 1);
    } else if a != 0 {
      OrBound(a / 2, b / 2, 0);
    }
  }

  /** hex2binary: pairs of characters until one is bad or missing. */
  function Decode(line: seq<byte>): seq<byte> {
    if |line| < 2 || Value(line[0]) < 0 || Value(line[1]) < 0 then []
    else [Or(16 * Value(line[0]) % 0x100, Value(line[1]))] + Decode(line[2..])
  }

  /** hex2binary as the source runs it, one character at a time. Its caller ignores the sum. */
  method HexToBinary(line: seq<byte>) returns (to: seq<byte>, sum: byte)
    ensures to == Decode(line) && sum == Sum(to) % 0x100
  {
    to, sum := [], 0;
    var value: byte := 0;
    var first := true;
    var i := 0;
    ghost var p := 0;
    RestWhole(line);
    while i < |line|
      invariant 0 <= p <= i <= |line| && p == (if first then i else i - 1) && sum == Sum(to) % 0x100
      invariant Pending(line, i, first, value) && Rest(line, p, to) == Decode(line)
    {
      var character := Value(line[i]);
      if character < 0 {
        break;
      }
      if first {
        value := 16 * character % 0x100;
      } else {
        value := Combine(line, i, value, to);
        SumStep(to, value);
        to, sum := to + [value], (sum as int + value as int) % 0x100;
        p := i + 1;
      }
      first := !first;
      i := i + 1;
    }
    RestStops(line, p, to);
  }

  /** The second character of a pair completes a byte. */
  method Combine(line: seq<byte>, i: nat, upper: byte, ghost to: seq<byte>) returns (value: byte)
    requires 0 < i < |line| && Value(line[i]) >= 0 && Pending(line, i, false, upper)
    ensures Rest(line, i - 1, to) == Rest(line, i + 1, to + [value])
  {
    value := Or(upper, Value(line[i]));
  }

  /** After an odd number of characters, value holds the upper half of the next byte. */
  ghost predicate Pending(line: seq<byte>, i: int, first: bool, value: byte) {
    first || (0 < i <= |line| && Value(line[i - 1]) >= 0 && value == 16 * Value(line[i - 1]) % 0x100)
  }

  lemma RestStops(line: seq<byte>, p: nat, to: seq<byte>)
    requires p + 1 >= |line| || Value(line[p]) < 0 || Value(line[p + 1]) < 0
    ensures Rest(line, p, to) == to
  {
  }

  lemma SumStep(s: seq<byte>, v: byte)
    ensures Sum(s + [v]) % 0x100 == (Sum(s) % 0x100 + v as int) % 0x100
  {
    SumConcat(s, [v]);
    SumTwo(v, 0);
  }

  /** Bytes decoded so far and those from position p on. */
  ghost function Rest(line: seq<byte>, p: nat, to: seq<byte>): seq<byte>
    decreases |line| - p
  {
    if p + 1 >= |line| || Value(line[p]) < 0 || Value(line[p + 1]) < 0 then to
    else Rest(line, p + 2, to + [Or(16 * Value(line[p]) % 0x100, Value(line[p + 1]))])
  }

  lemma RestWhole(line: seq<byte>)
    ensures Rest(line, 0, []) == Decode(line)
  {
    RestIs(line, 0, []);
    assert line[0..] == line;
  }

  lemma {:induction false} RestIs(line: seq<byte>, p: nat, to: seq<byte>)
    requires p <= |line|
    ensures Rest(line, p, to) == to + Decode(line[p..])
    decreases |line| - p
  {
    if !(p + 1 >= |line| || Value(line[p]) < 0 || Value(line[p + 1]) < 0) {
      var v := Or(16 * Value(line[p]) % 0x100, Value(line[p + 1]));
      RestIs(line, p + 2, to + [v]);
      assert line[p..][2..] == line[p + 2..];
    }
  }

  /** What a reader has gathered so far: the members of hex_data that read changes, and its base address. */
  datatype Reader = Reader(blocks: seq<Block>, base: nat, linear: bool, segment: bool)

  /** Done, or the source would read past the end of a decoded line. */
  datatype Outcome = Done(reader: Reader) | Undefined

  /** The effect of one decoded line. */
  function Apply(r: Reader, buffer: seq<byte>): Outcome {
    if |buffer| < 4 then Undefined
    else
      var address := 0x100 * buffer[1] as nat + buffer[2] as nat;
      var length := buffer[0] as nat;
      match buffer[3]
      case 0 => if |buffer| < 4 + length then Undefined
                else Done(r.(blocks := Store(Cursor(r.blocks, 0, (address + r.base) % TOP, buffer[4..4 + length]))))
      case 2 => Done(r.(segment := true))
      case 4 => if address != 0 || length != 2 then Done(r)
                else if |buffer| < 6 then Undefined
                else Done(r.(base := (0x100 * buffer[4] as nat + buffer[5] as nat) * 0x1_0000, linear := true))
      case _ => Done(r)
  }

  /** Index of the first newline, the length if there is none. */
  function LineEnd(text: seq<byte>): (k: nat)
    ensures k <= |text|
  {
    if text == [] || text[0] == NEWLINE then 0 else 1 + LineEnd(text[1..])
  }

  /** read: lines that start with a colon, until one does not or is too short. */
  function ReadText(r: Reader, text: seq<byte>): Outcome
    decreases |text|
  {
    if text == [] || text[0] != COLON then Done(r)
    else
      var k := LineEnd(text[1..]);
      var line := text[1..][..k];
      var rest := if k + 1 < |text| then text[k + 2..] else [];
      if |line| <= 10 then Done(r)
      else
        match Apply(r, Decode(line))
        case Undefined => Undefined
        case Done(r') => ReadText(r', rest)
  }

  /** read, on a stream that holds the given text. */
  method Read(d: HexData, text: seq<byte>) returns (defined: bool)
    modifies d`blocks, d`linear, d`segment
    ensures var o := ReadText(Reader(old(d.blocks), 0, old(d.linear), old(d.segment)), text);
            && defined == o.Done?
            && (defined ==>
                  d.blocks == o.reader.blocks && d.linear == o.reader.linear && d.segment == o.reader.segment)
  {
    var r := Reader(d.blocks, 0, d.linear, d.segment);
    ghost var start := r;
    var s := text;
    while s != [] && s[0] == COLON
      invariant ReadText(start, text) == ReadText(r, s)
      decreases |s|
    {
      var k := LineEnd(s[1..]);
      var line := s[1..][..k];
      if |line| <= 10 {
        break;
      }
      var buffer, sum := HexToBinary(line);
      var o := ApplyLine(r, buffer);
      if o.Undefined? {
        return false;
      }
      r := o.reader;
      s := if k + 1 < |s| then s[k + 2..] else [];
    }
    d.blocks, d.linear, d.segment := r.blocks, r.linear, r.segment;
    defined := true;
  }

  method ApplyLine(r: Reader, buffer: seq<byte>) returns (o: Outcome)
    ensures o == Apply(r, buffer)
  {
    if |buffer| < 4 {
      return Undefined;
    }
    var address := 0x100 * buffer[1] as nat + buffer[2] as nat;
    var length := buffer[0] as nat;
    if buffer[3] == 0 {
      if |buffer| < 4 + length {
        return Undefined;
      }
      var bs := StoreRecord(r.blocks, (address + r.base) % TOP, buffer[4..4 + length]);
      return Done(r.(blocks := bs));
    }
    return Apply(r, buffer);
  }

  // ----- what a reader makes of a well-formed line -----

  lemma DigitValue(d: nat)
    requires d < 16
    ensures Value(Digit(d)) == d && Digit(d) != NEWLINE
  {
  }

  lemma OrNibbles(h: nat, l: nat)
    requires h < 16 && l < 16
    ensures Or(16 * h % 0x100, l) == 16 * h + l
  {
    AndDisjoint(h, l, 4);
    Pow2Values();
    assert Pow2(4) * h == 16 * h == 16 * h % 0x100;
  }

  lemma {:induction false} AndDisjoint(h: nat, l: nat, n: nat)
    requires l < Pow2(n)
    ensures And(Pow2(n) * h, l) == 0
  {
    if n == 0 {
      AndZero(h);
    } else if Pow2(n) * h != 0 {
      var w := Pow2(n - 1) * h;
      Twice(Pow2(n - 1), h);
      AndDisjoint(h, l / 2, n - 1);
      assert 2 * w / 2 == w && 2 * w % 2 == 0;
    }
  }

  /** hex2binary undoes the printing of bytes. */
  lemma {:induction false} DecodeHex(s: seq<byte>)
    ensures Decode(HexBytes(s)) == s
  {
    if s != [] {
      var h, l := s[0] / 16, s[0] % 16;
      DigitValue(h);
      DigitValue(l);
      OrNibbles(h, l);
      assert HexBytes(s)[2..] == HexBytes(s[1..]);
      DecodeHex(s[1..]);
    }
  }

  lemma {:induction false} HexNoNewline(s: seq<byte>)
    ensures NEWLINE !in HexBytes(s)
  {
    if s != [] {
      DigitValue(s[0] / 16);
      DigitValue(s[0] % 16);
      HexNoNewline(s[1..]);
    }
  }

  lemma {:induction false} LineEndAt(line: seq<byte>, rest: seq<byte>)
    requires NEWLINE !in line
    ensures LineEnd(line + [NEWLINE] + rest) == |line|
  {
    var t := line + [NEWLINE] + rest;
    if line != [] {
      assert t[1..] == line[1..] + [NEWLINE] + rest;
      LineEndAt(line[1..], rest);
    }
  }

  /** Any line of more than ten characters is decoded and applied, and reading goes on behind it. */
  lemma ReadLine(r: Reader, line: seq<byte>, rest: seq<byte>)
    requires |line| > 10 && NEWLINE !in line
    ensures ReadText(r, TextLine(line) + rest)
         == match Apply(r, Decode(line))
            case Undefined => Undefined
            case Done(r') => ReadText(r', rest)
  {
    LineParts(line, rest);
  }

  lemma LineParts(line: seq<byte>, rest: seq<byte>)
    requires NEWLINE !in line
    ensures var text := TextLine(line) + rest;
            && text != [] && text[0] == COLON && LineEnd(text[1..]) == |line| && |line| + 1 < |text|
            && text[1..][..|line|] == line && text[|line| + 2..] == rest
  {
    var text := TextLine(line) + rest;
    assert text[1..] == line + [NEWLINE] + rest;
    LineEndAt(line, rest);
    assert text[1..][..|line|] == line && text[|line| + 2..] == rest;
  }

  /** A printed record of at least five bytes and its checksum byte, whatever that is, are applied. */
  lemma ReadRecord(r: Reader, record: seq<byte>, c: byte, rest: seq<byte>)
    requires |record| >= 5
    ensures ReadText(r, TextLine(HexBytes(record + [c])) + rest)
         == match Apply(r, record + [c])
            case Undefined => Undefined
            case Done(r') => ReadText(r', rest)
  {
    HexNoNewline(record + [c]);
    DecodeHex(record + [c]);
    ReadLine(r, HexBytes(record + [c]), rest);
  }

  // ----- round trip -----

  lemma ApplyData(r: Reader, b: Block, c: byte)
    requires 0 < |b.bytes| < 0x100 && b.addr < TOP && r.base == b.addr / 0x1_0000 * 0x1_0000
    requires Ordered(r.blocks) && forall j :: 0 <= j < |r.blocks| ==> r.blocks[j].End() <= b.addr
    ensures Apply(r, DataRecord(b) + [c]) == Done(r.(blocks := r.blocks + [b]))
  {
    DataBytes(b, c);
    AddressParts(b.addr);
    StoreAppend(r.blocks, b.addr, b.bytes);
  }

  lemma DataBytes(b: Block, c: byte)
    requires |b.bytes| < 0x100
    ensures var w := DataRecord(b) + [c];
            && |w| == 5 + |b.bytes| && w[0] as nat == |b.bytes| && w[1] as nat == b.addr / 0x100 % 0x100
            && w[2] as nat == b.addr % 0x100 && w[3] == 0 && w[4..4 + |b.bytes|] == b.bytes
  {
  }

  lemma AddressParts(a: nat)
    requires a < TOP
    ensures (0x100 * (a / 0x100 % 0x100) + a % 0x100 + a / 0x1_0000 * 0x1_0000) % TOP == a
  {
    LowWord(a);
    assert 0x100 * (a / 0x100 % 0x100) + a % 0x100 + a / 0x1_0000 * 0x1_0000 == a;
  }

  lemma ApplyLinear(r: Reader, seg: nat, c: byte)
    requires seg < 0x1_0000
    ensures Apply(r, LinearRecord(seg) + [c]) == Done(r.(base := seg * 0x1_0000, linear := true))
  {
  }

  lemma ReadFooter(r: Reader)
    ensures ReadText(r, FOOTER) == Done(r)
  {
    var s: seq<byte> := [0, 0, 0, 1, 255];
    HexTwo(0, 0);
    HexTwo(0, 1);
    HexOne(255);
    HexConcat([0, 0], [0, 1]);
    HexConcat([0, 0] + [0, 1], [255]);
    assert s == [0, 0] + [0, 1] + [255];
    assert FOOTER[1..] == HexBytes(s) + [NEWLINE] + [];
    HexNoNewline(s);
    LineEndAt(HexBytes(s), []);
  }

  lemma HeaderIsLine()
    ensures HEADER == Line(LinearRecord(0))
  {
    LinearTextIsLine(0);
    HeaderFields();
    HeaderParts();
  }

  lemma HeaderFields()
    ensures Padded(0, 4) == [48, 48, 48, 48] && Padded(CheckOf(6), 2) == [70, 65]
  {
    PaddedWord(0);
    HexTwo(0, 0);
    PaddedByte(250);
    HexOne(250);
  }

  lemma HeaderParts()
    ensures HEADER == [58, 48, 50, 48, 48, 48, 48, 48, 52] + [48, 48, 48, 48] + [70, 65] + [NEWLINE]
  {
  }

  /** Every block fits into one record. */
  ghost predicate Recordable(bs: seq<Block>) {
    forall i :: 0 <= i < |bs| ==> |bs[i].bytes| < 0x100
  }

  lemma ReadData(r: Reader, b: Block, text: seq<byte>)
    requires 0 < |b.bytes| < 0x100 && b.addr < TOP && r.base == b.addr / 0x1_0000 * 0x1_0000
    requires Ordered(r.blocks) && forall j :: 0 <= j < |r.blocks| ==> r.blocks[j].End() <= b.addr
    ensures ReadText(r, DataText(b) + text) == ReadText(r.(blocks := r.blocks + [b]), text)
  {
    DataTextIsLine(b);
    ReadRecord(r, DataRecord(b), Check(DataRecord(b)), text);
    ApplyData(r, b, Check(DataRecord(b)));
  }

  lemma ReadLinear(r: Reader, seg: nat, text: seq<byte>)
    requires seg < 0x1_0000
    ensures ReadText(r, LinearText(seg) + text) == ReadText(r.(base := seg * 0x1_0000, linear := true), text)
  {
    LinearTextIsLine(seg);
    ReadRecord(r, LinearRecord(seg), Check(LinearRecord(seg)), text);
    ApplyLinear(r, seg, Check(LinearRecord(seg)));
  }

  /** Reading the text of the remaining blocks appends them, across changes of segment. */
  lemma {:induction false} ReadBlocks(r: Reader, bs: seq<Block>, seg: nat)
    requires Ordered(r.blocks + bs) && Recordable(bs) && r.base == seg * 0x1_0000
    requires bs != [] ==> seg <= bs[0].addr / 0x1_0000
    ensures var o := ReadText(r, BlocksText(bs, seg));
            && o.Done? && o.reader.blocks == r.blocks + bs && o.reader.segment == r.segment
            && (r.linear || seg == 0 ==> (o.reader.linear <==> r.linear || NeedsLinear(bs)))
    decreases |bs|
  {
    if bs == [] {
      ReadFooter(r);
      assert r.blocks + bs == r.blocks;
    } else {
      var b, rest, upper := bs[0], bs[1..], bs[0].addr / 0x1_0000;
      FirstOfRest(r.blocks, bs);
      var tail := BlocksText(rest, upper);
      var r1 := if b.addr > 0xffff && upper != seg then r.(base := upper * 0x1_0000, linear := true) else r;
      if b.addr > 0xffff && upper != seg {
        assert LinearText(upper) + DataText(b) + tail == LinearText(upper) + (DataText(b) + tail);
        ReadLinear(r, upper, DataText(b) + tail);
      }
      assert seg == upper || r1.linear;
      ReadData(r1, b, tail);
      ReadBlocks(r1.(blocks := r.blocks + [b]), rest, upper);
      assert NeedsLinear(bs) <==> b.addr > 0xffff || NeedsLinear(rest) by {
        NeedsLinearCons(bs);
      }
    }
  }

  lemma NeedsLinearCons(bs: seq<Block>)
    requires bs != []
    ensures NeedsLinear(bs) <==> bs[0].addr > 0xffff || NeedsLinear(bs[1..])
  {
    if NeedsLinear(bs) {
      var i :| 0 <= i < |bs| && bs[i].addr > 0xffff;
      assert i > 0 ==> bs[1..][i - 1] == bs[i];
    }
    if NeedsLinear(bs[1..]) {
      var i :| 0 <= i < |bs[1..]| && bs[1..][i].addr > 0xffff;
      assert bs[i + 1].addr > 0xffff;
    }
  }

  lemma FirstOfRest(done: seq<Block>, bs: seq<Block>)
    requires Ordered(done + bs) && bs != []
    ensures Ordered(done) && Ordered(done + [bs[0]] + bs[1..]) && bs[0].bytes != [] && bs[0].End() <= TOP
    ensures done + [bs[0]] + bs[1..] == done + bs
    ensures forall j :: 0 <= j < |done| ==> done[j].End() <= bs[0].addr
    ensures |bs| > 1 ==> bs[0].addr / 0x1_0000 <= bs[1].addr / 0x1_0000
  {
    var all := done + bs;
    assert done + [bs[0]] + bs[1..] == all;
    OrderedPart(all, 0, |done|);
    assert all[0..|done|] == done;
    Sides(all, |done|);
    assert all[|done|] == bs[0];
    if |bs| > 1 {
      assert all[|done| + 1] == bs[1];
    }
  }

  /** Writing an image whose blocks fit into records and reading it into a fresh one restores the blocks. */
  lemma RoundTrip(bs: seq<Block>, linear: bool)
    requires Ordered(bs) && Recordable(bs)
    ensures var o := ReadText(Reader([], 0, false, false), WriteText(bs, linear));
            o.Done? && o.reader.blocks == bs && o.reader.linear == (linear || NeedsLinear(bs)) && !o.reader.segment
  {
    var start := Reader([], 0, false, false);
    assert [] + bs == bs;
    if linear || NeedsLinear(bs) {
      HeaderIsLine();
      LinearTextIsLine(0);
      ReadLinear(start, 0, BlocksText(bs, 0));
      ReadBlocks(start.(linear := true), bs, 0);
    } else {
      assert [] + BlocksText(bs, 0) == BlocksText(bs, 0);
      ReadBlocks(start, bs, 0);
    }
  }

  /** The whole cycle on objects: tidy, write, read into a new image. */
  method SaveAndLoad(d: HexData, length: nat) returns (e: HexData)
    requires d.Valid() && 1 <= length <= 255
    modifies d
    ensures d.Valid() && d.Image() == old(d.Image())
    ensures fresh(e) && e.Valid() && e.blocks == d.blocks && e.Image() == old(d.Image()) && e.linear == d.linear
  {
    d.Tidy(length);
    var text := Write(d);
    RoundTrip(d.blocks, old(d.linear));
    e := new HexData();
    var defined := Read(e, text);
  }
}

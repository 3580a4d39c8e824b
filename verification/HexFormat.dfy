/** What a written Intel HEX file consists of, in the terms of the format: lines of records of types 00, 01 and 04, with
    their digits and checksums. */
module HexFormat {
  import opened Bytes
  import opened HexImage
  import opened HexCodec

  // ----- digits -----

  /** The sixteen digits the writer uses. */
  const DIGITS: seq<byte> := [48, 49, 50, 51, 52, 53, 54, 55, 56, 57, 65, 66, 67, 68, 69, 70]

  /** A byte is printed as two of them, the upper half first. */
  lemma PrintedByte(b: byte)
    ensures HexBytes([b]) == [DIGITS[b / 16], DIGITS[b % 16]]
  {
    HexOne(b);
  }

  /** The reader takes digits and letters of either case, in the order of the alphabet, and nothing else. */
  lemma ReadDigits(c: byte, d: nat)
    requires d < 36
    ensures Value(c) >= 0 <==> 48 <= c <= 57 || 65 <= c <= 90 || 97 <= c <= 122
    ensures Value(if d < 10 then 48 + d else 55 + d) == d
    ensures Value(if d < 10 then 48 + d else 87 + d) == d
  {
  }

  /** Two lower-case digits per byte. */
  function LowerHex(s: seq<byte>): seq<byte> {
    if s == [] then [] else [LowerDigit(s[0] / 16), LowerDigit(s[0] % 16)] + LowerHex(s[1..])
  }

  function LowerDigit(d: nat): byte
    requires d < 16
  {
    if d < 10 then 48 + d else 87 + d
  }

  /** Decoding undoes lower-case printing, too. */
  lemma {:induction false} DecodeLower(s: seq<byte>)
    ensures Decode(LowerHex(s)) == s
  {
    if s != [] {
      DecodePair(s[0], LowerHex(s[1..]));
      DecodeLower(s[1..]);
      assert s == [s[0]] + s[1..];
    }
  }

  lemma DecodePair(b: byte, t: seq<byte>)
    ensures Decode([LowerDigit(b / 16), LowerDigit(b % 16)] + t) == [b] + Decode(t)
  {
    var s := [LowerDigit(b / 16), LowerDigit(b % 16)] + t;
    assert s[2..] == t;
    OrNibbles(b / 16, b % 16);
    ReadDigits(0, b as nat / 16);
    ReadDigits(0, b as nat % 16);
  }

  // ----- sums -----

  /** The checksum of a record of four bytes, and of a longer one. */
  lemma SumIs(a: byte, b: byte, c: byte, d: byte, data: seq<byte>)
    ensures Sum([a, b, c, d]) == a as int + b as int + c as int + d as int
    ensures Sum([a, b, c, d] + data) == a as int + b as int + c as int + d as int + Sum(data)
    ensures (Sum([a, b, c, d] + data) + Check([a, b, c, d] + data) as int) % 0x100 == 0
  {
    SumFour(a, b, c, d);
    SumConcat([a, b, c, d], data);
    CheckCompletes(Sum([a, b, c, d] + data));
  }

  // ----- files -----

  function Lines(records: seq<seq<byte>>): seq<byte> {
    if records == [] then [] else Line(records[0]) + Lines(records[1..])
  }

  /** Length, address and type 00, then so many bytes. */
  predicate IsData(record: seq<byte>) {
    |record| >= 4 && record[3] == 0 && record[0] as nat == |record| - 4
  }

  /** A type 04 record: two bytes that are the upper half of an address. */
  predicate IsLinear(record: seq<byte>) {
    |record| == 6 && record[..4] == [2, 0, 0, 4]
  }

  predicate AllDataOrLinear(records: seq<seq<byte>>) {
    forall i :: 0 <= i < |records| ==> IsData(records[i]) || IsLinear(records[i])
  }

  /** The data records among them. */
  function OnlyData(records: seq<seq<byte>>): seq<seq<byte>> {
    if records == [] then []
    else (if IsData(records[0]) then [records[0]] else []) + OnlyData(records[1..])
  }

  /** The data record of every block. */
  function DataRecords(bs: seq<Block>): seq<seq<byte>>
    requires forall i :: 0 <= i < |bs| ==> |bs[i].bytes| < 0x100
  {
    if bs == [] then [] else [DataRecord(bs[0])] + DataRecords(bs[1..])
  }

  /** ":00000001FF": the end record is the line of a type 01 record. */
  lemma EndRecord()
    ensures FOOTER == Line([0, 0, 0, 1])
    ensures FOOTER == [58, 48, 48, 48, 48, 48, 48, 48, 49, 70, 70, 10]
  {
    SumFour(0, 0, 0, 1);
    var s: seq<byte> := [0, 0, 0, 1];
    assert Check(s) == 255;
    EndDigits();
    assert s + [255] == [0, 0] + [0, 1] + [] + [] + [255];
  }

  lemma EndDigits()
    ensures HexBytes([0, 0] + [0, 1] + [] + [] + [255]) == [48, 48, 48, 48, 48, 48, 48, 49, 70, 70]
  {
    HexJoin([0, 0], [0, 1], [], [], [255]);
    HexTwo(0, 0);
    HexTwo(0, 1);
    HexOne(255);
  }

  lemma {:induction false} BlocksEnd(bs: seq<Block>, seg: nat) returns (body: seq<byte>)
    ensures BlocksText(bs, seg) == body + Line([0, 0, 0, 1])
    decreases |bs|
  {
    if bs == [] {
      EndRecord();
      body := [];
      assert [] + FOOTER == FOOTER;
    } else {
      var upper := bs[0].addr / 0x1_0000;
      var head := if bs[0].addr > 0xffff && upper != seg then LinearText(upper) + DataText(bs[0]) else DataText(bs[0]);
      var rest := BlocksEnd(bs[1..], if bs[0].addr > 0xffff && upper != seg then upper else seg);
      body := head + rest;
      assert head + (rest + Line([0, 0, 0, 1])) == body + Line([0, 0, 0, 1]);
    }
  }

  lemma LinesFirst(record: seq<byte>, records: seq<seq<byte>>, end: seq<byte>)
    ensures Lines([record] + records) + end == Line(record) + (Lines(records) + end)
    ensures IsData(record) || IsLinear(record) ==> AllDataOrLinear(records) ==> AllDataOrLinear([record] + records)
    ensures OnlyData([record] + records) == (if IsData(record) then [record] else []) + OnlyData(records)
  {
    assert ([record] + records)[1..] == records;
    assert forall i :: 0 < i < |[record] + records| ==> ([record] + records)[i] == records[i - 1];
  }

  /** The records for the blocks: a data record for each, and linear records between them. */
  lemma {:induction false} BlocksLines(bs: seq<Block>, seg: nat) returns (records: seq<seq<byte>>)
    requires forall i :: 0 <= i < |bs| ==> |bs[i].bytes| < 0x100 && bs[i].addr < TOP
    ensures AllDataOrLinear(records) && OnlyData(records) == DataRecords(bs)
    ensures BlocksText(bs, seg) == Lines(records) + Line([0, 0, 0, 1])
    decreases |bs|
  {
    if bs == [] {
      EndRecord();
      records := [];
      assert [] + FOOTER == FOOTER;
    } else {
      var b, upper := bs[0], bs[0].addr / 0x1_0000;
      var announce := b.addr > 0xffff && upper != seg;
      var rest := BlocksLines(bs[1..], if announce then upper else seg);
      DataTextIsLine(b);
      LinesFirst(DataRecord(b), rest, Line([0, 0, 0, 1]));
      records := [DataRecord(b)] + rest;
      if announce {
        LinearTextIsLine(upper);
        LinesFirst(LinearRecord(upper), records, Line([0, 0, 0, 1]));
        Associate(LinearText(upper), DataText(b), BlocksText(bs[1..], upper));
        assert [] + OnlyData(records) == OnlyData(records);
        records := [LinearRecord(upper)] + records;
      }
    }
  }

  lemma Associate(a: seq<byte>, b: seq<byte>, c: seq<byte>)
    ensures a + b + c == a + (b + c)
  {
  }

  /** Every file ends with the end record, and begins with the record of segment 0 if 32-bit addresses are announced. */
  lemma FileFrame(bs: seq<Block>, linear: bool)
    ensures exists body :: WriteText(bs, linear) == body + Line([0, 0, 0, 1])
    ensures linear || (exists i :: 0 <= i < |bs| && bs[i].addr > 0xffff) ==>
              Line([2, 0, 0, 4, 0, 0]) <= WriteText(bs, linear)
  {
    var header := if linear || NeedsLinear(bs) then HEADER else [];
    var body := BlocksEnd(bs, 0);
    Associate(header, body, Line([0, 0, 0, 1]));
    HeaderIsLine();
    assert WriteText(bs, linear) == (header + body) + Line([0, 0, 0, 1]);
  }

  /** If the blocks fit into records, the file is nothing but lines: data records for the blocks in order, linear
      address records before and between them, and the end record. */
  lemma FileIsLines(bs: seq<Block>, linear: bool) returns (records: seq<seq<byte>>)
    requires forall i :: 0 <= i < |bs| ==> |bs[i].bytes| < 0x100 && bs[i].addr < 0x1_0000_0000
    ensures AllDataOrLinear(records) && OnlyData(records) == DataRecords(bs)
    ensures WriteText(bs, linear) == Lines(records) + Line([0, 0, 0, 1])
  {
    records := BlocksLines(bs, 0);
    if linear || NeedsLinear(bs) {
      HeaderIsLine();
      LinesFirst(LinearRecord(0), records, Line([0, 0, 0, 1]));
      assert [] + OnlyData(records) == OnlyData(records);
      records := [LinearRecord(0)] + records;
    }
  }

  /** A file in full: ":0100000007F8" and ":00000001FF". */
  lemma SmallFile()
    ensures WriteText([Block(0, [7])], false)
         == [58, 48, 49, 48, 48, 48, 48, 48, 48, 48, 55, 70, 56, 10] + [58, 48, 48, 48, 48, 48, 48, 48, 49, 70, 70, 10]
  {
    var b := Block(0, [7]);
    EndRecord();
    DataTextIsLine(b);
    SmallRecord();
    assert [b][1..] == [] && BlocksText([b], 0) == DataText(b) + FOOTER;
    assert [] + BlocksText([b], 0) == BlocksText([b], 0);
  }

  lemma SmallRecord()
    ensures Line(DataRecord(Block(0, [7]))) == [58, 48, 49, 48, 48, 48, 48, 48, 48, 48, 55, 70, 56, 10]
  {
    var s: seq<byte> := [1, 0, 0, 0, 7];
    assert DataRecord(Block(0, [7])) == [1, 0, 0, 0] + [7] == s;
    SumIs(1, 0, 0, 0, [7]);
    SumTwo(7, 0);
    assert Check(s) == 248;
    assert s + [248] == [1, 0] + [0, 0] + [] + [] + [7, 248];
    HexJoin([1, 0], [0, 0], [], [], [7, 248]);
    HexTwo(1, 0);
    HexTwo(0, 0);
    HexTwo(7, 248);
  }
}

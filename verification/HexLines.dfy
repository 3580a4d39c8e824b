/** Lines of an Intel HEX file that should not count: exactly which of them the reader ignores. */
module HexLines {
  import opened Bytes
  import opened HexImage
  import opened HexStore
  import opened HexCodec

  // ----- the checksum -----

  /** The checksum byte of a record that is complete without it has no effect. */
  lemma ChecksumIgnored(r: Reader, record: seq<byte>, c: byte, d: byte, rest: seq<byte>)
    requires |record| >= 5 && 4 + record[0] as nat <= |record|
    ensures ReadText(r, TextLine(HexBytes(record + [c])) + rest) == ReadText(r, TextLine(HexBytes(record + [d])) + rest)
  {
    ReadRecord(r, record, c, rest);
    ReadRecord(r, record, d, rest);
    ApplyWithout(r, record, c);
    ApplyWithout(r, record, d);
  }

  lemma ApplyWithout(r: Reader, record: seq<byte>, c: byte)
    requires |record| >= 5 && 4 + record[0] as nat <= |record|
    ensures Apply(r, record + [c]) == Apply(r, record)
  {
    var n := record[0] as nat;
    assert (record + [c])[4..4 + n] == record[4..4 + n];
  }

  lemma DataLineStored(r: Reader, record: seq<byte>, c: byte, rest: seq<byte>)
    requires |record| >= 5 && record[3] == 0 && 4 + record[0] as nat <= |record|
    ensures var bs := Store(Cursor(r.blocks, 0, Start(r, record), record[4..4 + record[0] as nat]));
            ReadText(r, TextLine(HexBytes(record + [c])) + rest) == ReadText(r.(blocks := bs), rest)
  {
    ReadRecord(r, record, c, rest);
    ApplyWithout(r, record, c);
  }

  /** A complete data record is stored, whatever its checksum byte, and that writes its bytes to the image, modulo
      2^32, if and only if it does no damage. */
  lemma DataLineWritesIff(r: Reader, record: seq<byte>, c: byte, rest: seq<byte>)
    requires |record| >= 5 && record[3] == 0 && 4 + record[0] as nat <= |record| && Ordered(r.blocks)
    ensures var a, data := Start(r, record), record[4..4 + record[0] as nat];
            var bs := Store(Cursor(r.blocks, 0, a, data));
            && ReadText(r, TextLine(HexBytes(record + [c])) + rest) == ReadText(r.(blocks := bs), rest)
            && (Written(r.blocks, a, data, bs) <==> !Damaged(r.blocks, a, |data|))
  {
    DataLineStored(r, record, c, rest);
    StoreWritesIff(r.blocks, Start(r, record), record[4..4 + record[0] as nat]);
  }

  /** The address of a record's first byte. */
  function Start(r: Reader, record: seq<byte>): (a: nat)
    requires |record| >= 3
    ensures a < TOP
  {
    (0x100 * record[1] as nat + record[2] as nat + r.base) % TOP
  }

  // ----- which lines are ignored -----

  /** A record that changes something: data, a segment address, or a linear address in its proper form. */
  predicate Effective(w: seq<byte>)
    requires |w| >= 4
  {
    (w[3] == 0 && w[0] > 0) || w[3] == 2 || (w[3] == 4 && w[1] == 0 && w[2] == 0 && w[0] == 2)
  }

  /** The decoded line has the four bytes every record starts with, and they ask for nothing. */
  predicate Harmless(w: seq<byte>) {
    |w| >= 4 && !Effective(w)
  }

  lemma ApplyUndefined(r: Reader, w: seq<byte>)
    ensures Apply(r, w).Undefined? <==>
            || |w| < 4
            || (w[3] == 0 && |w| < 4 + w[0] as nat)
            || (w[3] == 4 && w[1] == 0 && w[2] == 0 && w[0] == 2 && |w| < 6)
  {
  }

  /** Number of characters before the first that is neither a digit nor a letter. */
  function Good(line: seq<byte>): (n: nat)
    ensures n <= |line|
  {
    if line == [] || Value(line[0]) < 0 then 0 else 1 + Good(line[1..])
  }

  lemma {:induction false} DecodedLength(line: seq<byte>)
    ensures |Decode(line)| == Good(line) / 2
    decreases |line|
  {
    if |line| >= 2 && Value(line[0]) >= 0 && Value(line[1]) >= 0 {
      assert line[1..][1..] == line[2..];
      DecodedLength(line[2..]);
    }
  }

  /** The line has fewer than eight good characters, or fewer than its type and length byte ask for. */
  predicate Overruns(line: seq<byte>) {
    DecodedLength(line);
    var w, n := Decode(line), Good(line);
    || n < 8
    || (w[3] == 0 && n < 2 * (4 + w[0] as nat))
    || (w[3] == 4 && w[1] == 0 && w[2] == 0 && w[0] == 2 && n < 12)
  }

  /** The source reads past the end of a decoded line of more than ten characters if and only if it has too few
      good ones. */
  lemma UndefinedIff(r: Reader, line: seq<byte>)
    requires |line| > 10 && NEWLINE !in line
    ensures ReadText(r, TextLine(line)).Undefined? <==> Overruns(line)
  {
    DecodedLength(line);
    assert TextLine(line) + [] == TextLine(line);
    ReadLine(r, line, []);
    ApplyUndefined(r, Decode(line));
  }

  lemma HarmlessApply(r: Reader, w: seq<byte>)
    requires Harmless(w)
    ensures Apply(r, w) == Done(r)
  {
    assert w[4..4] == [];
  }

  /** What the records that are not data do: type 02 only sets a flag; type 04 sets the upper half of the addresses that
      follow, and a flag. */
  lemma OtherRecords(r: Reader, w: seq<byte>)
    requires |w| >= 6
    ensures w[3] == 2 ==> Apply(r, w) == Done(r.(segment := true))
    ensures w[..4] == [2, 0, 0, 4] ==>
              Apply(r, w) == Done(r.(base := 0x100_0000 * w[4] as nat + 0x1_0000 * w[5] as nat, linear := true))
  {
    if w[..4] == [2, 0, 0, 4] {
      assert w[0] == w[..4][0] && w[1] == w[..4][1] && w[2] == w[..4][2] && w[3] == w[..4][3];
    }
  }

  const FRESH := Reader([], 0, false, false)

  /** Something has been read. */
  predicate Touched(r: Reader) {
    r.blocks != [] || r.linear || r.segment
  }

  predicate Changed(o: Outcome) {
    o.Undefined? || Touched(o.reader)
  }

  lemma EffectiveApply(w: seq<byte>)
    requires !Harmless(w)
    ensures Changed(Apply(FRESH, w))
  {
    if |w| >= 4 && w[3] == 0 && |w| >= 4 + w[0] as nat {
      StoreSome(Cursor([], 0, (0x100 * w[1] as nat + w[2] as nat) % TOP, w[4..4 + w[0] as nat]));
    }
  }

  lemma {:induction false} StoreSome(c: Cursor)
    ensures |Store(c)| >= |c.blocks|
    ensures c.data != [] ==> Store(c) != []
    decreases |c.blocks| - c.i
  {
    if c.Active() {
      Unfold(c);
      StoreSome(StoreStep(c));
    }
  }

  lemma StaysTouched(r: Reader, w: seq<byte>)
    requires Touched(r)
    ensures Changed(Apply(r, w))
  {
    if |w| >= 4 && w[3] == 0 && |w| >= 4 + w[0] as nat {
      StoreSome(Cursor(r.blocks, 0, (0x100 * w[1] as nat + w[2] as nat + r.base) % TOP, w[4..4 + w[0] as nat]));
    }
  }

  /** Reading goes on as if the line were not there, whatever was read before and whatever follows. */
  ghost predicate Ignored(line: seq<byte>) {
    forall r, rest :: ReadText(r, TextLine(line) + rest) == ReadText(r, rest)
  }

  /** A line of more than ten characters is ignored if and only if its record asks for nothing. */
  lemma LineIgnoredIff(line: seq<byte>)
    requires |line| > 10 && NEWLINE !in line
    ensures Ignored(line) <==> Harmless(Decode(line))
  {
    var w := Decode(line);
    if Harmless(w) {
      forall r, rest
        ensures ReadText(r, TextLine(line) + rest) == ReadText(r, rest)
      {
        ReadLine(r, line, rest);
        HarmlessApply(r, w);
      }
    } else {
      ReadLine(FRESH, line, []);
      EffectiveApply(w);
      assert ReadText(FRESH, TextLine(line) + []) != ReadText(FRESH, []);
    }
  }

  /** The bytes of the line do not sum to zero. */
  predicate BadSum(line: seq<byte>) {
    Sum(Decode(line)) % 0x100 != 0
  }

  /** That a line is ignored if its checksum is bad holds exactly for the lines with a good one and for those
      whose record asks for nothing. */
  lemma BadSumIgnoredIff(line: seq<byte>)
    requires |line| > 10 && NEWLINE !in line
    ensures (BadSum(line) ==> Ignored(line)) <==> !BadSum(line) || Harmless(Decode(line))
  {
    LineIgnoredIff(line);
  }

  /** For instance, a data record with a bad checksum is stored. */
  lemma BadLineStored()
    ensures var line := HexBytes([1, 0, 0, 0, 7] + [255]);
            BadSum(line) && ReadText(FRESH, TextLine(line) + []) == Done(FRESH.(blocks := [Block(0, [7])]))
  {
    var b := Block(0, [7]);
    assert DataRecord(b) == [1, 0, 0, 0, 7];
    DecodeHex([1, 0, 0, 0, 7] + [255]);
    BadSumOf7();
    ReadRecord(FRESH, DataRecord(b), 255, []);
    ApplyData(FRESH, b, 255);
    assert [] + [b] == [b];
  }

  lemma BadSumOf7()
    ensures Sum([1, 0, 0, 0, 7] + [255]) == 263
  {
    SumConcat([1, 0, 0, 0, 7], [255]);
    SumConcat([1, 0, 0, 0], [7]);
    assert [1, 0, 0, 0, 7] == [1, 0, 0, 0] + [7];
    SumFour(1, 0, 0, 0);
    SumTwo(7, 0);
    SumTwo(255, 0);
  }

  // ----- short lines -----

  /** Reading the text does nothing: it ends before, or comes to, a line too short or no line at all, and all
      lines up to there ask for nothing. */
  predicate Idle(text: seq<byte>)
    decreases |text|
  {
    if text == [] || text[0] != COLON then true
    else
      var k := LineEnd(text[1..]);
      k <= 10 || (Harmless(Decode(text[1..][..k])) && Idle(if k + 1 < |text| then text[k + 2..] else []))
  }

  lemma {:induction false} IdleDoesNothing(r: Reader, text: seq<byte>)
    requires Idle(text)
    ensures ReadText(r, text) == Done(r)
    decreases |text|
  {
    if text != [] && text[0] == COLON {
      var k := LineEnd(text[1..]);
      if k > 10 {
        HarmlessApply(r, Decode(text[1..][..k]));
        IdleDoesNothing(r, if k + 1 < |text| then text[k + 2..] else []);
      }
    }
  }

  lemma {:induction false} TouchedForGood(r: Reader, text: seq<byte>)
    requires Touched(r)
    ensures Changed(ReadText(r, text))
    decreases |text|
  {
    if text != [] && text[0] == COLON {
      var k := LineEnd(text[1..]);
      if k > 10 {
        var o := Apply(r, Decode(text[1..][..k]));
        StaysTouched(r, Decode(text[1..][..k]));
        if o.Done? {
          TouchedForGood(o.reader, if k + 1 < |text| then text[k + 2..] else []);
        }
      }
    }
  }

  lemma {:induction false} NotIdleDoesSomething(text: seq<byte>)
    requires !Idle(text)
    ensures Changed(ReadText(FRESH, text))
    decreases |text|
  {
    var k := LineEnd(text[1..]);
    var w, rest := Decode(text[1..][..k]), if k + 1 < |text| then text[k + 2..] else [];
    if Harmless(w) {
      HarmlessApply(FRESH, w);
      NotIdleDoesSomething(rest);
    } else {
      EffectiveApply(w);
      var o := Apply(FRESH, w);
      if o.Done? {
        TouchedForGood(o.reader, rest);
      }
    }
  }

  /** A line of at most ten characters is not passed over: it ends the reading. That makes no difference to any
      reader if and only if nothing that follows would have been read. */
  lemma ShortLineIgnoredIff(line: seq<byte>, rest: seq<byte>)
    requires |line| <= 10 && NEWLINE !in line
    ensures forall r :: ReadText(r, TextLine(line) + rest) == Done(r)
    ensures (forall r :: ReadText(r, TextLine(line) + rest) == ReadText(r, rest)) <==> Idle(rest)
  {
    LineParts(line, rest);
    if Idle(rest) {
      forall r
        ensures ReadText(r, rest) == Done(r)
      {
        IdleDoesNothing(r, rest);
      }
    } else {
      NotIdleDoesSomething(rest);
      assert ReadText(FRESH, TextLine(line) + rest) == Done(FRESH) != ReadText(FRESH, rest);
    }
  }

  /** For instance, an empty line makes the reader miss the data record behind it. */
  lemma DataMissed()
    ensures var data := TextLine(HexBytes([1, 0, 0, 0, 7] + [248]));
            && ReadText(FRESH, data + []) == Done(FRESH.(blocks := [Block(0, [7])]))
            && ReadText(FRESH, TextLine([]) + (data + [])) == Done(FRESH)
  {
    var b := Block(0, [7]);
    assert DataRecord(b) == [1, 0, 0, 0, 7];
    ReadRecord(FRESH, DataRecord(b), 248, []);
    ApplyData(FRESH, b, 248);
    assert [] + [b] == [b];
    ShortLineIgnoredIff([], TextLine(HexBytes([1, 0, 0, 0, 7] + [248])) + []);
  }
}

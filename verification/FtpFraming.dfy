/** The control connection of an FTP client: commands and replies as lines, with byte 255 doubled as RFC 854
    demands, and replies of one or more lines as in section 4.2 of RFC 959. */
module FtpFraming {
  import opened Bytes
  import opened Wrappers

  const NUL: byte := 0
  const LF: byte := 10
  const CR: byte := 13
  const SPACE: byte := 32
  const DASH: byte := 45
  const IAC: byte := 255

  // ----- lines on the wire -----

  function Escape(s: seq<byte>): seq<byte> {
    if s == [] then [] else (if s[0] == IAC then [IAC, IAC] else [s[0]]) + Escape(s[1..])
  }

  /** A 255 that is not the last byte is dropped and the byte after it kept, whatever it is. */
  function Unescape(s: seq<byte>): (t: seq<byte>)
    ensures |t| <= |s|
  {
    if s == [] then []
    else if s[0] == IAC && |s| > 1 then [s[1]] + Unescape(s[2..])
    else [s[0]] + Unescape(s[1..])
  }

  /** A line needs a line feed and one more byte; a carriage return before the line feed is dropped. */
  function Chop(s: seq<byte>): Option<seq<byte>> {
    var n := |s|;
    if n < 2 || s[n - 1] != LF then None
    else if s[n - 2] == CR then Some(s[..n - 2])
    else Some(s[..n - 1])
  }

  /** Length of the input up to and with the first line feed. */
  function LineLength(input: seq<byte>): (n: nat)
    ensures n <= |input| && (input != [] ==> n > 0)
  {
    if input == [] then 0 else if input[0] == LF then 1 else 1 + LineLength(input[1..])
  }

  /** A line and the input after it. */
  datatype Got = Got(text: seq<byte>, rest: seq<byte>)

  function ReadLine(input: seq<byte>): (g: Option<Got>)
    ensures g.Some? ==> |g.value.rest| < |input|
  {
    var n := LineLength(input);
    match Chop(Unescape(input[..n]))
    case None => None
    case Some(t) => Some(Got(t, input[n..]))
  }

  predicate IsDigit(b: byte) {
    48 <= b <= 57
  }

  predicate HasCode(t: seq<byte>, mark: byte) {
    |t| >= 4 && IsDigit(t[0]) && IsDigit(t[1]) && IsDigit(t[2]) && t[3] == mark
  }

  /** Read lines up to the end of a reply; multi if a line with a dash came before. */
  function ReadReply(input: seq<byte>, multi: bool): Option<Got>
    decreases |input|
  {
    match ReadLine(input)
    case None => None
    case Some(Got(t, rest)) =>
      if HasCode(t, SPACE) || !(multi || HasCode(t, DASH)) then Some(Got(t, rest)) else ReadReply(rest, true)
  }

  // ----- the client -----

  /** The bytes of a C string: those before the first NUL. */
  function CString(s: seq<byte>): (t: seq<byte>)
    requires 0 in s
    ensures 0 !in t && |t| < |s| && t == s[..|t|] && s[|t|] == 0
  {
    if s[0] == NUL then [] else [s[0]] + CString(s[1..])
  }

  lemma EscapeNext(s: seq<byte>, i: nat)
    requires i < |s|
    ensures Escape(s[..i + 1]) == Escape(s[..i]) + if s[i] == IAC then [IAC, IAC] else [s[i]]
  {
    assert s[..i + 1] == s[..i] + [s[i]];
    EscapeConcat(s[..i], [s[i]]);
    EscapeOne(s[i]);
  }

  lemma EscapeOne(b: byte)
    ensures Escape([b]) == if b == IAC then [IAC, IAC] else [b]
  {
    assert [b][1..] == [];
  }

  /** In-place unescaping with a read and a write position. */
  method UnescapeInPlace(p: array<byte>) returns (w: nat)
    modifies p
    ensures w <= p.Length && p[..w] == Unescape(old(p[..]))
  {
    ghost var was := p[..];
    var q := 0;
    w := 0;
    assert was[0..] == was;
    while q != p.Length
      invariant w <= q <= p.Length && forall k :: q <= k < p.Length ==> p[k] == was[k]
      invariant p[..w] + Unescape(was[q..]) == Unescape(was)
      decreases p.Length - q
    {
      UnescapeAt(was, q);
      ghost var done := p[..w];
      if p[q] == IAC && q != p.Length - 1 {
        q := q + 1;
      }
      p[w] := p[q];
      AppendOne(done, was[q], Unescape(was[q + 1..]));
      assert p[..w + 1] == done + [was[q]];
      w, q := w + 1, q + 1;
    }
  }

  lemma UnescapeAt(s: seq<byte>, q: nat)
    requires q < |s|
    ensures Unescape(s[q..]) == if s[q] == IAC && q != |s| - 1 then [s[q + 1]] + Unescape(s[q + 2..])
                                else [s[q]] + Unescape(s[q + 1..])
  {
    assert s[q..][1..] == s[q + 1..];
    assert q < |s| - 1 ==> s[q..][2..] == s[q + 2..];
  }

  lemma AppendOne(a: seq<byte>, b: byte, c: seq<byte>)
    ensures a + ([b] + c) == a + [b] + c
  {
  }

  class Connection {
    /** Bytes that the peer has sent and the client has not read. */
    var input: seq<byte>
    /** Bytes that the client has sent. */
    var output: seq<byte>
    /** The line last read, with a NUL after it. */
    var line: seq<byte>

    constructor (received: seq<byte>)
      ensures input == received && output == [] && line == []
    {
      input, output, line := received, [], [];
    }

    /** ftplib_write_escaped */
    method WriteEscaped(s: seq<byte>)
      requires 0 in s
      modifies this`output
      ensures output == old(output) + Escape(CString(s))
    {
      var i := 0;
      ghost var text := CString(s);
      assert forall k :: 0 <= k < |text| ==> text[k] != NUL;
      while s[i] != NUL
        invariant i <= |text| && output == old(output) + Escape(text[..i])
        decreases |text| - i
      {
        EscapeNext(text, i);
        if s[i] == IAC {
          output := output + [s[i]];
        }
        output := output + [s[i]];
        i := i + 1;
      }
      assert text[..i] == text;
    }

    /** ftplib_write_cmd_s */
    method WriteCommand(s: seq<byte>)
      requires 0 in s
      modifies this`output
      ensures output == old(output) + EncodeLine(CString(s))
    {
      WriteEscaped(s);
      output := output + [CR, LF];
    }

    /** ftplib_write_cmd_ss: the same as one command made of both strings */
    method WriteCommand2(s: seq<byte>, t: seq<byte>)
      requires 0 in s && 0 in t
      modifies this`output
      ensures output == old(output) + EncodeLine(CString(s) + CString(t))
    {
      WriteEscaped(s);
      WriteEscaped(t);
      EscapeConcat(CString(s), CString(t));
      output := output + [CR, LF];
    }

    /** buffer_getln */
    method GetLine() returns (raw: seq<byte>)
      modifies this`input
      ensures var n := LineLength(old(input)); raw == old(input)[..n] && input == old(input)[n..]
    {
      var i := 0;
      while i < |input| && input[i] != LF
        invariant i <= |input| && LineLength(input) == i + LineLength(input[i..])
      {
        assert input[i..][1..] == input[i + 1..];
        i := i + 1;
      }
      if i < |input| {
        i := i + 1;
      }
      raw := input[..i];
      input := input[i..];
    }

    /** ftplib_read_oneline: the line is consumed in any case; its text is kept if it is complete. */
    method ReadOneLine() returns (ok: bool)
      modifies this`input, this`line
      ensures input == old(input)[LineLength(old(input))..]
      ensures ok <==> ReadLine(old(input)).Some?
      ensures ok ==> line == ReadLine(old(input)).value.text + [NUL]
    {
      var raw := GetLine();
      line := raw;
      if |raw| == 0 {
        return false;
      }
      var p := new byte[|raw|](i requires 0 <= i < |raw| => raw[i]);
      assert p[..] == raw;
      var l := UnescapeInPlace(p);
      line := p[..];
      ok := l >= 2 && p[l - 1] == LF;
      if ok {
        l := l - 1;
        if p[l - 1] == CR {
          l := l - 1;
        }
        line := p[..l] + [NUL];
      }
    }

    /** ftplib_read */
    method Read() returns (ok: bool)
      modifies this`input, this`line
      ensures ok <==> ReadReply(old(input), false).Some?
      ensures ok ==> var g := ReadReply(old(input), false).value; line == g.text + [NUL] && input == g.rest
    {
      var multiline := false;
      line := [NUL];
      while true
        invariant ReadReply(old(input), false) == ReadReply(input, multiline)
        decreases |input|
      {
        ok := ReadOneLine();
        if !ok {
          return;
        }
        if HasCode(line, SPACE) {
          return;
        }
        if HasCode(line, DASH) {
          multiline := true;
        }
        if !multiline {
          return;
        }
      }
    }
  }

  // ----- writing and reading a line -----

  function EncodeLine(s: seq<byte>): seq<byte> {
    Escape(s) + [CR, LF]
  }

  lemma {:induction false} EscapeConcat(a: seq<byte>, b: seq<byte>)
    ensures Escape(a + b) == Escape(a) + Escape(b)
  {
    if a == [] {
      assert a + b == b;
    } else {
      assert (a + b)[1..] == a[1..] + b;
      EscapeConcat(a[1..], b);
    }
  }

  lemma FirstOut(s: seq<byte>, t: seq<byte>)
    requires s != []
    ensures s + t == [s[0]] + (s[1..] + t)
  {
  }

  lemma EscapeFirst(s: seq<byte>, t: seq<byte>)
    requires s != []
    ensures Escape(s) + t == Escape([s[0]]) + (Escape(s[1..]) + t)
  {
    EscapeOne(s[0]);
    assert Escape(s) == Escape([s[0]]) + Escape(s[1..]);
  }

  lemma UnescapeFirst(b: byte, rest: seq<byte>)
    ensures Unescape(Escape([b]) + rest) == [b] + Unescape(rest)
  {
    var x := Escape([b]) + rest;
    EscapeOne(b);
    if b == IAC {
      assert x[2..] == rest;
    } else {
      assert x[1..] == rest;
    }
  }

  lemma {:induction false} UnescapeEscape(s: seq<byte>, t: seq<byte>)
    ensures Unescape(Escape(s) + t) == s + Unescape(t)
  {
    if s == [] {
      assert Escape(s) + t == t && s + Unescape(t) == Unescape(t);
    } else {
      var rest := Escape(s[1..]) + t;
      UnescapeEscape(s[1..], t);
      UnescapeFirst(s[0], rest);
      EscapeFirst(s, t);
      FirstOut(s, Unescape(t));
    }
  }

  /** Escaping neither adds nor removes a line feed before the first one. */
  lemma {:induction false} LineOfEscaped(s: seq<byte>, t: seq<byte>)
    requires LF !in s
    ensures LineLength(Escape(s) + [LF] + t) == |Escape(s)| + 1
  {
    var x := Escape(s) + [LF] + t;
    if s != [] {
      var rest := Escape(s[1..]) + [LF] + t;
      LineOfEscaped(s[1..], t);
      if s[0] == IAC {
        assert x == [IAC, IAC] + rest && x[1..] == [IAC] + rest && x[1..][1..] == rest;
      } else {
        assert x == [s[0]] + rest && x[1..] == rest;
      }
    }
  }

  lemma ReadToFeed(s: seq<byte>, t: seq<byte>)
    requires LF !in s
    ensures var x := Escape(s) + [LF] + t;
            ReadLine(x) == match Chop(s + [LF]) case None => None case Some(u) => Some(Got(u, t))
  {
    var x, n := Escape(s) + [LF] + t, |Escape(s)| + 1;
    LineOfEscaped(s, t);
    UnescapeEscape(s, [LF]);
    assert Unescape([LF]) == [LF] + Unescape([LF][1..]) == [LF];
    assert x[..n] == Escape(s) + [LF] && x[n..] == t;
  }

  /** Reading undoes writing, whatever follows. */
  lemma ReadWritten(s: seq<byte>, t: seq<byte>)
    requires LF !in s
    ensures ReadLine(EncodeLine(s) + t) == Some(Got(s, t))
  {
    EscapeConcat(s, [CR]);
    assert Escape([CR]) == [CR] + Escape([CR][1..]);
    assert EncodeLine(s) + t == Escape(s + [CR]) + [LF] + t;
    ReadToFeed(s + [CR], t);
    var u := s + [CR] + [LF];
    assert u[..|u| - 2] == s;
  }

  // ----- what the bytes on the wire are -----

  lemma {:induction false} EscapePlain(s: seq<byte>)
    requires 255 !in s
    ensures Escape(s) == s && Unescape(s) == s
  {
    if s != [] {
      EscapePlain(s[1..]);
      assert s == [s[0]] + s[1..];
    }
  }

  /** Escaping doubles every byte 255 and changes nothing else; a line ends with 13 and 10. */
  lemma EscapeDoubles(a: seq<byte>, b: seq<byte>)
    requires 255 !in a
    ensures Escape(a) == a && Escape(a + [255] + b) == a + [255, 255] + Escape(b)
    ensures EncodeLine(a) == a + [13, 10]
  {
    EscapePlain(a);
    EscapeConcat(a + [255], b);
    EscapeConcat(a, [255]);
    EscapeOne(255);
  }

  lemma {:induction false} UnescapePlain(a: seq<byte>, b: seq<byte>)
    requires 255 !in a
    ensures Unescape(a + b) == a + Unescape(b)
  {
    if a == [] {
      assert a + b == b && a + Unescape(b) == Unescape(b);
    } else {
      assert (a + b)[1..] == a[1..] + b;
      UnescapePlain(a[1..], b);
      FirstOut(a, Unescape(b));
    }
  }

  /** Unescaping drops the first byte 255, unless it is the last byte, and keeps the byte after it. */
  lemma UnescapeDrops(a: seq<byte>, c: byte, b: seq<byte>)
    requires 255 !in a
    ensures Unescape(a + [255]) == a + [255]
    ensures Unescape(a + ([255, c] + b)) == a + ([c] + Unescape(b))
  {
    UnescapePlain(a, [255]);
    assert Unescape([255]) == [255] + Unescape([255][1..]) == [255];
    UnescapePlain(a, [255, c] + b);
    assert ([255, c] + b)[2..] == b;
  }

  /** A line is what precedes the first byte 10, less a byte 13 before that; it must not be empty altogether. */
  lemma LineIs(s: seq<byte>, t: seq<byte>)
    requires 10 !in s && 255 !in s
    ensures ReadLine(s + [10] + t) == if s == [] then None
            else if s[|s| - 1] == 13 then Some(Got(s[..|s| - 1], t)) else Some(Got(s, t))
    ensures ReadLine(s) == None
  {
    EscapePlain(s);
    ReadToFeed(s, t);
    if s != [] {
      var u := s + [10];
      assert u[..|u| - 1] == s && u[..|u| - 2] == s[..|s| - 1] && u[|u| - 2] == s[|s| - 1];
    }
    NoFeed(s);
    assert s[..|s|] == s;
  }

  lemma {:induction false} NoFeed(s: seq<byte>)
    requires 10 !in s
    ensures LineLength(s) == |s|
  {
    if s != [] {
      NoFeed(s[1..]);
    }
  }

  lemma FirstFeed(s: seq<byte>) returns (a: seq<byte>, b: seq<byte>)
    requires LF in s
    ensures s == a + [LF] + b && LF !in a
  {
    if s[0] == LF {
      a, b := [], s[1..];
    } else {
      a, b := FirstFeed(s[1..]);
      a := [s[0]] + a;
    }
  }

  /** Reading undoes writing exactly for the strings without a line feed. */
  lemma ReadUndoesWriteIff(s: seq<byte>, t: seq<byte>)
    ensures ReadLine(EncodeLine(s) + t) == Some(Got(s, t)) <==> 10 !in s
  {
    if LF in s {
      var a, b := FirstFeed(s);
      EscapeConcat(a + [LF], b);
      EscapeConcat(a, [LF]);
      assert Escape([LF]) == [LF] + Escape([LF][1..]);
      var rest := Escape(b) + [CR, LF] + t;
      assert EncodeLine(s) + t == Escape(a) + [LF] + rest;
      ReadToFeed(a, rest);
    } else {
      ReadWritten(s, t);
    }
  }

  // ----- replies -----

  /** A reply of one line, or one whose first line has a dash after the code. */
  datatype Reply = Single(line: seq<byte>) | Multi(first: seq<byte>, inner: seq<seq<byte>>, last: seq<byte>)

  type Digit = d: nat | d <= 9

  /** Three digits and a mark. */
  function Code(a: Digit, b: Digit, c: Digit, mark: byte): seq<byte> {
    [48 + a, 48 + b, 48 + c, mark]
  }

  /** The text begins with three digits and the mark. */
  ghost predicate Coded(t: seq<byte>, mark: byte) {
    exists a: Digit, b: Digit, c: Digit :: |t| >= 4 && t[..4] == Code(a, b, c, mark)
  }

  lemma CodedIff(t: seq<byte>, mark: byte)
    ensures Coded(t, mark) <==> HasCode(t, mark)
  {
    if HasCode(t, mark) {
      assert t[..4] == Code(t[0] as int - 48, t[1] as int - 48, t[2] as int - 48, mark);
    }
    if Coded(t, mark) {
      assert t[0] == t[..4][0] && t[1] == t[..4][1] && t[2] == t[..4][2] && t[3] == t[..4][3];
    }
  }

  /** Lines are lines; a reply of several lines begins with a code and a dash and ends with a code and a space. */
  ghost predicate WellFormed(r: Reply) {
    match r
    case Single(s) => 10 !in s && !Coded(s, 45)
    case Multi(first, inner, last) =>
      && 10 !in first && Coded(first, 45) && 10 !in last && Coded(last, 32)
      && forall i :: 0 <= i < |inner| ==> 10 !in inner[i]
  }

  /** No inner line begins with a code and a space. */
  ghost predicate Unmistakable(r: Reply) {
    r.Multi? ==> forall i :: 0 <= i < |r.inner| ==> !Coded(r.inner[i], 32)
  }

  function LastLine(r: Reply): seq<byte> {
    if r.Single? then r.line else r.last
  }

  /** Lines on the wire, followed by other bytes. */
  function Wire(lines: seq<seq<byte>>, rest: seq<byte>): seq<byte> {
    if lines == [] then rest else EncodeLine(lines[0]) + Wire(lines[1..], rest)
  }

  function ReplyWire(r: Reply, rest: seq<byte>): seq<byte> {
    match r
    case Single(s) => EncodeLine(s) + rest
    case Multi(first, inner, last) => EncodeLine(first) + Wire(inner, EncodeLine(last) + rest)
  }

  /** Inside a reply of several lines, reading ends at the first line that looks like a last one. */
  lemma {:induction false} ReadInner(inner: seq<seq<byte>>, last: seq<byte>, rest: seq<byte>)
    requires forall i :: 0 <= i < |inner| ==> LF !in inner[i]
    requires LF !in last && HasCode(last, SPACE)
    ensures var g := ReadReply(Wire(inner, EncodeLine(last) + rest), true);
            && g.Some?
            && ((forall i :: 0 <= i < |inner| ==> !HasCode(inner[i], SPACE)) ==> g == Some(Got(last, rest)))
            && ((exists i :: 0 <= i < |inner| && HasCode(inner[i], SPACE)) ==> |g.value.rest| > |rest|)
  {
    if inner == [] {
      ReadWritten(last, rest);
    } else {
      var more := Wire(inner[1..], EncodeLine(last) + rest);
      ReadWritten(inner[0], more);
      WireLonger(inner[1..], EncodeLine(last) + rest);
      if !HasCode(inner[0], SPACE) {
        ReadInner(inner[1..], last, rest);
        assert forall i :: 0 < i < |inner| ==> inner[i] == inner[1..][i - 1];
      }
    }
  }

  lemma {:induction false} WireLonger(lines: seq<seq<byte>>, rest: seq<byte>)
    ensures |Wire(lines, rest)| >= |rest|
  {
    if lines != [] {
      WireLonger(lines[1..], rest);
    }
  }

  /** One read consumes exactly one reply if and only if no inner line begins with a code and a space. */
  lemma OneReplyIff(r: Reply, rest: seq<byte>)
    requires WellFormed(r)
    ensures ReadReply(ReplyWire(r, rest), false) == Some(Got(LastLine(r), rest)) <==> Unmistakable(r)
    ensures !Unmistakable(r) ==> var g := ReadReply(ReplyWire(r, rest), false); g.Some? && |g.value.rest| > |rest|
  {
    match r
    case Single(s) =>
      CodedIff(s, DASH);
      ReadWritten(s, rest);
    case Multi(first, inner, last) =>
      CodedIff(first, DASH);
      CodedIff(last, SPACE);
      InnerCodes(inner);
      ReadWritten(first, Wire(inner, EncodeLine(last) + rest));
      ReadInner(inner, last, rest);
  }

  lemma InnerCodes(inner: seq<seq<byte>>)
    ensures forall i :: 0 <= i < |inner| ==> (Coded(inner[i], SPACE) <==> HasCode(inner[i], SPACE))
  {
    forall i | 0 <= i < |inner|
      ensures Coded(inner[i], SPACE) <==> HasCode(inner[i], SPACE)
    {
      CodedIff(inner[i], SPACE);
    }
  }

  // ----- whole conversations -----

  function Conversation(rs: seq<Reply>, rest: seq<byte>): seq<byte> {
    if rs == [] then rest else ReplyWire(rs[0], Conversation(rs[1..], rest))
  }

  /** The last lines of n replies read one after the other, and the input left. */
  function ReadReplies(input: seq<byte>, n: nat): Option<(seq<seq<byte>>, seq<byte>)>
    decreases n
  {
    if n == 0 then Some(([], input))
    else
      match ReadReply(input, false)
      case None => None
      case Some(Got(t, rest)) =>
        match ReadReplies(rest, n - 1)
        case None => None
        case Some((ts, left)) => Some(([t] + ts, left))
  }

  function LastLines(rs: seq<Reply>): seq<seq<byte>> {
    if rs == [] then [] else [LastLine(rs[0])] + LastLines(rs[1..])
  }

  /** Over any sequence of replies the reads stay in step: each consumes one reply and returns its last line. */
  lemma {:induction false} ReadsStayInStep(rs: seq<Reply>, rest: seq<byte>)
    requires forall i :: 0 <= i < |rs| ==> WellFormed(rs[i]) && Unmistakable(rs[i])
    ensures ReadReplies(Conversation(rs, rest), |rs|) == Some((LastLines(rs), rest))
  {
    if rs != [] {
      OneReplyIff(rs[0], Conversation(rs[1..], rest));
      ReadsStayInStep(rs[1..], rest);
    }
  }
}

/** Parsing the fact lines of machine-readable FTP listings (sections 7.1 and 7.2 of RFC 3659). */
module FtpFacts {
  import opened Wrappers

  datatype Fact = Fact(name: string, value: string)

  /** The fields of a modify fact, as numbers. */
  datatype Stamp = Stamp(year: nat, month: nat, day: nat, hour: nat, minute: nat, second: nat)

  /** What the facts say. size and time are indeterminate until sized and timed hold. */
  datatype Info = Info(size: nat, sized: bool, time: Stamp, timed: bool, retr: bool, cwd: bool, id: Option<string>)

  datatype Entry = Entry(name: string, info: Info, broken: bool)

  const UINT64 := 0x1_0000_0000_0000_0000

  // ----- numbers -----

  predicate IsDigit(c: char) {
    '0' <= c <= '9'
  }

  predicate AllDigits(s: string) {
    forall i :: 0 <= i < |s| ==> IsDigit(s[i])
  }

  function Number(s: string): nat
    requires AllDigits(s)
  {
    if s == "" then 0 else 10 * Number(s[..|s| - 1]) + (s[|s| - 1] as int - '0' as int)
  }

  /** Length of the longest prefix of digits. */
  function DigitsLength(s: string): (n: nat)
    ensures n <= |s| && AllDigits(s[..n]) && (n < |s| ==> !IsDigit(s[n]))
  {
    if s == "" || !IsDigit(s[0]) then 0
    else
      var n := 1 + DigitsLength(s[1..]);
      assert s[..n] == [s[0]] + s[1..][..n - 1];
      n
  }

  lemma {:induction false} DigitsUnique(s: string, n: nat)
    requires n <= |s| && AllDigits(s[..n]) && (n < |s| ==> !IsDigit(s[n]))
    ensures DigitsLength(s) == n
  {
    if n > 0 {
      assert IsDigit(s[..n][0]) && s[1..][..n - 1] == s[..n][1..];
      DigitsUnique(s[1..], n - 1);
    }
  }

  /** The number that leads a size value, in 64 bits. */
  function LeadingNumber(s: string): nat {
    Number(s[..DigitsLength(s)]) % UINT64
  }

  lemma TimesTenMod(u: nat, v: nat, d: nat)
    requires v == u % UINT64
    ensures (v * 10 + d) % UINT64 == (10 * u + d) % UINT64
  {
    var q := u / UINT64;
    assert 10 * u + d == (v * 10 + d) + UINT64 * (10 * q);
    ModMultiple(v * 10 + d, 10 * q);
  }

  lemma {:induction false} ModMultiple(a: nat, q: nat)
    ensures (a + UINT64 * q) % UINT64 == a % UINT64
  {
    if q > 0 {
      ModMultiple(a, q - 1);
    }
  }

  /** get_uint64 */
  method GetUint64(p: string) returns (n: nat, u: nat)
    ensures n == DigitsLength(p) && u == LeadingNumber(p)
  {
    n, u := 0, 0;
    while n < |p| && IsDigit(p[n])
      invariant n <= |p| && AllDigits(p[..n]) && u == Number(p[..n]) % UINT64
    {
      assert p[..n + 1][..n] == p[..n];
      TimesTenMod(Number(p[..n]), u, p[n] as int - '0' as int);
      u := (u * 10 + (p[n] as int - '0' as int)) % UINT64;
      n := n + 1;
    }
    DigitsUnique(p, n);
  }

  function Min(a: nat, b: nat): nat {
    if a < b then a else b
  }

  /** The number in columns lo to hi, as far as the first i characters tell. */
  function Column(p: string, lo: nat, hi: nat, i: nat): nat
    requires lo <= hi && i <= |p| && AllDigits(p[..i])
  {
    assert AllDigits(p[Min(lo, i)..Min(hi, i)]) by {
      assert p[Min(lo, i)..Min(hi, i)] == p[..i][Min(lo, i)..Min(hi, i)];
    }
    Number(p[Min(lo, i)..Min(hi, i)])
  }

  lemma ColumnStep(p: string, lo: nat, hi: nat, i: nat)
    requires lo <= hi && i < |p| && AllDigits(p[..i + 1])
    ensures AllDigits(p[..i])
    ensures Column(p, lo, hi, i + 1) ==
            if lo <= i < hi then 10 * Column(p, lo, hi, i) + (p[i] as int - '0' as int) else Column(p, lo, hi, i)
  {
    assert p[..i] == p[..i + 1][..i];
    if lo <= i < hi {
      var s := p[lo..i + 1];
      assert s[..|s| - 1] == p[lo..i];
      assert Column(p, lo, hi, i + 1) == Number(s) && Column(p, lo, hi, i) == Number(p[lo..i]);
    } else if i < lo {
      assert p[Min(lo, i + 1)..Min(hi, i + 1)] == "" == p[Min(lo, i)..Min(hi, i)];
    }
  }

  /** The columns after one more character: one of them takes it in, or none from column 14 on. */
  lemma StampStep(p: string, i: nat)
    requires i < |p| && AllDigits(p[..i + 1])
    ensures AllDigits(p[..i])
    ensures var s, t, u := StampAt(p, i), StampAt(p, i + 1), p[i] as int - '0' as int;
            t == if i < 4 then s.(year := s.year * 10 + u)
                 else if i < 6 then s.(month := s.month * 10 + u)
                 else if i < 8 then s.(day := s.day * 10 + u)
                 else if i < 10 then s.(hour := s.hour * 10 + u)
                 else if i < 12 then s.(minute := s.minute * 10 + u)
                 else if i < 14 then s.(second := s.second * 10 + u)
                 else s
  {
    ColumnStep(p, 0, 4, i);
    ColumnStep(p, 4, 6, i);
    ColumnStep(p, 6, 8, i);
    ColumnStep(p, 8, 10, i);
    ColumnStep(p, 10, 12, i);
    ColumnStep(p, 12, 14, i);
  }

  function StampAt(p: string, i: nat): Stamp
    requires i <= |p| && AllDigits(p[..i])
  {
    Stamp(Column(p, 0, 4, i), Column(p, 4, 6, i), Column(p, 6, 8, i), Column(p, 8, 10, i), Column(p, 10, 12, i),
        Column(p, 12, 14, i))
  }

  /** A modify value is read if it is all digits and has the fourteen of a date and time. */
  function Modified(p: string): Option<Stamp> {
    if |p| >= 14 && AllDigits(p) then
      assert p[..|p|] == p;
      Some(Stamp(Number(p[0..4]), Number(p[4..6]), Number(p[6..8]), Number(p[8..10]), Number(p[10..12]),
          Number(p[12..14])))
    else None
  }

  lemma StampDone(p: string)
    requires |p| >= 14 && AllDigits(p[..|p|])
    ensures Modified(p) == Some(StampAt(p, |p|))
  {
    assert p[..|p|] == p;
  }

  /** getmod, up to the conversion to TAI */
  method GetMod(p: string) returns (t: Option<Stamp>)
    ensures t == Modified(p)
  {
    if |p| < 14 {
      return None;
    }
    var s := Stamp(0, 0, 0, 0, 0, 0);
    for i := 0 to |p|
      invariant AllDigits(p[..i]) && s == StampAt(p, i)
    {
      if !IsDigit(p[i]) {
        return None;
      }
      var u := p[i] as int - '0' as int;
      StampStep(p, i);
      if i < 4 {
        s := s.(year := s.year * 10 + u);
      } else if i < 6 {
        s := s.(month := s.month * 10 + u);
      } else if i < 8 {
        s := s.(day := s.day * 10 + u);
      } else if i < 10 {
        s := s.(hour := s.hour * 10 + u);
      } else if i < 12 {
        s := s.(minute := s.minute * 10 + u);
      } else if i < 14 {
        s := s.(second := s.second * 10 + u);
      }
    }
    StampDone(p);
    t := Some(s);
  }

  // ----- numbers as they are printed -----

  /** n in decimal, with at least the given number of digits. */
  function Decimal(n: nat, width: nat): (s: string)
    ensures |s| >= width
    decreases n, width
  {
    if n < 10 && width <= 1 then [('0' as int + n) as char]
    else Decimal(n / 10, if width > 0 then width - 1 else 0) + [('0' as int + n % 10) as char]
  }

  lemma {:induction false} DecimalRead(n: nat, width: nat)
    ensures AllDigits(Decimal(n, width)) && Number(Decimal(n, width)) == n
    decreases n, width
  {
    if n < 10 && width <= 1 {
      assert Decimal(n, width)[..0] == "";
    } else {
      var more := Decimal(n / 10, if width > 0 then width - 1 else 0);
      DecimalRead(n / 10, if width > 0 then width - 1 else 0);
      assert Decimal(n, width)[..|more|] == more;
    }
  }

  /** A printed size is read back modulo 2^64, whatever follows it. */
  lemma SizeOfDecimal(n: nat, width: nat, t: string)
    requires t == "" || !('0' <= t[0] <= '9')
    ensures LeadingNumber(Decimal(n, width) + t) == n % 18446744073709551616
  {
    var s := Decimal(n, width);
    DecimalRead(n, width);
    assert (s + t)[..|s|] == s && (t != "" ==> (s + t)[|s|] == t[0]);
    DigitsUnique(s + t, |s|);
  }

  /** A date and time as it is printed: four digits of the year, and two of everything else. */
  function PrintedTime(s: Stamp): string {
    Decimal(s.year, 4) + Decimal(s.month, 2) + Decimal(s.day, 2)
    + Decimal(s.hour, 2) + Decimal(s.minute, 2) + Decimal(s.second, 2)
  }

  function PowerOfTen(n: nat): nat {
    if n == 0 then 1 else 10 * PowerOfTen(n - 1)
  }

  lemma {:induction false} DecimalWidth(n: nat, width: nat)
    requires 1 <= width && n < PowerOfTen(width)
    ensures |Decimal(n, width)| == width
  {
    if width > 1 {
      DecimalWidth(n / 10, width - 1);
    }
  }

  /** Printed times are read back, whatever digits follow. */
  lemma TimeOfPrinted(s: Stamp, more: string)
    requires s.year < 10000 && s.month < 100 && s.day < 100 && s.hour < 100 && s.minute < 100 && s.second < 100
    requires forall i :: 0 <= i < |more| ==> '0' <= more[i] <= '9'
    ensures Modified(PrintedTime(s) + more) == Some(s)
  {
    FourDigits(s.year);
    TwoDigits(s.month);
    TwoDigits(s.day);
    TwoDigits(s.hour);
    TwoDigits(s.minute);
    TwoDigits(s.second);
    ColumnsRead(Decimal(s.year, 4), Decimal(s.month, 2), Decimal(s.day, 2), Decimal(s.hour, 2), Decimal(s.minute, 2),
                Decimal(s.second, 2), more);
  }

  lemma TwoDigits(n: nat)
    requires n < 100
    ensures var s := Decimal(n, 2); |s| == 2 && AllDigits(s) && Number(s) == n
  {
    assert PowerOfTen(2) == 100;
    DecimalRead(n, 2);
    DecimalWidth(n, 2);
  }

  lemma FourDigits(n: nat)
    requires n < 10000
    ensures var s := Decimal(n, 4); |s| == 4 && AllDigits(s) && Number(s) == n
  {
    assert PowerOfTen(2) == 100 && PowerOfTen(3) == 1000 && PowerOfTen(4) == 10000;
    DecimalRead(n, 4);
    DecimalWidth(n, 4);
  }

  lemma ColumnsRead(a: string, b: string, c: string, d: string, e: string, f: string, more: string)
    requires |a| == 4 && |b| == |c| == |d| == |e| == |f| == 2
    requires AllDigits(a) && AllDigits(b) && AllDigits(c) && AllDigits(d) && AllDigits(e) && AllDigits(f)
    requires AllDigits(more)
    ensures Modified(a + b + c + d + e + f + more)
         == Some(Stamp(Number(a), Number(b), Number(c), Number(d), Number(e), Number(f)))
  {
    DigitsSum(a, b);
    DigitsSum(a + b, c);
    DigitsSum(a + b + c, d);
    DigitsSum(a + b + c + d, e);
    DigitsSum(a + b + c + d + e, f);
    DigitsSum(a + b + c + d + e + f, more);
    Columns(a, b, c, d, e, f, more);
  }

  lemma DigitsSum(a: string, b: string)
    requires AllDigits(a) && AllDigits(b)
    ensures AllDigits(a + b)
  {
  }

  lemma Columns(a: string, b: string, c: string, d: string, e: string, f: string, more: string)
    requires |a| == 4 && |b| == |c| == |d| == |e| == |f| == 2
    ensures var p := a + b + c + d + e + f + more;
            p[0..4] == a && p[4..6] == b && p[6..8] == c && p[8..10] == d && p[10..12] == e && p[12..14] == f
  {
  }

  /** Nothing but digits is read as a time, and at least fourteen of them. */
  lemma TimeIff(p: string)
    ensures Modified(p).Some? <==> |p| >= 14 && forall i :: 0 <= i < |p| ==> '0' <= p[i] <= '9'
  {
  }

  // ----- words -----

  function Lower(c: char): char {
    if 'A' <= c <= 'Z' then (c as int + 32) as char else c
  }

  function Fold(s: string): (t: string)
    ensures |t| == |s|
  {
    if s == "" then "" else [Lower(s[0])] + Fold(s[1..])
  }

  /** case_startb: the len characters of x from p on begin with t, but for case. */
  predicate StartsAt(x: string, p: nat, len: nat, t: string)
    decreases |t|
  {
    t == "" || (len > 0 && p < |x| && Lower(x[p]) == t[0] && StartsAt(x, p + 1, len - 1, t[1..]))
  }

  predicate Starts(s: string, t: string) {
    |t| <= |s| && Fold(s[..|t|]) == t
  }

  /** May belong to the value of a fact, or to its name. */
  predicate Inner(c: char, name: bool) {
    c != ';' && c != ' ' && !(name && c == '=')
  }

  predicate Text(s: string, name: bool) {
    forall i :: 0 <= i < |s| ==> Inner(s[i], name)
  }

  /** A comparison that may look beyond a value stops at the delimiter. */
  lemma {:induction false} StartsInValue(x: string, p: nat, k: nat, len: nat, t: string)
    requires p <= k < |x| && !Inner(x[k], false) && Text(t, false) && |t| <= len
    ensures StartsAt(x, p, len, t) == Starts(x[p..k], t)
    decreases |t|
  {
    if t == "" {
      assert x[p..k][..0] == "";
    } else if p < k {
      assert Text(t[1..], false);
      StartsInValue(x, p + 1, k, len - 1, t[1..]);
      if |t| <= k - p {
        var s := x[p..k][..|t|];
        assert s[1..] == x[p + 1..k][..|t| - 1];
        assert t == [t[0]] + t[1..];
      }
    } else {
      assert Inner(t[0], false);
    }
  }

  lemma {:induction false} StartsWhole(x: string, p: nat, t: string)
    requires p + |t| <= |x|
    ensures StartsAt(x, p, |t|, t) == (Fold(x[p..p + |t|]) == t)
    decreases |t|
  {
    if t != "" {
      StartsWhole(x, p + 1, t[1..]);
      assert x[p..p + |t|][1..] == x[p + 1..p + |t|];
      assert t == [t[0]] + t[1..];
    }
  }

  // ----- what facts mean -----

  predicate Named(name: string, word: string) {
    Fold(name) == word
  }

  predicate SaysFile(value: string) {
    |value| == 4 && Starts(value, "file")
  }

  predicate SaysDir(value: string) {
    Starts(value, "dir") || Starts(value, "pdir") || Starts(value, "cdir")
  }

  function Learn(s: Info, f: Fact): Info {
    if Named(f.name, "size") then s.(size := LeadingNumber(f.value), sized := true)
    else if Named(f.name, "modify") then
      s.(time := if Modified(f.value).Some? then Modified(f.value).value else s.time, timed := true)
    else if Named(f.name, "type") then
      if SaysFile(f.value) then s.(retr := true)
      else if SaysDir(f.value) then s.(cwd := true)
      else s.(retr := true, cwd := true)
    else if Named(f.name, "unique") then s.(id := Some(f.value))
    else s
  }

  function LearnAll(s: Info, fs: seq<Fact>): Info
    decreases |fs|
  {
    if fs == [] then s else Learn(LearnAll(s, fs[..|fs| - 1]), fs[|fs| - 1])
  }

  // ----- the parser -----

  /** Length of the longest prefix that can belong to a fact's name or value. */
  function End(x: string, name: bool): (e: nat)
    ensures e <= |x|
  {
    if |x| == 0 || !Inner(x[0], name) then 0 else 1 + End(x[1..], name)
  }

  lemma {:induction false} EndStops(x: string, name: bool)
    ensures var e := End(x, name); Text(x[..e], name) && (e < |x| ==> !Inner(x[e], name))
  {
    if x != "" && Inner(x[0], name) {
      EndStops(x[1..], name);
      var e := End(x[1..], name);
      assert x[..e + 1] == [x[0]] + x[1..][..e];
    }
  }

  lemma {:induction false} EndOfText(a: string, b: string, name: bool)
    requires Text(a, name) && b != "" && !Inner(b[0], name)
    ensures End(a + b, name) == |a|
  {
    if a != "" {
      assert (a + b)[1..] == a[1..] + b;
      EndOfText(a[1..], b, name);
    }
  }

  /** A line's facts, whether the last semicolon is missing, and the pathname. */
  datatype Parts = Parts(facts: seq<Fact>, broken: bool, path: string)

  /** The first fact of a text, and the text from the semicolon or space after it on. */
  datatype Head = NoHead | Head(fact: Fact, rest: string)

  function HeadOf(x: string): (h: Head)
    ensures h.Head? ==> h.rest != "" && |h.rest| < |x|
  {
    var j := End(x, true);
    if j == |x| || x[j] != '=' then NoHead else HeadTail(x[..j], x[j + 1..])
  }

  /** The rest of a fact, from behind the equals sign on. */
  function HeadTail(name: string, y: string): (h: Head)
    ensures h.Head? ==> h.rest != "" && |h.rest| <= |y|
  {
    var k := End(y, false);
    if k == |y| then NoHead else Head(Fact(name, y[..k]), y[k..])
  }

  /** The parts of a line that continues with x after the facts fs. */
  function Split(x: string, fs: seq<Fact>): Option<Parts>
    decreases |x|
  {
    if |x| == 0 then None
    else if x[0] == ' ' then Some(Parts(fs, false, x[1..]))
    else
      match HeadOf(x)
      case NoHead => None
      case Head(f, rest) => if rest[0] == ' ' then Some(Parts(fs + [f], true, rest[1..]))
          else Split(rest[1..], fs + [f])
  }

  /** Nothing learnt; the size and time hold whatever the memory held. */
  function Start(anySize: nat, anyTime: Stamp): Info {
    Info(anySize, false, anyTime, false, false, false, None)
  }

  /** The part of an answer that is parsed: an MLST line has a character before its facts. */
  function Body(x: string, isMlst: bool): string {
    if isMlst && |x| > 1 then x[1..] else x
  }

  function Report(p: Option<Parts>, s: Info): Option<Entry> {
    match p
    case None => None
    case Some(Parts(fs, broken, path)) => if path == "" then None else Some(Entry(path, LearnAll(s, fs), broken))
  }

  function Parse(x: string, isMlst: bool, s: Info): Option<Entry> {
    var line := Body(x, isMlst);
    if |line| < 2 then None else Report(Split(line, []), s)
  }

  method LearnFact(x: string, i: nat, j: nat, k: nat, s: Info) returns (t: Info)
    requires i <= j < k < |x| && !Inner(x[k], false)
    ensures t == Learn(s, Fact(x[i..j], x[j + 1..k]))
  {
    t := s;
    if j - i == 4 && StartsAt(x, i, 4, "size") {
      StartsWhole(x, i, "size");
      var n, u := GetUint64(x[j + 1..k]);
      t := t.(size := u, sized := true);
    } else if j - i == 6 && StartsAt(x, i, 6, "modify") {
      StartsWhole(x, i, "modify");
      var m := GetMod(x[j + 1..k]);
      t := t.(time := if m.Some? then m.value else t.time, timed := true);
    } else if j - i == 4 && StartsAt(x, i, 4, "type") {
      StartsWhole(x, i, "type");
      t := LearnType(x, j + 1, k, s);
    } else if j - i == 6 && StartsAt(x, i, 6, "unique") {
      StartsWhole(x, i, "unique");
      t := t.(id := Some(x[j + 1..k]));
    }
    NotNamed(x, i, j, "size");
    NotNamed(x, i, j, "modify");
    NotNamed(x, i, j, "type");
    NotNamed(x, i, j, "unique");
  }

  lemma NotNamed(x: string, i: nat, j: nat, word: string)
    requires i <= j <= |x|
    ensures Named(x[i..j], word) <==> j - i == |word| && StartsAt(x, i, |word|, word)
  {
    if j - i == |word| {
      StartsWhole(x, i, word);
    }
  }

  method LearnType(x: string, p: nat, k: nat, s: Info) returns (t: Info)
    requires p <= k < |x| && !Inner(x[k], false)
    ensures t == if SaysFile(x[p..k]) then s.(retr := true)
                 else if SaysDir(x[p..k]) then s.(cwd := true)
                 else s.(retr := true, cwd := true)
  {
    StartsInValue(x, p, k, 4, "file");
    StartsInValue(x, p, k, 3, "dir");
    StartsInValue(x, p, k, 4, "pdir");
    StartsInValue(x, p, k, 4, "cdir");
    if k - p == 4 && StartsAt(x, p, 4, "file") {
      t := s.(retr := true);
    } else if StartsAt(x, p, 3, "dir") {
      t := s.(cwd := true);
    } else if StartsAt(x, p, 4, "pdir") {
      t := s.(cwd := true);
    } else if StartsAt(x, p, 4, "cdir") {
      t := s.(cwd := true);
    } else {
      t := s.(retr := true, cwd := true);
    }
  }

  /** ftpparse_mlsx */
  method ParseMlsx(x: string, isMlst: bool, anySize: nat, anyTime: Stamp) returns (r: Option<Entry>)
    ensures r == Parse(x, isMlst, Start(anySize, anyTime))
  {
    var line := x;
    if isMlst && |line| > 1 {
      line := line[1..];
    }
    if |line| < 2 {
      return None;
    }
    var i, s, broken, fs := ScanFacts(line, Start(anySize, anyTime));
    if i == |line| {
      return None;
    }
    r := TakePath(line, i + 1, s, broken, Start(anySize, anyTime), fs);
  }

  /** The scan has stopped at i: at the space before the pathname, or at the end for lack of one. */
  ghost predicate Stopped(p: Option<Parts>, line: string, i: nat, fs: seq<Fact>, broken: bool)
    requires i <= |line|
  {
    if i == |line| then p == None else p == Some(Parts(fs, broken, line[i + 1..]))
  }

  /** The loop of ftpparse_mlsx. */
  method ScanFacts(line: string, start: Info) returns (i: nat, s: Info, broken: bool, ghost fs: seq<Fact>)
    ensures i <= |line| && s == LearnAll(start, fs) && Stopped(Split(line, []), line, i, fs, broken)
  {
    i, s, broken, fs := 0, start, false, [];
    assert line[0..] == line;
    var done := false;
    while i < |line| && !done
      invariant i <= |line| && s == LearnAll(start, fs)
      invariant if done then Stopped(Split(line, []), line, i, fs, broken)
                else !broken && Split(line, []) == Split(line[i..], fs)
      decreases if done then 0 else 1 + |line| - i
    {
      i, s, broken, done, fs := Round(line, i, s, start, fs);
    }
  }

  /** One round of the loop. */
  method Round(line: string, i: nat, s: Info, ghost start: Info, ghost fs: seq<Fact>)
    returns (k: nat, t: Info, broken: bool, done: bool, ghost gs: seq<Fact>)
    requires i < |line| && s == LearnAll(start, fs)
    ensures k <= |line| && t == LearnAll(start, gs)
    ensures done ==> Stopped(Split(line[i..], fs), line, k, gs, broken)
    ensures !done ==> i < k && !broken && Split(line[i..], fs) == Split(line[k..], gs)
  {
    if line[i] == ' ' {
      SplitSpace(line, i, fs);
      return i, s, false, true, fs;
    }
    k, t, broken, done, gs := RoundFact(line, i, s, start, fs);
  }

  /** A round that has to find a fact. */
  method RoundFact(line: string, i: nat, s: Info, ghost start: Info, ghost fs: seq<Fact>)
    returns (k: nat, t: Info, broken: bool, done: bool, ghost gs: seq<Fact>)
    requires i < |line| && line[i] != ' ' && s == LearnAll(start, fs)
    ensures k <= |line| && t == LearnAll(start, gs)
    ensures done ==> Stopped(Split(line[i..], fs), line, k, gs, broken)
    ensures !done ==> i < k && !broken && Split(line[i..], fs) == Split(line[k..], gs)
  {
    ghost var f;
    k, t, f := TakeFact(line, i, s, fs);
    if k == |line| {
      return k, s, false, true, fs;
    }
    LearnStep(start, fs, f);
    gs := fs + [f];
    if line[k] == ' ' {
      return k, t, true, true, gs;
    }
    return k + 1, t, false, false, gs;
  }

  /** Scan a fact that starts at i and learn it. k is where it ends, or the length if there is no fact. */
  method TakeFact(line: string, i: nat, s: Info, ghost fs: seq<Fact>) returns (k: nat, t: Info, ghost f: Fact)
    requires i < |line| && line[i] != ' '
    ensures i < k <= |line|
    ensures k == |line| ==> Split(line[i..], fs) == None
    ensures k < |line| ==> t == Learn(s, f)
    ensures k < |line| && line[k] == ' ' ==> Split(line[i..], fs) == Some(Parts(fs + [f], true, line[k + 1..]))
    ensures k < |line| && line[k] != ' ' ==> Split(line[i..], fs) == Split(line[k + 1..], fs + [f])
  {
    var j;
    j, k := ScanFact(line, i);
    t, f := s, Fact(line[i..j], line[j..j]);
    if k < |line| {
      f := Fact(line[i..j], line[j + 1..k]);
      SplitStep(line, i, k, f, fs);
      t := LearnFact(line, i, j, k, s);
    }
  }

  /** The end of ftpparse_mlsx: the pathname is what follows. */
  method TakePath(line: string, i: nat, s: Info, broken: bool, ghost start: Info, ghost fs: seq<Fact>)
    returns (r: Option<Entry>)
    requires i <= |line| && s == LearnAll(start, fs)
    ensures r == Report(Some(Parts(fs, broken, line[i..])), start)
  {
    if i == |line| {
      return None;
    }
    r := Some(Entry(line[i..], s, broken));
  }

  lemma SplitSpace(line: string, i: nat, fs: seq<Fact>)
    requires i < |line| && line[i] == ' '
    ensures Split(line[i..], fs) == Some(Parts(fs, false, line[i + 1..]))
  {
    assert line[i..][1..] == line[i + 1..];
  }

  /** The two scans of a fact: where its equals sign and its end are. k is the length if there is no fact. */
  method ScanFact(line: string, i: nat) returns (j: nat, k: nat)
    requires i < |line|
    ensures i <= j <= |line| && i < k <= |line| && (k < |line| ==> j < k && !Inner(line[k], false))
    ensures HeadOf(line[i..]) == if k == |line| then NoHead else Head(Fact(line[i..j], line[j + 1..k]), line[k..])
  {
    j := ScanName(line, i);
    if j == |line| || line[j] == ' ' || line[j] == ';' {
      return j, |line|;
    }
    k := ScanValue(line, j);
    HeadBetween(line, i, j, k);
  }

  lemma LearnStep(s: Info, fs: seq<Fact>, f: Fact)
    ensures LearnAll(s, fs + [f]) == Learn(LearnAll(s, fs), f)
  {
    assert (fs + [f])[..|fs|] == fs;
  }

  lemma SplitStep(line: string, i: nat, k: nat, f: Fact, fs: seq<Fact>)
    requires i < k < |line| && line[i] != ' ' && HeadOf(line[i..]) == Head(f, line[k..])
    ensures Split(line[i..], fs) ==
            if line[k] == ' ' then Some(Parts(fs + [f], true, line[k + 1..])) else Split(line[k + 1..], fs + [f])
  {
    assert line[k..][1..] == line[k + 1..];
  }

  method ScanName(line: string, i: nat) returns (j: nat)
    requires i < |line|
    ensures i <= j <= |line| && j - i == End(line[i..], true)
    ensures j < |line| ==> !Inner(line[j], true)
  {
    j := i;
    while j < |line| && line[j] != ';' && line[j] != ' ' && line[j] != '='
      invariant i <= j <= |line| && End(line[i..], true) == j - i + End(line[j..], true)
    {
      assert line[j..][1..] == line[j + 1..];
      j := j + 1;
    }
  }

  /** The scan starts at the equals sign, which may itself belong to a value. */
  method ScanValue(line: string, j: nat) returns (k: nat)
    requires j < |line| && line[j] == '='
    ensures j < k <= |line| && k - j - 1 == End(line[j + 1..], false)
    ensures k < |line| ==> !Inner(line[k], false)
  {
    k := j;
    while k < |line| && line[k] != ';' && line[k] != ' '
      invariant j <= k <= |line|
      invariant k > j ==> End(line[j + 1..], false) == k - j - 1 + End(line[k..], false)
    {
      assert line[k..][1..] == line[k + 1..];
      k := k + 1;
    }
  }

  lemma HeadBetween(line: string, i: nat, j: nat, k: nat)
    requires i <= j < k <= |line| && j - i == End(line[i..], true) && line[j] == '='
    requires k - j - 1 == End(line[j + 1..], false)
    ensures HeadOf(line[i..]) == if k == |line| then NoHead else Head(Fact(line[i..j], line[j + 1..k]), line[k..])
  {
    TailBetween(line, j + 1, k, line[i..j]);
    NameBetween(line, i, j);
    SameHead(HeadOf(line[i..]), HeadTail(line[i..j], line[j + 1..]));
  }

  lemma SameHead(g: Head, h: Head)
    requires g == h
    ensures g.Head? == h.Head? && (h.Head? ==> g.fact == h.fact && g.rest == h.rest)
  {
  }

  lemma NameBetween(line: string, i: nat, j: nat)
    requires i <= j < |line| && j - i == End(line[i..], true) && line[j] == '='
    ensures HeadOf(line[i..]) == HeadTail(line[i..j], line[j + 1..])
  {
    Slices(line, i, j);
  }

  lemma TailBetween(line: string, j: nat, k: nat, name: string)
    requires j <= k <= |line| && k - j == End(line[j..], false)
    ensures HeadTail(name, line[j..]) == if k == |line| then NoHead else Head(Fact(name, line[j..k]), line[k..])
  {
    Slices(line, j, k);
  }

  lemma Slices(s: string, i: nat, j: nat)
    requires i <= j <= |s|
    ensures s[i..][..j - i] == s[i..j] && s[i..][j - i..] == s[j..]
    ensures j < |s| ==> s[i..][j - i + 1..] == s[j + 1..] && s[i..][j - i] == s[j]
  {
  }

  // ----- the printed form -----

  predicate Printable(fs: seq<Fact>) {
    forall i :: 0 <= i < |fs| ==> Text(fs[i].name, true) && Text(fs[i].value, false)
  }

  function Item(f: Fact, rest: string): string {
    f.name + ("=" + (f.value + rest))
  }

  /** Facts, a space and the pathname. With broken, the last semicolon is missing. */
  function Line(fs: seq<Fact>, broken: bool, path: string): string
    decreases |fs|
  {
    if fs == [] then " " + path
    else
      Item(fs[0], if broken && |fs| == 1 then " " + path else ";" + Line(fs[1..], broken, path))
  }

  /** Facts that can be told apart in a line. */
  predicate Sensible(fs: seq<Fact>, broken: bool) {
    Printable(fs) && (broken ==> fs != [])
  }

  lemma HeadOfItem(f: Fact, rest: string)
    requires Text(f.name, true) && Text(f.value, false) && rest != "" && !Inner(rest[0], false)
    ensures HeadOf(Item(f, rest)) == Head(f, rest) && Item(f, rest)[0] != ' '
  {
    var x, y := Item(f, rest), f.value + rest;
    EndOfText(f.name, "=" + y, true);
    EndOfText(f.value, rest, false);
    assert x[|f.name| + 1..] == y && x[..|f.name|] == f.name;
    assert y[..|f.value|] == f.value && y[|f.value|..] == rest;
    assert f.name != "" ==> Inner(f.name[0], true) && x[0] == f.name[0];
  }

  lemma MoveOver(before: seq<Fact>, fs: seq<Fact>)
    ensures fs == [] ==> before + fs == before
    ensures fs != [] ==> before + [fs[0]] + fs[1..] == before + fs
    ensures |fs| == 1 ==> before + fs == before + [fs[0]]
  {
  }

  lemma {:induction false} SplitLine(before: seq<Fact>, fs: seq<Fact>, broken: bool, path: string)
    requires Sensible(fs, broken)
    ensures Split(Line(fs, broken, path), before) == Some(Parts(before + fs, broken, path))
    decreases |fs|
  {
    MoveOver(before, fs);
    if fs == [] {
      assert Line(fs, broken, path)[1..] == path;
    } else {
      var f := fs[0];
      if broken && |fs| == 1 {
        HeadOfItem(f, " " + path);
        assert (" " + path)[1..] == path;
      } else {
        var rest := ";" + Line(fs[1..], broken, path);
        HeadOfItem(f, rest);
        assert rest[1..] == Line(fs[1..], broken, path);
        SplitLine(before + [f], fs[1..], broken, path);
      }
    }
  }

  lemma CutAt(x: string, k: nat)
    requires k < |x|
    ensures x == x[..k] + ([x[k]] + x[k + 1..]) && x == x[..k] + x[k..]
  {
  }

  lemma LineMore(before: seq<Fact>, f: Fact, more: seq<Fact>, broken: bool, path: string)
    requires Sensible(more, broken) && Text(f.name, true) && Text(f.value, false)
    ensures Sensible([f] + more, broken)
    ensures Line([f] + more, broken, path) == Item(f, ";" + Line(more, broken, path))
    ensures before + [f] + more == before + ([f] + more)
  {
    assert ([f] + more)[1..] == more;
  }

  lemma HeadSound(x: string)
    requires HeadOf(x).Head?
    ensures var h := HeadOf(x);
            && Text(h.fact.name, true) && Text(h.fact.value, false) && x == Item(h.fact, h.rest)
            && (h.rest[0] == ' ' || h.rest[0] == ';')
  {
    var j := End(x, true);
    var y := x[j + 1..];
    EndStops(x, true);
    EndStops(y, false);
    CutAt(x, j);
    CutAt(y, End(y, false));
  }

  lemma {:induction false} SplitSound(x: string, before: seq<Fact>) returns (fs: seq<Fact>)
    requires Split(x, before).Some?
    ensures var p := Split(x, before).value;
            && Sensible(fs, p.broken) && x == Line(fs, p.broken, p.path) && p.facts == before + fs
    decreases |x|
  {
    if x[0] == ' ' {
      fs := [];
      MoveOver(before, fs);
      assert x == " " + x[1..];
    } else {
      var h := HeadOf(x);
      HeadSound(x);
      CutAt(h.rest, 0);
      if h.rest[0] == ' ' {
        fs := [h.fact];
        assert Line(fs, true, h.rest[1..]) == Item(h.fact, " " + h.rest[1..]);
      } else {
        var more := SplitSound(h.rest[1..], before + [h.fact]);
        fs := [h.fact] + more;
        LineMore(before, h.fact, more, Split(x, before).value.broken, Split(x, before).value.path);
      }
    }
  }

  /** Parsing a printed line recovers the pathname and what its facts say. An MLST line has one more character. */
  lemma ParsePrinted(fs: seq<Fact>, broken: bool, path: string, lead: char, s: Info)
    requires Sensible(fs, broken) && path != ""
    ensures Parse(Line(fs, broken, path), false, s) == Some(Entry(path, LearnAll(s, fs), broken))
    ensures Parse([lead] + Line(fs, broken, path), true, s) == Some(Entry(path, LearnAll(s, fs), broken))
  {
    var x := Line(fs, broken, path);
    assert Body([lead] + x, true) == x;
    SplitLine([], fs, broken, path);
    assert [] + fs == fs;
  }

  /** A line is accepted exactly if it is the printed form of some facts and a pathname, and these are unique. */
  lemma AcceptedIffPrinted(x: string, s: Info)
    ensures Parse(x, false, s).Some? <==>
              exists fs, broken, path :: Sensible(fs, broken) && path != "" && x == Line(fs, broken, path)
  {
    if Parse(x, false, s).Some? {
      var fs := SplitSound(x, []);
      var p := Split(x, []).value;
      assert Sensible(fs, p.broken) && x == Line(fs, p.broken, p.path);
    }
    if fs, broken, path :| Sensible(fs, broken) && path != "" && x == Line(fs, broken, path) {
      ParsePrinted(fs, broken, path, ' ', s);
    }
  }

  /** No line can be read in two ways. */
  lemma LineInjective(fs: seq<Fact>, broken: bool, path: string, gs: seq<Fact>, broken': bool, path': string)
    requires Sensible(fs, broken) && Sensible(gs, broken')
    requires Line(fs, broken, path) == Line(gs, broken', path')
    ensures fs == gs && broken == broken' && path == path'
  {
    SplitLine([], fs, broken, path);
    SplitLine([], gs, broken', path');
    assert [] + fs == fs && [] + gs == gs;
  }

  // ----- what is learnt from all facts -----

  /** The value of the last fact of that name. */
  function Last(fs: seq<Fact>, word: string): Option<string>
    decreases |fs|
  {
    if fs == [] then None
    else
      var f := fs[|fs| - 1];
      if Spells(f.name, word) then Some(f.value) else Last(fs[..|fs| - 1], word)
  }

  /** The last modify value that could be read. */
  function LastTime(fs: seq<Fact>): Option<Stamp>
    decreases |fs|
  {
    if fs == [] then None
    else
      var f := fs[|fs| - 1];
      if Spells(f.name, "modify") && Modified(f.value).Some? then Modified(f.value) else LastTime(fs[..|fs| - 1])
  }

  lemma WordsOf(name: string)
    ensures Named(name, "size") <==> Spells(name, "size")
    ensures Named(name, "modify") <==> Spells(name, "modify")
    ensures Named(name, "type") <==> Spells(name, "type")
    ensures Named(name, "unique") <==> Spells(name, "unique")
  {
    FoldSpells(name, "size");
    FoldSpells(name, "modify");
    FoldSpells(name, "type");
    FoldSpells(name, "unique");
  }

  /** The last size and unique id win. */
  lemma {:induction false} LastWins(s: Info, fs: seq<Fact>)
    ensures var t := LearnAll(s, fs);
            && t.sized == (s.sized || Last(fs, "size").Some?)
            && t.size == (if Last(fs, "size").Some? then LeadingNumber(Last(fs, "size").value) else s.size)
            && t.id == (if Last(fs, "unique").Some? then Last(fs, "unique") else s.id)
    decreases |fs|
  {
    if fs != [] {
      LastWins(s, fs[..|fs| - 1]);
      WordsOf(fs[|fs| - 1].name);
    }
  }

  /** So does the last time that could be read; an unreadable one still counts as a time given. */
  lemma {:induction false} LastTimeWins(s: Info, fs: seq<Fact>)
    ensures var t := LearnAll(s, fs);
            && t.timed == (s.timed || Last(fs, "modify").Some?)
            && t.time == (if LastTime(fs).Some? then LastTime(fs).value else s.time)
    decreases |fs|
  {
    if fs != [] {
      LastTimeWins(s, fs[..|fs| - 1]);
      WordsOf(fs[|fs| - 1].name);
    }
  }

  /** A letter of a lower-case word, in either case, or another character of it. */
  predicate SameLetter(c: char, w: char) {
    c == w || ('a' <= w <= 'z' && c as int + 32 == w as int)
  }

  predicate Spells(s: string, word: string) {
    |s| == |word| && forall i :: 0 <= i < |s| ==> SameLetter(s[i], word[i])
  }

  predicate Begins(s: string, word: string) {
    |word| <= |s| && Spells(s[..|word|], word)
  }

  predicate LowerCase(word: string) {
    forall i :: 0 <= i < |word| ==> !('A' <= word[i] <= 'Z')
  }

  lemma {:induction false} FoldSpells(s: string, word: string)
    requires LowerCase(word)
    ensures Fold(s) == word <==> Spells(s, word)
  {
    if s != "" && word != "" {
      FoldSpells(s[1..], word[1..]);
      assert word == [word[0]] + word[1..];
      assert Spells(s, word) <==> SameLetter(s[0], word[0]) && Spells(s[1..], word[1..]) by {
        SpellsTail(s, word);
      }
    }
  }

  lemma SpellsTail(s: string, word: string)
    requires s != "" && word != ""
    ensures Spells(s, word) <==> SameLetter(s[0], word[0]) && Spells(s[1..], word[1..])
  {
    if Spells(s[1..], word[1..]) && SameLetter(s[0], word[0]) {
      forall i | 0 <= i < |s|
        ensures SameLetter(s[i], word[i])
      {
        assert i > 0 ==> s[i] == s[1..][i - 1] && word[i] == word[1..][i - 1];
      }
    }
  }

  lemma StartsBegins(s: string, word: string)
    requires LowerCase(word)
    ensures Starts(s, word) <==> Begins(s, word)
  {
    if |word| <= |s| {
      FoldSpells(s[..|word|], word);
    }
  }

  /** A type fact with the value "file", or with one that does not begin with "dir", "pdir" or "cdir". */
  ghost predicate SaysRetr(f: Fact) {
    && Spells(f.name, "type")
    && (Spells(f.value, "file") || !(Begins(f.value, "dir") || Begins(f.value, "pdir") || Begins(f.value, "cdir")))
  }

  /** A type fact with a value other than "file". */
  ghost predicate SaysCwd(f: Fact) {
    Spells(f.name, "type") && !Spells(f.value, "file")
  }

  /** The two flags add up over all type facts. */
  lemma {:induction false} FlagsAddUp(s: Info, fs: seq<Fact>)
    ensures LearnAll(s, fs).retr <==> s.retr || exists i :: 0 <= i < |fs| && SaysRetr(fs[i])
    ensures LearnAll(s, fs).cwd <==> s.cwd || exists i :: 0 <= i < |fs| && SaysCwd(fs[i])
    decreases |fs|
  {
    if fs != [] {
      var n := |fs| - 1;
      FlagsAddUp(s, fs[..n]);
      LearnFlags(LearnAll(s, fs[..n]), fs[n]);
      assert forall i :: 0 <= i < n ==> fs[..n][i] == fs[i];
    }
  }

  lemma LearnFlags(s: Info, f: Fact)
    ensures Learn(s, f).retr == (s.retr || SaysRetr(f)) && Learn(s, f).cwd == (s.cwd || SaysCwd(f))
  {
    TypeWord(f.name);
    TypeWords(f.value);
  }

  lemma TypeWord(name: string)
    ensures Named(name, "type") <==> Spells(name, "type")
    ensures Named(name, "type") ==> !Named(name, "size") && !Named(name, "modify") && !Named(name, "unique")
  {
    FoldSpells(name, "type");
    assert "type"[0] == 't' && "modify"[0] == 'm' && "size"[0] == 's' && "unique"[0] == 'u';
  }

  /** The words for a file and for a directory. */
  lemma TypeWords(value: string)
    ensures SaysFile(value) <==> Spells(value, "file")
    ensures SaysDir(value) <==> Begins(value, "dir") || Begins(value, "pdir") || Begins(value, "cdir")
  {
    StartsBegins(value, "file");
    StartsBegins(value, "dir");
    StartsBegins(value, "pdir");
    StartsBegins(value, "cdir");
    assert |value| == 4 ==> value[..4] == value;
  }

  /** The round trip in full: pathname, last size modulo 2^64, last unique id and readable time, flags. */
  lemma MlsxRoundTrip(fs: seq<Fact>, broken: bool, path: string, anySize: nat, anyTime: Stamp)
    requires Sensible(fs, broken) && path != ""
    ensures var r := Parse(Line(fs, broken, path), false, Start(anySize, anyTime));
            && r.Some? && r.value.name == path && r.value.broken == broken
            && r.value.info.sized == Last(fs, "size").Some?
            && (r.value.info.sized ==> r.value.info.size == LeadingNumber(Last(fs, "size").value))
            && r.value.info.timed == Last(fs, "modify").Some?
            && (LastTime(fs).Some? ==> r.value.info.time == LastTime(fs).value)
            && r.value.info.id == Last(fs, "unique")
            && (r.value.info.retr <==> exists i :: 0 <= i < |fs| && SaysRetr(fs[i]))
            && (r.value.info.cwd <==> exists i :: 0 <= i < |fs| && SaysCwd(fs[i]))
  {
    var s := Start(anySize, anyTime);
    ParsePrinted(fs, broken, path, ' ', s);
    LastWins(s, fs);
    LastTimeWins(s, fs);
    FlagsAddUp(s, fs);
  }

  /** The size reported does not depend on what the memory held if and only if there is a size fact; likewise the
      time, for a modify fact that can be read. */
  lemma DeterminateIff(fs: seq<Fact>)
    ensures (forall a, b, t :: LearnAll(Start(a, t), fs).size == LearnAll(Start(b, t), fs).size) <==>
            Last(fs, "size").Some?
    ensures (forall a, t, u :: LearnAll(Start(a, t), fs).time == LearnAll(Start(a, u), fs).time) <==> LastTime(fs).Some?
  {
    var t, u := Stamp(0, 0, 0, 0, 0, 0), Stamp(1, 0, 0, 0, 0, 0);
    forall a, v
      ensures Last(fs, "size").Some? ==> LearnAll(Start(a, v), fs).size == LeadingNumber(Last(fs, "size").value)
      ensures LastTime(fs).Some? ==> LearnAll(Start(a, v), fs).time == LastTime(fs).value
    {
      LastWins(Start(a, v), fs);
      LastTimeWins(Start(a, v), fs);
    }
    LastWins(Start(0, t), fs);
    LastWins(Start(1, t), fs);
    LastTimeWins(Start(0, t), fs);
    LastTimeWins(Start(0, u), fs);
    assert Last(fs, "size").None? ==> LearnAll(Start(0, t), fs).size != LearnAll(Start(1, t), fs).size;
    assert LastTime(fs).None? ==> LearnAll(Start(0, t), fs).time != LearnAll(Start(0, u), fs).time;
  }

  /** For instance, the size of a line without facts is whatever the memory held. */
  lemma SizeIndeterminate(t: Stamp)
    ensures Parse(" a", false, Start(0, t)) != Parse(" a", false, Start(1, t))
  {
    var x := " a";
    assert x[1..] == "a";
    assert Split(x, []) == Some(Parts([], false, "a"));
  }
}

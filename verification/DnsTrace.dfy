/** The worklist of the DNS tracer: three growing relations and a fourth that is kept equal to their join,
    without duplicates, whichever of the three grows. */
module DnsTrace {
  import opened Bytes
  import opened DomainNames
  import opened Wrappers

  type Kind = seq<byte>
  type Ip = seq<byte>

  /** DNS_T_A */
  const TYPE_A: Kind := [0, 1]

  datatype Address = Address(owner: Name, ip: Ip)
  datatype Server = Server(owner: Name, server: Name)
  datatype Query = Query(owner: Name, kind: Kind)
  datatype Question = Question(owner: Name, kind: Kind, control: Name, ip: Ip)

  /** A question up to the case of its names. */
  function Key(x: Question): Question {
    Question(Canon(x.owner), x.kind, Canon(x.control), x.ip)
  }

  /** The question that a query, a name server and an address give rise to. */
  function Ask(q: Query, n: Server, a: Address): Question {
    Question(Canon(q.owner), q.kind, Canon(n.owner), a.ip)
  }

  /** The query has a name, lies under the server's zone, and the server has the address. */
  predicate Match(q: Query, n: Server, a: Address) {
    q.owner != [] && Under(q.owner, n.owner) && Same(n.server, a.owner)
  }

  /** The three-way join of the relations. */
  ghost function Join(qs: seq<Query>, ns: seq<Server>, hs: seq<Address>): set<Question> {
    set q, n, a | q in qs && n in ns && a in hs && Match(q, n, a) :: Ask(q, n, a)
  }

  ghost function Keys(qt: seq<Question>): set<Question> {
    set x | x in qt :: Key(x)
  }

  ghost predicate DistinctKeys(qt: seq<Question>) {
    forall i, j :: 0 <= i < j < |qt| ==> Key(qt[i]) != Key(qt[j])
  }

  lemma MoreQueries(qs: seq<Query>, q: Query, ns: seq<Server>, hs: seq<Address>)
    ensures Join(qs + [q], ns, hs) == Join(qs, ns, hs) + Join([q], ns, hs)
  {
  }

  lemma MoreServers(qs: seq<Query>, ns: seq<Server>, n: Server, hs: seq<Address>)
    ensures Join(qs, ns + [n], hs) == Join(qs, ns, hs) + Join(qs, [n], hs)
  {
  }

  lemma MoreAddresses(qs: seq<Query>, ns: seq<Server>, hs: seq<Address>, a: Address)
    ensures Join(qs, ns, hs + [a]) == Join(qs, ns, hs) + Join(qs, ns, [a])
  {
  }

  lemma JoinOne(q: Query, n: Server, a: Address)
    ensures Join([q], [n], [a]) == if Match(q, n, a) then {Ask(q, n, a)} else {}
  {
  }

  lemma JoinEmpty(qs: seq<Query>, ns: seq<Server>, hs: seq<Address>)
    requires qs == [] || ns == [] || hs == []
    ensures Join(qs, ns, hs) == {}
  {
  }

  lemma JoinNotUnder(q: Query, n: Server, hs: seq<Address>)
    requires !Under(q.owner, n.owner)
    ensures Join([q], [n], hs) == {}
  {
  }

  lemma JoinNotSame(qs: seq<Query>, n: Server, a: Address)
    requires !Same(n.server, a.owner)
    ensures Join(qs, [n], [a]) == {}
  {
  }

  lemma UnionStep<T>(a: set<T>, b: set<T>, c: set<T>)
    ensures a + b + c == a + (b + c) && b + {} == b && a + {} == a
  {
  }

  lemma NextQuery(before: set<Question>, qs: seq<Query>, i: nat, ns: seq<Server>, hs: seq<Address>)
    requires i < |qs|
    ensures before + Join(qs[..i + 1], ns, hs) == before + Join(qs[..i], ns, hs) + Join([qs[i]], ns, hs)
    ensures before + Join(qs[..i], ns, hs) + {} == before + Join(qs[..i], ns, hs)
  {
    assert qs[..i + 1] == qs[..i] + [qs[i]];
    MoreQueries(qs[..i], qs[i], ns, hs);
    UnionStep(before, Join(qs[..i], ns, hs), Join([qs[i]], ns, hs));
  }

  lemma NextServer(before: set<Question>, qs: seq<Query>, ns: seq<Server>, i: nat, hs: seq<Address>)
    requires i < |ns|
    ensures before + Join(qs, ns[..i + 1], hs) == before + Join(qs, ns[..i], hs) + Join(qs, [ns[i]], hs)
    ensures before + Join(qs, ns[..i], hs) + {} == before + Join(qs, ns[..i], hs)
  {
    assert ns[..i + 1] == ns[..i] + [ns[i]];
    MoreServers(qs, ns[..i], ns[i], hs);
    UnionStep(before, Join(qs, ns[..i], hs), Join(qs, [ns[i]], hs));
  }

  lemma NextAddress(before: set<Question>, qs: seq<Query>, ns: seq<Server>, hs: seq<Address>, i: nat)
    requires i < |hs|
    ensures before + Join(qs, ns, hs[..i + 1]) == before + Join(qs, ns, hs[..i]) + Join(qs, ns, [hs[i]])
    ensures before + Join(qs, ns, hs[..i]) + {} == before + Join(qs, ns, hs[..i])
  {
    assert hs[..i + 1] == hs[..i] + [hs[i]];
    MoreAddresses(qs, ns, hs[..i], hs[i]);
    UnionStep(before, Join(qs, ns, hs[..i]), Join(qs, ns, [hs[i]]));
  }

  ghost predicate KnownQuery(qs: seq<Query>, owner: Name, kind: Kind) {
    exists i :: 0 <= i < |qs| && Same(qs[i].owner, owner) && qs[i].kind == kind
  }

  ghost predicate KnownServer(ns: seq<Server>, owner: Name, server: Name) {
    exists i :: 0 <= i < |ns| && Same(ns[i].owner, owner) && Same(ns[i].server, server)
  }

  ghost predicate KnownAddress(hs: seq<Address>, owner: Name, ip: Ip) {
    exists i :: 0 <= i < |hs| && Same(hs[i].owner, owner) && hs[i].ip == ip
  }

  /** A record of a response, of class IN. */
  datatype Record = NsRecord(owner: Name, server: Name) | AddressRecord(owner: Name, ip: Ip) | OtherRecord(owner: Name)

  /** A response: its records as far as they can be parsed, the alias the answers give for the question if they give
      one, and the addresses that are added for "localhost" and for a name that is itself an address. */
  datatype Reply = Reply(records: seq<Record>, alias: Option<Name>, local: Ip, numeric: Option<Ip>)

  /** "localhost" */
  const LOCALHOST: Name := [[108, 111, 99, 97, 108, 104, 111, 115, 116]]

  /** What can be added to the relations. */
  datatype Fact = NewQuery(owner: Name, kind: Kind) | NewServer(owner: Name, server: Name) | NewAddress(owner: Name,
      ip: Ip)

  // ----- what the relations hold, as a function of what has been learnt -----

  datatype Relations = Relations(query: seq<Query>, ns: seq<Server>, address: seq<Address>)

  const NOTHING := Relations([], [], [])

  ghost function WithQuery(r: Relations, owner: Name, kind: Kind): Relations {
    if KnownQuery(r.query, owner, kind) then r else r.(query := r.query + [Query(owner, kind)])
  }

  ghost function Absorb(r: Relations, f: Fact): Relations {
    match f
    case NewQuery(owner, kind) => WithQuery(r, owner, kind)
    case NewServer(owner, server) =>
      if KnownServer(r.ns, owner, server) then r
      else WithQuery(r, server, TYPE_A).(ns := r.ns + [Server(owner, server)])
    case NewAddress(owner, ip) =>
      if KnownAddress(r.address, owner, ip) then r else r.(address := r.address + [Address(owner, ip)])
  }

  ghost function AbsorbAll(r: Relations, facts: seq<Fact>): Relations
    decreases |facts|
  {
    if facts == [] then r else Absorb(AbsorbAll(r, facts[..|facts| - 1]), facts[|facts| - 1])
  }

  function FactOf(r: Record): seq<Fact> {
    match r
    case NsRecord(owner, server) => [NewServer(owner, server)]
    case AddressRecord(owner, ip) => [NewAddress(owner, ip)]
    case OtherRecord(_) => []
  }

  /** Records count only if their owner lies under the zone asked. */
  function Kept(records: seq<Record>, zone: Name): seq<Fact>
    decreases |records|
  {
    if records == [] then []
    else
      var r := records[|records| - 1];
      Kept(records[..|records| - 1], zone) + if Under(r.owner, zone) then FactOf(r) else []
  }

  /** A query for the alias. */
  function ForAlias(x: Question, r: Reply): (fs: seq<Fact>)
    ensures |fs| <= 1
  {
    if r.alias.Some? then [NewQuery(r.alias.value, x.kind)] else []
  }

  /** The address of "localhost". */
  function ForLocal(x: Question, r: Reply): (fs: seq<Fact>)
    ensures |fs| <= 1
  {
    if Same(x.owner, LOCALHOST) then [NewAddress(x.owner, r.local)] else []
  }

  /** The address of a name that is one. */
  function ForNumeric(x: Question, r: Reply): (fs: seq<Fact>)
    ensures |fs| <= 1
  {
    if r.numeric.Some? then [NewAddress(x.owner, r.numeric.value)] else []
  }

  /** What the tracer adds for question x when the response is r. */
  function Heard(x: Question, r: Reply): seq<Fact> {
    Kept(r.records, x.control) + ForAlias(x, r) + ForLocal(x, r) + ForNumeric(x, r)
  }

  /** The questions qs have been answered one after the other. */
  ghost function AbsorbEach(r: Relations, qs: seq<Question>, replies: seq<Reply>): Relations
    requires |qs| <= |replies|
    decreases |qs|
  {
    if qs == [] then r
    else
      var n := |qs| - 1;
      AbsorbAll(AbsorbEach(r, qs[..n], replies), Heard(qs[n], replies[n]))
  }

  /** The question asked for, the root zone's artificial server, and its addresses. */
  function FirstFacts(name: Name, kind: Kind, roots: seq<Ip>): seq<Fact> {
    if roots == [] then [NewQuery(name, kind), NewServer([], [])]
    else FirstFacts(name, kind, roots[..|roots| - 1]) + [NewAddress([], roots[|roots| - 1])]
  }

  lemma AbsorbNext(r: Relations, facts: seq<Fact>, f: Fact)
    ensures AbsorbAll(r, facts + [f]) == Absorb(AbsorbAll(r, facts), f)
  {
    assert (facts + [f])[..|facts|] == facts;
  }

  lemma AbsorbReply(r: Relations, qs: seq<Question>, x: Question, replies: seq<Reply>)
    requires |qs| < |replies|
    ensures AbsorbEach(r, qs + [x], replies) == AbsorbAll(AbsorbEach(r, qs, replies), Heard(x, replies[|qs|]))
  {
    assert (qs + [x])[..|qs|] == qs;
  }

  lemma KeptNext(records: seq<Record>, i: nat, zone: Name)
    requires i < |records|
    ensures Kept(records[..i + 1], zone)
         == if Under(records[i].owner, zone) then Kept(records[..i], zone) + FactOf(records[i])
             else Kept(records[..i], zone)
  {
    assert records[..i + 1][..i] == records[..i];
    assert Kept(records[..i], zone) + [] == Kept(records[..i], zone);
  }

  // ----- where names come from -----

  /** Every question is about a name other than the root, and under its zone. */
  ghost predicate AskedInZone(qs: seq<Question>) {
    forall i :: 0 <= i < |qs| ==> qs[i].owner != [] && Under(qs[i].owner, qs[i].control)
  }

  /** The root, or under the zone of a question. */
  ghost predicate InZone(qs: seq<Question>, owner: Name) {
    owner == [] || exists k :: 0 <= k < |qs| && Under(owner, qs[k].control)
  }

  /** Every name server and every address belongs to a name in one of those zones. */
  ghost predicate Zoned(r: Relations, qs: seq<Question>) {
    && (forall i :: 0 <= i < |r.ns| ==> InZone(qs, r.ns[i].owner))
    && (forall i :: 0 <= i < |r.address| ==> InZone(qs, r.address[i].owner))
  }

  ghost predicate FactsZoned(facts: seq<Fact>, qs: seq<Question>) {
    forall i :: 0 <= i < |facts| ==> facts[i].NewQuery? || InZone(qs, facts[i].owner)
  }

  lemma {:induction false} AbsorbZoned(r: Relations, facts: seq<Fact>, qs: seq<Question>)
    requires Zoned(r, qs) && FactsZoned(facts, qs)
    ensures Zoned(AbsorbAll(r, facts), qs)
    decreases |facts|
  {
    if facts != [] {
      AbsorbZoned(r, facts[..|facts| - 1], qs);
    }
  }

  lemma {:induction false} FirstZoned(name: Name, kind: Kind, roots: seq<Ip>)
    ensures FactsZoned(FirstFacts(name, kind, roots), [])
    decreases |roots|
  {
    if roots != [] {
      FirstZoned(name, kind, roots[..|roots| - 1]);
    }
  }

  lemma {:induction false} KeptZoned(records: seq<Record>, qs: seq<Question>, k: nat)
    requires k < |qs|
    ensures FactsZoned(Kept(records, qs[k].control), qs)
    decreases |records|
  {
    if records != [] {
      KeptZoned(records[..|records| - 1], qs, k);
    }
  }

  lemma HeardZoned(qs: seq<Question>, k: nat, r: Reply)
    requires k < |qs| && Under(qs[k].owner, qs[k].control)
    ensures FactsZoned(Heard(qs[k], r), qs)
  {
    KeptZoned(r.records, qs, k);
    SpecialZoned(qs, k, r);
    ZonedSum(Kept(r.records, qs[k].control), ForAlias(qs[k], r), ForLocal(qs[k], r), ForNumeric(qs[k], r), qs);
  }

  lemma SpecialZoned(qs: seq<Question>, k: nat, r: Reply)
    requires k < |qs| && Under(qs[k].owner, qs[k].control)
    ensures FactsZoned(ForAlias(qs[k], r), qs) && FactsZoned(ForLocal(qs[k], r), qs)
    ensures FactsZoned(ForNumeric(qs[k], r), qs)
  {
    assert InZone(qs, qs[k].owner);
  }

  lemma ZonedSum(a: seq<Fact>, b: seq<Fact>, c: seq<Fact>, d: seq<Fact>, qs: seq<Question>)
    requires FactsZoned(a, qs) && FactsZoned(b, qs) && FactsZoned(c, qs) && FactsZoned(d, qs)
    ensures FactsZoned(a + b + c + d, qs)
  {
    ZonedConcat(a, b, qs);
    ZonedConcat(a + b, c, qs);
    ZonedConcat(a + b + c, d, qs);
  }

  lemma ZonedConcat(a: seq<Fact>, b: seq<Fact>, qs: seq<Question>)
    requires FactsZoned(a, qs) && FactsZoned(b, qs)
    ensures FactsZoned(a + b, qs)
  {
  }

  lemma AskedNext(qs: seq<Question>, x: Question)
    requires AskedInZone(qs) && x.owner != [] && Under(x.owner, x.control)
    ensures AskedInZone(qs + [x])
  {
  }

  lemma DistinctPrefix(qt: seq<Question>, n: nat)
    requires DistinctKeys(qt) && n <= |qt|
    ensures DistinctKeys(qt[..n]) && qt[..n] <= qt && (n == |qt| ==> qt[..n] == qt)
  {
  }

  lemma PrefixKept<T>(a: seq<T>, b: seq<T>, n: nat)
    requires a <= b && n <= |a|
    ensures b[..n] == a[..n]
  {
  }

  lemma MoreZones(r: Relations, qs: seq<Question>, x: Question)
    requires Zoned(r, qs)
    ensures Zoned(r, qs + [x])
  {
    forall owner | InZone(qs, owner)
      ensures InZone(qs + [x], owner)
    {
      if k :| 0 <= k < |qs| && Under(owner, qs[k].control) {
        assert (qs + [x])[k] == qs[k];
      }
    }
  }

  lemma AnswerZoned(r: Relations, qs: seq<Question>, reply: Reply)
    requires qs != [] && Zoned(r, qs[..|qs| - 1]) && Under(qs[|qs| - 1].owner, qs[|qs| - 1].control)
    ensures Zoned(AbsorbAll(r, Heard(qs[|qs| - 1], reply)), qs)
  {
    var n := |qs| - 1;
    MoreZones(r, qs[..n], qs[n]);
    assert qs[..n] + [qs[n]] == qs;
    HeardZoned(qs, n, reply);
    AbsorbZoned(r, Heard(qs[n], reply), qs);
  }

  /** After any answers to questions under their own zones, no name server or address outside the zones asked is known,
      apart from those of the root. */
  lemma {:induction false} AnswersZoned(r: Relations, qs: seq<Question>, replies: seq<Reply>)
    requires |qs| <= |replies| && Zoned(r, []) && forall k :: 0 <= k < |qs| ==> Under(qs[k].owner, qs[k].control)
    ensures Zoned(AbsorbEach(r, qs, replies), qs)
    decreases |qs|
  {
    if qs != [] {
      var n := |qs| - 1;
      AnswersZoned(r, qs[..n], replies);
      AnswerZoned(AbsorbEach(r, qs[..n], replies), qs, replies[n]);
    }
  }

  lemma FirstTwo(name: Name, kind: Kind)
    ensures AbsorbAll(NOTHING, FirstFacts(name, kind, [])) == Absorb(Absorb(NOTHING, NewQuery(name, kind)),
            NewServer([], []))
  {
    var q, n := NewQuery(name, kind), NewServer([], []);
    AbsorbNext(NOTHING, [], q);
    AbsorbNext(NOTHING, [q], n);
    assert [] + [q] == [q] && [q] + [n] == [q, n];
  }

  lemma FirstNext(name: Name, kind: Kind, roots: seq<Ip>, k: nat)
    requires k < |roots|
    ensures AbsorbAll(NOTHING, FirstFacts(name, kind, roots[..k + 1]))
         == Absorb(AbsorbAll(NOTHING, FirstFacts(name, kind, roots[..k])), NewAddress([], roots[k]))
  {
    assert roots[..k + 1][..k] == roots[..k];
    AbsorbNext(NOTHING, FirstFacts(name, kind, roots[..k]), NewAddress([], roots[k]));
  }

  lemma BeginZoned(name: Name, kind: Kind, roots: seq<Ip>)
    ensures Zoned(AbsorbAll(NOTHING, FirstFacts(name, kind, roots)), [])
  {
    FirstZoned(name, kind, roots);
    AbsorbZoned(NOTHING, FirstFacts(name, kind, roots), []);
  }

  // ----- what a response teaches, and nothing else -----

  ghost predicate Grown(r: Relations, s: Relations) {
    r.query <= s.query && r.ns <= s.ns && r.address <= s.address
  }

  /** Every name server under the zone asked is known, and asked for its address if it was new; every address under the
      zone is known, the alias is asked for, and so are the addresses of "localhost" and of a numeric name known. */
  ghost predicate Taught(x: Question, r: Reply, before: Relations, after: Relations) {
    && Grown(before, after)
    && (forall o, s :: NsRecord(o, s) in r.records && Under(o, x.control) ==>
        KnownServer(after.ns, o, s) && (KnownServer(before.ns, o, s) || KnownQuery(after.query, s, [0, 1])))
    && (forall o, ip :: AddressRecord(o, ip) in r.records && Under(o, x.control) ==> KnownAddress(after.address, o, ip))
    && (r.alias.Some? ==> KnownQuery(after.query, r.alias.value, x.kind))
    && (Same(x.owner, [[108, 111, 99, 97, 108, 104, 111, 115, 116]]) ==> KnownAddress(after.address, x.owner, r.local))
    && (r.numeric.Some? ==> KnownAddress(after.address, x.owner, r.numeric.value))
  }

  ghost predicate ServerGiven(x: Question, r: Reply, owner: Name, server: Name) {
    NsRecord(owner, server) in r.records && Under(owner, x.control)
  }

  ghost predicate AddressGiven(x: Question, r: Reply, owner: Name, ip: Ip) {
    || (AddressRecord(owner, ip) in r.records && Under(owner, x.control))
    || (owner == x.owner && Same(x.owner, [[108, 111, 99, 97, 108, 104, 111, 115, 116]]) && ip == r.local)
    || (owner == x.owner && r.numeric == Some(ip))
  }

  ghost predicate QueryGiven(x: Question, r: Reply, owner: Name, kind: Kind) {
    || (r.alias == Some(owner) && kind == x.kind)
    || (kind == [0, 1] && exists o :: NsRecord(o, owner) in r.records && Under(o, x.control))
  }

  /** Whatever is new has been given by the response. */
  ghost predicate NothingElse(x: Question, r: Reply, before: Relations, after: Relations) {
    && (forall k :: |before.ns| <= k < |after.ns| ==> ServerGiven(x, r, after.ns[k].owner, after.ns[k].server))
    && (forall k :: |before.address| <= k < |after.address| ==>
        AddressGiven(x, r, after.address[k].owner, after.address[k].ip))
    && (forall k :: |before.query| <= k < |after.query| ==> QueryGiven(x, r, after.query[k].owner, after.query[k].kind))
  }

  ghost predicate Recorded(r: Relations, f: Fact) {
    match f
    case NewQuery(owner, kind) => KnownQuery(r.query, owner, kind)
    case NewServer(owner, server) => KnownServer(r.ns, owner, server)
    case NewAddress(owner, ip) => KnownAddress(r.address, owner, ip)
  }

  ghost predicate AllRecorded(r: Relations, facts: seq<Fact>) {
    forall f :: f in facts ==> Recorded(r, f)
  }

  /** The name servers from the n-th on have been asked for. */
  ghost predicate Queried(r: Relations, n: nat) {
    forall k :: n <= k < |r.ns| ==> KnownQuery(r.query, r.ns[k].server, [0, 1])
  }

  lemma KnownGrown(r: Relations, s: Relations, f: Fact)
    requires Grown(r, s) && Recorded(r, f)
    ensures Recorded(s, f)
  {
    match f {
      case NewQuery(owner, kind) =>
        var i :| 0 <= i < |r.query| && Same(r.query[i].owner, owner) && r.query[i].kind == kind;
        assert s.query[i] == r.query[i];
      case NewServer(owner, server) =>
        var i :| 0 <= i < |r.ns| && Same(r.ns[i].owner, owner) && Same(r.ns[i].server, server);
        assert s.ns[i] == r.ns[i];
      case NewAddress(owner, ip) =>
        var i :| 0 <= i < |r.address| && Same(r.address[i].owner, owner) && r.address[i].ip == ip;
        assert s.address[i] == r.address[i];
    }
  }

  lemma WithQueryKnows(r: Relations, owner: Name, kind: Kind)
    ensures Grown(r, WithQuery(r, owner, kind)) && KnownQuery(WithQuery(r, owner, kind).query, owner, kind)
  {
    if !KnownQuery(r.query, owner, kind) {
      assert WithQuery(r, owner, kind).query[|r.query|] == Query(owner, kind);
    }
  }

  lemma AbsorbKnows(r: Relations, f: Fact)
    ensures Grown(r, Absorb(r, f)) && Recorded(Absorb(r, f), f)
  {
    match f {
      case NewQuery(owner, kind) =>
        WithQueryKnows(r, owner, kind);
      case NewServer(owner, server) =>
        WithQueryKnows(r, server, TYPE_A);
        if !KnownServer(r.ns, owner, server) {
          assert Absorb(r, f).ns[|r.ns|] == Server(owner, server);
        }
      case NewAddress(owner, ip) =>
        if !KnownAddress(r.address, owner, ip) {
          assert Absorb(r, f).address[|r.address|] == Address(owner, ip);
        }
    }
  }

  lemma AbsorbQueried(r: Relations, f: Fact, n: nat)
    requires Queried(r, n)
    ensures Queried(Absorb(r, f), n)
  {
    var s := Absorb(r, f);
    AbsorbKnows(r, f);
    forall k | n <= k < |s.ns|
      ensures KnownQuery(s.query, s.ns[k].server, [0, 1])
    {
      if k < |r.ns| {
        KnownGrown(r, s, NewQuery(r.ns[k].server, [0, 1]));
      } else {
        WithQueryKnows(r, f.server, TYPE_A);
      }
    }
  }

  lemma {:induction false} AbsorbAllGrown(r: Relations, facts: seq<Fact>)
    ensures Grown(r, AbsorbAll(r, facts)) && Queried(AbsorbAll(r, facts), |r.ns|)
    decreases |facts|
  {
    if facts != [] {
      var n := |facts| - 1;
      AbsorbAllGrown(r, facts[..n]);
      AbsorbKnows(AbsorbAll(r, facts[..n]), facts[n]);
      AbsorbQueried(AbsorbAll(r, facts[..n]), facts[n], |r.ns|);
    }
  }

  lemma {:induction false} AbsorbAllKnows(r: Relations, facts: seq<Fact>, f: Fact)
    requires f in facts
    ensures Recorded(AbsorbAll(r, facts), f)
    decreases |facts|
  {
    var n := |facts| - 1;
    AbsorbKnows(AbsorbAll(r, facts[..n]), facts[n]);
    if f != facts[n] {
      AbsorbAllKnows(r, facts[..n], f);
      KnownGrown(AbsorbAll(r, facts[..n]), AbsorbAll(r, facts), f);
    }
  }

  /** The facts behind what is new. */
  ghost predicate ComesFrom(facts: seq<Fact>, before: Relations, after: Relations) {
    && (forall k :: |before.ns| <= k < |after.ns| ==> NewServer(after.ns[k].owner, after.ns[k].server) in facts)
    && (forall k :: |before.address| <= k < |after.address| ==>
        NewAddress(after.address[k].owner, after.address[k].ip) in facts)
    && (forall k :: |before.query| <= k < |after.query| ==> QueryFrom(facts, after.query[k]))
  }

  ghost predicate QueryFrom(facts: seq<Fact>, q: Query) {
    NewQuery(q.owner, q.kind) in facts || (q.kind == [0, 1] && exists o :: NewServer(o, q.owner) in facts)
  }

  lemma {:induction false} AbsorbAllFrom(r: Relations, facts: seq<Fact>)
    ensures ComesFrom(facts, r, AbsorbAll(r, facts))
    decreases |facts|
  {
    if facts != [] {
      var n := |facts| - 1;
      AbsorbAllFrom(r, facts[..n]);
      AbsorbAllGrown(r, facts[..n]);
      AbsorbFrom(r, facts[..n], facts[n], AbsorbAll(r, facts[..n]));
      assert facts == facts[..n] + [facts[n]];
    }
  }

  lemma AbsorbFrom(r: Relations, facts: seq<Fact>, f: Fact, s: Relations)
    requires ComesFrom(facts, r, s) && Grown(r, s)
    ensures ComesFrom(facts + [f], r, Absorb(s, f))
  {
    var t := Absorb(s, f);
    assert forall g :: g in facts ==> g in facts + [f];
    assert f in facts + [f];
    forall k | |r.query| <= k < |t.query|
      ensures QueryFrom(facts + [f], t.query[k])
    {
      if k < |s.query| {
        assert QueryFrom(facts, s.query[k]);
      }
    }
  }

  lemma {:induction false} KeptServer(records: seq<Record>, zone: Name, o: Name, s: Name)
    ensures NewServer(o, s) in Kept(records, zone) <==> NsRecord(o, s) in records && Under(o, zone)
    decreases |records|
  {
    if records != [] {
      KeptServer(records[..|records| - 1], zone, o, s);
      assert records == records[..|records| - 1] + [records[|records| - 1]];
    }
  }

  lemma {:induction false} KeptAddress(records: seq<Record>, zone: Name, o: Name, ip: Ip)
    ensures NewAddress(o, ip) in Kept(records, zone) <==> AddressRecord(o, ip) in records && Under(o, zone)
    decreases |records|
  {
    if records != [] {
      KeptAddress(records[..|records| - 1], zone, o, ip);
      assert records == records[..|records| - 1] + [records[|records| - 1]];
    }
  }

  lemma {:induction false} KeptNoQuery(records: seq<Record>, zone: Name, o: Name, kind: Kind)
    ensures NewQuery(o, kind) !in Kept(records, zone)
    decreases |records|
  {
    if records != [] {
      KeptNoQuery(records[..|records| - 1], zone, o, kind);
    }
  }

  lemma HeardServer(x: Question, r: Reply, o: Name, s: Name)
    ensures NewServer(o, s) in Heard(x, r) <==> ServerGiven(x, r, o, s)
  {
    KeptServer(r.records, x.control, o, s);
  }

  lemma HeardAddress(x: Question, r: Reply, o: Name, ip: Ip)
    ensures NewAddress(o, ip) in Heard(x, r) <==> AddressGiven(x, r, o, ip)
  {
    KeptAddress(r.records, x.control, o, ip);
  }

  lemma HeardQuery(x: Question, r: Reply, o: Name, kind: Kind)
    ensures NewQuery(o, kind) in Heard(x, r) <==> r.alias == Some(o) && kind == x.kind
  {
    KeptNoQuery(r.records, x.control, o, kind);
  }

  lemma TaughtAll(x: Question, r: Reply, before: Relations, after: Relations)
    requires Grown(before, after) && AllRecorded(after, Heard(x, r)) && Queried(after, |before.ns|)
    ensures Taught(x, r, before, after)
  {
    forall o, s | ServerGiven(x, r, o, s)
      ensures KnownServer(after.ns, o, s) && (KnownServer(before.ns, o, s) || KnownQuery(after.query, s, [0, 1]))
    {
      TaughtServer(x, r, before, after, o, s);
    }
    forall o, ip | AddressGiven(x, r, o, ip)
      ensures KnownAddress(after.address, o, ip)
    {
      HeardAddress(x, r, o, ip);
      assert Recorded(after, NewAddress(o, ip));
    }
    assert forall o, s :: NsRecord(o, s) in r.records && Under(o, x.control) ==> ServerGiven(x, r, o, s);
    assert forall o, ip :: AddressRecord(o, ip) in r.records && Under(o, x.control) ==> AddressGiven(x, r, o, ip);
    if r.alias.Some? {
      HeardQuery(x, r, r.alias.value, x.kind);
      assert Recorded(after, NewQuery(r.alias.value, x.kind));
    }
    assert Same(x.owner, LOCALHOST) ==> AddressGiven(x, r, x.owner, r.local);
    assert r.numeric.Some? ==> AddressGiven(x, r, x.owner, r.numeric.value);
  }

  lemma TaughtServer(x: Question, r: Reply, before: Relations, after: Relations, o: Name, s: Name)
    requires Grown(before, after) && AllRecorded(after, Heard(x, r)) && Queried(after, |before.ns|)
    requires ServerGiven(x, r, o, s)
    ensures KnownServer(after.ns, o, s) && (KnownServer(before.ns, o, s) || KnownQuery(after.query, s, [0, 1]))
  {
    HeardServer(x, r, o, s);
    assert Recorded(after, NewServer(o, s));
    var k :| 0 <= k < |after.ns| && Same(after.ns[k].owner, o) && Same(after.ns[k].server, s);
    if k < |before.ns| {
      assert before.ns[k] == after.ns[k];
    } else {
      assert KnownQuery(after.query, after.ns[k].server, [0, 1]);
    }
  }

  lemma NothingMore(x: Question, r: Reply, before: Relations, after: Relations)
    requires ComesFrom(Heard(x, r), before, after)
    ensures NothingElse(x, r, before, after)
  {
    forall k | |before.ns| <= k < |after.ns|
      ensures ServerGiven(x, r, after.ns[k].owner, after.ns[k].server)
    {
      HeardServer(x, r, after.ns[k].owner, after.ns[k].server);
    }
    forall k | |before.address| <= k < |after.address|
      ensures AddressGiven(x, r, after.address[k].owner, after.address[k].ip)
    {
      HeardAddress(x, r, after.address[k].owner, after.address[k].ip);
    }
    forall k | |before.query| <= k < |after.query|
      ensures QueryGiven(x, r, after.query[k].owner, after.query[k].kind)
    {
      QueryHeard(x, r, after.query[k]);
    }
  }

  lemma QueryHeard(x: Question, r: Reply, q: Query)
    requires QueryFrom(Heard(x, r), q)
    ensures QueryGiven(x, r, q.owner, q.kind)
  {
    HeardQuery(x, r, q.owner, q.kind);
    if NewQuery(q.owner, q.kind) !in Heard(x, r) {
      var o :| NewServer(o, q.owner) in Heard(x, r);
      HeardServer(x, r, o, q.owner);
    }
  }

  /** What one response does to the relations. */
  lemma HeardTeaches(x: Question, r: Reply, before: Relations)
    ensures Taught(x, r, before, AbsorbAll(before, Heard(x, r)))
    ensures NothingElse(x, r, before, AbsorbAll(before, Heard(x, r)))
  {
    var facts := Heard(x, r);
    AbsorbAllGrown(before, facts);
    forall f | f in facts
      ensures Recorded(AbsorbAll(before, facts), f)
    {
      AbsorbAllKnows(before, facts, f);
    }
    TaughtAll(x, r, before, AbsorbAll(before, facts));
    AbsorbAllFrom(before, facts);
    NothingMore(x, r, before, AbsorbAll(before, facts));
  }

  // ----- what a whole run teaches, and what it asks -----

  /** Everything the responses to the questions gave is known. */
  ghost predicate AllTaught(qs: seq<Question>, replies: seq<Reply>, r: Relations)
    requires |qs| <= |replies|
  {
    forall i :: 0 <= i < |qs| ==> Taught(qs[i], replies[i], NOTHING, r)
  }

  ghost predicate ServerTold(qs: seq<Question>, replies: seq<Reply>, owner: Name, server: Name)
    requires |qs| <= |replies|
  {
    exists i :: 0 <= i < |qs| && ServerGiven(qs[i], replies[i], owner, server)
  }

  ghost predicate AddressTold(qs: seq<Question>, replies: seq<Reply>, owner: Name, ip: Ip)
    requires |qs| <= |replies|
  {
    exists i :: 0 <= i < |qs| && AddressGiven(qs[i], replies[i], owner, ip)
  }

  ghost predicate QueryTold(qs: seq<Question>, replies: seq<Reply>, owner: Name, kind: Kind)
    requires |qs| <= |replies|
  {
    exists i :: 0 <= i < |qs| && QueryGiven(qs[i], replies[i], owner, kind)
  }

  /** Everything known was known at the start or given by a response. */
  ghost predicate OnlyTold(first: Relations, qs: seq<Question>, replies: seq<Reply>, r: Relations)
    requires |qs| <= |replies|
  {
    && (forall k :: |first.ns| <= k < |r.ns| ==> ServerTold(qs, replies, r.ns[k].owner, r.ns[k].server))
    && (forall k :: |first.address| <= k < |r.address| ==>
        AddressTold(qs, replies, r.address[k].owner, r.address[k].ip))
    && (forall k :: |first.query| <= k < |r.query| ==> QueryTold(qs, replies, r.query[k].owner, r.query[k].kind))
  }

  /** Everything that was given is known, and nothing else. */
  ghost predicate Account(first: Relations, qs: seq<Question>, replies: seq<Reply>, r: Relations)
    requires |qs| <= |replies|
  {
    Grown(first, r) && Queried(r, 0) && AllTaught(qs, replies, r) && OnlyTold(first, qs, replies, r)
  }

  lemma NextAccount(first: Relations, r: Relations, qs: seq<Question>, x: Question, replies: seq<Reply>, s: Relations)
    requires |qs| < |replies| && Account(first, qs, replies, r) && Queried(s, |r.ns|)
    requires Taught(x, replies[|qs|], r, s) && NothingElse(x, replies[|qs|], r, s)
    ensures Account(first, qs + [x], replies, s)
  {
    StaysQueried(r, s);
    NextAllTaught(r, qs, x, replies, s);
    NextTold(first, r, qs, x, replies, s);
  }

  lemma NextAllTaught(r: Relations, qs: seq<Question>, x: Question, replies: seq<Reply>, s: Relations)
    requires |qs| < |replies| && AllTaught(qs, replies, r) && Grown(r, s) && Queried(s, 0)
    requires Taught(x, replies[|qs|], r, s)
    ensures AllTaught(qs + [x], replies, s)
  {
    forall i | 0 <= i < |qs + [x]|
      ensures Taught((qs + [x])[i], replies[i], NOTHING, s)
    {
      if i < |qs| {
        TaughtGrown(qs[i], replies[i], r, s);
      } else {
        TaughtFromStart(x, replies[|qs|], r, s);
      }
    }
  }

  lemma StaysQueried(r: Relations, s: Relations)
    requires Grown(r, s) && Queried(r, 0) && Queried(s, |r.ns|)
    ensures Queried(s, 0)
  {
    forall k | 0 <= k < |s.ns|
      ensures KnownQuery(s.query, s.ns[k].server, [0, 1])
    {
      if k < |r.ns| {
        KnownGrown(r, s, NewQuery(r.ns[k].server, [0, 1]));
      }
    }
  }

  /** A server that is known has been asked for. */
  lemma TaughtFromStart(x: Question, y: Reply, r: Relations, s: Relations)
    requires Taught(x, y, r, s) && Queried(s, 0)
    ensures Taught(x, y, NOTHING, s)
  {
    forall o, t | NsRecord(o, t) in y.records && Under(o, x.control)
      ensures KnownServer(s.ns, o, t) && KnownQuery(s.query, t, [0, 1])
    {
      var k :| 0 <= k < |s.ns| && Same(s.ns[k].owner, o) && Same(s.ns[k].server, t);
      assert KnownQuery(s.query, s.ns[k].server, [0, 1]);
    }
  }

  lemma TaughtGrown(x: Question, y: Reply, r: Relations, s: Relations)
    requires Taught(x, y, NOTHING, r) && Grown(r, s)
    ensures Taught(x, y, NOTHING, s)
  {
    forall o, t | NsRecord(o, t) in y.records && Under(o, x.control)
      ensures KnownServer(s.ns, o, t) && KnownQuery(s.query, t, [0, 1])
    {
      KnownGrown(r, s, NewServer(o, t));
      KnownGrown(r, s, NewQuery(t, [0, 1]));
    }
    forall o, ip | KnownAddress(r.address, o, ip)
      ensures KnownAddress(s.address, o, ip)
    {
      KnownGrown(r, s, NewAddress(o, ip));
    }
    if y.alias.Some? {
      KnownGrown(r, s, NewQuery(y.alias.value, x.kind));
    }
  }

  lemma NextTold(first: Relations, r: Relations, qs: seq<Question>, x: Question, replies: seq<Reply>, s: Relations)
    requires |qs| < |replies| && OnlyTold(first, qs, replies, r) && Grown(r, s)
    requires NothingElse(x, replies[|qs|], r, s)
    ensures OnlyTold(first, qs + [x], replies, s)
  {
    forall k | |first.ns| <= k < |s.ns|
      ensures ServerTold(qs + [x], replies, s.ns[k].owner, s.ns[k].server)
    {
      ToldNext(qs, x, replies, s.ns[k].owner, s.ns[k].server, [], []);
    }
    forall k | |first.address| <= k < |s.address|
      ensures AddressTold(qs + [x], replies, s.address[k].owner, s.address[k].ip)
    {
      ToldNext(qs, x, replies, s.address[k].owner, [], s.address[k].ip, []);
    }
    forall k | |first.query| <= k < |s.query|
      ensures QueryTold(qs + [x], replies, s.query[k].owner, s.query[k].kind)
    {
      ToldNext(qs, x, replies, s.query[k].owner, [], [], s.query[k].kind);
    }
  }

  lemma ToldNext(qs: seq<Question>, x: Question, replies: seq<Reply>, o: Name, server: Name, ip: Ip, kind: Kind)
    requires |qs| < |replies|
    ensures ServerTold(qs, replies, o, server) || ServerGiven(x, replies[|qs|], o, server) ==>
              ServerTold(qs + [x], replies, o, server)
    ensures AddressTold(qs, replies, o, ip) || AddressGiven(x, replies[|qs|], o, ip) ==>
              AddressTold(qs + [x], replies, o, ip)
    ensures QueryTold(qs, replies, o, kind) || QueryGiven(x, replies[|qs|], o, kind) ==>
              QueryTold(qs + [x], replies, o, kind)
  {
    assert (qs + [x])[|qs|] == x;
    assert forall i :: 0 <= i < |qs| ==> (qs + [x])[i] == qs[i];
  }

  /** What is known before the first question. */
  ghost predicate Started(r: Relations, name: Name, kind: Kind, roots: seq<Ip>) {
    && KnownQuery(r.query, name, kind) && KnownServer(r.ns, [], []) && KnownQuery(r.query, [], [0, 1])
    && forall ip :: ip in roots ==> KnownAddress(r.address, [], ip)
  }

  /** Nothing is known but this. */
  ghost predicate OnlyStarted(r: Relations, name: Name, kind: Kind, roots: seq<Ip>) {
    && (forall k :: 0 <= k < |r.query| ==> r.query[k] == Query(name, kind) || r.query[k] == Query([], [0, 1]))
    && (forall k :: 0 <= k < |r.ns| ==> r.ns[k] == Server([], []))
    && (forall k :: 0 <= k < |r.address| ==> r.address[k].owner == [] && r.address[k].ip in roots)
  }

  lemma {:induction false} FirstFactIff(name: Name, kind: Kind, roots: seq<Ip>, f: Fact)
    ensures f in FirstFacts(name, kind, roots)
       <==> f == NewQuery(name, kind) || f == NewServer([], []) || (f.NewAddress? && f.owner == [] && f.ip in roots)
    decreases |roots|
  {
    if roots != [] {
      FirstFactIff(name, kind, roots[..|roots| - 1], f);
      assert roots == roots[..|roots| - 1] + [roots[|roots| - 1]];
    }
  }

  lemma StartedIs(name: Name, kind: Kind, roots: seq<Ip>)
    ensures var r := AbsorbAll(NOTHING, FirstFacts(name, kind, roots));
            Started(r, name, kind, roots) && OnlyStarted(r, name, kind, roots) && Queried(r, 0)
  {
    var facts := FirstFacts(name, kind, roots);
    var r := AbsorbAll(NOTHING, facts);
    forall f | f in facts
      ensures Recorded(r, f)
    {
      AbsorbAllKnows(NOTHING, facts, f);
    }
    AbsorbAllGrown(NOTHING, facts);
    AbsorbAllFrom(NOTHING, facts);
    StartedAll(name, kind, roots, r);
    OnlyStartedAll(name, kind, roots, r);
  }

  lemma StartedAll(name: Name, kind: Kind, roots: seq<Ip>, r: Relations)
    requires AllRecorded(r, FirstFacts(name, kind, roots)) && Queried(r, 0)
    ensures Started(r, name, kind, roots)
  {
    forall f: Fact
      ensures f in FirstFacts(name, kind, roots)
         <==> f == NewQuery(name, kind) || f == NewServer([], []) || (f.NewAddress? && f.owner == [] && f.ip in roots)
    {
      FirstFactIff(name, kind, roots, f);
    }
    assert Recorded(r, NewQuery(name, kind)) && Recorded(r, NewServer([], []));
    forall ip | ip in roots
      ensures KnownAddress(r.address, [], ip)
    {
      assert Recorded(r, NewAddress([], ip));
    }
    var k :| 0 <= k < |r.ns| && Same(r.ns[k].owner, []) && Same(r.ns[k].server, []);
    assert KnownQuery(r.query, r.ns[k].server, [0, 1]);
  }

  lemma OnlyStartedAll(name: Name, kind: Kind, roots: seq<Ip>, r: Relations)
    requires ComesFrom(FirstFacts(name, kind, roots), NOTHING, r)
    ensures OnlyStarted(r, name, kind, roots)
  {
    forall f: Fact
      ensures f in FirstFacts(name, kind, roots)
         <==> f == NewQuery(name, kind) || f == NewServer([], []) || (f.NewAddress? && f.owner == [] && f.ip in roots)
    {
      FirstFactIff(name, kind, roots, f);
    }
  }

  lemma StaysStarted(r: Relations, s: Relations, name: Name, kind: Kind, roots: seq<Ip>)
    requires Started(r, name, kind, roots) && Grown(r, s)
    ensures Started(s, name, kind, roots)
  {
    KnownGrown(r, s, NewQuery(name, kind));
    KnownGrown(r, s, NewServer([], []));
    KnownGrown(r, s, NewQuery([], [0, 1]));
    forall ip | ip in roots
      ensures KnownAddress(s.address, [], ip)
    {
      KnownGrown(r, s, NewAddress([], ip));
    }
  }

  /** The query's name is not the root and lies under the server's zone, and the server has the address. */
  ghost predicate Due(r: Relations, i: nat, j: nat, k: nat)
    requires i < |r.query| && j < |r.ns| && k < |r.address|
  {
    r.query[i].owner != [] && Under(r.query[i].owner, r.ns[j].owner) && Same(r.ns[j].server, r.address[k].owner)
  }

  /** x asks the k-th address, as one of the j-th server, for the i-th query. */
  ghost predicate Asks(x: Question, r: Relations, i: nat, j: nat, k: nat)
    requires i < |r.query| && j < |r.ns| && k < |r.address|
  {
    && Same(x.owner, r.query[i].owner) && x.kind == r.query[i].kind
    && Same(x.control, r.ns[j].owner) && x.ip == r.address[k].ip
  }

  ghost predicate Asked(qt: seq<Question>, r: Relations, i: nat, j: nat, k: nat)
    requires i < |r.query| && j < |r.ns| && k < |r.address|
  {
    exists m :: 0 <= m < |qt| && Asks(qt[m], r, i, j, k)
  }

  ghost predicate DueQuestion(x: Question, r: Relations) {
    exists i, j, k :: 0 <= i < |r.query| && 0 <= j < |r.ns| && 0 <= k < |r.address|
                      && Due(r, i, j, k) && Asks(x, r, i, j, k)
  }

  /** Whatever is due is in the table. */
  ghost predicate AllAsked(qt: seq<Question>, r: Relations) {
    forall i, j, k :: 0 <= i < |r.query| && 0 <= j < |r.ns| && 0 <= k < |r.address| && Due(r, i, j, k) ==>
      Asked(qt, r, i, j, k)
  }

  /** Whatever is in the table is due. */
  ghost predicate OnlyAsked(qt: seq<Question>, r: Relations) {
    forall m :: 0 <= m < |qt| ==> DueQuestion(qt[m], r)
  }

  ghost predicate SameQuestion(x: Question, y: Question) {
    Same(x.owner, y.owner) && x.kind == y.kind && Same(x.control, y.control) && x.ip == y.ip
  }

  /** No question is in the table twice. */
  ghost predicate OnceAsked(qt: seq<Question>) {
    forall m, n :: 0 <= m < n < |qt| ==> !SameQuestion(qt[m], qt[n])
  }

  /** What the invariant says of the table, entry by entry. */
  lemma JoinAsked(qt: seq<Question>, r: Relations)
    requires Keys(qt) == Join(r.query, r.ns, r.address) && DistinctKeys(qt)
    ensures AllAsked(qt, r) && OnlyAsked(qt, r) && OnceAsked(qt)
  {
    forall i, j, k | 0 <= i < |r.query| && 0 <= j < |r.ns| && 0 <= k < |r.address| && Due(r, i, j, k)
      ensures Asked(qt, r, i, j, k)
    {
      AskedOne(qt, r, i, j, k);
    }
    forall m | 0 <= m < |qt|
      ensures DueQuestion(qt[m], r)
    {
      DueOne(qt, r, m);
    }
    forall m, n | 0 <= m < n < |qt|
      ensures !SameQuestion(qt[m], qt[n])
    {
      assert Key(qt[m]) != Key(qt[n]);
    }
  }

  lemma AskedOne(qt: seq<Question>, r: Relations, i: nat, j: nat, k: nat)
    requires Keys(qt) == Join(r.query, r.ns, r.address)
    requires i < |r.query| && j < |r.ns| && k < |r.address| && Due(r, i, j, k)
    ensures Asked(qt, r, i, j, k)
  {
    assert Match(r.query[i], r.ns[j], r.address[k]);
    assert Ask(r.query[i], r.ns[j], r.address[k]) in Join(r.query, r.ns, r.address);
    var x :| x in qt && Key(x) == Ask(r.query[i], r.ns[j], r.address[k]);
    var m :| 0 <= m < |qt| && qt[m] == x;
    assert Asks(qt[m], r, i, j, k);
  }

  lemma DueOne(qt: seq<Question>, r: Relations, m: nat)
    requires Keys(qt) == Join(r.query, r.ns, r.address) && m < |qt|
    ensures DueQuestion(qt[m], r)
  {
    assert qt[m] in qt;
    assert Key(qt[m]) in Keys(qt);
    var q, n, a :| q in r.query && n in r.ns && a in r.address && Match(q, n, a) && Ask(q, n, a) == Key(qt[m]);
    var i :| 0 <= i < |r.query| && r.query[i] == q;
    var j :| 0 <= j < |r.ns| && r.ns[j] == n;
    var k :| 0 <= k < |r.address| && r.address[k] == a;
    assert Due(r, i, j, k) && Asks(qt[m], r, i, j, k);
  }

  class Tracer {
    var address: seq<Address>
    var ns: seq<Server>
    var query: seq<Query>
    var qt: seq<Question>

    /** The invariant: the questions are exactly the join, each once. */
    ghost predicate Valid()
      reads this
    {
      Keys(qt) == Join(query, ns, address) && DistinctKeys(qt)
    }

    constructor ()
      ensures Valid() && query == [] && ns == [] && address == [] && qt == []
    {
      address, ns, query, qt := [], [], [], [];
      JoinEmpty([], [], []);
    }

    /** qt_add: append the question unless its owner is the root or it is there already. */
    method AddQuestion(q: Name, kind: Kind, control: Name, ip: Ip)
      requires DistinctKeys(qt)
      modifies `qt
      ensures DistinctKeys(qt) && old(qt) <= qt
      ensures Keys(qt) == Keys(old(qt)) + if q == [] then {} else {Key(Question(q, kind, control, ip))}
    {
      if q == [] {
        return;
      }
      var x := Question(q, kind, control, ip);
      for i := 0 to |qt|
        invariant qt == old(qt) && forall j :: 0 <= j < i ==> Key(qt[j]) != Key(x)
      {
        if Same(qt[i].owner, q) && Same(qt[i].control, control) && qt[i].kind == kind && qt[i].ip == ip {
          assert qt[i] in qt && Key(qt[i]) == Key(x);
          return;
        }
      }
      assert Keys(qt + [x]) == Keys(qt) + {Key(x)};
      qt := qt + [x];
    }

    /** query_add */
    method AddQuery(owner: Name, kind: Kind)
      requires Valid()
      modifies `query, `qt
      ensures Valid() && old(qt) <= qt
      ensures query == if KnownQuery(old(query), owner, kind) then old(query) else old(query) + [Query(owner, kind)]
    {
      for i := 0 to |query|
        invariant query == old(query) && qt == old(qt)
        invariant forall j :: 0 <= j < i ==> !(Same(query[j].owner, owner) && query[j].kind == kind)
      {
        if Same(query[i].owner, owner) && query[i].kind == kind {
          return;
        }
      }
      InsertQuery(Query(owner, kind));
    }

    method InsertQuery(x: Query)
      requires Valid()
      modifies `query, `qt
      ensures Valid() && old(qt) <= qt && query == old(query) + [x]
    {
      ghost var before := Keys(qt);
      MoreQueries(query, x, ns, address);
      query := query + [x];
      JoinEmpty([x], [], address);
      UnionStep(before, {}, {});
      for i := 0 to |ns|
        invariant query == old(query) + [x] && DistinctKeys(qt) && old(qt) <= qt
        invariant Keys(qt) == before + Join([x], ns[..i], address)
      {
        NextServer(before, [x], ns, i, address);
        if Under(x.owner, ns[i].owner) {
          AskServer(x, ns[i]);
        } else {
          JoinNotUnder(x, ns[i], address);
        }
      }
      assert ns[..|ns|] == ns;
    }

    /** The inner loop: ask the addresses of one server, whose zone the query is under. */
    method AskServer(x: Query, n: Server)
      requires DistinctKeys(qt) && Under(x.owner, n.owner)
      modifies `qt
      ensures DistinctKeys(qt) && old(qt) <= qt && Keys(qt) == Keys(old(qt)) + Join([x], [n], address)
    {
      ghost var before := Keys(qt);
      JoinEmpty([x], [n], []);
      UnionStep(before, {}, {});
      for j := 0 to |address|
        invariant DistinctKeys(qt) && old(qt) <= qt
        invariant Keys(qt) == before + Join([x], [n], address[..j])
      {
        NextAddress(before, [x], [n], address, j);
        JoinOne(x, n, address[j]);
        if Same(n.server, address[j].owner) {
          AddQuestion(x.owner, x.kind, n.owner, address[j].ip);
        }
      }
      assert address[..|address|] == address;
    }

    /** ns_add: a new server is also queried for its own address. */
    method AddServer(owner: Name, server: Name)
      requires Valid()
      modifies `query, `ns, `qt
      ensures Valid() && old(qt) <= qt
      ensures ns == if KnownServer(old(ns), owner, server) then old(ns) else old(ns) + [Server(owner, server)]
      ensures query == if KnownServer(old(ns), owner, server) || KnownQuery(old(query), server, TYPE_A) then old(query)
                       else old(query) + [Query(server, TYPE_A)]
    {
      for i := 0 to |ns|
        invariant ns == old(ns) && query == old(query) && qt == old(qt)
        invariant forall j :: 0 <= j < i ==> !(Same(ns[j].owner, owner) && Same(ns[j].server, server))
      {
        if Same(ns[i].owner, owner) && Same(ns[i].server, server) {
          return;
        }
      }
      AddQuery(server, TYPE_A);
      InsertServer(Server(owner, server));
    }

    method InsertServer(x: Server)
      requires Valid()
      modifies `ns, `qt
      ensures Valid() && old(qt) <= qt && ns == old(ns) + [x]
    {
      ghost var before := Keys(qt);
      MoreServers(query, ns, x, address);
      ns := ns + [x];
      JoinEmpty([], [x], address);
      UnionStep(before, {}, {});
      for i := 0 to |query|
        invariant ns == old(ns) + [x] && DistinctKeys(qt) && old(qt) <= qt
        invariant Keys(qt) == before + Join(query[..i], [x], address)
      {
        NextQuery(before, query, i, [x], address);
        if Under(query[i].owner, x.owner) {
          AskServer(query[i], x);
        } else {
          JoinNotUnder(query[i], x, address);
        }
      }
      assert query[..|query|] == query;
    }

    /** address_add */
    method AddAddress(owner: Name, ip: Ip)
      requires Valid()
      modifies `address, `qt
      ensures Valid() && old(qt) <= qt
      ensures address == if KnownAddress(old(address), owner, ip) then old(address)
              else old(address) + [Address(owner, ip)]
    {
      for i := 0 to |address|
        invariant address == old(address) && qt == old(qt)
        invariant forall j :: 0 <= j < i ==> !(Same(address[j].owner, owner) && address[j].ip == ip)
      {
        if Same(address[i].owner, owner) && address[i].ip == ip {
          return;
        }
      }
      InsertAddress(Address(owner, ip));
    }

    method InsertAddress(x: Address)
      requires Valid()
      modifies `address, `qt
      ensures Valid() && old(qt) <= qt && address == old(address) + [x]
    {
      ghost var before := Keys(qt);
      MoreAddresses(query, ns, address, x);
      address := address + [x];
      JoinEmpty(query, [], [x]);
      UnionStep(before, {}, {});
      for i := 0 to |ns|
        invariant address == old(address) + [x] && DistinctKeys(qt) && old(qt) <= qt
        invariant Keys(qt) == before + Join(query, ns[..i], [x])
      {
        NextServer(before, query, ns, i, [x]);
        if Same(ns[i].server, x.owner) {
          AskQueries(ns[i], x);
        } else {
          JoinNotSame(query, ns[i], x);
        }
      }
      assert ns[..|ns|] == ns;
    }

    /** The inner loop: all queries under the zone of a server that has the new address. */
    method AskQueries(n: Server, x: Address)
      requires DistinctKeys(qt) && Same(n.server, x.owner)
      modifies `qt
      ensures DistinctKeys(qt) && old(qt) <= qt && Keys(qt) == Keys(old(qt)) + Join(query, [n], [x])
    {
      ghost var before := Keys(qt);
      JoinEmpty([], [n], [x]);
      UnionStep(before, {}, {});
      for j := 0 to |query|
        invariant DistinctKeys(qt) && old(qt) <= qt
        invariant Keys(qt) == before + Join(query[..j], [n], [x])
      {
        NextQuery(before, query, j, [n], [x]);
        JoinOne(query[j], n, x);
        if Under(query[j].owner, n.owner) {
          AddQuestion(query[j].owner, query[j].kind, n.owner, x.ip);
        }
      }
      assert query[..|query|] == query;
    }

    /** The three relations that are given. */
    ghost function Base(): Relations
      reads this
    {
      Relations(query, ns, address)
    }

    method LearnOne(f: Fact)
      requires Valid()
      modifies this
      ensures Valid() && old(qt) <= qt && Base() == Absorb(old(Base()), f)
    {
      match f {
        case NewQuery(owner, kind) => AddQuery(owner, kind);
        case NewServer(owner, server) => AddServer(owner, server);
        case NewAddress(owner, ip) => AddAddress(owner, ip);
      }
    }

    /** The record loop of parsepacket: only records under the zone asked are passed on. */
    method HearRecords(records: seq<Record>, zone: Name)
      requires Valid()
      modifies this
      ensures Valid() && old(qt) <= qt && Base() == AbsorbAll(old(Base()), Kept(records, zone))
    {
      ghost var start := Base();
      for i := 0 to |records|
        invariant Valid() && old(qt) <= qt && Base() == AbsorbAll(start, Kept(records[..i], zone))
      {
        KeptNext(records, i, zone);
        if Under(records[i].owner, zone) {
          HearRecord(records[i], start, Kept(records[..i], zone));
        }
      }
      assert records[..|records|] == records;
    }

    method HearRecord(r: Record, ghost start: Relations, ghost facts: seq<Fact>)
      requires Valid() && Base() == AbsorbAll(start, facts)
      modifies this
      ensures Valid() && old(qt) <= qt && Base() == AbsorbAll(start, facts + FactOf(r))
    {
      match r {
        case NsRecord(owner, server) =>
          AbsorbNext(start, facts, NewServer(owner, server));
          LearnOne(NewServer(owner, server));
        case AddressRecord(owner, ip) =>
          AbsorbNext(start, facts, NewAddress(owner, ip));
          LearnOne(NewAddress(owner, ip));
        case OtherRecord(_) =>
          assert facts + [] == facts;
      }
    }

    /** One more fact, if there is one. */
    method LearnSome(fs: seq<Fact>, ghost start: Relations, ghost facts: seq<Fact>)
      requires Valid() && |fs| <= 1 && Base() == AbsorbAll(start, facts)
      modifies this
      ensures Valid() && old(qt) <= qt && Base() == AbsorbAll(start, facts + fs)
    {
      if fs == [] {
        assert facts + fs == facts;
      } else {
        assert fs == [fs[0]];
        AbsorbNext(start, facts, fs[0]);
        LearnOne(fs[0]);
      }
    }

    /** What main does with one response: its records and alias, and the two special addresses. */
    method Hear(x: Question, r: Reply)
      requires Valid()
      modifies this
      ensures Valid() && old(qt) <= qt && Base() == AbsorbAll(old(Base()), Heard(x, r))
      ensures Taught(x, r, old(Base()), Base()) && NothingElse(x, r, old(Base()), Base())
    {
      HeardTeaches(x, r, Base());
      ghost var start, facts := Base(), Kept(r.records, x.control);
      HearRecords(r.records, x.control);
      LearnSome(ForAlias(x, r), start, facts);
      LearnSome(ForLocal(x, r), start, facts + ForAlias(x, r));
      LearnSome(ForNumeric(x, r), start, facts + ForAlias(x, r) + ForLocal(x, r));
    }

    /** The start of main. */
    method Begin(name: Name, kind: Kind, roots: seq<Ip>)
      requires Valid() && qt == [] && Base() == NOTHING
      modifies this
      ensures Valid() && Base() == AbsorbAll(NOTHING, FirstFacts(name, kind, roots))
    {
      LearnOne(NewQuery(name, kind));
      LearnOne(NewServer([], []));
      FirstTwo(name, kind);
      for k := 0 to |roots|
        invariant Valid() && Base() == AbsorbAll(NOTHING, FirstFacts(name, kind, roots[..k]))
      {
        FirstNext(name, kind, roots, k);
        LearnOne(NewAddress([], roots[k]));
      }
      assert roots[..|roots|] == roots;
    }

    /** main, up to any number of responses: questions are taken from the growing table by index, so none is sent
        twice, each is in the join, and the table is worked off completely unless the responses end first. What is
        known in the end is exactly what the responses have taught, and all of it is about names in the zones asked.
        `skipped` counts how often the test for the zone fails: never. */
    method Run(name: Name, kind: Kind, roots: seq<Ip>, replies: seq<Reply>) returns (sent: seq<Question>, skipped: int)
      requires Valid() && qt == [] && Base() == NOTHING
      modifies this
      ensures Valid() && |sent| <= |replies|
      ensures Base() == AbsorbEach(AbsorbAll(NOTHING, FirstFacts(name, kind, roots)), sent, replies)
      ensures Zoned(Base(), sent)
      ensures Started(Base(), name, kind, roots)
      ensures exists first :: OnlyStarted(first, name, kind, roots) && Account(first, sent, replies, Base())
      ensures AllAsked(qt, Base()) && OnlyAsked(qt, Base()) && OnceAsked(qt)
      ensures sent <= qt && DistinctKeys(sent) && skipped == 0
      ensures AskedInZone(sent)
      ensures |sent| < |replies| ==> sent == qt
    {
      Begin(name, kind, roots);
      ghost var first := Base();
      StartedIs(name, kind, roots);
      sent, skipped := WorkOff(replies);
      BeginZoned(name, kind, roots);
      AnswersZoned(first, sent, replies);
      StaysStarted(first, Base(), name, kind, roots);
      JoinAsked(qt, Base());
    }

    /** The loop of main. */
    method WorkOff(replies: seq<Reply>) returns (sent: seq<Question>, skipped: int)
      requires Valid() && Queried(Base(), 0)
      modifies this
      ensures Valid() && |sent| <= |replies| && Base() == AbsorbEach(old(Base()), sent, replies)
      ensures Account(old(Base()), sent, replies, Base())
      ensures sent <= qt && DistinctKeys(sent) && skipped == 0 && AskedInZone(sent)
      ensures |sent| < |replies| ==> sent == qt
    {
      ghost var first := Base();
      sent, skipped := [], 0;
      var i := 0;
      while i < |qt| && i < |replies|
        invariant Valid() && 0 <= i <= |qt| && i <= |replies| && sent == qt[..i] && skipped == 0
        invariant Base() == AbsorbEach(first, sent, replies) && AskedInZone(sent)
        invariant Account(first, sent, replies, Base())
        decreases |replies| - i
      {
        var x := qt[i];
        InJoin(x);
        if !Under(x.owner, x.control) {
          skipped := skipped + 1;
        } else {
          AbsorbReply(first, sent, x, replies);
          AskedNext(sent, x);
          ghost var before, qs := Base(), sent;
          sent := sent + [x];
          HearNext(i, x, replies[i]);
          NextAccount(first, before, qs, x, replies, Base());
        }
        i := i + 1;
      }
      DistinctPrefix(qt, i);
    }

    /** The answer to the i-th question of the table; the table up to there stays. */
    method HearNext(i: nat, x: Question, r: Reply)
      requires Valid() && i < |qt| && x == qt[i]
      modifies this
      ensures Valid() && old(qt) <= qt && qt[..i + 1] == old(qt)[..i] + [x]
      ensures Base() == AbsorbAll(old(Base()), Heard(x, r)) && Queried(Base(), |old(Base()).ns|)
      ensures Taught(x, r, old(Base()), Base()) && NothingElse(x, r, old(Base()), Base())
    {
      ghost var before := qt;
      AbsorbAllGrown(Base(), Heard(x, r));
      Hear(x, r);
      assert before[..i + 1] == before[..i] + [x];
      PrefixKept(before, qt, i + 1);
    }

    /** Every question in the table is under its zone. */
    lemma InJoin(x: Question)
      requires Valid() && x in qt
      ensures x.owner != [] && Under(x.owner, x.control)
    {
      assert Key(x) in Keys(qt);
      var q, n, a :| q in query && n in ns && a in address && Match(q, n, a) && Ask(q, n, a) == Key(x);
      UnderSame(x.owner, q.owner, x.control, n.owner);
    }
  }

  lemma UnderSame(a: Name, b: Name, y: Name, z: Name)
    requires Canon(a) == Canon(b) && Canon(y) == Canon(z)
    ensures |a| == |b| && (Under(a, y) <==> Under(b, z))
  {
  }
}

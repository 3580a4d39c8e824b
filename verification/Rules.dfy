/** Dependency bookkeeping of the makefile generator. Targets live in one rule table and are named by
    their index in it; a target's dependency array, name and visit serial are columns of the table. */
module Rules {
  import opened Graph

  /** g without the nodes of s: no edges out of them and none into them. */
  ghost function Without(g: Adjacency, s: set<nat>): (h: Adjacency)
    ensures |h| == |g|
  {
    seq(|g|, i requires 0 <= i < |g| => if i in s then [] else Drop(g[i], s))
  }

  ghost function Drop(ds: seq<nat>, s: set<nat>): (r: seq<nat>)
    ensures forall d :: d in r <==> d in ds && d !in s
  {
    if ds == [] then [] else (if ds[0] in s then [] else [ds[0]]) + Drop(ds[1..], s)
  }

  class RuleTable {
    var names: seq<string>
    var deps: Adjacency
    var serial: seq<nat>
    var depSerial: nat

    ghost predicate Valid()
      reads this
    {
      && |names| == |deps| == |serial|
      && Closed(deps)
      && Distinct(names)
    }

    constructor (names: seq<string>, deps: Adjacency)
      requires |names| == |deps| && Closed(deps) && Distinct(names)
      ensures Valid() && this.names == names && this.deps == deps && depSerial == 0
      ensures forall i :: 0 <= i < |serial| ==> serial[i] == 0
    {
      this.names, this.deps, serial, depSerial := names, deps, seq(|names|, _ => 0), 0;
    }

    /** The targets not yet among t's dependencies: what an addition can still consume. */
    ghost function Missing(t: nat): set<nat>
      requires t < |deps|
      reads this
    {
      Nodes(|deps|) - Elements(deps[t])
    }

    // ----- incremental transitive closure -----

    /** rule_add_dep. `g` are the dependencies when the outermost call started: only t's have changed since. */
    method AddDep(t: nat, other: nat, ghost g: Adjacency) returns (added: bool)
      requires Valid() && t < |deps| && other < |deps|
      requires |g| == |deps| && Closed(g) && (forall i :: 0 <= i < |g| && i != t ==> g[i] == deps[i]) && g[t] <= deps[t]
      modifies `deps
      ensures Valid() && |deps| == |g| && (forall i :: 0 <= i < |g| && i != t ==> deps[i] == g[i])
      ensures added <==> other !in old(deps[t])
      ensures !added ==> deps == old(deps)
      ensures old(deps[t]) <= deps[t] && other in deps[t]
      ensures Distinct(old(deps[t])) ==> Distinct(deps[t])
      ensures forall k :: |old(deps[t])| <= k < |deps[t]| ==> Added(g, g[t], deps[t], other, deps[t][k])
      decreases Missing(t)
    {
      ghost var before := deps[t];
      if other in deps[t] {
        return false;
      }
      deps := deps[t := deps[t] + [other]];
      ghost var start := deps[t];
      var k := 0;
      while k < |deps[other]|
        invariant Valid() && |deps| == |g| && (forall i :: 0 <= i < |g| && i != t ==> deps[i] == g[i])
        invariant start <= deps[t]
        invariant k <= |deps[other]|
        invariant AllIn(deps[other], k, deps[t])
        invariant Distinct(before) ==> Distinct(deps[t])
        invariant other == t ==> deps[t] == start
        invariant forall j :: |start| <= j < |deps[t]| ==> Added(g, g[t], deps[t], other, deps[t][j])
        decreases |deps[other]| - k
      {
        ghost var was := deps[t];
        var child := deps[other][k];
        assert child in deps[other];
        assert before <= start <= deps[t] && start[|before|] == other;
        assert Missing(t) <= old(Missing(t)) && other in old(Missing(t)) && other !in Missing(t);
        var more := AddDep(t, child, g);
        AddedAfter(g, g[t], was, deps[t], |start|, other, child);
        AllInNext(deps[other], k, was, deps[t]);
        k := k + 1;
      }
      assert deps[t][|before|] == other;
      ReachSelf(Without(g, Elements(g[t])), other);
      added := true;
    }

    /** A call of rule_add_dep from outside, on any graph, cyclic or not. What is added to t's dependencies is
        exactly what can be reached from other without passing through those t had; if those were closed
        under dependency, t ends up with them and everything reachable from other, closed again. */
    method AddDependency(t: nat, other: nat) returns (added: bool)
      requires Valid() && t < |deps| && other < |deps|
      modifies `deps
      ensures Valid() && |deps| == |old(deps)| && (forall i :: 0 <= i < |deps| && i != t ==> deps[i] == old(deps)[i])
      ensures old(deps[t]) <= deps[t]
      ensures Distinct(old(deps[t])) ==> Distinct(deps[t])
      ensures added <==> other !in old(deps[t])
      ensures Elements(deps[t]) == Elements(old(deps[t]))
                                 + if added then ReachSet(Without(old(deps), Elements(old(deps[t]))), other) else {}
      ensures SelfContained(old(deps), t) ==>
                Elements(deps[t]) == Elements(old(deps[t])) + ReachSet(old(deps), other) && SelfContained(deps, t)
    {
      ghost var g := deps;
      added := AddDep(t, other, g);
      if added {
        AddedExactly(g, t, deps[t], other);
      }
      if SelfContained(g, t) {
        ClosureExactly(g, t, other);
        ClosureClosed(g, deps, t, other);
      }
    }

    // ----- marked depth-first listing -----

    /** rule_dep_list_recursive. The list `hier` of names on the current path never suppresses a visit:
        everything on it is marked already, so the serial test comes first. */
    method ListDeps(t: nat, listed: set<string>, hier: seq<string>) returns (names': set<string>)
      requires Valid() && t < |deps| && serial[t] != depSerial
      requires forall h :: h in hier ==> h == names[t] || h in NamesOf(names, Marked(serial, depSerial))
      modifies `serial
      ensures Valid() && serial[t] == depSerial
      ensures forall i :: 0 <= i < |serial| ==> serial[i] == old(serial)[i] || serial[i] == depSerial
      ensures forall n :: n in Marked(serial, depSerial) - Marked(old(serial), depSerial) ==>
              Visited(deps, serial, depSerial, t, n)
      ensures names' == listed + NamesOf(names, Marked(serial, depSerial) - Marked(old(serial), depSerial) - {t})
      decreases Nodes(|deps|) - Marked(serial, depSerial)
    {
      ghost var m0 := Marked(serial, depSerial);
      serial := serial[t := depSerial];
      names' := listed;
      assert Marked(serial, depSerial) == m0 + {t};
      assert Marked(serial, depSerial) - m0 - {t} == {};
      for k := 0 to |deps[t]|
        invariant Valid() && serial[t] == depSerial
        invariant forall i :: 0 <= i < |serial| ==> serial[i] == old(serial)[i] || serial[i] == depSerial
        invariant m0 + {t} <= Marked(serial, depSerial)
        invariant forall j :: 0 <= j < k ==> deps[t][j] in Marked(serial, depSerial)
        invariant forall n :: n in Marked(serial, depSerial) - m0 - {t} ==> Visited(deps, serial, depSerial, t, n)
        invariant names' == listed + NamesOf(names, Marked(serial, depSerial) - m0 - {t})
      {
        var c := deps[t][k];
        assert c in deps[t];
        if serial[c] == serial[t] {
          continue;
        }
        var name := names[c];
        ghost var m, was := Marked(serial, depSerial), serial;
        NotOnPath(names, hier, t, m, c);
        if name !in hier {
          var deeper := ListDeps(c, names', hier + [name]);
          names' := deeper + {name};
          ghost var m' := Marked(serial, depSerial);
          ListStep(names, listed, m0, m, m', t, c);
          VisitStep(deps, was, serial, depSerial, m0, t, c);
        }
      }
      ReachSelf(deps, t);
    }

    /** rule_dep_list: exactly the names of the other targets reachable from t, provided no target carries the
        new serial from an earlier listing. */
    method DepList(t: nat) returns (list: set<string>)
      requires Valid() && t < |deps|
      requires forall i :: 0 <= i < |serial| ==> serial[i] != (depSerial - 1) % 0x1_0000_0000
      modifies `serial, `depSerial
      ensures Valid()
      ensures list == NamesOf(names, ReachSet(deps, t) - {t})
      ensures forall x :: x in list <==> exists i: nat :: i < |names| && i != t && Reach(deps, t, i) && names[i] == x
      ensures forall i :: 0 <= i < |serial| ==> serial[i] == if Reach(deps, t, i) then depSerial else old(serial)[i]
    {
      depSerial := (depSerial - 1) % 0x1_0000_0000;
      ghost var before := serial;
      assert Marked(serial, depSerial) == {};
      list := ListDeps(t, {}, [names[t]]);
      MarkedIsReach(deps, before, serial, depSerial, t);
      NamesReached(names, deps, t);
    }
  }

  ghost function NamesOf(names: seq<string>, s: set<nat>): (r: set<string>)
    ensures forall i :: i in s && i < |names| ==> names[i] in r
    ensures forall x :: x in r ==> exists i :: i in s && i < |names| && names[i] == x
  {
    set i | i in s && i < |names| :: names[i]
  }

  lemma NamesReached(names: seq<string>, g: Adjacency, t: nat)
    requires |names| == |g| && t < |g|
    ensures forall x :: x in NamesOf(names, ReachSet(g, t) - {t}) <==>
              exists i: nat :: i < |names| && i != t && Reach(g, t, i) && names[i] == x
  {
    forall i: nat | i < |names| && i != t && Reach(g, t, i)
      ensures names[i] in NamesOf(names, ReachSet(g, t) - {t})
    {
      assert i in ReachSet(g, t) - {t};
    }
  }

  /** n has been reached from t, and all its dependencies are marked. */
  ghost predicate Visited(g: Adjacency, serial: seq<nat>, cur: nat, t: nat, n: nat) {
    n < |g| && Reach(g, t, n) && forall d :: d in g[n] ==> d in Marked(serial, cur)
  }

  /** After the visit of dependency c, all that was marked on behalf of t has been visited. */
  lemma VisitStep(g: Adjacency, was: seq<nat>, now: seq<nat>, cur: nat, m0: set<nat>, t: nat, c: nat)
    requires Closed(g) && t < |g| && c in g[t] && Marked(was, cur) <= Marked(now, cur)
    requires forall n :: n in Marked(was, cur) - m0 - {t} ==> Visited(g, was, cur, t, n)
    requires forall n :: n in Marked(now, cur) - Marked(was, cur) ==> Visited(g, now, cur, c, n)
    ensures forall n :: n in Marked(now, cur) - m0 - {t} ==> Visited(g, now, cur, t, n)
  {
    forall n | n in Marked(now, cur) - m0 - {t}
      ensures Visited(g, now, cur, t, n)
    {
      if n in Marked(was, cur) {
        assert Visited(g, was, cur, t, n);
      } else {
        assert Visited(g, now, cur, c, n);
        ReachEdge(g, t, c, n);
      }
    }
  }

  lemma NotOnPath(names: seq<string>, hier: seq<string>, t: nat, m: set<nat>, c: nat)
    requires Distinct(names) && t < |names| && c < |names| && t in m && c !in m
    requires forall h :: h in hier ==> h == names[t] || h in NamesOf(names, m)
    ensures names[c] !in hier
  {
    forall i | i in m && i < |names|
      ensures names[i] != names[c]
    {
      assert i != c;
    }
  }

  lemma ListStep(names: seq<string>, listed: set<string>, m0: set<nat>, m: set<nat>, m': set<nat>, t: nat, c: nat)
    requires m0 + {t} <= m <= m' && c in m' && c !in m && c < |names|
    ensures listed + NamesOf(names, m - m0 - {t}) + NamesOf(names, m' - m - {c}) + {names[c]}
         == listed + NamesOf(names, m' - m0 - {t})
  {
  }

  lemma MarkedIsReach(g: Adjacency, before: seq<nat>, serial: seq<nat>, cur: nat, t: nat)
    requires Closed(g) && |g| == |before| == |serial| && t < |g| && serial[t] == cur && Marked(before, cur) == {}
    requires forall n :: n in Marked(serial, cur) - Marked(before, cur) ==> Visited(g, serial, cur, t, n)
    ensures Marked(serial, cur) == ReachSet(g, t)
    ensures Marked(serial, cur) - Marked(before, cur) - {t} == ReachSet(g, t) - {t}
  {
    var m := Marked(serial, cur);
    forall n | n in m
      ensures n in ReachSet(g, t)
    {
      assert Visited(g, serial, cur, t, n);
    }
    forall n | n in ReachSet(g, t)
      ensures n in m
    {
      forall i, d | i in m && i < |g| && d in g[i]
        ensures d in m
      {
        assert Visited(g, serial, cur, t, i);
      }
      ReachClosed(g, m, t, n);
    }
  }

  /** n was added to the dependencies ds on behalf of other: it is reachable without passing through the
      original dependencies, and its own dependencies are all in ds. */
  ghost predicate Added(g: Adjacency, original: seq<nat>, ds: seq<nat>, other: nat, n: nat) {
    n < |g| && n !in original && Reach(Without(g, Elements(original)), other, n) && forall d :: d in g[n] ==> d in ds
  }

  lemma AddedVia(g: Adjacency, original: seq<nat>, ds: seq<nat>, other: nat, child: nat, n: nat)
    requires Added(g, original, ds, child, n) && other < |g| && child in g[other] && other !in original
             && child !in original
    ensures Added(g, original, ds, other, n)
  {
    ReachEdge(Without(g, Elements(original)), other, child, n);
  }

  ghost predicate AllIn(ds: seq<nat>, k: nat, es: seq<nat>)
    requires k <= |ds|
  {
    forall j :: 0 <= j < k ==> ds[j] in es
  }

  lemma AllInNext(ds: seq<nat>, k: nat, was: seq<nat>, now: seq<nat>)
    requires k < |ds| && AllIn(ds, k, was) && was <= now && ds[k] in now
    ensures AllIn(ds, k + 1, now)
  {
    forall j | 0 <= j < k + 1
      ensures ds[j] in now
    {
      assert j < k ==> ds[j] in was;
    }
  }

  /** After child has been added on behalf of other, everything new still belongs to other. */
  lemma AddedAfter(g: Adjacency, original: seq<nat>, was: seq<nat>, now: seq<nat>, start: nat, other: nat, child: nat)
    requires was <= now && forall j :: start <= j < |was| ==> Added(g, original, was, other, was[j])
    requires forall j :: |was| <= j < |now| ==> Added(g, original, now, child, now[j])
    requires |was| < |now| ==> other < |g| && child in g[other] && other !in original && child !in original
    ensures forall j :: start <= j < |now| ==> Added(g, original, now, other, now[j])
  {
    forall j | start <= j < |now|
      ensures Added(g, original, now, other, now[j])
    {
      if j < |was| {
        assert Added(g, original, was, other, was[j]);
      } else {
        AddedVia(g, original, now, other, child, now[j]);
      }
    }
  }

  /** t's dependencies contain their own dependencies. */
  ghost predicate SelfContained(g: Adjacency, t: nat)
    requires t < |g|
  {
    forall d, e :: d in g[t] && d < |g| && e in g[d] ==> e in g[t]
  }

  lemma WithoutSub(g: Adjacency, s: set<nat>, a: nat, b: nat)
    requires Closed(g) && Reach(Without(g, s), a, b)
    ensures Reach(g, a, b)
  {
    var h := Without(g, s);
    var r := ReachSet(g, a);
    ReachBound(h, a, b);
    ReachSelf(g, a);
    forall i, d | i in r && i < |h| && d in h[i]
      ensures d in r
    {
      ReachSnoc(g, a, i, d);
    }
    ReachClosed(h, r, a, b);
  }

  lemma AddedExactly(g: Adjacency, t: nat, ds: seq<nat>, other: nat)
    requires Closed(g) && t < |g| && g[t] <= ds && other in ds && other !in g[t]
    requires forall k :: |g[t]| <= k < |ds| ==> Added(g, g[t], ds, other, ds[k])
    ensures Elements(ds) == Elements(g[t]) + ReachSet(Without(g, Elements(g[t])), other)
  {
    var had := Elements(g[t]);
    var h := Without(g, had);
    var extra := Elements(ds) - had;
    assert forall k :: 0 <= k < |g[t]| ==> ds[k] in had;
    forall n | n in extra
      ensures Added(g, g[t], ds, other, n)
    {
      var k :| 0 <= k < |ds| && ds[k] == n;
      assert k >= |g[t]|;
    }
    forall n | n in ReachSet(h, other)
      ensures n in extra
    {
      forall i, d | i in extra && i < |h| && d in h[i]
        ensures d in extra
      {
        assert Added(g, g[t], ds, other, i);
      }
      ReachClosed(h, extra, other, n);
    }
    forall n | n in extra
      ensures n in ReachSet(h, other)
    {
    }
  }

  lemma ClosureExactly(g: Adjacency, t: nat, other: nat)
    requires Closed(g) && t < |g| && other < |g| && SelfContained(g, t)
    ensures other in g[t] ==> Elements(g[t]) == Elements(g[t]) + ReachSet(g, other)
    ensures Elements(g[t]) + ReachSet(Without(g, Elements(g[t])), other) == Elements(g[t]) + ReachSet(g, other)
  {
    var had := Elements(g[t]);
    var h := Without(g, had);
    var s := had + ReachSet(h, other);
    ReachSelf(h, other);
    forall i, d | i in s && i < |g| && d in g[i]
      ensures d in s
    {
      if i !in had && d !in had {
        ReachSnoc(h, other, i, d);
      }
    }
    forall n | n in ReachSet(g, other)
      ensures n in s
    {
      ReachClosed(g, s, other, n);
    }
    forall n | n in ReachSet(h, other)
      ensures n in ReachSet(g, other)
    {
      WithoutSub(g, had, other, n);
    }
    if other in g[t] {
      forall n | n in ReachSet(g, other)
        ensures n in had
      {
        ReachClosed(g, had, other, n);
      }
    }
  }

  /** Closed dependencies stay closed. */
  lemma ClosureClosed(g: Adjacency, h: Adjacency, t: nat, other: nat)
    requires Closed(g) && |h| == |g| && t < |g| && other < |g| && SelfContained(g, t)
    requires forall i :: 0 <= i < |g| && i != t ==> h[i] == g[i]
    requires Elements(h[t]) == Elements(g[t]) + ReachSet(g, other)
    ensures SelfContained(h, t)
  {
    forall d, e | d in h[t] && d < |h| && e in h[d]
      ensures e in h[t]
    {
      if d != t {
        assert d in Elements(h[t]);
        if d !in g[t] {
          ReachSnoc(g, other, d, e);
          assert e in Elements(h[t]);
        } else {
          assert e in Elements(h[t]);
        }
      }
    }
  }
}

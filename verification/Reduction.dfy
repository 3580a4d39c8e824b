/** Transitive reduction of a dependency array in place: entries that another entry depends on, directly or
    not, are nulled during a depth-first walk over the dependencies of all entries, then squeezed out. */
module Reduction {
  import opened Graph

  /** The null pointer among target indices. */
  const NULL := -1
  const MAX_DEPTH := 100

  /** Acyclic with chains of bounded length: every dependency has a smaller rank. */
  ghost predicate Ranked(g: Adjacency, rank: seq<nat>) {
    Closed(g) && |rank| == |g| && forall i, d :: 0 <= i < |g| && d in g[i] ==> d < |g| && rank[d] < rank[i]
  }

  /** Entries are null or targets, and no target occurs twice. */
  ghost predicate Entries(es: seq<int>, n: nat) {
    && (forall i :: 0 <= i < |es| ==> es[i] == NULL || 0 <= es[i] < n)
    && (forall i, j :: 0 <= i < j < |es| && es[i] == es[j] ==> es[i] == NULL)
  }

  /** Entry e is one of ds or something they depend on. */
  ghost predicate Hit(ds: seq<nat>, g: Adjacency, e: int) {
    e >= 0 && exists c :: c in ds && Reach(g, c, e)
  }

  // ----- the walk -----

  /** remove_indirect_deps_recursive below the top level: `a` is the dependency array of u. */
  method NullBelow(g: Adjacency, top: array<int>, u: nat, depth: nat, ghost rank: seq<nat>)
    requires Ranked(g, rank) && u < |g| && 1 <= depth <= MAX_DEPTH && rank[u] <= MAX_DEPTH + 1 - depth
    requires Entries(top[..], |g|)
    modifies top
    ensures Entries(top[..], |g|)
    ensures forall k :: 0 <= k < top.Length ==> top[k] == if Hit(g[u], g, old(top[k])) then NULL else old(top[k])
    decreases MAX_DEPTH - depth
  {
    ghost var was := top[..];
    var p := 0;
    while p < |g[u]|
      invariant 0 <= p <= |g[u]| && Entries(top[..], |g|)
      invariant forall k :: 0 <= k < top.Length ==> top[k] == if Hit(g[u][..p], g, was[k]) then NULL else was[k]
    {
      var t := g[u][p];
      assert t in g[u];
      ghost var now := top[..];
      NullFound(top, t, |g|);
      ghost var found := top[..];
      if u != t {
        if depth < MAX_DEPTH && |g[t]| > 0 {
          NullBelow(g, top, t, depth + 1, rank);
        } else {
          LeafHits(g, rank, t);
        }
      }
      HitNext(g, was, now, found, top[..], g[u], p);
      p := p + 1;
    }
    assert g[u][..p] == g[u];
  }

  /** The first occurrence of t, if any, is nulled. */
  method NullFound(top: array<int>, t: nat, ghost n: nat)
    requires Entries(top[..], n)
    modifies top
    ensures Entries(top[..], n)
    ensures forall k :: 0 <= k < top.Length ==> top[k] == if old(top[k]) == t then NULL else old(top[k])
  {
    var i := 0;
    while i < top.Length
      invariant 0 <= i <= top.Length && top[..] == old(top[..])
      invariant forall k :: 0 <= k < i ==> top[k] != t
    {
      if top[i] == t {
        ghost var was := top[..];
        forall k | 0 <= k < top.Length && k != i
          ensures was[k] != t
        {
        }
        top[i] := NULL;
        return;
      }
      i := i + 1;
    }
  }

  /** A target at the depth limit has no dependencies left. */
  lemma LeafHits(g: Adjacency, rank: seq<nat>, t: nat)
    requires Ranked(g, rank) && t < |g| && (rank[t] == 0 || g[t] == [])
    ensures g[t] == []
  {
    assert forall d :: d in g[t] ==> rank[d] < rank[t];
    HasElement(g[t]);
  }

  lemma HasElement(s: seq<nat>)
    ensures s == [] || exists d :: d in s
  {
    if s != [] {
      assert s[0] in s;
    }
  }

  /** Looking at one more dependency t = ds[p] hits t itself and everything below it. */
  lemma HitNext(g: Adjacency, was: seq<int>, now: seq<int>, found: seq<int>, after: seq<int>, ds: seq<nat>, p: nat)
    requires Closed(g) && p < |ds| && ds[p] < |g| && |was| == |now| == |found| == |after| && Entries(was, |g|)
    requires forall k :: 0 <= k < |was| ==> now[k] == if Hit(ds[..p], g, was[k]) then NULL else was[k]
    requires forall k :: 0 <= k < |was| ==> found[k] == if now[k] == ds[p] then NULL else now[k]
    requires forall k :: 0 <= k < |was| ==> after[k] == if Hit(g[ds[p]], g, found[k]) then NULL else found[k]
    ensures forall k :: 0 <= k < |was| ==> after[k] == if Hit(ds[..p + 1], g, was[k]) then NULL else was[k]
  {
    var t := ds[p];
    assert ds[..p + 1] == ds[..p] + [t];
    forall k | 0 <= k < |was|
      ensures after[k] == if Hit(ds[..p + 1], g, was[k]) then NULL else was[k]
    {
      var e := was[k];
      if e >= 0 {
        ReachSplit(g, t, e);
        assert Hit(ds[..p + 1], g, e) <==> Hit(ds[..p], g, e) || Reach(g, t, e);
      }
    }
  }

  lemma ReachSplit(g: Adjacency, t: nat, e: nat)
    requires t < |g|
    ensures Reach(g, t, e) <==> t == e || Hit(g[t], g, e)
  {
    ReachSelf(g, t);
    if Reach(g, t, e) && t != e {
      ReachFirst(g, t, e);
    }
    if Hit(g[t], g, e) {
      var c :| c in g[t] && Reach(g, c, e);
      ReachEdge(g, t, c, e);
    }
  }

  /** Entry e is a dependency, direct or not, of one of es. */
  ghost predicate Indirect(g: Adjacency, es: seq<int>, e: int) {
    e >= 0 && exists f: nat :: f in es && f < |g| && Hit(g[f], g, e)
  }

  /** The walk at the top level: here `a` is the array whose entries are being nulled. */
  method NullIndirect(g: Adjacency, top: array<int>, ghost rank: seq<nat>)
    requires Ranked(g, rank) && Entries(top[..], |g|) && NULL !in top[..]
    requires forall k :: 0 <= k < top.Length && 0 <= top[k] < |g| ==> rank[top[k]] <= 100
    modifies top
    ensures forall k :: 0 <= k < top.Length ==> top[k] == if Indirect(g, old(top[..]), old(top[k])) then NULL
            else old(top[k])
  {
    ghost var was := top[..];
    var p := 0;
    assert was[..0] == [];
    while p < top.Length
      invariant 0 <= p <= top.Length && Entries(top[..], |g|)
      invariant forall k :: 0 <= k < top.Length ==> top[k] == if Indirect(g, was[..p], was[k]) then NULL else was[k]
    {
      var t := top[p];
      ghost var now := top[..];
      assert was[p] in was && was[..p + 1] == was[..p] + [was[p]];
      if t == NULL {
        SkippedEntry(g, was, p);
      } else {
        if |g[t]| > 0 {
          NullBelow(g, top, t, 1, rank);
        }
        IndirectNext(g, was, now, top[..], p);
      }
      p := p + 1;
    }
    assert was[..p] == was;
  }

  lemma IndirectNext(g: Adjacency, was: seq<int>, now: seq<int>, after: seq<int>, p: nat)
    requires p < |was| == |now| == |after| && 0 <= was[p] < |g|
    requires forall k :: 0 <= k < |was| ==> now[k] == if Indirect(g, was[..p], was[k]) then NULL else was[k]
    requires forall k :: 0 <= k < |was| ==> after[k] == if Hit(g[was[p]], g, now[k]) then NULL else now[k]
    ensures forall k :: 0 <= k < |was| ==> after[k] == if Indirect(g, was[..p + 1], was[k]) then NULL else was[k]
  {
    assert was[..p + 1] == was[..p] + [was[p]];
    forall k | 0 <= k < |was|
      ensures Indirect(g, was[..p + 1], was[k]) <==> Indirect(g, was[..p], was[k]) || Hit(g[was[p]], g, was[k])
    {
      if Hit(g[was[p]], g, was[k]) {
        assert was[p] in was[..p + 1];
      }
      if Indirect(g, was[..p], was[k]) {
        var f: nat :| f in was[..p] && f < |g| && Hit(g[f], g, was[k]);
        assert f in was[..p + 1];
      }
    }
  }

  /** An entry nulled before its turn need not be walked: the entry that reaches it has been walked, or was
      itself reached from one that has. */
  lemma SkippedEntry(g: Adjacency, was: seq<int>, p: nat)
    requires Closed(g) && p < |was| && 0 <= was[p] < |g| && Indirect(g, was[..p], was[p])
    ensures forall k :: 0 <= k < |was| ==> (Indirect(g, was[..p + 1], was[k]) <==> Indirect(g, was[..p], was[k]))
  {
    assert was[..p + 1] == was[..p] + [was[p]];
    var f: nat :| f in was[..p] && f < |g| && Hit(g[f], g, was[p]);
    var c :| c in g[f] && Reach(g, c, was[p]);
    forall k | 0 <= k < |was|
      ensures Indirect(g, was[..p + 1], was[k]) <==> Indirect(g, was[..p], was[k])
    {
      var e := was[k];
      if Indirect(g, was[..p], e) {
        var h: nat :| h in was[..p] && h < |g| && Hit(g[h], g, e);
        assert h in was[..p + 1];
      }
      if e >= 0 && Hit(g[was[p]], g, e) {
        ReachSplit(g, was[p], e);
        ReachTrans(g, c, was[p], e);
        assert Hit(g[f], g, e);
      }
    }
  }

  // ----- squeezing out the nulls -----

  /** The entries that no other entry depends on, in order. */
  ghost function Direct(g: Adjacency, all: seq<int>, es: seq<int>): seq<int> {
    if es == [] then []
    else Direct(g, all, es[..|es| - 1]) + if Indirect(g, all, es[|es| - 1]) then [] else [es[|es| - 1]]
  }

  /** remove_indirect_deps; `kept` is the length to which the array is truncated. */
  method RemoveIndirectDeps(g: Adjacency, deps: array<int>, ghost rank: seq<nat>) returns (kept: nat, removed: nat)
    requires Ranked(g, rank) && Entries(deps[..], |g|) && NULL !in deps[..]
    requires forall k :: 0 <= k < deps.Length && 0 <= deps[k] < |g| ==> rank[deps[k]] <= 100
    modifies deps
    ensures kept <= deps.Length && deps[..kept] == Direct(g, old(deps[..]), old(deps[..]))
    ensures removed == deps.Length - kept
  {
    ghost var was := deps[..];
    NullIndirect(g, deps, rank);
    DirectIsNonNull(g, was, deps[..], |was|);
    assert was[..|was|] == was && deps[..][..|was|] == deps[..];
    kept := Squeeze(deps);
    removed := deps.Length - kept;
  }

  ghost function NonNull(es: seq<int>): seq<int> {
    if es == [] then [] else NonNull(es[..|es| - 1]) + if es[|es| - 1] == NULL then [] else [es[|es| - 1]]
  }

  /** The loop that moves the remaining entries to the front. */
  method Squeeze(a: array<int>) returns (w: nat)
    modifies a
    ensures w <= a.Length && a[..w] == NonNull(old(a[..]))
  {
    ghost var was := a[..];
    w := 0;
    for r := 0 to a.Length
      invariant w <= r && a[..w] == NonNull(was[..r]) && forall k :: r <= k < a.Length ==> a[k] == was[k]
    {
      assert was[..r + 1][..r] == was[..r];
      if a[r] != NULL {
        ghost var head := a[..w];
        a[w] := a[r];
        w := w + 1;
        assert a[..w] == head + [was[r]];
      }
    }
    assert was[..a.Length] == was;
  }

  lemma {:induction false} DirectIsNonNull(g: Adjacency, was: seq<int>, nulled: seq<int>, n: nat)
    requires n <= |was| == |nulled| && NULL !in was
    requires forall k :: 0 <= k < |was| ==> nulled[k] == if Indirect(g, was, was[k]) then NULL else was[k]
    ensures NonNull(nulled[..n]) == Direct(g, was, was[..n])
  {
    if n > 0 {
      DirectIsNonNull(g, was, nulled, n - 1);
      assert nulled[..n][..n - 1] == nulled[..n - 1] && was[..n][..n - 1] == was[..n - 1];
      assert was[n - 1] in was;
    }
  }

  // ----- what the reduction keeps -----

  lemma {:induction false} DirectMembers(g: Adjacency, all: seq<int>, es: seq<int>)
    ensures forall e :: e in Direct(g, all, es) <==> e in es && !Indirect(g, all, e)
  {
    if es != [] {
      var n := |es| - 1;
      DirectMembers(g, all, es[..n]);
      assert es == es[..n] + [es[n]];
    }
  }

  /** Exactly the entries at these places are kept, in the order they had. */
  lemma {:induction false} DirectIsFilter(g: Adjacency, all: seq<int>, es: seq<int>) returns (at: seq<nat>)
    ensures Selects(at, es, Direct(g, all, es))
    ensures KeepsDirect(g, all, es, at)
  {
    if es == [] {
      at := [];
    } else {
      var before := DirectIsFilter(g, all, es[..|es| - 1]);
      at := KeepNext(g, all, es, Direct(g, all, es[..|es| - 1]), before);
    }
  }

  lemma KeepNext(g: Adjacency, all: seq<int>, es: seq<int>, ds: seq<int>, before: seq<nat>) returns (at: seq<nat>)
    requires es != [] && Selects(before, es[..|es| - 1], ds) && KeepsDirect(g, all, es[..|es| - 1], before)
    ensures Selects(at, es, ds + if Indirect(g, all, es[|es| - 1]) then [] else [es[|es| - 1]])
    ensures KeepsDirect(g, all, es, at)
  {
    SelectsMore(before, es, ds);
    at := if Indirect(g, all, es[|es| - 1]) then before else before + [|es| - 1];
    KeepMore(g, all, es, before);
    assert ds + [] == ds;
  }

  lemma KeepMore(g: Adjacency, all: seq<int>, es: seq<int>, before: seq<nat>)
    requires es != [] && KeepsDirect(g, all, es[..|es| - 1], before) && |es| - 1 !in before
    ensures KeepsDirect(g, all, es, if Indirect(g, all, es[|es| - 1]) then before else before + [|es| - 1])
  {
    var n := |es| - 1;
    forall i | 0 <= i < |es|
      ensures i in (if Indirect(g, all, es[n]) then before else before + [n]) <==> !Indirect(g, all, es[i])
    {
      assert i < n ==> es[..n][i] == es[i];
    }
  }

  /** The places are those of the entries that no other entry depends on. */
  ghost predicate KeepsDirect(g: Adjacency, all: seq<int>, es: seq<int>, at: seq<nat>) {
    forall i :: 0 <= i < |es| ==> (i in at <==> !Indirect(g, all, es[i]))
  }

  /** ds are the elements of es at the given places, which ascend. */
  ghost predicate Selects(at: seq<nat>, es: seq<int>, ds: seq<int>) {
    && |at| == |ds|
    && (forall j :: 0 <= j < |at| ==> at[j] < |es| && ds[j] == es[at[j]])
    && (forall i, j :: 0 <= i < j < |at| ==> at[i] < at[j])
  }

  lemma SelectsMore(at: seq<nat>, es: seq<int>, ds: seq<int>)
    requires es != [] && Selects(at, es[..|es| - 1], ds)
    ensures Selects(at, es, ds) && Selects(at + [|es| - 1], es, ds + [es[|es| - 1]]) && |es| - 1 !in at
  {
  }

  lemma {:induction false} HighestRank(rank: seq<nat>) returns (top: nat)
    ensures forall i :: 0 <= i < |rank| ==> rank[i] <= top
  {
    if rank == [] {
      top := 0;
    } else {
      top := HighestRank(rank[1..]);
      top := if top < rank[0] then rank[0] else top;
      assert forall i :: 0 < i < |rank| ==> rank[i] == rank[1..][i - 1];
    }
  }

  /** Every entry is reachable from an entry that is kept. */
  lemma {:induction false} KeptReaches(g: Adjacency, rank: seq<nat>, top: nat, es: seq<int>, e: nat) returns (k: nat)
    requires Ranked(g, rank) && (forall i :: 0 <= i < |es| ==> 0 <= es[i] < |g|)
    requires e in es && forall i :: 0 <= i < |rank| ==> rank[i] <= top
    ensures k in Direct(g, es, es) && Reach(g, k, e)
    decreases top - rank[e]
  {
    DirectMembers(g, es, es);
    if Indirect(g, es, e) {
      var f: nat :| f in es && f < |g| && Hit(g[f], g, e);
      ReachSplit(g, f, e);
      HitRank(g, rank, f, e);
      k := KeptReaches(g, rank, top, es, f);
      ReachTrans(g, k, f, e);
    } else {
      ReachSelf(g, e);
      k := e;
    }
  }

  lemma HitRank(g: Adjacency, rank: seq<nat>, f: nat, e: nat)
    requires Ranked(g, rank) && f < |g| && Hit(g[f], g, e)
    ensures e < |g| && rank[e] < rank[f]
  {
    var c :| c in g[f] && Reach(g, c, e);
    var s := set i | i in Nodes(|g|) && rank[i] < rank[f];
    ReachClosed(g, s, c, e);
  }

  /** The targets reachable from an array of entries. */
  ghost predicate ReachFrom(g: Adjacency, es: seq<int>, n: nat) {
    exists e: nat :: e in es && Reach(g, e, n)
  }

  /** The reduced array reaches exactly what the whole array reaches, and none of its entries is a
      dependency of another: it is the reduction with the same closure. */
  lemma ReductionKeepsReach(g: Adjacency, rank: seq<nat>, es: seq<int>, n: nat)
    requires Ranked(g, rank) && (forall i :: 0 <= i < |es| ==> 0 <= es[i] < |g|)
    ensures ReachFrom(g, Direct(g, es, es), n) <==> ReachFrom(g, es, n)
    ensures forall e :: e in Direct(g, es, es) ==> !Indirect(g, Direct(g, es, es), e)
  {
    DirectMembers(g, es, es);
    if ReachFrom(g, es, n) {
      var e: nat :| e in es && Reach(g, e, n);
      var top := HighestRank(rank);
      var k := KeptReaches(g, rank, top, es, e);
      ReachTrans(g, k, e, n);
    }
    forall e | e in Direct(g, es, es)
      ensures !Indirect(g, Direct(g, es, es), e)
    {
      forall f: nat | f in Direct(g, es, es) && f < |g|
        ensures !Hit(g[f], g, e)
      {
        assert f in es;
      }
    }
  }
}

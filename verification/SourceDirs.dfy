/** Dependency lists of source directories: a depth-first walk that lists a directory after the directories it
    depends on, marking with the serial of the walk only directories it has descended from. */
module SourceDirs {
  import opened Graph

  const NONE := -1

  ghost predicate Listed(names: seq<string>, out: seq<string>, d: nat) {
    d < |names| && names[d] in out
  }

  /** Each directory's dependencies, apart from itself, are listed before it. */
  ghost predicate Sorted(names: seq<string>, g: Adjacency, out: seq<string>) {
    forall k, n, d :: 0 <= k < |out| && 0 <= n < |g| && SameName(names, n, out[k]) && d in g[n] && d != n ==>
        Listed(names, out[..k], d)
  }

  ghost predicate SameName(names: seq<string>, n: nat, x: string) {
    n < |names| && names[n] == x
  }

  /** Names are the keys of the directories, and g lists the directories that dependency names lead to. */
  ghost predicate Resolves(names: seq<string>, deps: seq<seq<string>>, find: map<string, nat>, g: Adjacency) {
    && |names| == |deps| == |g|
    && Closed(g)
    && Distinct(names)
    && (forall x :: x in find ==> find[x] < |names| && names[find[x]] == x)
    && (forall i, x :: 0 <= i < |deps| && x in deps[i] && x in find ==> find[x] in g[i])
    && (forall i, d :: 0 <= i < |deps| && d in g[i] ==>
          d < |names| && names[d] in deps[i] && names[d] in find && find[names[d]] == d)
  }

  class DirTable {
    const names: seq<string>
    const deps: seq<seq<string>>
    /** The map of source directories, from name to directory. */
    const find: map<string, nat>
    /** deps resolved through the map. */
    ghost const g: Adjacency
    var serial: seq<nat>

    ghost predicate Valid()
      reads this
    {
      |serial| == |names| && Resolves(names, deps, find, g)
    }

    constructor (names: seq<string>, deps: seq<seq<string>>, find: map<string, nat>, serial: seq<nat>,
                 ghost g: Adjacency)
      requires |serial| == |names| && Resolves(names, deps, find, g)
      ensures Valid() && this.names == names && this.deps == deps && this.find == find && this.g == g
              && this.serial == serial
    {
      this.names, this.deps, this.find, this.serial, this.g := names, deps, find, serial, g;
    }

    /** Where the walk stands below d: `active` are the directories it has descended from, all marked; any
        other marked directory is d or listed; nothing is listed twice, and neither d nor an active directory
        is listed. */
    ghost predicate Standing(out: seq<string>, cur: nat, active: set<nat>, d: nat)
      reads this
    {
      && Distinct(out) && !Listed(names, out, d)
      && (forall a :: a in active ==> a < |serial| && serial[a] == cur && !Listed(names, out, a))
      && (forall i :: 0 <= i < |serial| && serial[i] == cur ==> i in active || i == d || Listed(names, out, i))
    }

    /** What was listed since `was` is reachable from d but neither d nor active, and its dependencies are
        listed, active, or d. */
    ghost predicate Found(was: seq<string>, out: seq<string>, d: nat, active: set<nat>)
      reads this
    {
      && was <= out
      && forall k :: |was| <= k < |out| ==>
                       && out[k] in find && Reach(g, d, find[out[k]]) && find[out[k]] != d && find[out[k]] !in active
                       && Covered(out, find[out[k]], d, active)
    }

    ghost predicate Covered(out: seq<string>, n: nat, d: nat, active: set<nat>)
      reads this
    {
      n < |g| && forall e :: e in g[n] ==> e in active || e == d || Listed(names, out, e)
    }

    /** Ranks witness that the directories form no cycle; active directories rank above d. */
    ghost predicate Above(rank: seq<nat>, active: set<nat>, d: nat)
      reads this
    {
      && |rank| == |g| && (forall i, e :: 0 <= i < |g| && e in g[i] && e != i ==> e < |g| && rank[e] < rank[i])
      && d < |g| && forall a :: a in active && a < |g| ==> rank[d] < rank[a]
    }

    /** sourcedir_dep_recursive. The tests for the parent and for the serial on entry never take effect. */
    method Descend(d: nat, list: seq<string>, cur: nat, parent: int, ghost active: set<nat>, ghost rank: seq<nat>,
                   ghost acyclic: bool)
      returns (out: seq<string>)
      requires Valid() && d < |names| && serial[d] != cur && d !in active
      requires Standing(list, cur, active, d) && (parent == NONE || parent in active)
      requires acyclic ==> Above(rank, active, d) && Sorted(names, g, list)
      modifies `serial
      ensures Valid() && Standing(out, cur, active, d)
      ensures Found(list, out, d, active) && Covered(out, d, d, active)
      ensures acyclic ==> Sorted(names, g, out)
      ensures forall i :: 0 <= i < |serial| ==> serial[i] == old(serial)[i] || serial[i] == cur
      decreases Nodes(|serial|) - Marked(serial, cur)
    {
      out := list;
      for k := 0 to |deps[d]|
        invariant Valid() && Standing(out, cur, active, d) && Found(list, out, d, active)
        invariant forall j :: 0 <= j < k && deps[d][j] in find ==>
                  find[deps[d][j]] in active || find[deps[d][j]] == d || deps[d][j] in out
        invariant acyclic ==> Sorted(names, g, out)
        invariant forall i :: 0 <= i < |serial| ==> serial[i] == old(serial)[i] || serial[i] == cur
      {
        var s := deps[d][k];
        assert s in deps[d];
        if s !in out && s in find && find[s] != d {
          var c := find[s];
          if serial[c] == cur {
            continue;
          }
          if c == parent {
            continue;
          }
          serial := serial[d := cur];
          ghost var before := out;
          assert Marked(old(serial), cur) <= Marked(serial, cur) && d in Marked(serial, cur)
                 && d !in Marked(old(serial), cur);
          var more := Descend(c, out, cur, d, active + {d}, rank, acyclic);
          Push(list, before, more, cur, active, d, c, rank, acyclic);
          out := more + [s];
        }
      }
      forall e | e in g[d]
        ensures e in active || e == d || Listed(names, out, e)
      {
        var j :| 0 <= j < |deps[d]| && deps[d][j] == names[e];
      }
    }

    /** Listing c after the walk below it. */
    lemma Push(list: seq<string>, before: seq<string>, more: seq<string>, cur: nat, active: set<nat>, d: nat, c: nat,
               rank: seq<nat>, acyclic: bool)
      requires Valid() && d < |names| && c < |names| && c != d && c !in active && c in g[d] && serial[d] == cur
      requires names[c] in find && find[names[c]] == c
      requires Standing(more, cur, active + {d}, c) && Found(list, before, d, active)
      requires Found(before, more, c, active + {d}) && Covered(more, c, c, active + {d})
      requires acyclic ==> Above(rank, active, d) && Sorted(names, g, more)
      ensures Standing(more + [names[c]], cur, active, d) && Found(list, more + [names[c]], d, active)
      ensures acyclic ==> Sorted(names, g, more + [names[c]])
    {
      var out := more + [names[c]];
      assert Listed(names, out, c);
      forall k | |list| <= k < |out|
        ensures out[k] in find && Reach(g, d, find[out[k]]) && find[out[k]] != d && find[out[k]] !in active
        ensures Covered(out, find[out[k]], d, active)
      {
        if k < |before| {
          assert out[k] == before[k] && Covered(before, find[before[k]], d, active);
        } else if k < |more| {
          assert out[k] == more[k] && Covered(more, find[more[k]], c, active + {d});
          ReachEdge(g, d, c, find[more[k]]);
        } else {
          ReachSelf(g, c);
          ReachEdge(g, d, c, c);
        }
      }
      if acyclic {
        SortedPush(more, c, d, active, rank);
      }
    }

    lemma SortedPush(more: seq<string>, c: nat, d: nat, active: set<nat>, rank: seq<nat>)
      requires Valid() && c < |names| && d < |names| && c in g[d] && c != d
      requires Covered(more, c, c, active + {d}) && Above(rank, active, d) && Sorted(names, g, more)
      ensures Sorted(names, g, more + [names[c]])
    {
      var out := more + [names[c]];
      forall k, n, e | 0 <= k < |out| && 0 <= n < |g| && SameName(names, n, out[k]) && e in g[n] && e != n
        ensures Listed(names, out[..k], e)
      {
        if k < |more| {
          assert out[k] == more[k] && out[..k] == more[..k];
        } else {
          assert n == c && out[..k] == more;
          assert rank[e] < rank[c] < rank[d];
        }
      }
    }

    /** sourcedir_deps with an empty list and a serial no directory carries: every directory reachable from the
        start is listed exactly once, never the start itself, whether or not the graph has cycles; without
        cycles, dependencies come before dependants. */
    method Deps(start: nat, cur: nat, ghost rank: seq<nat>, ghost acyclic: bool) returns (out: seq<string>)
      requires Valid() && start < |names| && forall i :: 0 <= i < |serial| ==> serial[i] != cur
      requires acyclic ==> Above(rank, {}, start)
      modifies `serial
      ensures Valid() && Distinct(out)
      ensures forall d: nat :: Listed(names, out, d) <==> d < |names| && Reach(g, start, d) && d != start
      ensures forall x :: x in out ==> x in find
      ensures acyclic ==> Sorted(names, g, out)
    {
      out := Descend(start, [], cur, NONE, {}, rank, acyclic);
      AllListed(out, start);
    }

    lemma AllListed(out: seq<string>, start: nat)
      requires Valid() && start < |names| && Found([], out, start, {}) && Covered(out, start, start, {})
      ensures forall d: nat :: Listed(names, out, d) <==> d < |names| && Reach(g, start, d) && d != start
      ensures forall x :: x in out ==> x in find
    {
      var s := set d | d in Nodes(|names|) && (d == start || names[d] in out);
      forall i, e | i in s && i < |g| && e in g[i]
        ensures e in s
      {
        if i != start {
          var k :| 0 <= k < |out| && out[k] == names[i];
          assert Covered(out, find[out[k]], start, {});
        }
      }
      forall d: nat | d < |names| && Reach(g, start, d) && d != start
        ensures Listed(names, out, d)
      {
        ReachClosed(g, s, start, d);
      }
      forall d: nat | Listed(names, out, d)
        ensures Reach(g, start, d) && d != start
      {
        var k :| 0 <= k < |out| && out[k] == names[d];
      }
    }
  }
}

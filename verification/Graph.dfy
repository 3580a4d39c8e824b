/** Directed graphs on 0..n-1 given by adjacency lists, and reachability in them. */
module Graph {

  type Adjacency = seq<seq<nat>>

  ghost predicate Closed(g: Adjacency) {
    forall i, d :: 0 <= i < |g| && d in g[i] ==> d < |g|
  }

  /** p is a nonempty path. */
  ghost predicate Path(g: Adjacency, p: seq<nat>) {
    && p != []
    && (forall i :: 0 <= i < |p| ==> p[i] < |g|)
    && (forall i :: 0 <= i < |p| - 1 ==> p[i + 1] in g[p[i]])
  }

  /** b can be reached from a in zero or more steps. */
  ghost predicate Reach(g: Adjacency, a: nat, b: nat) {
    exists p :: Path(g, p) && p[0] == a && p[|p| - 1] == b
  }

  /** b can be reached from a in one or more steps. */
  ghost predicate Beyond(g: Adjacency, a: nat, b: nat) {
    a < |g| && exists c :: c in g[a] && Reach(g, c, b)
  }

  ghost function ReachSet(g: Adjacency, a: nat): set<nat> {
    set b: nat | b < |g| && Reach(g, a, b)
  }

  lemma ReachSelf(g: Adjacency, a: nat)
    requires a < |g|
    ensures Reach(g, a, a)
  {
    assert Path(g, [a]);
  }

  lemma ReachEdge(g: Adjacency, a: nat, b: nat, c: nat)
    requires a < |g| && b in g[a] && Reach(g, b, c)
    ensures Reach(g, a, c)
  {
    var p :| Path(g, p) && p[0] == b && p[|p| - 1] == c;
    var q := [a] + p;
    assert forall i :: 0 < i < |q| ==> q[i] == p[i - 1];
    assert Path(g, q) && q[0] == a && q[|q| - 1] == c;
  }

  lemma ReachSnoc(g: Adjacency, a: nat, b: nat, c: nat)
    requires Reach(g, a, b) && c < |g| && b < |g| && c in g[b]
    ensures Reach(g, a, c)
  {
    var p :| Path(g, p) && p[0] == a && p[|p| - 1] == b;
    var q := p + [c];
    assert Path(g, q) && q[0] == a && q[|q| - 1] == c;
  }

  /** A set closed under edges keeps everything reachable from its members. */
  lemma ReachClosed(g: Adjacency, s: set<nat>, a: nat, b: nat)
    requires a in s && Reach(g, a, b)
    requires forall i, d :: i in s && i < |g| && d in g[i] ==> d in s
    ensures b in s
  {
    var p :| Path(g, p) && p[0] == a && p[|p| - 1] == b;
    PathInside(g, s, p, |p| - 1);
  }

  lemma {:induction false} PathInside(g: Adjacency, s: set<nat>, p: seq<nat>, k: nat)
    requires Path(g, p) && p[0] in s && k < |p|
    requires forall i, d :: i in s && i < |g| && d in g[i] ==> d in s
    ensures p[k] in s
  {
    if k > 0 {
      PathInside(g, s, p, k - 1);
      assert p[k - 1 + 1] in g[p[k - 1]];
    }
  }

  lemma ReachTrans(g: Adjacency, a: nat, b: nat, c: nat)
    requires Reach(g, a, b) && Reach(g, b, c) && Closed(g)
    ensures Reach(g, a, c)
  {
    var s := ReachSet(g, a);
    ReachBound(g, a, b);
    forall i, d | i in s && i < |g| && d in g[i]
      ensures d in s
    {
      ReachSnoc(g, a, i, d);
    }
    ReachClosed(g, s, b, c);
  }

  lemma ReachBound(g: Adjacency, a: nat, b: nat)
    requires Reach(g, a, b)
    ensures a < |g| && b < |g|
  {
    var p :| Path(g, p) && p[0] == a && p[|p| - 1] == b;
  }

  /** Reaching b means being there or taking a first step. */
  lemma ReachFirst(g: Adjacency, a: nat, b: nat)
    requires Reach(g, a, b) && a != b
    ensures Beyond(g, a, b)
  {
    var p :| Path(g, p) && p[0] == a && p[|p| - 1] == b;
    var q := p[1..];
    assert p[0 + 1] in g[p[0]];
    assert forall i :: 0 <= i < |q| ==> q[i] == p[i + 1];
    assert Path(g, q) && q[|q| - 1] == b;
  }

  ghost function Nodes(n: nat): (s: set<nat>)
    ensures forall i: nat :: i in s <==> i < n
  {
    if n == 0 then {} else Nodes(n - 1) + {n - 1}
  }

  /** The elements of a sequence as a set. */
  ghost function Elements(s: seq<nat>): set<nat> {
    set x | x in s
  }

  ghost predicate Distinct<T(!new)>(s: seq<T>) {
    forall i, j :: 0 <= i < j < |s| ==> s[i] != s[j]
  }

  /** The nodes that carry the serial. */
  ghost function Marked(serial: seq<nat>, cur: nat): (m: set<nat>)
    ensures forall i: nat :: i in m <==> i < |serial| && serial[i] == cur
  {
    set i | i in Nodes(|serial|) && serial[i] == cur
  }

  lemma MarkOne(serial: seq<nat>, cur: nat, r: nat)
    requires r < |serial|
    ensures Marked(serial[r := cur], cur) == Marked(serial, cur) + {r}
  {
  }
}

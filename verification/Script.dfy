/** Emission of a build script: every rule after the rules it needs, each once, by a depth-first walk that
    marks a rule with the serial of the run only when it is finished. */
module Script {
  import opened Graph
  import opened Wrappers

  /** What is written for a rule: a remark before its prerequisites, its command after them, the closing
      labels of "all", and a final newline. */
  datatype Event = Remark(rule: nat) | Command(rule: nat) | Labels | Newline(rule: nat)

  /** The rules whose output is complete, in order. */
  ghost function Finished(log: seq<Event>): seq<nat> {
    if log == [] then []
    else
      var before, e := Finished(log[..|log| - 1]), log[|log| - 1];
      if e.Newline? then before + [e.rule] else before
  }

  /** The rules whose commands have been written, in order. */
  ghost function Commands(log: seq<Event>): seq<nat> {
    if log == [] then []
    else
      var before, e := Commands(log[..|log| - 1]), log[|log| - 1];
      if e.Command? then before + [e.rule] else before
  }

  /** The rules in rs that have a recipe. */
  ghost function WithRecipe(recipes: seq<string>, rs: seq<nat>): seq<nat> {
    if rs == [] then []
    else
      var before, r := WithRecipe(recipes, rs[..|rs| - 1]), rs[|rs| - 1];
      if r < |recipes| && recipes[r] != "" then before + [r] else before
  }

  /** Everything a rule of the sequence needs comes before it. */
  ghost predicate Ordered(g: Adjacency, rs: seq<nat>) {
    forall i, d :: 0 <= i < |rs| && rs[i] < |g| && d in g[rs[i]] ==> d in rs[..i]
  }

  /** The rules done, in that order, are the marked ones, none twice, each after what it needs, and their
      commands have been written in that order. */
  ghost predicate Complete(g: Adjacency, recipes: seq<string>, marked: set<nat>, done: seq<nat>, commands: seq<nat>) {
    marked == Elements(done) && Distinct(done) && Ordered(g, done) && commands == WithRecipe(recipes, done)
  }

  lemma CompleteNext(g: Adjacency, recipes: seq<string>, marked: set<nat>, done: seq<nat>, commands: seq<nat>, r: nat)
    requires Complete(g, recipes, marked, done, commands) && r !in done && r < |g| && forall d :: d in g[r] ==>
             d in done
    ensures Complete(g, recipes, marked + {r}, done + [r],
                     if r < |recipes| && recipes[r] != "" then commands + [r] else commands)
  {
    RecipeAppend(recipes, done, r);
    var next := done + [r];
    NextInOrder(g, done, r);
    assert Elements(next) == Elements(done) + {r};
  }

  lemma NextInOrder(g: Adjacency, done: seq<nat>, r: nat)
    requires Ordered(g, done) && r < |g| && forall d :: d in g[r] ==> d in done
    ensures Ordered(g, done + [r])
  {
    var next := done + [r];
    forall i, d | 0 <= i < |next| && next[i] < |g| && d in g[next[i]]
      ensures d in next[..i]
    {
      if i < |done| {
        assert d in done[..i] && next[..i] == done[..i];
      } else {
        assert next[..i] == done;
      }
    }
  }

  lemma LogAppend(log: seq<Event>, e: Event)
    ensures Finished(log + [e]) == if e.Newline? then Finished(log) + [e.rule] else Finished(log)
    ensures Commands(log + [e]) == if e.Command? then Commands(log) + [e.rule] else Commands(log)
  {
    assert (log + [e])[..|log|] == log;
  }

  lemma RecipeAppend(recipes: seq<string>, rs: seq<nat>, r: nat)
    ensures WithRecipe(recipes, rs + [r])
         == if r < |recipes| && recipes[r] != "" then WithRecipe(recipes, rs) + [r] else WithRecipe(recipes, rs)
  {
    assert (rs + [r])[..|rs|] == rs;
  }

  // ----- the closing labels -----

  ghost predicate EndsAll(names: seq<string>, e: Event) {
    e.Newline? && e.rule < |names| && names[e.rule] == "all"
  }

  /** Labels come directly before the newline of a rule named "all", and such a newline directly after labels. */
  ghost predicate Labelled(names: seq<string>, log: seq<Event>) {
    && (forall i :: 0 <= i < |log| && log[i].Labels? ==> i + 1 < |log| && EndsAll(names, log[i + 1]))
    && (forall i :: 0 <= i < |log| && EndsAll(names, log[i]) ==> i > 0 && log[i - 1].Labels?)
  }

  ghost predicate EndsWith(log: seq<Event>, e: Event) {
    log != [] && log[|log| - 1] == e
  }

  lemma LabelledPlain(names: seq<string>, log: seq<Event>, e: Event)
    requires Labelled(names, log) && !e.Labels? && !EndsAll(names, e)
    ensures Labelled(names, log + [e])
  {
  }

  lemma LabelledEnd(names: seq<string>, log: seq<Event>, e: Event)
    requires Labelled(names, log) && EndsAll(names, e)
    ensures Labelled(names, log + [Labels] + [e])
  {
  }

  lemma {:induction false} NewlineFinishes(log: seq<Event>, i: nat)
    requires i < |log| && log[i].Newline?
    ensures log[i].rule in Finished(log)
  {
    if i < |log| - 1 {
      NewlineFinishes(log[..|log| - 1], i);
    }
  }

  ghost predicate OnlyOne(names: seq<string>, all: nat) {
    all < |names| && names[all] == "all" && forall r :: 0 <= r < |names| && names[r] == "all" ==> r == all
  }

  /** From base on there are labels only at the end, before the last newline: so all commands come before them. */
  ghost predicate LabelsLast(log: seq<Event>, base: nat) {
    && base + 2 <= |log| && log[|log| - 2] == Labels && log[|log| - 1].Newline?
    && forall i :: base <= i < |log| - 2 ==> log[i] != Labels
  }

  lemma OnceFrom(names: seq<string>, log: seq<Event>, base: nat, all: nat)
    requires base < |log| && Labelled(names, log[base..]) && Distinct(Finished(log[base..]))
    requires EndsWith(log, Newline(all))
    ensures OnlyOne(names, all) ==> LabelsLast(log, base)
  {
    if OnlyOne(names, all) {
      LabelsOnce(names, log[base..], all);
      FromBase(log, base);
    }
  }

  lemma FromBase(log: seq<Event>, base: nat)
    requires base <= |log| && LabelsLast(log[base..], 0)
    ensures LabelsLast(log, base)
  {
    var s := log[base..];
    forall i | base <= i < |log| - 2
      ensures log[i] != Labels
    {
      assert log[i] == s[i - base];
    }
  }

  /** Where only one rule is named "all", the labels come once: before the last newline. */
  lemma LabelsOnce(names: seq<string>, log: seq<Event>, all: nat)
    requires Labelled(names, log) && Distinct(Finished(log)) && OnlyOne(names, all) && EndsWith(log, Newline(all))
    ensures LabelsLast(log, 0)
  {
    var n := |log| - 1;
    assert EndsAll(names, log[n]);
    forall i | 0 <= i < n - 1
      ensures log[i] != Labels
    {
      LabelsNotBefore(names, log, all, i);
    }
  }

  lemma LabelsNotBefore(names: seq<string>, log: seq<Event>, all: nat, i: nat)
    requires Labelled(names, log) && Distinct(Finished(log)) && i < |log| - 2 && EndsWith(log, Newline(all))
    requires OnlyOne(names, all)
    ensures log[i] != Labels
  {
    var before := log[..|log| - 1];
    if log[i] == Labels {
      assert before[i + 1] == Newline(all);
      NewlineFinishes(before, i + 1);
      NotTwice(Finished(before), all);
    }
  }

  lemma NotTwice(rs: seq<nat>, r: nat)
    requires r in rs
    ensures !Distinct(rs + [r])
  {
    var i :| 0 <= i < |rs| && rs[i] == r;
    assert (rs + [r])[i] == (rs + [r])[|rs|];
  }

  /** needs[i] lists the rules that the prerequisites of rule i resolve to, and its objects. */
  ghost predicate NeedsAre(prereq: seq<seq<string>>, objs: seq<seq<Option<nat>>>, find: map<string, nat>,
                           needs: Adjacency) {
    && |prereq| == |objs| == |needs|
    && (forall i, x :: 0 <= i < |prereq| && x in prereq[i] && x in find ==> find[x] in needs[i])
    && (forall i, o: Option<nat> :: 0 <= i < |prereq| && o in objs[i] && o.Some? ==> o.value in needs[i])
    && (forall i, d :: 0 <= i < |prereq| && d in needs[i] ==> Needed(prereq[i], objs[i], find, d))
  }

  ghost predicate Needed(xs: seq<string>, os: seq<Option<nat>>, find: map<string, nat>, d: nat) {
    (exists x :: x in xs && x in find && find[x] == d) || Some(d) in os
  }

  ghost function Resolved(xs: seq<string>, find: map<string, nat>): (r: seq<nat>)
    ensures forall d :: d in r <==> exists x :: x in xs && x in find && find[x] == d
  {
    if xs == [] then [] else (if xs[0] in find then [find[xs[0]]] else []) + Resolved(xs[1..], find)
  }

  ghost function Present(os: seq<Option<nat>>): (r: seq<nat>)
    ensures forall d :: d in r <==> Some(d) in os
  {
    if os == [] then [] else (if os[0].Some? then [os[0].value] else []) + Present(os[1..])
  }

  ghost function NeedsOf(prereq: seq<seq<string>>, objs: seq<seq<Option<nat>>>, find: map<string, nat>): (g: Adjacency)
    requires |prereq| == |objs|
    ensures NeedsAre(prereq, objs, find, g)
  {
    seq(|prereq|, i requires 0 <= i < |prereq| => Resolved(prereq[i], find) + Present(objs[i]))
  }

  lemma NeedsClosed(prereq: seq<seq<string>>, objs: seq<seq<Option<nat>>>, find: map<string, nat>, n: nat)
    requires |prereq| == |objs| == n
    requires forall x :: x in find ==> find[x] < n
    requires forall os, o: Option<nat> :: os in objs && o in os && o.Some? ==> o.value < n
    ensures Closed(NeedsOf(prereq, objs, find))
  {
    var g := NeedsOf(prereq, objs, find);
    forall i, d | 0 <= i < |g| && d in g[i]
      ensures d < |g|
    {
      assert Needed(prereq[i], objs[i], find, d);
      assert objs[i] in objs;
      if Some(d) in objs[i] {
        assert Some(d).Some?;
      }
    }
  }

  class Generator {
    const names: seq<string>
    const prereq: seq<seq<string>>
    const objs: seq<seq<Option<nat>>>
    const recipes: seq<string>
    /** Rules whose recipe is the shared compile command, or whose name is a pattern, get no remark. */
    const quiet: seq<bool>
    /** rule_find_b: names resolve to rules, or to nothing. */
    const find: map<string, nat>
    var serial: seq<nat>
    var run: nat
    var log: seq<Event>

    /** The rules each rule needs. */
    ghost const needs: Adjacency

    ghost predicate Valid()
      reads this
    {
      && |names| == |prereq| == |objs| == |recipes| == |quiet| == |serial| == |needs|
      && Closed(needs)
      && NeedsAre(prereq, objs, find, needs)
    }

    /** The output of this run so far; `base` is the length of the log before it. */
    ghost predicate Sound(base: nat)
      reads this
    {
      && base <= |log|
      && Complete(needs, recipes, Marked(serial, run), Finished(log[base..]), Commands(log[base..]))
      && Labelled(names, log[base..])
    }

    constructor (names: seq<string>, prereq: seq<seq<string>>, objs: seq<seq<Option<nat>>>, recipes: seq<string>,
                 quiet: seq<bool>, find: map<string, nat>, serial: seq<nat>)
      requires |names| == |prereq| == |objs| == |recipes| == |quiet| == |serial|
      requires forall x :: x in find ==> find[x] < |names|
      requires forall os, o: Option<nat> :: os in objs && o in os && o.Some? ==> o.value < |names|
      ensures Valid()
      ensures this.names == names && this.prereq == prereq && this.objs == objs && this.recipes == recipes
      ensures this.quiet == quiet && this.find == find && this.serial == serial && log == [] && run == 0
    {
      this.names, this.prereq, this.objs, this.recipes := names, prereq, objs, recipes;
      this.quiet, this.find, this.serial, run, log := quiet, find, serial, 0, [];
      this.needs := NeedsOf(prereq, objs, find);
      NeedsClosed(prereq, objs, find, |names|);
    }

    method Put(e: Event, ghost base: nat)
      requires base <= |log|
      modifies `log
      ensures log == old(log) + [e] && log[base..] == old(log)[base..] + [e]
      ensures Finished(log[base..]) == if e.Newline? then Finished(old(log)[base..]) + [e.rule]
              else Finished(old(log)[base..])
      ensures Commands(log[base..]) == if e.Command? then Commands(old(log)[base..]) + [e.rule]
              else Commands(old(log)[base..])
    {
      LogAppend(log[base..], e);
      assert (log + [e])[base..] == log[base..] + [e];
      log := log + [e];
    }

    /** Ranks witness that the rules form no cycle. */
    ghost predicate Acyclic(rank: seq<nat>)
      reads this
    {
      && |rank| == |names| == |needs|
      && forall i, d :: 0 <= i < |names| && d in needs[i] ==> d < |names| && rank[d] < rank[i]
    }

    /** Everything finished since `start` is needed by rule and ranks below the bound. */
    ghost predicate Since(base: nat, start: seq<nat>, rule: nat, rank: seq<nat>, bound: nat)
      reads this
    {
      && base <= |log| && start <= Finished(log[base..])
      && forall n :: n in Finished(log[base..]) && n !in start ==>
           n < |rank| && rank[n] < bound && Reach(needs, rule, n)
    }

    /** output_script below the top level. */
    method Emit(rule: nat, ghost base: nat, ghost rank: seq<nat>)
      requires Valid() && Sound(base) && Acyclic(rank) && rule < |names|
      modifies `serial, `log
      ensures Valid() && Sound(base) && rule in Finished(log[base..])
      ensures old(log) <= log
      ensures Since(base, Finished(old(log)[base..]), rule, rank, rank[rule] + 1)
      ensures old(serial[rule]) != run ==> EndsWith(log, Newline(rule))
      decreases rank[rule], 3
    {
      if serial[rule] == run {
        return;
      }
      ghost var start := Finished(log[base..]);
      Announce(rule, base);
      EmitRest(rule, base, rank, start);
    }

    method Announce(rule: nat, ghost base: nat)
      requires Valid() && Sound(base) && rule < |names|
      modifies `log
      ensures Valid() && Sound(base) && old(log) <= log && Finished(log[base..]) == Finished(old(log)[base..])
    {
      if !quiet[rule] {
        LabelledPlain(names, log[base..], Remark(rule));
        Put(Remark(rule), base);
      }
    }

    /** What follows the remark. */
    method EmitRest(rule: nat, ghost base: nat, ghost rank: seq<nat>, ghost start: seq<nat>)
      requires Valid() && Sound(base) && Acyclic(rank) && rule < |names| && serial[rule] != run
      requires base <= |log| && start == Finished(log[base..])
      modifies `serial, `log
      ensures Valid() && Sound(base) && rule in Finished(log[base..]) && old(log) <= log
      ensures Since(base, start, rule, rank, rank[rule] + 1) && EndsWith(log, Newline(rule))
      decreases rank[rule], 2
    {
      EmitPrereqs(rule, base, rank, start);
      ghost var done := Finished(log[base..]);
      EmitObjs(rule, base, rank, start);
      NamedMore(prereq[rule], find, done, Finished(log[base..]));
      AllNeeded(prereq[rule], objs[rule], find, needs[rule], Finished(log[base..]));
      Finish(rule, base, rank, start);
    }

    /** The prerequisites that name a rule. */
    method EmitPrereqs(rule: nat, ghost base: nat, ghost rank: seq<nat>, ghost start: seq<nat>)
      requires Valid() && Sound(base) && Acyclic(rank) && rule < |names|
      requires Since(base, start, rule, rank, rank[rule])
      modifies `serial, `log
      ensures Valid() && Sound(base) && old(log) <= log && Since(base, start, rule, rank, rank[rule])
      ensures NamedDone(prereq[rule], |prereq[rule]|, find, Finished(log[base..]))
      decreases rank[rule], 1
    {
      for i := 0 to |prereq[rule]|
        invariant Valid() && Sound(base) && old(log) <= log && Since(base, start, rule, rank, rank[rule])
        invariant NamedDone(prereq[rule], i, find, Finished(log[base..]))
      {
        var x := prereq[rule][i];
        ghost var done := Finished(log[base..]);
        if x in find && serial[find[x]] != run {
          assert x in prereq[rule];
          EmitNeeded(rule, find[x], base, rank, start);
        }
        NamedNext(prereq[rule], i, find, done, Finished(log[base..]));
      }
    }

    /** The objects that have a rule. */
    method EmitObjs(rule: nat, ghost base: nat, ghost rank: seq<nat>, ghost start: seq<nat>)
      requires Valid() && Sound(base) && Acyclic(rank) && rule < |names|
      requires Since(base, start, rule, rank, rank[rule])
      modifies `serial, `log
      ensures Valid() && Sound(base) && old(log) <= log && Since(base, start, rule, rank, rank[rule])
      ensures Finished(old(log)[base..]) <= Finished(log[base..])
      ensures forall j :: 0 <= j < |objs[rule]| && objs[rule][j].Some? ==> objs[rule][j].value in Finished(log[base..])
      decreases rank[rule], 1
    {
      for i := 0 to |objs[rule]|
        invariant Valid() && Sound(base) && old(log) <= log && Since(base, start, rule, rank, rank[rule])
        invariant Finished(old(log)[base..]) <= Finished(log[base..])
        invariant forall j :: 0 <= j < i && objs[rule][j].Some? ==> objs[rule][j].value in Finished(log[base..])
      {
        var o := objs[rule][i];
        if o.Some? && serial[o.value] != run {
          assert o in objs[rule];
          EmitNeeded(rule, o.value, base, rank, start);
        }
      }
    }

    /** One of the recursive calls. */
    method EmitNeeded(rule: nat, d: nat, ghost base: nat, ghost rank: seq<nat>, ghost start: seq<nat>)
      requires Valid() && Sound(base) && Acyclic(rank) && rule < |names| && d in needs[rule]
      requires Since(base, start, rule, rank, rank[rule])
      modifies `serial, `log
      ensures Valid() && Sound(base) && d in Finished(log[base..]) && old(log) <= log
      ensures Finished(old(log)[base..]) <= Finished(log[base..])
      ensures Since(base, start, rule, rank, rank[rule])
      decreases rank[rule], 0
    {
      ghost var was := Finished(log[base..]);
      Emit(d, base, rank);
      forall n | n in Finished(log[base..]) && n !in start
        ensures n < |rank| && rank[n] < rank[rule] && Reach(needs, rule, n)
      {
        if n !in was {
          ReachEdge(needs, rule, d, n);
        }
      }
    }

    method Close(rule: nat, ghost base: nat)
      requires rule < |names| == |recipes| && base <= |log| && Labelled(names, log[base..])
      modifies `log
      ensures old(log) <= log && EndsWith(log, Newline(rule))
      ensures Finished(log[base..]) == Finished(old(log)[base..]) + [rule]
      ensures Commands(log[base..]) == if recipes[rule] != "" then Commands(old(log)[base..]) + [rule]
              else Commands(old(log)[base..])
      ensures Labelled(names, log[base..])
    {
      if recipes[rule] != "" {
        LabelledPlain(names, log[base..], Command(rule));
        Put(Command(rule), base);
      }
      CloseEnd(rule, base);
    }

    /** The closing labels of "all", and the newline. */
    method CloseEnd(rule: nat, ghost base: nat)
      requires rule < |names| && base <= |log| && Labelled(names, log[base..])
      modifies `log
      ensures old(log) <= log && EndsWith(log, Newline(rule))
      ensures Finished(log[base..]) == Finished(old(log)[base..]) + [rule]
      ensures Commands(log[base..]) == Commands(old(log)[base..])
      ensures Labelled(names, log[base..])
    {
      ghost var written := log[base..];
      if names[rule] == "all" {
        Put(Labels, base);
        LabelledEnd(names, written, Newline(rule));
      } else {
        LabelledPlain(names, written, Newline(rule));
      }
      Put(Newline(rule), base);
    }

    /** The end of output_script: command, labels, newline, mark. */
    method Finish(rule: nat, ghost base: nat, ghost rank: seq<nat>, ghost start: seq<nat>)
      requires Valid() && Sound(base) && Acyclic(rank) && rule < |names| && rule !in start
      requires Since(base, start, rule, rank, rank[rule])
      requires forall d :: d in needs[rule] ==> d in Finished(log[base..])
      modifies `serial, `log
      ensures Valid() && Sound(base) && rule in Finished(log[base..]) && old(log) <= log
      ensures Since(base, start, rule, rank, rank[rule] + 1) && EndsWith(log, Newline(rule))
    {
      ghost var done, written := Finished(log[base..]), Commands(log[base..]);
      Close(rule, base);
      CompleteNext(needs, recipes, Marked(serial, run), done, written, rule);
      MarkOne(serial, run, rule);
      ReachSelf(needs, rule);
      serial := serial[rule := run];
    }

    /** output_script(b, NULL): a new run over the rule "all" and what it needs. Every rule reachable from it is
        completed exactly once, after everything it needs, provided no rule carries the new serial. */
    method Run(all: nat, ghost rank: seq<nat>)
      requires Valid() && all < |names| && Acyclic(rank)
      requires forall i :: 0 <= i < |serial| ==> serial[i] != (run + 1) % 0x1_0000_0000
      modifies `serial, `log, `run
      ensures Valid() && old(log) <= log
      ensures var order := Finished(log[|old(log)|..]);
              && Distinct(order)
              && Elements(order) == ReachSet(needs, all)
              && Ordered(needs, order)
              && Commands(log[|old(log)|..]) == WithRecipe(recipes, order)
      ensures OnlyOne(names, all) ==> LabelsLast(log, |old(log)|)
    {
      ghost var base := |log|;
      run := (run + 1) % 0x1_0000_0000;
      assert log[base..] == [];
      assert Marked(serial, run) == {};
      Emit(all, base, rank);
      AllReached(needs, Finished(log[base..]), all);
      OnceFrom(names, log, base, all);
    }
  }

  /** The rules that the first n names resolve to are done. */
  ghost predicate NamedDone(xs: seq<string>, n: nat, find: map<string, nat>, done: seq<nat>)
    requires n <= |xs|
  {
    forall j :: 0 <= j < n && xs[j] in find ==> find[xs[j]] in done
  }

  lemma NamedNext(xs: seq<string>, n: nat, find: map<string, nat>, before: seq<nat>, done: seq<nat>)
    requires n < |xs| && NamedDone(xs, n, find, before) && before <= done
    requires xs[n] in find ==> find[xs[n]] in done
    ensures NamedDone(xs, n + 1, find, done)
  {
    forall j | 0 <= j < n + 1 && xs[j] in find
      ensures find[xs[j]] in done
    {
      if j < n {
        assert find[xs[j]] in before;
      }
    }
  }

  lemma NamedMore(xs: seq<string>, find: map<string, nat>, before: seq<nat>, done: seq<nat>)
    requires NamedDone(xs, |xs|, find, before) && before <= done
    ensures NamedDone(xs, |xs|, find, done)
  {
    forall j | 0 <= j < |xs| && xs[j] in find
      ensures find[xs[j]] in done
    {
      assert find[xs[j]] in before;
    }
  }

  lemma AllNeeded(xs: seq<string>, os: seq<Option<nat>>, find: map<string, nat>, ds: seq<nat>, done: seq<nat>)
    requires NamedDone(xs, |xs|, find, done)
    requires forall j :: 0 <= j < |os| && os[j].Some? ==> os[j].value in done
    requires forall d :: d in ds ==> Needed(xs, os, find, d)
    ensures forall d :: d in ds ==> d in done
  {
    forall d | d in ds
      ensures d in done
    {
      if Some(d) in os {
        var j :| 0 <= j < |os| && os[j] == Some(d);
      }
    }
  }

  lemma AllReached(g: Adjacency, order: seq<nat>, all: nat)
    requires Ordered(g, order) && all in order && forall n :: n in order ==> n < |g| && Reach(g, all, n)
    ensures Elements(order) == ReachSet(g, all)
  {
    forall n | n in ReachSet(g, all)
      ensures n in Elements(order)
    {
      forall i, d | i in Elements(order) && i < |g| && d in g[i]
        ensures d in Elements(order)
      {
        var k :| 0 <= k < |order| && order[k] == i;
        assert d in order[..k];
      }
      ReachClosed(g, Elements(order), all, n);
    }
  }
}

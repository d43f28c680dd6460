/** sort_in_topological_order (commit.c).  The sort orders differ only in which queued commit is taken next: any one in
    graph order, one of the newest in the two date orders. */
module TopoSort {
  import opened CommitGraph

  /** The indegree slab: a counter for every commit, zero where nothing was stored. */
  type Slab = map<Commit, nat>

  function At(slab: Slab, c: Commit): nat {
    if c in slab then slab[c] else 0
  }

  /** How often p is listed as a parent by the commits of list that are not in done. */
  ghost function Edges(list: seq<Commit>, done: set<Commit>, p: Commit): nat {
    if list == [] then 0
    else
      var n := |list| - 1;
      Edges(list[..n], done, p) + if list[n] in done then 0 else multiset(list[n].parents)[p]
  }

  ghost predicate Topological(s: seq<Commit>)
  {
    forall i, j :: 0 <= i < |s| && 0 <= j < |s| && s[j] in s[i].parents ==> i < j
  }

  // ---------------------------------------------------------------- counting edges

  lemma EdgesStep(list: seq<Commit>, i: nat, p: Commit)
    requires i < |list|
    ensures Edges(list[..i + 1], {}, p) == Edges(list[..i], {}, p) + multiset(list[i].parents)[p]
  {
    assert list[..i + 1][..i] == list[..i];
  }

  lemma {:induction false} EdgesOfDone(list: seq<Commit>, done: set<Commit>, c: Commit, p: Commit)
    requires Distinct(list) && c !in done
    ensures Edges(list, done, p)
         == Edges(list, done + {c}, p) + if c in list then multiset(c.parents)[p] else 0
  {
    if list != [] {
      var n := |list| - 1;
      EdgesOfDone(list[..n], done, c, p);
      assert c in list <==> c in list[..n] || c == list[n];
      assert list[n] !in list[..n];
    }
  }

  lemma {:induction false} NoEdgesLeft(list: seq<Commit>, done: set<Commit>, p: Commit)
    ensures Edges(list, done, p) == 0 <==> forall d :: d in list && p in d.parents ==> d in done
  {
    if list != [] {
      var n := |list| - 1;
      NoEdgesLeft(list[..n], done, p);
      assert forall d :: d in list <==> d in list[..n] || d == list[n];
      assert p in multiset(list[n].parents) <==> p in list[n].parents;
    }
  }

  lemma {:induction false} DistinctPermutation(s: seq<Commit>, t: seq<Commit>)
    requires Distinct(s) && Distinct(t) && Elems(s) == Elems(t)
    ensures multiset(s) == multiset(t)
  {
    DistinctCounts(s);
    DistinctCounts(t);
    forall c
      ensures multiset(s)[c] == multiset(t)[c]
    {
      assert c in s <==> c in Elems(s);
      assert c in t <==> c in Elems(t);
    }
  }

  lemma {:induction false} DistinctCounts(s: seq<Commit>)
    requires Distinct(s)
    ensures forall c :: multiset(s)[c] == if c in s then 1 else 0
  {
    if s != [] {
      var n := |s| - 1;
      DistinctCounts(s[..n]);
      assert s == s[..n] + [s[n]];
    }
  }

  // ---------------------------------------------------------------- the counters

  /** Every listed commit starts at one, and each listed child adds one. */
  method CountParents(list: seq<Commit>) returns (slab: Slab)
    requires Distinct(list)
    ensures forall p :: At(slab, p) == if p in list then 1 + Edges(list, {}, p) else 0
  {
    hide Edges, Distinct;
    slab := StartAtOne(list);
    var i := 0;
    NoEdges(list);
    while i < |list|
      invariant 0 <= i <= |list|
      invariant forall p :: At(slab, p) == if p in list then 1 + Edges(list[..i], {}, p) else 0
    {
      slab := AddParents(list[i].parents, slab, list);
      forall p
        ensures Edges(list[..i + 1], {}, p) == Edges(list[..i], {}, p) + multiset(list[i].parents)[p]
      {
        EdgesStep(list, i, p);
      }
      i := i + 1;
    }
    assert list[..i] == list;
  }

  lemma NoEdges(list: seq<Commit>)
    ensures forall p :: Edges(list[..0], {}, p) == 0
  {
  }

  method StartAtOne(list: seq<Commit>) returns (slab: Slab)
    ensures forall p :: At(slab, p) == if p in list then 1 else 0
  {
    slab := map[];
    var i := 0;
    while i < |list|
      invariant 0 <= i <= |list|
      invariant forall p :: At(slab, p) == if p in list[..i] then 1 else 0
    {
      assert list[..i + 1] == list[..i] + [list[i]];
      slab := slab[list[i] := 1];
      i := i + 1;
    }
    assert list[..i] == list;
  }

  /** One for every time a listed commit is named; what is at zero stays there. */
  method AddParents(parents: seq<Commit>, slab0: Slab, ghost list: seq<Commit>) returns (slab: Slab)
    requires forall p :: At(slab0, p) > 0 <==> p in list
    ensures forall p :: At(slab, p) == At(slab0, p) + if p in list then multiset(parents)[p] else 0
  {
    slab := slab0;
    var k := 0;
    while k < |parents|
      invariant 0 <= k <= |parents|
      invariant forall p :: At(slab, p) == At(slab0, p) + if p in list then multiset(parents[..k])[p] else 0
    {
      assert parents[..k + 1] == parents[..k] + [parents[k]];
      var p := parents[k];
      if At(slab, p) != 0 {
        slab := slab[p := At(slab, p) + 1];
      }
      k := k + 1;
    }
    assert parents[..k] == parents;
  }

  // ---------------------------------------------------------------- emission

  /** Counters, queue and output fit together between two emissions. */
  ghost predicate Emitting(list: seq<Commit>, slab: Slab, queue: multiset<Commit>, out: seq<Commit>)
  {
    && Distinct(out) && Elems(out) <= Elems(list)
    && Counters(list, slab, out) && QueueFits(list, slab, queue)
    && (forall x :: x in out ==> ChildrenIn(list, x, out))
    && Topological(out)
  }

  /** An emitted commit is at zero, another listed one is one above its children still to come. */
  ghost predicate Counters(list: seq<Commit>, slab: Slab, out: seq<Commit>)
  {
    && (forall p :: p in list ==> At(slab, p) == if p in out then 0 else 1 + Edges(list, Elems(out), p))
    && (forall p :: p in slab && p !in list ==> At(slab, p) == 0)
  }

  /** The queue holds the listed commits at one, once each. */
  ghost predicate QueueFits(list: seq<Commit>, slab: Slab, queue: multiset<Commit>)
  {
    && (forall p :: p in list ==> queue[p] == if At(slab, p) == 1 then 1 else 0)
    && (forall p :: p in queue ==> p in list)
  }

  /** Every listed child of x is in s. */
  ghost predicate ChildrenIn(list: seq<Commit>, x: Commit, s: seq<Commit>)
  {
    forall d :: d in list && x in d.parents ==> d in s
  }

  /** The parents of an emitted commit lose one child each; those left childless are queued. */
  method ReleaseParents(c: Commit, slab0: Slab, queue0: multiset<Commit>, ghost list: seq<Commit>)
    returns (slab: Slab, queue: multiset<Commit>)
    requires forall p :: p in c.parents && p in list ==> At(slab0, p) > multiset(c.parents)[p]
    requires forall p :: p in slab0 && p !in list ==> At(slab0, p) == 0
    requires forall p :: p in list && p in c.parents ==> queue0[p] == 0
    ensures forall p :: At(slab, p) == At(slab0, p) - if p in list then multiset(c.parents)[p] else 0
    ensures forall p :: queue[p] == if p in list && p in c.parents && At(slab, p) == 1 then 1 else queue0[p]
  {
    slab, queue := slab0, queue0;
    var k := 0;
    assert c.parents[..k] == [];
    while k < |c.parents|
      invariant 0 <= k <= |c.parents|
      invariant forall x :: At(slab, x) == At(slab0, x) - if x in list then multiset(c.parents[..k])[x] else 0
      invariant forall x :: queue[x] == if x in list && x in c.parents[..k] && At(slab, x) == 1 then 1 else queue0[x]
    {
      var p := c.parents[k];
      NotAllYet(c.parents, k);
      slab, queue := ReleaseParent(p, slab, queue, list, c.parents[..k], slab0, queue0);
      k := k + 1;
    }
    assert c.parents[..k] == c.parents;
  }

  lemma NotAllYet(parents: seq<Commit>, k: nat)
    requires k < |parents|
    ensures parents[k] in parents && parents[..k + 1] == parents[..k] + [parents[k]]
    ensures multiset(parents)[parents[k]] >= multiset(parents[..k])[parents[k]] + 1
  {
    assert parents == parents[..k] + [parents[k]] + parents[k + 1..];
  }

  /** One of them. */
  method ReleaseParent(p: Commit, slab0: Slab, queue0: multiset<Commit>, ghost list: seq<Commit>,
                       ghost met: seq<Commit>, ghost slabStart: Slab, ghost queueStart: multiset<Commit>)
    returns (slab: Slab, queue: multiset<Commit>)
    requires forall x :: At(slab0, x) == At(slabStart, x) - if x in list then multiset(met)[x] else 0
    requires forall x :: queue0[x] == if x in list && x in met && At(slab0, x) == 1 then 1 else queueStart[x]
    requires p in list ==> At(slabStart, p) > multiset(met)[p] + 1 && queueStart[p] == 0
    requires p !in list ==> At(slabStart, p) == 0
    ensures forall x :: At(slab, x) == At(slabStart, x) - if x in list then multiset(met + [p])[x] else 0
    ensures forall x :: queue[x] == if x in list && x in (met + [p]) && At(slab, x) == 1 then 1 else queueStart[x]
  {
    slab, queue := slab0, queue0;
    if At(slab, p) != 0 {
      slab := slab[p := At(slab, p) - 1];
      if At(slab, p) == 1 {
        queue := queue + multiset{p};
      }
    }
  }

  /** A queued commit may be emitted: its parents' counters are large enough, and none is queued. */
  lemma MayEmit(G: set<Commit>, list: seq<Commit>, slab: Slab, queue: multiset<Commit>, out: seq<Commit>, c: Commit)
    requires Dag(G) && Elems(list) <= G && Distinct(list)
    requires Emitting(list, slab, queue, out) && c in queue
    ensures c in list && c !in out && c !in c.parents
    ensures ChildrenIn(list, c, out)
    ensures forall p :: p in c.parents && p in list ==>
      p !in out && At(slab, p) > multiset(c.parents)[p] && queue[p] == 0
  {
    assert c in Elems(list);
    ReachSelf(c);
    NoEdgesLeft(list, Elems(out), c);
    forall p | p in c.parents && p in list
      ensures p !in out && At(slab, p) > multiset(c.parents)[p] && queue[p] == 0
    {
      EdgesOfDone(list, Elems(out), c, p);
      assert p in out ==> ChildrenIn(list, p, out);
    }
  }

  lemma EmitStep(list: seq<Commit>, slab: Slab, queue: multiset<Commit>, out: seq<Commit>, c: Commit,
                 slab1: Slab, queue1: multiset<Commit>)
    requires Distinct(list) && Emitting(list, slab, queue, out) && c in queue
    requires c !in out && c !in c.parents
    requires ChildrenIn(list, c, out)
    requires forall p :: p in c.parents && p in list ==> p !in out && queue[p] == 0
    requires forall p :: At(slab1, p) == At(slab, p) - if p in list then multiset(c.parents)[p] else 0
    requires forall p ::
      queue1[p] == if p in list && p in c.parents && At(slab1, p) == 1 then 1 else (queue - multiset{c})[p]
    ensures Emitting(list, slab1[c := 0], queue1, out + [c])
  {
    hide Edges, At;
    var out1, slab2 := out + [c], slab1[c := 0];
    assert Elems(out1) == Elems(out) + {c};
    EmitCounters(list, slab, queue, out, c, slab1);
    EmitQueue(list, slab, queue, c, slab1, queue1);
    EmitTopological(list, out, c);
    forall x | x in out1
      ensures ChildrenIn(list, x, out1)
    {
      assert x in out ==> ChildrenIn(list, x, out);
    }
  }

  lemma EmitCounters(list: seq<Commit>, slab: Slab, queue: multiset<Commit>, out: seq<Commit>, c: Commit, slab1: Slab)
    requires Distinct(list) && Counters(list, slab, out) && QueueFits(list, slab, queue) && c in queue && c !in out
    requires forall p :: p in c.parents && p in list ==> p !in out
    requires forall p :: At(slab1, p) == At(slab, p) - if p in list then multiset(c.parents)[p] else 0
    ensures Counters(list, slab1[c := 0], out + [c])
  {
    hide Edges;
    var out1, slab2 := out + [c], slab1[c := 0];
    assert Elems(out1) == Elems(out) + {c};
    forall p | p in list
      ensures At(slab2, p) == if p in out1 then 0 else 1 + Edges(list, Elems(out1), p)
    {
      EdgesOfDone(list, Elems(out), c, p);
      assert p in multiset(c.parents) <==> p in c.parents;
    }
    forall p | p in slab2 && p !in list
      ensures At(slab2, p) == 0
    {
      assert At(slab, p) == 0;
    }
  }

  lemma EmitQueue(list: seq<Commit>, slab: Slab, queue: multiset<Commit>, c: Commit, slab1: Slab,
                  queue1: multiset<Commit>)
    requires QueueFits(list, slab, queue) && c in queue && c !in c.parents
    requires forall p :: p in c.parents && p in list ==> queue[p] == 0
    requires forall p :: At(slab1, p) == At(slab, p) - if p in list then multiset(c.parents)[p] else 0
    requires forall p ::
      queue1[p] == if p in list && p in c.parents && At(slab1, p) == 1 then 1 else (queue - multiset{c})[p]
    ensures QueueFits(list, slab1[c := 0], queue1)
  {
    var slab2 := slab1[c := 0];
    forall p | p in list
      ensures queue1[p] == if At(slab2, p) == 1 then 1 else 0
    {
      assert p in multiset(c.parents) <==> p in c.parents;
    }
    forall p | p in queue1
      ensures p in list
    {
      assert p in list || (queue - multiset{c})[p] > 0;
    }
  }

  lemma EmitTopological(list: seq<Commit>, out: seq<Commit>, c: Commit)
    requires Topological(out) && Elems(out) <= Elems(list) && c !in out && c !in c.parents && c in list
    requires forall x :: x in out ==> ChildrenIn(list, x, out)
    ensures Topological(out + [c])
  {
    forall j | 0 <= j < |out|
      ensures out[j] !in c.parents
    {
      assert ChildrenIn(list, out[j], out);
    }
  }

  /** With an empty queue everything has been emitted: the rest has no childless member. */
  lemma NothingLeft(G: set<Commit>, list: seq<Commit>, slab: Slab, out: seq<Commit>)
    requires Dag(G) && Elems(list) <= G && Emitting(list, slab, multiset{}, out)
    ensures Elems(out) == Elems(list)
  {
    var rest := Elems(list) - Elems(out);
    if c :| c in rest {
      var m := MaximalAbove(G, rest, c);
      forall d | d in list && m in d.parents
        ensures d in out
      {
        ReachSelf(m);
        assert Proper(d, m);
        assert d !in rest;
      }
      NoEdgesLeft(list, Elems(out), m);
      assert false;
    }
    assert forall x :: x in Elems(list) ==> x in Elems(out) || x in rest;
  }

  /** The commits without a listed child start the queue. */
  method FindTips(list: seq<Commit>, slab: Slab) returns (queue: multiset<Commit>)
    requires Distinct(list)
    ensures forall p :: queue[p] == if p in list && At(slab, p) == 1 then 1 else 0
  {
    queue := multiset{};
    var i := 0;
    while i < |list|
      invariant 0 <= i <= |list|
      invariant forall p :: queue[p] == if p in list[..i] && At(slab, p) == 1 then 1 else 0
    {
      assert list[..i + 1] == list[..i] + [list[i]];
      if At(slab, list[i]) == 1 {
        queue := queue + multiset{list[i]};
      }
      i := i + 1;
    }
    assert list[..i] == list;
  }

  /** One emission: the parents are released, and the commit leaves the counting. */
  method Emit(c: Commit, slab0: Slab, queue0: multiset<Commit>, ghost list: seq<Commit>, ghost out: seq<Commit>,
              ghost G: set<Commit>)
    returns (slab: Slab, queue: multiset<Commit>)
    requires Dag(G) && Elems(list) <= G && Distinct(list)
    requires Emitting(list, slab0, queue0, out) && c in queue0
    ensures Emitting(list, slab, queue, out + [c])
    ensures c in Elems(list) && c !in Elems(out)
  {
    hide Dag, Distinct, Edges, At, Topological;
    MayEmit(G, list, slab0, queue0, out, c);
    slab, queue := ReleaseParents(c, slab0, queue0 - multiset{c}, list);
    EmitStep(list, slab0, queue0, out, c, slab, queue);
    slab := slab[c := 0];
  }

  /** REV_SORT_IN_GRAPH_ORDER, or one of the orders by a date of the commit or of its author. */
  datatype Order = GraphOrder | ByDate(date: Commit -> nat)

  /** Each commit emitted is one of the newest of those whose listed children have all been emitted. */
  ghost predicate NewestFirst(list: seq<Commit>, out: seq<Commit>, date: Commit -> nat) {
    forall k, d :: 0 <= k < |out| && d in list && d !in out[..k] && ChildrenIn(list, d, out[..k]) ==>
      date(d) <= date(out[k])
  }

  /** A commit that may be emitted is queued. */
  lemma EligibleIsQueued(list: seq<Commit>, slab: Slab, queue: multiset<Commit>, out: seq<Commit>, d: Commit)
    requires Emitting(list, slab, queue, out) && d in list && d !in out && ChildrenIn(list, d, out)
    ensures d in queue
  {
    NoEdgesLeft(list, Elems(out), d);
  }

  lemma NewestMore(list: seq<Commit>, slab: Slab, queue: multiset<Commit>, out: seq<Commit>, date: Commit -> nat,
                   c: Commit)
    requires Emitting(list, slab, queue, out) && NewestFirst(list, out, date)
    requires forall d :: d in queue ==> date(d) <= date(c)
    ensures NewestFirst(list, out + [c], date)
  {
    hide Emitting, ChildrenIn;
    var more := out + [c];
    forall k, d | 0 <= k < |more| && d in list && d !in more[..k] && ChildrenIn(list, d, more[..k])
      ensures date(d) <= date(more[k])
    {
      if k < |out| {
        assert more[..k] == out[..k];
      } else {
        assert more[..k] == out;
        EligibleIsQueued(list, slab, queue, out, d);
      }
    }
  }

  lemma {:induction false} SomeNewest(queue: multiset<Commit>, date: Commit -> nat) returns (c: Commit)
    requires queue != multiset{}
    ensures c in queue && forall d :: d in queue ==> date(d) <= date(c)
    decreases |queue|
  {
    c :| c in queue;
    var rest := queue - multiset{c};
    if rest == multiset{} {
      forall x | x in queue
        ensures x == c
      {
        assert x == c || rest[x] > 0;
      }
    } else {
      var first := c;
      var d := SomeNewest(rest, date);
      c := if date(d) > date(first) then d else first;
      forall x | x in queue
        ensures date(x) <= date(c)
      {
        assert x == first || x in rest;
      }
    }
  }

  /** prio_queue_get, except that nothing is said of ties and of graph order. */
  method Next(queue: multiset<Commit>, order: Order) returns (c: Commit)
    requires queue != multiset{}
    ensures c in queue && (order.ByDate? ==> forall d :: d in queue ==> order.date(d) <= order.date(c))
  {
    if order.ByDate? {
      ghost var newest := SomeNewest(queue, order.date);
      c :| c in queue && forall d :: d in queue ==> order.date(d) <= order.date(c);
    } else {
      c :| c in queue;
    }
  }

  /** sort_in_topological_order on a list without duplicates. */
  method SortInTopologicalOrder(list: seq<Commit>, order: Order, ghost G: set<Commit>) returns (out: seq<Commit>)
    requires Dag(G) && Elems(list) <= G && Distinct(list)
    ensures multiset(out) == multiset(list)
    ensures Topological(out)
    ensures order.ByDate? ==> NewestFirst(list, out, order.date)
  {
    hide Dag, Distinct, Emitting, Topological, Edges, At, NewestFirst;
    var slab := CountParents(list);
    var queue := FindTips(list, slab);
    out := [];
    StartEmitting(list, slab, queue);
    NothingFirst(list, order);
    while queue != multiset{}
      invariant Emitting(list, slab, queue, out)
      invariant order.ByDate? ==> NewestFirst(list, out, order.date)
      decreases Elems(list) - Elems(out)
    {
      var c := Next(queue, order);
      if order.ByDate? {
        NewestMore(list, slab, queue, out, order.date, c);
      }
      slab, queue := Emit(c, slab, queue, list, out, G);
      assert Elems(out + [c]) == Elems(out) + {c};
      out := out + [c];
    }
    NothingLeft(G, list, slab, out);
    Emitted(list, slab, queue, out);
    DistinctPermutation(out, list);
  }

  lemma NothingFirst(list: seq<Commit>, order: Order)
    ensures order.ByDate? ==> NewestFirst(list, [], order.date)
  {
  }

  lemma StartEmitting(list: seq<Commit>, slab: Slab, queue: multiset<Commit>)
    requires forall p :: p in list ==> At(slab, p) == 1 + Edges(list, {}, p)
    requires forall p :: p in slab && p !in list ==> At(slab, p) == 0
    requires forall p :: p in list ==> queue[p] == if At(slab, p) == 1 then 1 else 0
    requires forall p :: p in queue ==> p in list
    ensures Emitting(list, slab, queue, [])
  {
    hide Edges;
    assert Elems<Commit>([]) == {};
  }

  lemma Emitted(list: seq<Commit>, slab: Slab, queue: multiset<Commit>, out: seq<Commit>)
    requires Emitting(list, slab, queue, out)
    ensures Distinct(out) && Topological(out)
  {
  }
}

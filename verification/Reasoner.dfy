/**
 The reasoner of src/reasoner.c: it extends a query node with every tag that the relation
 graph ties to it.  The chain of related nodes is at once the result and the work queue:
 the search appends to the chain while it walks it.
 */
module Reasoner {
  import opened Schema

  /** An entry of a `related` chain: a tag and the chain of tags that it excludes. */
  datatype Entry = Entry(id: TagId, negated: seq<TagId>)

  function Ids(chain: seq<Entry>): (ids: seq<TagId>)
    ensures |ids| == |chain|
    ensures forall k :: 0 <= k < |chain| ==> ids[k] == chain[k].id
  {
    seq(|chain|, k requires 0 <= k < |chain| => chain[k].id)
  }

  ghost predicate Distinct(ids: seq<TagId>) {
    forall i, j :: 0 <= i < j < |ids| ==> ids[i] != ids[j]
  }

  lemma {:induction false} DistinctFits(ids: seq<TagId>, all: set<TagId>)
    requires Distinct(ids) && forall id :: id in ids ==> id in all
    ensures |ids| <= |all|
  {
    if ids != [] {
      var n := |ids| - 1;
      assert forall id :: id in ids[..n] ==> id in ids && id != ids[n];
      DistinctFits(ids[..n], all - {ids[n]});
    }
  }

  /** How many nodes hang off the entries of a chain. */
  function Hanging(chain: seq<Entry>): nat {
    if chain == [] then 0 else Hanging(chain[..|chain| - 1]) + |chain[|chain| - 1].negated|
  }

  lemma HangingAppend(chain: seq<Entry>, id: TagId)
    ensures Hanging(chain + [Entry(id, [])]) == Hanging(chain)
  {
    assert (chain + [Entry(id, [])])[..|chain|] == chain;
  }

  lemma {:induction false} HangingGrow(chain: seq<Entry>, k: nat, id: TagId)
    requires k < |chain|
    ensures Hanging(chain[k := chain[k].(negated := chain[k].negated + [id])]) == Hanging(chain) + 1
  {
    var n := |chain| - 1;
    var grown := chain[k := chain[k].(negated := chain[k].negated + [id])];
    if k == n {
      assert grown[..n] == chain[..n];
    } else {
      HangingGrow(chain[..n], k, id);
      assert grown[..n] == chain[..n][k := grown[k]];
    }
  }

  /**
   The nodes a run of the reasoner has built: what hangs off the start node through `related` and
   through `negated`, and the node being reasoned about (0 is the start node, k the k-th entry).
   */
  datatype Search = Search(start: TagId, related: seq<Entry>, negated: seq<TagId>, current: nat, added: nat) {

    function NodeId(k: nat): TagId
      requires k <= |related|
    {
      if k == 0 then start else related[k - 1].id
    }

    /** The tags no further node may repeat: the start node and its two chains. */
    predicate Taken(v: TagId) {
      v == start || v in Ids(related) || v in negated
    }

    /** The search after one call of `tagsistant_add_reasoned_tag`. */
    function Add(id: TagId, negate: bool): Search
      requires current <= |related|
    {
      if Taken(id) then this
      else if !negate then this.(related := related + [Entry(id, [])], added := added + 1)
      else if current == 0 then this.(negated := negated + [id], added := added + 1)
      else
        var node := related[current - 1];
        this.(related := related[current - 1 := node.(negated := node.negated + [id])], added := added + 1)
    }
  }

  lemma AddTakes(s: Search, id: TagId, negate: bool)
    requires s.current <= |s.related|
    ensures !negate || s.current == 0 ==> s.Add(id, negate).Taken(id)
    ensures forall v :: s.Taken(v) ==> s.Add(id, negate).Taken(v)
    ensures Ids(s.related) <= Ids(s.Add(id, negate).related) && s.negated <= s.Add(id, negate).negated
    ensures forall v :: v in Ids(s.Add(id, negate).related) ==> v in Ids(s.related) || v == id
    ensures forall v :: v in s.Add(id, negate).negated ==> v in s.negated || v == id
    ensures s.Add(id, negate).current == s.current <= |s.Add(id, negate).related|
    ensures s.Add(id, negate).NodeId(s.current) == s.NodeId(s.current)
  {
    var s' := s.Add(id, negate);
    if !s.Taken(id) && !negate {
      assert Ids(s'.related) == Ids(s.related) + [id];
    } else {
      assert Ids(s'.related) == Ids(s.related);
      assert negate && s.current == 0 && !s.Taken(id) ==> s'.negated[|s.negated|] == id;
    }
  }

  /** `includes` links forward, `is_equivalent` links both ways. */
  predicate Links(row: Relation, u: TagId, v: TagId) {
    || (row.tag1 == u && row.tag2 == v && row.kind != Excludes)
    || (row.tag2 == u && row.tag1 == v && row.kind == IsEquivalent)
  }

  predicate Bars(row: Relation, u: TagId, v: TagId) {
    row.tag1 == u && row.tag2 == v && row.kind == Excludes
  }

  /** The relation graph: the rows of `relations` joined with the ids present in `tags`. */
  datatype Graph = Graph(tags: set<TagId>, rows: seq<Relation>) {

    ghost predicate Positive(u: TagId, v: TagId) {
      v in tags && exists k :: 0 <= k < |rows| && Links(rows[k], u, v)
    }

    ghost predicate Negative(u: TagId, v: TagId) {
      v in tags && exists k :: 0 <= k < |rows| && Bars(rows[k], u, v)
    }

    /** What counts as a positive edge, row by row. */
    lemma PositiveIff(u: TagId, v: TagId)
      ensures Positive(u, v) <==>
        && v in tags
        && (Relation(u, Includes, v) in rows || Relation(u, IsEquivalent, v) in rows || Relation(v, IsEquivalent, u) in rows)
    {
      if k :| 0 <= k < |rows| && Links(rows[k], u, v) {
        assert rows[k] in rows;
        assert rows[k] in [Relation(u, Includes, v), Relation(u, IsEquivalent, v), Relation(v, IsEquivalent, u)];
      }
    }

    lemma NegativeIff(u: TagId, v: TagId)
      ensures Negative(u, v) <==> v in tags && Relation(u, Excludes, v) in rows
    {
      if k :| 0 <= k < |rows| && Bars(rows[k], u, v) {
        assert rows[k] == Relation(u, Excludes, v);
      }
    }

    /** The tags `start` excludes for good: neither `start` itself nor one of its direct positives. */
    ghost predicate Banned(start: TagId, v: TagId) {
      Negative(start, v) && v != start && !Positive(start, v)
    }

    /** A walk along positive edges that leaves `start` and never enters a banned tag. */
    ghost predicate IsWalk(start: TagId, walk: seq<TagId>) {
      && walk != []
      && walk[0] == start
      && (forall k :: 0 < k < |walk| ==> Positive(walk[k - 1], walk[k]) && !Banned(start, walk[k]))
    }

    ghost predicate Reachable(start: TagId, v: TagId) {
      exists walk :: IsWalk(start, walk) && walk[|walk| - 1] == v
    }

    lemma ReachableStep(start: TagId, u: TagId, v: TagId)
      requires u == start || Reachable(start, u)
      requires Positive(u, v) && !Banned(start, v)
      ensures Reachable(start, v)
    {
      assert IsWalk(start, [start]);
      var walk :| IsWalk(start, walk) && walk[|walk| - 1] == u;
      assert IsWalk(start, walk);
      var longer := walk + [v];
      assert IsWalk(start, longer) && longer[|longer| - 1] == v;
    }

    /** Equivalent tags lead to each other, whatever is excluded. */
    lemma EquivalentsReachEachOther(u: TagId, v: TagId)
      requires u in tags && v in tags && Relation(u, IsEquivalent, v) in rows
      ensures Reachable(u, v) && Reachable(v, u)
    {
      PositiveIff(u, v);
      PositiveIff(v, u);
      ReachableStep(u, u, v);
      ReachableStep(v, v, u);
    }

    /** An included tag is reached; the one that includes it is not, unless other relations lead there. */
    lemma IncludedIsReached(u: TagId, v: TagId)
      requires v in tags && Relation(u, Includes, v) in rows
      ensures Reachable(u, v)
      ensures u != v && (forall r :: r in rows ==> r == Relation(u, Includes, v)) ==> !Reachable(v, u)
    {
      PositiveIff(u, v);
      ReachableStep(u, u, v);
      if u != v && (forall r :: r in rows ==> r == Relation(u, Includes, v)) {
        forall x, y ensures !(x in {v} && Positive(x, y)) {
          PositiveIff(x, y);
        }
        forall walk | IsWalk(v, walk) ensures walk[|walk| - 1] != u {
          ClosedContainsReachable(v, walk, {v});
        }
      }
    }

    /** A set closed under the allowed edges contains every reachable tag. */
    lemma {:induction false} ClosedContainsReachable(start: TagId, walk: seq<TagId>, closed: set<TagId>)
      requires start in closed
      requires forall u, v :: u in closed && Positive(u, v) && !Banned(start, v) ==> v in closed
      requires IsWalk(start, walk)
      ensures walk[|walk| - 1] in closed
    {
      if |walk| > 1 {
        var shorter := walk[..|walk| - 1];
        assert IsWalk(start, shorter);
        ClosedContainsReachable(start, shorter, closed);
      }
    }

    /** What holds of the chains at any moment: no repetition, nothing unreachable, an exact count. */
    ghost predicate Consistent(s: Search) {
      && s.current <= |s.related|
      && Distinct(Ids(s.related)) && Distinct(s.negated)
      && s.start !in s.negated
      && (forall v :: v in Ids(s.related) ==> Settled(s, v))
      && s.added == |s.related| + |s.negated| + Hanging(s.related)
    }

    ghost predicate Settled(s: Search, v: TagId) {
      v in tags && v != s.start && v !in s.negated && Reachable(s.start, v)
    }

    /** Every positive edge out of the first `n` nodes of the queue has been followed. */
    ghost predicate Followed(s: Search, n: nat)
      requires n <= |s.related| + 1
    {
      forall k, v :: 0 <= k < n && Positive(s.NodeId(k), v) ==> s.Taken(v)
    }

    ghost predicate BannedKnown(s: Search) {
      forall v :: v in s.negated <==> Banned(s.start, v)
    }

    /** What holds when the reasoner turns to node `current`. */
    ghost predicate Ready(s: Search) {
      && Consistent(s)
      && Followed(s, s.current)
      && (if s.current == 0 then s.related == [] && s.negated == [] else BannedKnown(s))
    }

    /** The exact answer: the chain holds, once each, the tags reachable from the start, without the start. */
    ghost predicate Answer(s: Search) {
      && Distinct(Ids(s.related)) && Distinct(s.negated)
      && (forall v :: v in Ids(s.related) <==> v != s.start && Reachable(s.start, v))
      && BannedKnown(s)
      && s.added == |s.related| + |s.negated| + Hanging(s.related)
    }

    lemma AddPositive(s: Search, id: TagId)
      requires Consistent(s) && Positive(s.NodeId(s.current), id)
      requires if s.current == 0 then s.negated == [] else BannedKnown(s)
      ensures Consistent(s.Add(id, false))
    {
      if !s.Taken(id) {
        var n := s.NodeId(s.current);
        assert s.current > 0 ==> Ids(s.related)[s.current - 1] == n && Settled(s, n);
        ReachableStep(s.start, n, id);
        HangingAppend(s.related, id);
        var s' := s.Add(id, false);
        forall v | v in Ids(s'.related) ensures Settled(s', v) {
          assert v != id ==> v in Ids(s.related) && Settled(s, v);
        }
      }
    }

    lemma AddNegative(s: Search, id: TagId)
      requires Consistent(s)
      ensures Consistent(s.Add(id, true)) && Ids(s.Add(id, true).related) == Ids(s.related)
    {
      var s' := s.Add(id, true);
      if !s.Taken(id) && s.current > 0 {
        HangingGrow(s.related, s.current - 1, id);
      }
      assert Ids(s'.related) == Ids(s.related);
      forall v | v in Ids(s'.related) ensures Settled(s', v) {
        assert Settled(s, v);
      }
    }

    lemma FollowedGrows(s: Search, n: nat, s': Search)
      requires n <= |s.related| + 1 && Followed(s, n) && s'.start == s.start
      requires Ids(s.related) <= Ids(s'.related) && s.negated <= s'.negated
      ensures Followed(s', n)
    {
      forall k, v | 0 <= k < n && Positive(s'.NodeId(k), v)
        ensures s'.Taken(v)
      {
        assert k > 0 ==> Ids(s.related)[k - 1] == Ids(s'.related)[k - 1];
        assert s.NodeId(k) == s'.NodeId(k);
        assert s.Taken(v);
      }
    }

    /** After the positive half of the first step the chain holds exactly the start's direct positives. */
    ghost predicate DirectPositives(s: Search) {
      forall v :: v in Ids(s.related) <==> v != s.start && Positive(s.start, v)
    }

    lemma StepDone(s: Search, s': Search, ids: seq<TagId>)
      requires s.current <= |s.related| && Followed(s, s.current) && Consistent(s')
      requires s'.start == s.start && s'.current == s.current && s'.negated == s.negated && Ids(s.related) <= Ids(s'.related)
      requires forall v :: v in ids <==> Positive(s'.NodeId(s.current), v)
      requires forall v :: v in ids ==> s'.Taken(v)
      requires s.current == 0 ==> s.negated == [] && forall v :: v in Ids(s'.related) ==> v in ids
      ensures Followed(s', s.current + 1)
      ensures s.current == 0 ==> DirectPositives(s')
    {
      FollowedGrows(s, s.current, s');
      if s.current == 0 {
        assert s'.NodeId(0) == s'.start;
        forall v ensures v in Ids(s'.related) <==> v != s'.start && Positive(s'.start, v) {
          assert Positive(s'.start, v) ==> v in ids && s'.Taken(v);
          assert v in Ids(s'.related) ==> Settled(s', v);
        }
      }
    }

    /** After the start node the negated chain is settled: it is exactly what the start bans. */
    lemma FirstStepBans(s: Search)
      requires Consistent(s) && DirectPositives(s)
      requires forall v :: v in s.negated ==> Negative(s.start, v)
      requires forall v :: Negative(s.start, v) ==> s.Taken(v)
      ensures BannedKnown(s)
    {
      forall v ensures v in s.negated <==> Banned(s.start, v) {
        assert v in Ids(s.related) ==> Settled(s, v);
      }
    }

    /** When the queue is used up the chain is exactly the reachable part of the graph. */
    lemma QueueEmpty(s: Search)
      requires Consistent(s) && Followed(s, |s.related| + 1) && BannedKnown(s)
      ensures Answer(s)
    {
      var closed := {s.start} + set v | v in Ids(s.related);
      forall u, v | u in closed && Positive(u, v) && !Banned(s.start, v)
        ensures v in closed
      {
        assert s.NodeId(0) == s.start;
        if u != s.start {
          var k :| 0 <= k < |s.related| && Ids(s.related)[k] == u;
          assert s.NodeId(k + 1) == u;
        }
        assert s.Taken(v);
      }
      forall v ensures v in Ids(s.related) <==> v != s.start && Reachable(s.start, v) {
        if v in Ids(s.related) {
          assert Settled(s, v);
        } else if v != s.start && Reachable(s.start, v) {
          var walk :| IsWalk(s.start, walk) && walk[|walk| - 1] == v;
          ClosedContainsReachable(s.start, walk, closed);
        }
      }
    }
  }

  class Reasoning {
    const graph: Graph
    const start: TagId
    var related: seq<Entry>
    var negated: seq<TagId>
    var current: nat
    var negate: bool
    var addedTags: nat

    constructor (graph: Graph, start: TagId)
      ensures this.graph == graph && State() == Search(start, [], [], 0, 0)
    {
      this.graph, this.start := graph, start;
      related, negated, current, negate, addedTags := [], [], 0, false, 0;
    }

    function State(): Search
      reads this
    {
      Search(start, related, negated, current, addedTags)
    }

    /** `tagsistant_and_node_match` on every node the duplicate check visits. */
    method Matches(id: TagId) returns (found: bool)
      ensures found <==> State().Taken(id)
    {
      if id == start { return true; }
      for k := 0 to |related|
        invariant forall j :: 0 <= j < k ==> related[j].id != id
      {
        if related[k].id == id {
          assert Ids(related)[k] == id;
          return true;
        }
      }
      for k := 0 to |negated|
        invariant forall j :: 0 <= j < k ==> negated[j] != id
      {
        if negated[k] == id { return true; }
      }
      return false;
    }

    /**
     `tagsistant_add_reasoned_tag`: a tag already taken is ignored, any other is appended to the
     `related` chain or, under `negate`, to the negated chain of the current node.
     */
    method AddReasonedTag(id: TagId)
      requires current <= |related|
      modifies this`related, this`negated, this`addedTags
      ensures State() == old(State()).Add(id, negate)
    {
      var found := Matches(id);
      if found { return; }
      if negate {
        if current == 0 {
          negated := negated + [id];
        } else {
          var node := related[current - 1];
          related := related[current - 1 := node.(negated := node.negated + [id])];
        }
      } else {
        related := related + [Entry(id, [])];
      }
      addedTags := addedTags + 1;
    }

    /** The first query: tags the node includes, and tags equivalent to it in either direction. */
    method PositiveRows(id: TagId) returns (ids: seq<TagId>)
      ensures forall v :: v in ids <==> graph.Positive(id, v)
    {
      ids := [];
      for k := 0 to |graph.rows|
        invariant forall v :: v in ids <==> v in graph.tags && exists j :: 0 <= j < k && Links(graph.rows[j], id, v)
      {
        var row := graph.rows[k];
        if row.tag1 == id && row.kind != Excludes && row.tag2 in graph.tags {
          ids := ids + [row.tag2];
        }
        if row.tag2 == id && row.kind == IsEquivalent && row.tag1 in graph.tags {
          ids := ids + [row.tag1];
        }
      }
    }

    /** The second query: tags the node excludes. */
    method NegativeRows(id: TagId) returns (ids: seq<TagId>)
      ensures forall v :: v in ids <==> graph.Negative(id, v)
    {
      ids := [];
      for k := 0 to |graph.rows|
        invariant forall v :: v in ids <==> v in graph.tags && exists j :: 0 <= j < k && Bars(graph.rows[j], id, v)
      {
        var row := graph.rows[k];
        if row.tag1 == id && row.kind == Excludes && row.tag2 in graph.tags {
          ids := ids + [row.tag2];
        }
      }
    }

    /** One row of the first query: the tag is in the chain afterwards, if it was not taken before. */
    method FollowRow(id: TagId)
      requires graph.Consistent(State()) && graph.Positive(State().NodeId(current), id) && !negate
      requires if current == 0 then negated == [] else graph.BannedKnown(State())
      modifies this`related, this`negated, this`addedTags
      ensures graph.Consistent(State()) && negated == old(negated) && State().Taken(id)
      ensures Ids(old(related)) <= Ids(related) && State().NodeId(current) == old(State().NodeId(current))
      ensures forall v :: old(State().Taken(v)) ==> State().Taken(v)
      ensures forall v :: v in Ids(related) ==> v in Ids(old(related)) || v == id
    {
      ghost var s := State();
      graph.AddPositive(s, id);
      AddTakes(s, id, false);
      AddReasonedTag(id);
      assert State() == s.Add(id, false);
    }

    /** First half of a step: append what the current node includes or is equivalent to. */
    method FollowPositive()
      requires graph.Ready(State())
      modifies this
      ensures graph.Consistent(State()) && current == old(current) && negated == old(negated)
      ensures graph.Followed(State(), current + 1)
      ensures current == 0 ==> graph.DirectPositives(State())
    {
      negate := false;
      ghost var s0 := State();
      var ids := PositiveRows(State().NodeId(current));
      for k := 0 to |ids|
        invariant graph.Consistent(State()) && current == s0.current && negated == s0.negated && !negate
        invariant Ids(s0.related) <= Ids(related)
        invariant State().NodeId(current) == s0.NodeId(current)
        invariant forall j :: 0 <= j < k ==> State().Taken(ids[j])
        invariant current == 0 ==> forall v :: v in Ids(related) ==> v in ids
      {
        assert ids[k] in ids;
        FollowRow(ids[k]);
      }
      graph.StepDone(s0, State(), ids);
    }

    /** One row of the second query: the tag joins the negated chain of the node, if it was not taken before. */
    method BarRow(id: TagId)
      requires graph.Consistent(State()) && negate
      modifies this`related, this`negated, this`addedTags
      ensures graph.Consistent(State()) && Ids(related) == Ids(old(related)) && old(negated) <= negated
      ensures forall v :: v in negated ==> v in old(negated) || v == id
      ensures current == 0 ==> State().Taken(id) && forall v :: old(State().Taken(v)) ==> State().Taken(v)
      ensures current > 0 ==> negated == old(negated)
    {
      ghost var s := State();
      graph.AddNegative(s, id);
      AddTakes(s, id, true);
      AddReasonedTag(id);
      assert State() == s.Add(id, true);
    }

    /** Second half of a step: append what the current node excludes to its negated chain. */
    method FollowNegative()
      requires graph.Consistent(State()) && graph.Followed(State(), current + 1)
      requires if current == 0 then negated == [] && graph.DirectPositives(State()) else graph.BannedKnown(State())
      modifies this
      ensures graph.Consistent(State()) && current == old(current) && |related| == old(|related|)
      ensures graph.Followed(State(), current + 1) && graph.BannedKnown(State())
    {
      negate := true;
      ghost var s0 := State();
      var ids := NegativeRows(State().NodeId(current));
      for k := 0 to |ids|
        invariant graph.Consistent(State()) && current == s0.current && negate
        invariant Ids(related) == Ids(s0.related) && s0.negated <= negated
        invariant current == 0 ==> forall j :: 0 <= j < k ==> State().Taken(ids[j])
        invariant current == 0 ==> forall v :: v in negated ==> v in ids
        invariant current > 0 ==> negated == s0.negated
      {
        assert ids[k] in ids;
        BarRow(ids[k]);
      }
      graph.FollowedGrows(s0, current + 1, State());
      if current == 0 {
        graph.FirstStepBans(State());
      }
    }

    /**
     `tagsistant_reasoner_inner`: reason about the current node, then about the next one in the
     chain.  Each call may lengthen the chain, yet (known tags not yet in the chain) + (nodes
     after the current one) is (|tags| - |related|) + (|related| - current): it drops by one.
     */
    method Inner() returns (added: nat)
      requires graph.Ready(State())
      modifies this
      ensures graph.Answer(State())
      ensures added == addedTags
      decreases |graph.tags| - current
    {
      FollowPositive();
      FollowNegative();
      assert forall v :: v in Ids(related) ==> graph.Settled(State(), v);
      DistinctFits(Ids(related), graph.tags);
      if current < |related| {
        ghost var s := State();
        current := current + 1;
        graph.FollowedGrows(s, current, State());
        added := Inner();
      } else {
        graph.QueueEmpty(State());
        added := addedTags;
      }
    }
  }

  /** `tagsistant_reasoner`, as the parser calls it on a fresh node. */
  method Reason(graph: Graph, start: TagId) returns (added: nat, related: seq<Entry>, negated: seq<TagId>)
    ensures graph.Answer(Search(start, related, negated, 0, added))
  {
    var reasoning := new Reasoning(graph, start);
    added := reasoning.Inner();
    related, negated := reasoning.related, reasoning.negated;
  }
}

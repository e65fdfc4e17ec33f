/**
 The reasoner inside a query (src/path_resolution.c:728-739, src/reasoner.c:180-349): which
 objects a query finds, told by the relation graph.
 */
module ReasonedQuery {
  import opened Schema
  import opened Tables
  import opened QueryGrammar
  import opened QueryCompiler
  import opened QueryEvaluator
  import Reasoner

  function RelationGraph(db: Db): Reasoner.Graph {
    Reasoner.Graph(db.tags.Keys, db.relations)
  }

  /** The relations exclude some tag for good. */
  ghost predicate ExcludesSome(db: Db, id: TagId) {
    exists v :: RelationGraph(db).Banned(id, v)
  }

  /** The reply to the parser and the chains that the reasoner built are the same tags. */
  ghost predicate Matches(reply: Reasoned, chain: seq<Reasoner.Entry>, negated: seq<TagId>) {
    && |reply.related| == |chain| && (forall k :: 0 <= k < |chain| ==> reply.related[k].leaf.id == chain[k].id)
    && |reply.excluded| == |negated| && (forall k :: 0 <= k < |negated| ==> reply.excluded[k].id == negated[k])
  }

  /** The reply is what `Reasoner.Reason` computes from the tables for the tag of the leaf. */
  ghost predicate Replies(db: Db, leaf: Leaf, reply: Reasoned) {
    exists chain: seq<Reasoner.Entry>, negated, added ::
      RelationGraph(db).Answer(Reasoner.Search(leaf.id, chain, negated, 0, added)) && Matches(reply, chain, negated)
  }

  ghost predicate Reasons(s: Services, db: Db) {
    forall leaf :: Replies(db, leaf, s.reasoner(leaf))
  }

  /** The object carries the tag of a word or one that the relations lead to. */
  ghost predicate Implied(db: Db, s: Services, i: Inode, w: Word) {
    exists v: TagId :: RelationGraph(db).Reachable(s.ids(w), v) && (i, v) in db.tagging
  }

  lemma ReplyMeans(db: Db, leaf: Leaf, reply: Reasoned, i: Inode)
    requires Replies(db, leaf, reply)
    ensures Holds(db, i, leaf, reply.related) <==>
      exists v: TagId :: RelationGraph(db).Reachable(leaf.id, v) && (i, v) in db.tagging
    ensures reply.excluded == [] ==> !ExcludesSome(db, leaf.id)
    ensures reply.excluded != [] ==> RelationGraph(db).Banned(leaf.id, reply.excluded[0].id)
  {
    var graph := RelationGraph(db);
    var chain: seq<Reasoner.Entry>, negated, added :|
      graph.Answer(Reasoner.Search(leaf.id, chain, negated, 0, added)) && Matches(reply, chain, negated);
    var search := Reasoner.Search(leaf.id, chain, negated, 0, added);
    assert graph.IsWalk(leaf.id, [leaf.id]) && graph.Reachable(leaf.id, leaf.id);
    if k :| 0 <= k < |reply.related| && (i, reply.related[k].leaf.id) in db.tagging {
      assert chain[k].id == Reasoner.Ids(chain)[k] && chain[k].id in Reasoner.Ids(search.related);
    }
    if v :| graph.Reachable(leaf.id, v) && v != leaf.id && (i, v) in db.tagging {
      assert v in Reasoner.Ids(search.related);
      var k :| 0 <= k < |chain| && Reasoner.Ids(chain)[k] == v;
      assert (i, reply.related[k].leaf.id) in db.tagging;
    }
    if reply.excluded != [] {
      assert negated[0] in search.negated;
    }
  }

  /** A tag in a query is found on the objects that carry it or a tag that the relations lead to. */
  lemma WordMeans(db: Db, s: Services, i: Inode, w: Word, negate: bool)
    requires Reasons(s, db) && Writable(w)
    ensures Holds(db, i, s.LeafOf(w, negate), s.Reason(s.LeafOf(w, negate)).related) <==> Implied(db, s, i, w)
    ensures var excluded := s.Reason(s.LeafOf(w, negate)).excluded;
      if excluded == [] then !ExcludesSome(db, s.ids(w)) else RelationGraph(db).Banned(s.ids(w), excluded[0].id)
  {
    ReplyMeans(db, s.LeafOf(w, negate), s.reasoner(s.LeafOf(w, negate)), i);
  }

  ghost predicate ItemImplied(db: Db, s: Services, i: Inode, item: Item) {
    match item
    case One(w) => Implied(db, s, i, w)
    case Group(ws) => exists w :: w in ws && Implied(db, s, i, w)
    case Not(w) => true
  }

  lemma ItemMeans(db: Db, s: Services, i: Inode, item: Item)
    requires Reasons(s, db) && WritableItem(item)
    ensures ItemHolds(db, s, i, item) <==> ItemImplied(db, s, i, item)
  {
    match item
    case One(w) => WordMeans(db, s, i, w, false);
    case Group(ws) =>
      forall w | w in ws ensures WordHolds(db, s, i, w) <==> Implied(db, s, i, w) {
        WordMeans(db, s, i, w, false);
      }
    case Not(w) =>
  }

  ghost predicate AllImplied(db: Db, s: Services, i: Inode, items: seq<Item>) {
    forall k :: 0 <= k < |items| ==> ItemImplied(db, s, i, items[k])
  }

  lemma ItemsMean(db: Db, s: Services, i: Inode, items: seq<Item>)
    requires Reasons(s, db) && forall k :: 0 <= k < |items| ==> WritableItem(items[k])
    ensures ItemsHold(db, s, i, items) <==> AllImplied(db, s, i, items)
  {
    forall k | 0 <= k < |items| ensures ItemHolds(db, s, i, items[k]) <==> ItemImplied(db, s, i, items[k]) {
      ItemMeans(db, s, i, items[k]);
    }
  }

  /**
   When the relations of the first tag exclude nothing, an AND set finds the objects that carry, for
   each tag or group, something the relations lead to, less what the negation after the first tag leads to.
   */
  lemma ReasonedAndMeans(db: Db, s: Services, i: Inode, items: seq<Item>)
    requires Reasons(s, db) && ProperAnd(items)
    requires !ExcludesSome(db, s.ids(FirstWord(items)))
    ensures AndAccepts(db, CompileItems([], items, s), i) <==>
      AllImplied(db, s, i, items) && !(|items| > 1 && items[1].Not? && Implied(db, s, i, items[1].word))
  {
    CompiledAndMeans(db, s, i, items);
    ItemsMean(db, s, i, items);
    var w := FirstWord(items);
    assert WritableItem(items[0]) && Writable(w);
    WordMeans(db, s, i, w, false);
    if |items| > 1 && items[1].Not? {
      assert WritableItem(items[1]);
      WordMeans(db, s, i, items[1].word, true);
    }
  }

  /**
   When they do exclude something, one of the excluded tags bars the objects that carry it, and
   neither the others nor any negation of the query has a say.
   */
  lemma ExcludingAndMeans(db: Db, s: Services, items: seq<Item>) returns (bar: TagId)
    requires Reasons(s, db) && ProperAnd(items)
    requires ExcludesSome(db, s.ids(FirstWord(items)))
    ensures RelationGraph(db).Banned(s.ids(FirstWord(items)), bar)
    ensures forall i: Inode :: AndAccepts(db, CompileItems([], items, s), i) <==>
      AllImplied(db, s, i, items) && (i, bar) !in db.tagging
  {
    var w := FirstWord(items);
    assert WritableItem(items[0]) && Writable(w);
    WordMeans(db, s, 0, w, false);
    var excluded := s.Reason(s.LeafOf(w, false)).excluded;
    bar := excluded[0].id;
    forall i: Inode
      ensures AndAccepts(db, CompileItems([], items, s), i) <==> AllImplied(db, s, i, items) && (i, bar) !in db.tagging
    {
      CompiledAndMeans(db, s, i, items);
      ItemsMean(db, s, i, items);
    }
  }
}

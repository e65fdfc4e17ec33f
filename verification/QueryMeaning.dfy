/**
 What queries promise (ChangeLog:76-97, src/path_resolution.c:292-454): tag groups stand for
 their expansion into plain AND sets, and a written query finds the objects it describes.
 */
module QueryMeaning {
  import opened Schema
  import opened Tables
  import opened QueryGrammar
  import opened QueryCompiler
  import opened QueryEvaluator
  import InodeCodec

  // ----- tag groups -----

  function Singles(words: seq<Word>): (items: seq<Item>)
    ensures |items| == |words| && forall k :: 0 <= k < |words| ==> items[k] == One(words[k])
  {
    if words == [] then [] else [One(words[0])] + Singles(words[1..])
  }

  /** The ways to write an item without a group. */
  function Choices(item: Item): seq<Item> {
    if item.Group? then Singles(item.words) else [item]
  }

  function Prefixed(first: Item, rests: seq<seq<Item>>): (all: seq<seq<Item>>)
    ensures |all| == |rests| && forall k :: 0 <= k < |rests| ==> all[k] == [first] + rests[k]
  {
    if rests == [] then [] else [[first] + rests[0]] + Prefixed(first, rests[1..])
  }

  function Product(firsts: seq<Item>, rests: seq<seq<Item>>): seq<seq<Item>> {
    if firsts == [] then [] else Prefixed(firsts[0], rests) + Product(firsts[1..], rests)
  }

  /** The group-free AND sets that an AND set with groups abbreviates. */
  function ExpandAnd(items: seq<Item>): seq<seq<Item>> {
    if items == [] then [[]] else Product(Choices(items[0]), ExpandAnd(items[1..]))
  }

  function Expand(query: seq<seq<Item>>): seq<seq<Item>> {
    if query == [] then [] else ExpandAnd(query[0]) + Expand(query[1..])
  }

  lemma {:induction false} InProduct(firsts: seq<Item>, rests: seq<seq<Item>>, items: seq<Item>)
    ensures items in Product(firsts, rests) <==> items != [] && items[0] in firsts && items[1..] in rests
  {
    if firsts != [] {
      InProduct(firsts[1..], rests, items);
      var all := Prefixed(firsts[0], rests);
      if items in all {
        var k :| 0 <= k < |all| && all[k] == items;
        assert items[1..] == rests[k];
      }
      if items != [] && items[0] == firsts[0] && items[1..] in rests {
        var k :| 0 <= k < |rests| && rests[k] == items[1..];
        assert all[k] == items;
      }
      assert items in Product(firsts, rests) <==> items in all || items in Product(firsts[1..], rests);
    }
  }

  /** An expansion keeps the positions of the items and picks one tag of each group. */
  ghost predicate IsChoice(items: seq<Item>, chosen: seq<Item>) {
    |chosen| == |items| && forall k :: 0 <= k < |items| ==> chosen[k] in Choices(items[k])
  }

  lemma {:induction false} ExpansionsAreChoices(items: seq<Item>, chosen: seq<Item>)
    ensures chosen in ExpandAnd(items) <==> IsChoice(items, chosen)
    decreases |items|
  {
    if items == [] {
      assert chosen in [[]] <==> chosen == [];
    } else {
      InProduct(Choices(items[0]), ExpandAnd(items[1..]), chosen);
      if chosen != [] {
        ExpansionsAreChoices(items[1..], chosen[1..]);
        ChoiceSplit(items, chosen);
      }
    }
  }

  lemma ChoiceSplit(items: seq<Item>, chosen: seq<Item>)
    requires items != [] && chosen != []
    ensures IsChoice(items, chosen) <==> chosen[0] in Choices(items[0]) && IsChoice(items[1..], chosen[1..])
  {
    assert forall k :: 0 <= k < |items[1..]| ==> items[1..][k] == items[k + 1];
    assert forall k :: 0 <= k < |chosen[1..]| ==> chosen[1..][k] == chosen[k + 1];
    assert forall k :: 0 < k < |items| ==> items[k] == items[1..][k - 1];
    assert forall k :: 0 < k < |chosen| ==> chosen[k] == chosen[1..][k - 1];
  }

  /** An item holds exactly when one of its choices does. */
  lemma ItemHoldsByChoice(db: Db, s: Services, i: Inode, item: Item)
    ensures ItemHolds(db, s, i, item) <==> exists c :: c in Choices(item) && ItemHolds(db, s, i, c)
  {
    if item.Group? {
      var items := Singles(item.words);
      if ItemHolds(db, s, i, item) {
        var w :| w in item.words && WordHolds(db, s, i, w);
        var k :| 0 <= k < |item.words| && item.words[k] == w;
        assert items[k] in items && ItemHolds(db, s, i, items[k]);
      }
      if c :| c in items && ItemHolds(db, s, i, c) {
        var k :| 0 <= k < |items| && items[k] == c;
        assert item.words[k] in item.words && WordHolds(db, s, i, item.words[k]);
      }
    } else {
      assert item in Choices(item);
    }
  }

  /** Conjunction distributes over the choices. */
  lemma {:induction false} ItemsHoldByChoice(db: Db, s: Services, i: Inode, items: seq<Item>) returns (chosen: seq<Item>)
    requires ItemsHold(db, s, i, items)
    ensures IsChoice(items, chosen) && ItemsHold(db, s, i, chosen)
    decreases |items|
  {
    if items == [] {
      chosen := [];
    } else {
      assert ItemHolds(db, s, i, items[0]);
      ItemHoldsByChoice(db, s, i, items[0]);
      var c :| c in Choices(items[0]) && ItemHolds(db, s, i, c);
      assert forall k :: 0 <= k < |items[1..]| ==> items[1..][k] == items[k + 1];
      var rest := ItemsHoldByChoice(db, s, i, items[1..]);
      chosen := [c] + rest;
      assert chosen[1..] == rest;
      ChoiceSplit(items, chosen);
      assert forall k :: 0 < k < |chosen| ==> chosen[k] == rest[k - 1];
    }
  }

  lemma ChoiceHolds(db: Db, s: Services, i: Inode, items: seq<Item>, chosen: seq<Item>)
    requires IsChoice(items, chosen) && ItemsHold(db, s, i, chosen)
    ensures ItemsHold(db, s, i, items)
  {
    forall k | 0 <= k < |items| ensures ItemHolds(db, s, i, items[k]) {
      assert chosen[k] in Choices(items[k]) && ItemHolds(db, s, i, chosen[k]);
      ItemHoldsByChoice(db, s, i, items[k]);
    }
  }

  lemma ChoiceIsProper(items: seq<Item>, chosen: seq<Item>)
    requires ProperAnd(items) && IsChoice(items, chosen)
    ensures ProperAnd(chosen)
    ensures forall k :: 0 <= k < |items| ==> (chosen[k].Not? <==> items[k].Not?) && (items[k].Not? ==> chosen[k] == items[k])
  {
    forall k | 0 <= k < |items|
      ensures WritableItem(chosen[k]) && (chosen[k].Not? <==> items[k].Not?) && (items[k].Not? ==> chosen[k] == items[k])
    {
      assert WritableItem(items[k]) && chosen[k] in Choices(items[k]);
      if items[k].Group? {
        var l :| 0 <= l < |items[k].words| && Singles(items[k].words)[l] == chosen[k];
        assert items[k].words[l] in items[k].words;
      }
    }
  }

  /** The tags of which one stands for the first item in an expansion. */
  function FirstWords(items: seq<Item>): seq<Word>
    requires ProperAnd(items)
  {
    if items[0].One? then [items[0].word] else items[0].words
  }

  /** Some group-free AND set of the expansion accepts the object. */
  ghost predicate ExpandedAccepts(db: Db, s: Services, i: Inode, items: seq<Item>) {
    exists chosen :: chosen in ExpandAnd(items) && AndAccepts(db, CompileItems([], chosen, s), i)
  }

  lemma ChosenFirst(items: seq<Item>, chosen: seq<Item>)
    requires ProperAnd(items) && IsChoice(items, chosen)
    ensures ProperAnd(chosen) && chosen[0] == One(FirstWord(chosen)) && FirstWord(chosen) in FirstWords(items)
  {
    ChoiceIsProper(items, chosen);
    assert chosen[0] in Choices(items[0]);
  }

  lemma ChosenBars(db: Db, s: Services, i: Inode, items: seq<Item>, chosen: seq<Item>)
    requires ProperAnd(items) && IsChoice(items, chosen) && ProperAnd(chosen)
    ensures FirstNegationHolds(db, s, i, chosen) <==> WordBars(db, s, i, items, FirstWord(chosen))
  {
    ChoiceIsProper(items, chosen);
  }

  /** A choice with a given tag for the first item. */
  lemma ChoiceWithFirst(db: Db, s: Services, i: Inode, items: seq<Item>, w: Word) returns (chosen: seq<Item>)
    requires ProperAnd(items) && ItemsHold(db, s, i, items) && w in FirstWords(items) && WordHolds(db, s, i, w)
    ensures IsChoice(items, chosen) && ItemsHold(db, s, i, chosen) && chosen[0] == One(w)
  {
    var some := ItemsHoldByChoice(db, s, i, items);
    chosen := some[0 := One(w)];
    var k :| 0 <= k < |FirstWords(items)| && FirstWords(items)[k] == w;
    assert Choices(items[0])[k] == One(w);
  }

  /** What an expansion accepts: its choices of the first tag are barred one by one. */
  lemma ExpandedMeans(db: Db, s: Services, i: Inode, items: seq<Item>)
    requires ProperAnd(items)
    ensures ExpandedAccepts(db, s, i, items) <==>
      ItemsHold(db, s, i, items) && exists w :: w in FirstWords(items) && WordHolds(db, s, i, w) && !WordBars(db, s, i, items, w)
  {
    if chosen :| chosen in ExpandAnd(items) && AndAccepts(db, CompileItems([], chosen, s), i) {
      ExpansionsAreChoices(items, chosen);
      ChosenFirst(items, chosen);
      ChosenBars(db, s, i, items, chosen);
      CompiledAndMeans(db, s, i, chosen);
      ChoiceHolds(db, s, i, items, chosen);
      assert ItemHolds(db, s, i, chosen[0]);
    }
    if ItemsHold(db, s, i, items) {
      if w :| w in FirstWords(items) && WordHolds(db, s, i, w) && !WordBars(db, s, i, items, w) {
        var chosen := ChoiceWithFirst(db, s, i, items, w);
        ChosenFirst(items, chosen);
        ChosenBars(db, s, i, items, chosen);
        CompiledAndMeans(db, s, i, chosen);
        ExpansionsAreChoices(items, chosen);
      }
    }
  }

  /** Some tag that stands first holds whenever the first item does. */
  lemma SomeFirstHolds(db: Db, s: Services, i: Inode, items: seq<Item>) returns (w: Word)
    requires ProperAnd(items) && ItemsHold(db, s, i, items)
    ensures w in FirstWords(items) && WordHolds(db, s, i, w)
  {
    assert ItemHolds(db, s, i, items[0]);
    if items[0].One? {
      w := items[0].word;
    } else {
      w :| w in items[0].words && WordHolds(db, s, i, w);
    }
  }

  /** The bar of the first member stands for those of all the members that the object has. */
  ghost predicate BarsAgree(db: Db, s: Services, i: Inode, items: seq<Item>)
    requires ProperAnd(items)
  {
    WordBars(db, s, i, items, FirstWord(items)) <==>
      forall w :: w in FirstWords(items) && WordHolds(db, s, i, w) ==> WordBars(db, s, i, items, w)
  }

  /**
   An AND set with groups and its expansion agree on an object exactly when it lacks one of the tags
   or groups anyway, or the bar that the first member brings agrees with those of the members it has.
   */
  lemma GroupsAgreeIff(db: Db, s: Services, i: Inode, items: seq<Item>)
    requires ProperAnd(items)
    ensures (AndAccepts(db, CompileItems([], items, s), i) <==> ExpandedAccepts(db, s, i, items))
      <==> (ItemsHold(db, s, i, items) ==> BarsAgree(db, s, i, items))
  {
    CompiledAndMeans(db, s, i, items);
    ExpandedMeans(db, s, i, items);
  }

  /** The tag excludes nothing by relation. */
  predicate BringsNone(s: Services, w: Word) {
    s.Reason(s.LeafOf(w, false)).excluded == []
  }

  /** The tags that may stand first bring the same bar: none, or the same first excluded tag. */
  ghost predicate BarsAlike(s: Services, items: seq<Item>)
    requires ProperAnd(items)
  {
    forall w :: w in FirstWords(items) ==>
      var a, b := s.Reason(s.LeafOf(FirstWord(items), false)).excluded, s.Reason(s.LeafOf(w, false)).excluded;
      (a == [] <==> b == []) && (a != [] ==> a[0].id == b[0].id)
  }

  lemma SingleBarsAlike(s: Services, items: seq<Item>)
    requires ProperAnd(items) && (items[0].One? || forall w :: w in FirstWords(items) ==> BringsNone(s, w))
    ensures BarsAlike(s, items)
  {
  }

  /** Then a group query accepts exactly what its expansion accepts, negations included. */
  lemma GroupsAbbreviate(db: Db, s: Services, i: Inode, items: seq<Item>)
    requires ProperAnd(items) && BarsAlike(s, items)
    ensures AndAccepts(db, CompileItems([], items, s), i) <==> ExpandedAccepts(db, s, i, items)
  {
    GroupsAgreeIff(db, s, i, items);
    if ItemsHold(db, s, i, items) {
      var w := SomeFirstHolds(db, s, i, items);
      assert forall v :: v in FirstWords(items) ==>
        (WordBars(db, s, i, items, v) <==> WordBars(db, s, i, items, FirstWord(items)));
    }
  }

  /** The query `{/a/b/}` as the compiler sees it. */
  function EitherOf(a: string, b: string): seq<Item> {
    [Group([Flat(a), Flat(b)])]
  }

  /** An object with tag b and an excluded tag x, where b alone is asked for. */
  ghost predicate HasSecondOnly(db: Db, s: Services, i: Inode, a: string, b: string, x: TagId) {
    && !WordHolds(db, s, i, Flat(a)) && WordHolds(db, s, i, Flat(b)) && (i, x) in db.tagging
  }

  /** Groups that do not abbreviate: a excludes x, b does not, and `{/a/b/}` misses what `a/+/b` finds. */
  lemma GroupBarsMore(db: Db, s: Services, i: Inode, a: string, b: string, x: Leaf)
    requires Writable(Flat(a)) && Writable(Flat(b)) && HasSecondOnly(db, s, i, a, b, x.id)
    requires s.Reason(s.LeafOf(Flat(a), false)).excluded == [x] && BringsNone(s, Flat(b))
    ensures ProperAnd(EitherOf(a, b)) && !AndAccepts(db, CompileItems([], EitherOf(a, b), s), i)
    ensures ExpandedAccepts(db, s, i, EitherOf(a, b))
  {
    var items := EitherOf(a, b);
    assert items[0].words[1] in items[0].words;
    CompiledAndMeans(db, s, i, items);
    ExpandedMeans(db, s, i, items);
  }

  /** The other way round: only b excludes x, and `{/a/b/}` finds what `a/+/b` does not. */
  lemma GroupBarsLess(db: Db, s: Services, i: Inode, a: string, b: string, x: Leaf)
    requires Writable(Flat(a)) && Writable(Flat(b)) && HasSecondOnly(db, s, i, a, b, x.id)
    requires s.Reason(s.LeafOf(Flat(b), false)).excluded == [x] && BringsNone(s, Flat(a))
    ensures ProperAnd(EitherOf(a, b)) && AndAccepts(db, CompileItems([], EitherOf(a, b), s), i)
    ensures !ExpandedAccepts(db, s, i, EitherOf(a, b))
  {
    var items := EitherOf(a, b);
    assert items[0].words[1] in items[0].words;
    assert ItemHolds(db, s, i, items[0]);
    CompiledAndMeans(db, s, i, items);
    ExpandedMeans(db, s, i, items);
  }

  ghost predicate QueryAccepts(db: Db, s: Services, query: seq<seq<Item>>, i: Inode) {
    exists items :: items in query && AndAccepts(db, CompileItems([], items, s), i)
  }

  lemma CompiledAccepts(db: Db, s: Services, query: seq<seq<Item>>, i: Inode)
    ensures Accepts(db, Compile(query, s), i) <==> QueryAccepts(db, s, query, i)
  {
    var tree := Compile(query, s);
    if Accepts(db, tree, i) {
      var k :| 0 <= k < |tree| && AndAccepts(db, tree[k], i);
      assert query[k] in query;
    }
    if QueryAccepts(db, s, query, i) {
      var items :| items in query && AndAccepts(db, CompileItems([], items, s), i);
      var k :| 0 <= k < |query| && query[k] == items;
      assert AndAccepts(db, tree[k], i);
    }
  }

  ghost predicate ExpandsTo(query: seq<seq<Item>>, chosen: seq<Item>) {
    exists items :: items in query && chosen in ExpandAnd(items)
  }

  lemma {:induction false} InExpansion(query: seq<seq<Item>>, chosen: seq<Item>)
    ensures chosen in Expand(query) <==> ExpandsTo(query, chosen)
  {
    if query != [] {
      InExpansion(query[1..], chosen);
      assert forall items :: items in query <==> items == query[0] || items in query[1..];
      assert chosen in ExpandAnd(query[0]) ==> ExpandsTo(query, chosen);
      if ExpandsTo(query[1..], chosen) {
        var items :| items in query[1..] && chosen in ExpandAnd(items);
        assert items in query;
      }
    }
  }

  lemma ChoiceIsNoGroup(item: Item, c: Item)
    requires c in Choices(item)
    ensures !c.Group?
  {
    if item.Group? {
      var k :| 0 <= k < |Singles(item.words)| && Singles(item.words)[k] == c;
    }
  }

  /** The expansion is a query without groups, which can itself be written as a path. */
  lemma ExpansionIsPlain(query: seq<seq<Item>>, chosen: seq<Item>)
    requires (forall items :: items in query ==> ProperAnd(items)) && chosen in Expand(query)
    ensures ProperAnd(chosen) && forall k :: 0 <= k < |chosen| ==> !chosen[k].Group?
  {
    InExpansion(query, chosen);
    var items :| items in query && chosen in ExpandAnd(items);
    ExpansionsAreChoices(items, chosen);
    ChoiceIsProper(items, chosen);
    forall k | 0 <= k < |chosen| ensures !chosen[k].Group? {
      ChoiceIsNoGroup(items[k], chosen[k]);
    }
  }

  ghost predicate SomeExpands(db: Db, s: Services, query: seq<seq<Item>>, i: Inode) {
    exists items :: items in query && ExpandedAccepts(db, s, i, items)
  }

  lemma ExpandedQueryAccepts(db: Db, s: Services, query: seq<seq<Item>>, i: Inode)
    ensures QueryAccepts(db, s, Expand(query), i) <==> SomeExpands(db, s, query, i)
  {
    if QueryAccepts(db, s, Expand(query), i) {
      var chosen :| chosen in Expand(query) && AndAccepts(db, CompileItems([], chosen, s), i);
      InExpansion(query, chosen);
      var items :| items in query && chosen in ExpandAnd(items);
      assert ExpandedAccepts(db, s, i, items);
    }
    if SomeExpands(db, s, query, i) {
      var items :| items in query && ExpandedAccepts(db, s, i, items);
      var chosen :| chosen in ExpandAnd(items) && AndAccepts(db, CompileItems([], chosen, s), i);
      assert ExpandsTo(query, chosen);
      InExpansion(query, chosen);
    }
  }

  /**
   Expanding all the groups of a query, AND set by AND set, changes nothing about what it accepts,
   whatever the relations say about any but the first tags of its AND sets.
   */
  lemma ExpansionPreservesMeaning(db: Db, s: Services, query: seq<seq<Item>>, i: Inode)
    requires forall k :: 0 <= k < |query| ==> ProperAnd(query[k]) && BarsAlike(s, query[k])
    ensures Accepts(db, Compile(query, s), i) <==> Accepts(db, Compile(Expand(query), s), i)
  {
    CompiledAccepts(db, s, query, i);
    CompiledAccepts(db, s, Expand(query), i);
    ExpandedQueryAccepts(db, s, query, i);
    forall items | items in query
      ensures AndAccepts(db, CompileItems([], items, s), i) <==> ExpandedAccepts(db, s, i, items)
    {
      GroupsAbbreviate(db, s, i, items);
    }
  }

  /** With reasoning off, as with `@@`, expansion changes nothing at all. */
  lemma PlainExpansionPreservesMeaning(db: Db, s: Services, query: seq<seq<Item>>, i: Inode)
    requires (forall k :: 0 <= k < |query| ==> ProperAnd(query[k])) && forall w :: BringsNone(s, w)
    ensures Accepts(db, Compile(query, s), i) <==> Accepts(db, Compile(Expand(query), s), i)
  {
    forall k | 0 <= k < |query| ensures BarsAlike(s, query[k]) {
      SingleBarsAlike(s, query[k]);
    }
    ExpansionPreservesMeaning(db, s, query, i);
  }

  // ----- negations -----

  ghost predicate NegatedHolds(db: Db, s: Services, i: Inode, w: Word) {
    Holds(db, i, s.LeafOf(w, true), s.Reason(s.LeafOf(w, true)).related)
  }

  /** What a query says: every tag and group holds, and no negated tag does. */
  ghost predicate Documented(db: Db, s: Services, i: Inode, items: seq<Item>) {
    ItemsHold(db, s, i, items) && forall k :: 0 <= k < |items| && items[k].Not? ==> !NegatedHolds(db, s, i, items[k].word)
  }

  /** The evaluator agrees when the only negation comes right after the first tag. */
  lemma FirstNegationAsDocumented(db: Db, s: Services, i: Inode, items: seq<Item>)
    requires ProperAnd(items) && BringsNone(s, FirstWord(items)) && forall k :: 0 <= k < |items| && items[k].Not? ==> k == 1
    ensures AndAccepts(db, CompileItems([], items, s), i) <==> Documented(db, s, i, items)
  {
    CompiledAndMeans(db, s, i, items);
  }

  /** In general it errs on the side of acceptance, exactly by the negations it passes over. */
  lemma NegationGap(db: Db, s: Services, i: Inode, items: seq<Item>)
    requires ProperAnd(items) && BringsNone(s, FirstWord(items))
    ensures AndAccepts(db, CompileItems([], items, s), i) && !Documented(db, s, i, items) <==>
      && ItemsHold(db, s, i, items)
      && !(|items| > 1 && items[1].Not? && NegatedHolds(db, s, i, items[1].word))
      && exists k :: 2 <= k < |items| && items[k].Not? && NegatedHolds(db, s, i, items[k].word)
    ensures Documented(db, s, i, items) ==> AndAccepts(db, CompileItems([], items, s), i)
  {
    CompiledAndMeans(db, s, i, items);
  }

  /** A query that shows the gap: `a/-/b/-/c` lists an object tagged a and c. */
  lemma SecondNegationPassedOver(s: Services, db: Db)
    requires BringsNone(s, Flat("a")) && (forall leaf :: s.Reason(leaf).related == [])
    requires s.ids(Flat("a")) == 1 && s.ids(Flat("b")) == 2 && s.ids(Flat("c")) == 3
    requires (1, 1) in db.tagging && (1, 3) in db.tagging && (1, 2) !in db.tagging
    ensures var items := [One(Flat("a")), Not(Flat("b")), Not(Flat("c"))];
      ProperAnd(items) && AndAccepts(db, CompileItems([], items, s), 1) && !Documented(db, s, 1, items)
  {
    var items := [One(Flat("a")), Not(Flat("b")), Not(Flat("c"))];
    CompiledAndMeans(db, s, 1, items);
    assert items[2].Not? && NegatedHolds(db, s, 1, items[2].word);
  }

  // ----- from a written path to an object -----

  /** No ALL, and no triple tag with another operator than `eq`. */
  predicate OrdinaryWord(w: Word) {
    w != Flat("ALL") && (w.Triple? ==> w.operator == EqualTo)
  }

  predicate OrdinaryItem(item: Item) {
    match item
    case One(w) => OrdinaryWord(w)
    case Group(ws) => forall w :: w in ws ==> OrdinaryWord(w)
    case Not(w) => OrdinaryWord(w)
  }

  predicate OrdinaryQuery(query: seq<seq<Item>>) {
    forall k :: 0 <= k < |query| ==> forall l :: 0 <= l < |query[k]| ==> OrdinaryItem(query[k][l])
  }

  /** The reasoner adds flat tags only. */
  ghost predicate FlatReasoner(s: Services) {
    forall leaf :: && (forall k :: 0 <= k < |s.Reason(leaf).related| ==> s.Reason(leaf).related[k].leaf.word.Flat?)
                   && (forall k :: 0 <= k < |s.Reason(leaf).excluded| ==> s.Reason(leaf).excluded[k].word.Flat?)
  }

  predicate OrdinaryNode(node: Node) {
    && !IsAll(node.leaf) && Sighted(node.leaf, node.related) && !node.leaf.negate
    && (forall k :: 0 <= k < |node.negated| ==> Sighted(node.negated[k].leaf, node.negated[k].related))
  }

  lemma {:induction false} MembersSighted(s: Services, words: seq<Word>)
    requires FlatReasoner(s) && forall w :: w in words ==> OrdinaryWord(w)
    ensures forall k :: 0 <= k < |Members(words, s)| ==> !Blind(Members(words, s)[k].leaf)
  {
    if words != [] {
      var chain, rest := s.MemberChain(words[0]), Members(words[1..], s);
      MembersSighted(s, words[1..]);
      assert OrdinaryWord(words[0]);
      assert forall k :: 0 <= k < |chain| ==> !Blind(chain[k].leaf);
      assert forall k :: 0 <= k < |chain + rest| ==> (chain + rest)[k] == if k < |chain| then chain[k] else rest[k - |chain|];
    }
  }

  lemma ItemOrdinary(s: Services, nodes: seq<Node>, item: Item)
    requires FlatReasoner(s) && OrdinaryItem(item) && forall k :: 0 <= k < |nodes| ==> OrdinaryNode(nodes[k])
    ensures var nodes' := CompileItem(nodes, item, s); forall k :: 0 <= k < |nodes'| ==> OrdinaryNode(nodes'[k])
  {
    match item
    case One(w) => assert OrdinaryNode(s.SpineNode(w));
    case Group(ws) =>
      if ws != [] {
        MembersSighted(s, ws[1..]);
        assert OrdinaryWord(ws[0]) && OrdinaryNode(s.SpineNode(ws[0]));
        assert OrdinaryNode(GroupNode(ws, s));
      }
    case Not(w) =>
      if nodes != [] {
        assert forall k :: 0 <= k < |s.BarChain(w)| ==> Sighted(s.BarChain(w)[k].leaf, s.BarChain(w)[k].related);
      }
  }

  lemma {:induction false} ItemsOrdinary(s: Services, nodes: seq<Node>, items: seq<Item>)
    requires FlatReasoner(s) && (forall k :: 0 <= k < |items| ==> OrdinaryItem(items[k]))
    requires forall k :: 0 <= k < |nodes| ==> OrdinaryNode(nodes[k])
    ensures var nodes' := CompileItems(nodes, items, s);
      |nodes'| >= |nodes| && forall k :: 0 <= k < |nodes'| ==> OrdinaryNode(nodes'[k])
    decreases |items|
  {
    if items != [] {
      ItemOrdinary(s, nodes, items[0]);
      ItemsOrdinary(s, CompileItem(nodes, items[0], s), items[1..]);
    }
  }

  lemma CompiledOrdinary(s: Services, query: seq<seq<Item>>)
    requires FlatReasoner(s) && OrdinaryQuery(query) && forall k :: 0 <= k < |query| ==> ProperAnd(query[k])
    ensures forall k :: 0 <= k < |query| ==> Ordinary(Compile(query, s)[k])
  {
    forall k | 0 <= k < |query| ensures Ordinary(Compile(query, s)[k]) {
      var items := query[k];
      assert CompileItems([], items, s) == CompileItems(CompileItem([], items[0], s), items[1..], s);
      ItemOrdinary(s, [], items[0]);
      ItemsOrdinary(s, CompileItem([], items[0], s), items[1..]);
    }
  }

  function Written(query: seq<seq<Item>>, delimiter: string, name: string): seq<string>
    requires Proper(query)
  {
    QueryTokensWritable(query);
    WriteTokens(QueryTokens(query)) + [delimiter, name]
  }

  lemma CompiledNotEmpty(items: seq<Item>, s: Services)
    requires ProperAnd(items)
    ensures CompileItems([], items, s) != []
  {
    FirstNegated(s, CompileItem([], items[0], s), items[1..]);
  }

  lemma {:induction false} ItemsPositive(nodes: seq<Node>, items: seq<Item>, s: Services)
    requires Positive(nodes)
    ensures Positive(CompileItems(nodes, items, s))
    decreases |items|
  {
    if items != [] {
      ItemsPositive(CompileItem(nodes, items[0], s), items[1..], s);
    }
  }

  lemma CompiledPositive(query: seq<seq<Item>>, s: Services)
    requires Proper(query)
    ensures forall k :: 0 <= k < |query| ==> Positive(Compile(query, s)[k]) && Compile(query, s)[k] != []
  {
    forall k | 0 <= k < |query| ensures Positive(Compile(query, s)[k]) && Compile(query, s)[k] != [] {
      CompiledNotEmpty(query[k], s);
      ItemsPositive([], query[k], s);
    }
  }

  /** The name, read after a delimiter, resolves to this inode through some AND set of the query. */
  ghost predicate QueryResolves(db: Db, s: Services, query: seq<seq<Item>>, name: string, inode: Inode)
    requires forall k :: 0 <= k < |query| ==> Compile(query, s)[k] != []
  {
    exists k :: 0 <= k < |query| && Gives(db, name, Compile(query, s)[k], inode)
  }

  lemma QueryResolvesOrdinary(db: Db, s: Services, query: seq<seq<Item>>, name: string, i: Inode)
    requires Proper(query) && OrdinaryQuery(query) && FlatReasoner(s) && i != 0
    requires forall k :: 0 <= k < |query| ==> Compile(query, s)[k] != []
    ensures QueryResolves(db, s, query, name, i) ==> Bears(db, i, name) && QueryAccepts(db, s, query, i)
    ensures UniqueName(db, name) && Bears(db, i, name) && QueryAccepts(db, s, query, i) ==> QueryResolves(db, s, query, name, i)
  {
    CompiledOrdinary(s, query);
    CompiledAccepts(db, s, query, i);
    forall k | 0 <= k < |query|
      ensures Gives(db, name, Compile(query, s)[k], i) ==> Bears(db, i, name) && AndAccepts(db, Compile(query, s)[k], i)
      ensures UniqueName(db, name) && Bears(db, i, name) && AndAccepts(db, Compile(query, s)[k], i) ==>
        Gives(db, name, Compile(query, s)[k], i)
    {
      GivesOrdinary(db, name, Compile(query, s)[k], i);
    }
  }

  /**
   Parse a complete path and resolve the object name after its delimiter, as `tagsistant_querytree_new`
   does: an inode in the name overrides the query, otherwise some AND set gives the inode.
   */
  method LookUpPath(path: seq<string>, services: Services, db: Db, ghost query: seq<seq<Item>>, ghost name: string) returns (inode: Inode)
    requires Proper(query) && 0 !in db.objects
    requires exists delimiter :: IsDelimiter(delimiter) && path == Written(query, delimiter, name)
    ensures forall k :: 0 <= k < |query| ==> Compile(query, services)[k] != []
    ensures InodeCodec.Extract(name) != 0 ==> inode == InodeCodec.Extract(name)
    ensures InodeCodec.Extract(name) == 0 && name == "" ==> inode == 0
    ensures InodeCodec.Extract(name) == 0 && name != "" ==>
      && (inode != 0 ==> QueryResolves(db, services, query, name, inode))
      && (inode == 0 && UniqueName(db, name) ==> forall i :: i != 0 ==> !QueryResolves(db, services, query, name, i))
  {
    ghost var delimiter :| IsDelimiter(delimiter) && path == Written(query, delimiter, name);
    ParseWrittenPath(query, delimiter, [name], services);
    assert path == WriteTokens(QueryTokens(query)) + [delimiter] + [name];
    NullNodeIff(Tokens(path), services);
    CompiledPositive(query, services);
    var qtree := new QueryTree(services);
    var ok, cursor := qtree.ParseStore(path);
    assert path[cursor..] == [name];
    inode := InodeCodec.Extract(path[cursor]);
    if inode == 0 && path[cursor] != "" {
      var found := ResolveName(qtree.tree, db, path[cursor]);
      inode := found.value;
      forall k | UniqueName(db, name) && 0 <= k < |query| {
        UniqueIsOneAnswer(db, name, Compile(query, services)[k]);
      }
    }
  }

  /** On ordinary queries: an object of that name that the query accepts, and every one if names are unique. */
  lemma LookUpOrdinary(services: Services, db: Db, query: seq<seq<Item>>, name: string, inode: Inode)
    requires Proper(query) && OrdinaryQuery(query) && FlatReasoner(services) && 0 !in db.objects
    requires forall k :: 0 <= k < |query| ==> Compile(query, services)[k] != []
    requires inode != 0 ==> QueryResolves(db, services, query, name, inode)
    requires inode == 0 && UniqueName(db, name) ==> forall i :: i != 0 ==> !QueryResolves(db, services, query, name, i)
    ensures inode != 0 ==> Bears(db, inode, name) && QueryAccepts(db, services, query, inode)
    ensures UniqueName(db, name) ==> forall i :: Bears(db, i, name) && QueryAccepts(db, services, query, i) ==> inode == i
  {
    forall i: Inode | i != 0 { QueryResolvesOrdinary(db, services, query, name, i); }
  }

  // ----- the meta-tag ALL and the special operators, written out -----

  /** The first node of a set stays what its first item made it, but for negated tags. */
  lemma {:induction false} FirstNodeStays(s: Services, nodes: seq<Node>, items: seq<Item>)
    requires nodes != []
    ensures var nodes' := CompileItems(nodes, items, s);
      nodes' != [] && nodes'[0].leaf == nodes[0].leaf && nodes'[0].related == nodes[0].related
    decreases |items|
  {
    if items != [] {
      FirstNodeStays(s, CompileItem(nodes, items[0], s), items[1..]);
    }
  }

  /** An AND set that begins with ALL gives every object of the name, or the inode in it, whatever follows. */
  lemma AllGivesByName(s: Services, db: Db, name: string, items: seq<Item>, i: Inode)
    requires ProperAnd(items) && items[0] == One(Flat("ALL"))
    ensures CompileItems([], items, s) != []
    ensures Gives(db, name, CompileItems([], items, s), i) <==>
      if InodeCodec.Extract(name) != 0 then i == InodeCodec.Extract(name) else Bears(db, i, name)
  {
    var head := CompileItem([], items[0], s);
    assert CompileItems([], items, s) == CompileItems(head, items[1..], s);
    assert head[0].leaf.word == Flat("ALL");
    FirstNodeStays(s, head, items[1..]);
  }

  /** `store/ALL/@/name` finds the objects of that name, whether or not there is a tag called ALL. */
  lemma AllFindsByName(s: Services, db: Db, name: string, i: Inode)
    requires InodeCodec.Extract(name) == 0
    ensures Compile([[One(Flat("ALL"))]], s)[0] != []
    ensures QueryResolves(db, s, [[One(Flat("ALL"))]], name, i) <==> Bears(db, i, name)
  {
    var items := [One(Flat("ALL"))];
    var query := [items];
    AllGivesByName(s, db, name, items, i);
    assert Compile(query, s)[0] == CompileItems([], items, s);
    assert QueryResolves(db, s, query, name, i) <==> Gives(db, name, Compile(query, s)[0], i);
  }

  /** A single triple tag with an operator other than `eq` is inode 1, whatever the name and the tables. */
  lemma OtherOperatorsGiveOne(s: Services, db: Db, name: string, w: Word, i: Inode)
    requires w.Triple? && w.operator in {GreaterThan, SmallerThan, Contains, NoOperator}
    requires BringsNone(s, w)
    ensures CompileItems([], [One(w)], s) != []
    ensures Gives(db, name, CompileItems([], [One(w)], s), i) <==> i == 1
  {
    SingleTagSet(s, w);
  }

  /** A single flat tag, or triple tag with `eq`, without relations is the objects of the name that carry it. */
  lemma EqualGivesCarriers(s: Services, db: Db, name: string, w: Word, i: Inode)
    requires (w.Flat? && w.name != "ALL") || (w.Triple? && w.operator == EqualTo)
    requires s.Reason(s.LeafOf(w, false)) == Reasoned([], [])
    ensures CompileItems([], [One(w)], s) != []
    ensures Gives(db, name, CompileItems([], [One(w)], s), i) <==>
      i != 0 && Bears(db, i, name) && (i, s.ids(w)) in db.tagging
  {
    SingleTagSet(s, w);
  }

  lemma SingleTagSet(s: Services, w: Word)
    ensures CompileItems([], [One(w)], s) == [s.SpineNode(w)]
  {
    assert [One(w)][1..] == [] && [] + [s.SpineNode(w)] == [s.SpineNode(w)];
    assert CompileItems([s.SpineNode(w)], [], s) == [s.SpineNode(w)];
  }

  lemma ProductOfOne(first: Item, rests: seq<seq<Item>>)
    ensures Product([first], rests) == Prefixed(first, rests)
  {
    assert [first][1..] == [];
    assert Product([], rests) == [];
  }

  lemma ExpandGroup(t2: Word, t3: Word)
    ensures ExpandAnd([Group([t2, t3])]) == [[One(t2)], [One(t3)]]
  {
    var items, none := [Group([t2, t3])], ExpandAnd([]);
    assert items[1..] == [] && none == [[]];
    assert Singles([t2, t3]) == [One(t2), One(t3)];
    assert [One(t2), One(t3)][1..] == [One(t3)];
    ProductOfOne(One(t3), none);
    assert Prefixed(One(t2), none)[0] == [One(t2)] && Prefixed(One(t3), none)[0] == [One(t3)];
    assert Product(Choices(items[0]), none) == Prefixed(One(t2), none) + Prefixed(One(t3), none);
  }

  /** The example of the documentation: `t1/{/t2/t3/}` is `t1/t2/+/t1/t3`. */
  lemma DocumentedExpansion(t1: Word, t2: Word, t3: Word)
    ensures Expand([[One(t1), Group([t2, t3])]]) == [[One(t1), One(t2)], [One(t1), One(t3)]]
  {
    var items := [One(t1), Group([t2, t3])];
    assert items[1..] == [Group([t2, t3])];
    ExpandGroup(t2, t3);
    var rests := ExpandAnd(items[1..]);
    ProductOfOne(One(t1), rests);
    var all := Prefixed(One(t1), rests);
    assert all[0] == [One(t1), One(t2)] && all[1] == [One(t1), One(t3)];
    assert all == [all[0], all[1]];
    assert Choices(items[0]) == [One(t1)] && ExpandAnd(items) == all;
    var query := [items];
    assert query[1..] == [] && Expand(query[1..]) == [];
  }

  // ----- ALL after other tags -----

  /** After another tag ALL gives what it gives by itself, but only if some object of the name carries that tag. */
  lemma AllAfterTag(s: Services, db: Db, name: string, a: string, i: Inode)
    requires a != "ALL" && InodeCodec.Extract(name) == 0 && 0 !in db.objects
    requires forall w :: s.Reason(s.LeafOf(w, false)) == Reasoned([], [])
    ensures var items := [One(Flat(a)), One(Flat("ALL"))];
      && CompileItems([], items, s) != []
      && (Gives(db, name, CompileItems([], items, s), i) <==>
            Bears(db, i, name) && exists j: Inode :: Bears(db, j, name) && (j, s.ids(Flat(a))) in db.tagging)
  {
    var items := [One(Flat(a)), One(Flat("ALL"))];
    var one, all := s.SpineNode(Flat(a)), s.SpineNode(Flat("ALL"));
    assert items[1..] == [One(Flat("ALL"))] && items[1..][1..] == [];
    assert [] + [one] == [one] && [one] + [all] == [one, all];
    var ands := [one, all];
    assert CompileItem([], items[0], s) == [one] && CompileItem([one], items[1], s) == ands;
    assert CompileItems([], items, s) == CompileItems([one], items[1..], s) == CompileItems(ands, [], s) == ands;
    assert !IsAll(ands[0].leaf) && IsAll(ands[1].leaf) && FirstAll(ands) == 1;
    forall c: Inode ensures FirstHit(db, name, one.leaf, one.related, c) <==>
      c != 0 && Bears(db, c, name) && (c, s.ids(Flat(a))) in db.tagging
    {
      assert one.related == [];
    }
    assert forall c: Inode :: Agree(db, name, ands, 1, c) <==> FirstHit(db, name, one.leaf, one.related, c);
    if j: Inode :| Bears(db, j, name) && (j, s.ids(Flat(a))) in db.tagging {
      assert j != 0 && Agree(db, name, ands, 1, j);
    }
  }
}

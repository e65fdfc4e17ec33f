/**
 Creation and lookup through the same path (src/utils.c:105-159 and src/path_resolution.c:1461-1490,
 1709-1731): what a path is given, it finds again.
 */
module CreateLookup {
  import opened Schema
  import TagKey
  import opened Tables
  import Runs
  import opened QueryGrammar
  import opened QueryCompiler
  import opened QueryEvaluator
  import opened QueryMeaning
  import InodeCodec

  /** The row of `tags` that a word stands for. */
  function TagOf(w: Word): TagKey.Tag {
    match w
    case Flat(name) => TagKey.Tag(name, "", "")
    case Triple(ns, key, _, value) =>
      TagKey.Tag(ns, if key.Some? then key.value else "", if value.Some? then value.value else "")
  }

  /** The tags of the spine nodes of an OR entry, as `tagsistant_querytree_traverse` passes them on. */
  function SpineTags(nodes: seq<Node>): seq<TagKey.Tag> {
    if nodes == [] then [] else [TagOf(nodes[0].leaf.word)] + SpineTags(nodes[1..])
  }

  function TreeTags(tree: seq<seq<Node>>): seq<TagKey.Tag> {
    if tree == [] then [] else SpineTags(tree[0]) + TreeTags(tree[1..])
  }

  /** A `@@` path: ids as the tables give them, and no reasoning. */
  ghost predicate PlainServices(s: Services, db: Db) {
    && (forall leaf :: s.Reason(leaf) == Reasoned([], []))
    && (forall w :: Regular(TagOf(w)) ==> s.ids(w) == db.IdOf(TagOf(w)))
  }

  /** Every word is a flat tag or a complete triple tag with clean components. */
  ghost predicate RegularItem(item: Item) {
    match item
    case One(w) => Regular(TagOf(w))
    case Group(ws) => forall w :: w in ws ==> Regular(TagOf(w))
    case Not(w) => Regular(TagOf(w))
  }

  ghost predicate RegularQuery(query: seq<seq<Item>>) {
    forall k :: 0 <= k < |query| ==> ProperAnd(query[k]) && forall l :: 0 <= l < |query[k]| ==> RegularItem(query[k][l])
  }

  /** An item gives its tag to a created object, a group its first tag only. */
  predicate Gives(item: Item, t: TagKey.Tag) {
    match item
    case One(w) => TagOf(w) == t
    case Group(ws) => ws != [] && TagOf(ws[0]) == t
    case Not(w) => false
  }

  predicate AndGives(items: seq<Item>, t: TagKey.Tag) {
    exists k :: 0 <= k < |items| && Gives(items[k], t)
  }

  predicate QueryGives(query: seq<seq<Item>>, t: TagKey.Tag) {
    exists k :: 0 <= k < |query| && AndGives(query[k], t)
  }

  lemma AndGivesSplit(items: seq<Item>, t: TagKey.Tag)
    requires items != []
    ensures AndGives(items, t) <==> Gives(items[0], t) || AndGives(items[1..], t)
  {
    assert forall k :: 0 <= k < |items[1..]| ==> items[1..][k] == items[k + 1];
    assert forall k :: 0 < k < |items| ==> items[k] == items[1..][k - 1];
  }

  lemma QueryGivesSplit(query: seq<seq<Item>>, t: TagKey.Tag)
    requires query != []
    ensures QueryGives(query, t) <==> AndGives(query[0], t) || QueryGives(query[1..], t)
  {
    assert forall k :: 0 <= k < |query[1..]| ==> query[1..][k] == query[k + 1];
    assert forall k :: 0 < k < |query| ==> query[k] == query[1..][k - 1];
  }

  lemma {:induction false} SpineTagsLast(nodes: seq<Node>, node: Node, node': Node)
    requires node.leaf == node'.leaf
    ensures SpineTags(nodes + [node]) == SpineTags(nodes) + [TagOf(node.leaf.word)]
    ensures SpineTags(nodes + [node]) == SpineTags(nodes + [node'])
  {
    if nodes == [] {
      assert [] + [node] == [node] && [] + [node'] == [node'];
      assert SpineTags([node][1..]) == [] && SpineTags([node'][1..]) == [];
    } else {
      assert (nodes + [node])[1..] == nodes[1..] + [node] && (nodes + [node'])[1..] == nodes[1..] + [node'];
      SpineTagsLast(nodes[1..], node, node');
    }
  }

  lemma ItemSpineTags(nodes: seq<Node>, item: Item, s: Services, t: TagKey.Tag)
    ensures t in SpineTags(CompileItem(nodes, item, s)) <==> t in SpineTags(nodes) || Gives(item, t)
  {
    match item
    case One(w) => SpineTagsLast(nodes, s.SpineNode(w), s.SpineNode(w));
    case Group(ws) => if ws != [] { SpineTagsLast(nodes, GroupNode(ws, s), GroupNode(ws, s)); }
    case Not(w) =>
      if nodes != [] {
        var front, last := nodes[..|nodes| - 1], nodes[|nodes| - 1];
        var last' := last.(negated := last.negated + s.BarChain(w));
        SpineTagsLast(front, last, last');
        assert nodes == front + [last] && WithLast(nodes, last') == front + [last'];
      }
  }

  lemma {:induction false} AndSpineTags(nodes: seq<Node>, items: seq<Item>, s: Services, t: TagKey.Tag)
    ensures t in SpineTags(CompileItems(nodes, items, s)) <==> t in SpineTags(nodes) || AndGives(items, t)
    decreases |items|
  {
    if items != [] {
      ItemSpineTags(nodes, items[0], s, t);
      AndSpineTags(CompileItem(nodes, items[0], s), items[1..], s, t);
      AndGivesSplit(items, t);
    }
  }

  /** What a path tags a new object with, read off the query: not negated tags, nor further members of groups. */
  lemma {:induction false} TreeTagsOfQuery(query: seq<seq<Item>>, s: Services, t: TagKey.Tag)
    ensures t in TreeTags(Compile(query, s)) <==> QueryGives(query, t)
  {
    if query != [] {
      AndSpineTags([], query[0], s, t);
      TreeTagsOfQuery(query[1..], s, t);
      QueryGivesSplit(query, t);
    }
  }

  /** With unique rows, carrying a tag is having its id in `tagging`. */
  lemma CarriesById(db: Db, i: Inode, t: TagKey.Tag)
    requires db.Consistent()
    ensures (i, db.IdOf(t)) in db.tagging <==> db.Carries(i, t)
  {
    if (i, db.IdOf(t)) in db.tagging {
      assert db.GoodId((i, db.IdOf(t)).1);
    }
    if id :| (i, id) in db.tagging && id in db.tags && db.tags[id] == t {
      db.IdIs(id);
    }
  }

  /** The tables after creating `name` through the path of the query, parsed with some services. */
  ghost function Populated(db: Db, query: seq<seq<Item>>, parsedWith: Services, name: string): Db {
    Runs.Create(db, name, 0, TreeTags(Compile(query, parsedWith)))
  }

  /** The path itself, in one of its AND sets, gives the tag that this AND set excludes. */
  predicate SelfDefeating(query: seq<seq<Item>>, items: seq<Item>) {
    |items| > 1 && items[1].Not? && QueryGives(query, TagOf(items[1].word))
  }

  lemma GivenTagsRegular(query: seq<seq<Item>>, s: Services)
    requires RegularQuery(query)
    ensures AllRegular(TreeTags(Compile(query, s)))
  {
    forall t | t in TreeTags(Compile(query, s)) ensures Regular(t) {
      TreeTagsOfQuery(query, s, t);
      var k :| 0 <= k < |query| && AndGives(query[k], t);
      var l :| 0 <= l < |query[k]| && Gives(query[k][l], t);
      assert RegularItem(query[k][l]);
    }
  }

  /** The new object carries what the path gives, and nothing else. */
  lemma PopulatedCarries(db: Db, query: seq<seq<Item>>, parsedWith: Services, name: string, t: TagKey.Tag)
    requires db.Sound() && RegularQuery(query)
    ensures Populated(db, query, parsedWith, name).Sound()
    ensures Populated(db, query, parsedWith, name).Carries(db.nextInode, t) <==> QueryGives(query, t)
  {
    var spine := TreeTags(Compile(query, parsedWith));
    GivenTagsRegular(query, parsedWith);
    Runs.CreateKeeps(db, name, 0, spine);
    Runs.CreateCarries(db, name, 0, spine, db.nextInode, t);
    TreeTagsOfQuery(query, parsedWith, t);
    assert !db.Carries(db.nextInode, t);
  }

  /** With plain services a word holds when the object carries its tag. */
  lemma PlainWordHolds(db: Db, s: Services, i: Inode, w: Word, negate: bool)
    requires db.Consistent() && PlainServices(s, db) && Regular(TagOf(w))
    ensures Holds(db, i, s.LeafOf(w, negate), s.Reason(s.LeafOf(w, negate)).related) <==> db.Carries(i, TagOf(w))
  {
    CarriesById(db, i, TagOf(w));
  }

  lemma GivenItemHolds(db: Db, s: Services, i: Inode, item: Item)
    requires db.Consistent() && PlainServices(s, db) && RegularItem(item) && WritableItem(item)
    requires forall t :: Gives(item, t) ==> db.Carries(i, t)
    ensures ItemHolds(db, s, i, item)
  {
    match item
    case One(w) =>
      assert Gives(item, TagOf(w));
      PlainWordHolds(db, s, i, w, false);
    case Group(ws) =>
      assert Gives(item, TagOf(ws[0])) && ws[0] in ws;
      PlainWordHolds(db, s, i, ws[0], false);
    case Not(w) =>
  }

  /**
   An object created through a path is accepted by an AND set of the path read again, exactly when
   the path does not itself give the tag which that AND set excludes.
   */
  lemma CreatedIsAccepted(db: Db, query: seq<seq<Item>>, k: nat, parsedWith: Services, name: string, s: Services)
    requires db.Sound() && RegularQuery(query) && k < |query|
    requires PlainServices(s, Populated(db, query, parsedWith, name))
    ensures AndAccepts(Populated(db, query, parsedWith, name), Compile(query, s)[k], db.nextInode)
      <==> !SelfDefeating(query, query[k])
  {
    var db', i, items := Populated(db, query, parsedWith, name), db.nextInode, query[k];
    CompiledAndMeans(db', s, i, items);
    forall l | 0 <= l < |items| ensures ItemHolds(db', s, i, items[l]) {
      forall t | Gives(items[l], t) ensures db'.Carries(i, t) {
        assert AndGives(items, t);
        PopulatedCarries(db, query, parsedWith, name, t);
      }
      PopulatedCarries(db, query, parsedWith, name, TagKey.Tag("", "", ""));
      GivenItemHolds(db', s, i, items[l]);
    }
    if |items| > 1 && items[1].Not? {
      var t := TagOf(items[1].word);
      PopulatedCarries(db, query, parsedWith, name, t);
      assert RegularItem(items[1]);
      PlainWordHolds(db', s, i, items[1].word, true);
    }
  }

  /** A fresh name stays unique, and names the new object. */
  lemma PopulatedNames(db: Db, query: seq<seq<Item>>, parsedWith: Services, name: string, j: Inode)
    requires db.Sound() && RegularQuery(query) && forall i :: !Bears(db, i, name)
    ensures Bears(Populated(db, query, parsedWith, name), j, name) <==> j == db.nextInode
  {
    GivenTagsRegular(query, parsedWith);
    Runs.CreateKeeps(db, name, 0, TreeTags(Compile(query, parsedWith)));
    assert !Bears(db, j, name);
  }

  /** Some AND set of the path does not defeat itself. */
  predicate Findable(query: seq<seq<Item>>) {
    exists k :: 0 <= k < |query| && !SelfDefeating(query, query[k])
  }

  lemma CreatedIsAcceptedIff(db: Db, query: seq<seq<Item>>, parsedWith: Services, name: string, s: Services)
    requires db.Sound() && RegularQuery(query) && PlainServices(s, Populated(db, query, parsedWith, name))
    ensures QueryAccepts(Populated(db, query, parsedWith, name), s, query, db.nextInode) <==> Findable(query)
  {
    var db', tree := Populated(db, query, parsedWith, name), Compile(query, s);
    CompiledAccepts(db', s, query, db.nextInode);
    if Accepts(db', tree, db.nextInode) {
      var k: nat :| k < |tree| && AndAccepts(db', tree[k], db.nextInode);
      CreatedIsAccepted(db, query, k, parsedWith, name, s);
    }
    if k: nat :| k < |query| && !SelfDefeating(query, query[k]) {
      CreatedIsAccepted(db, query, k, parsedWith, name, s);
      assert AndAccepts(db', tree[k], db.nextInode);
    }
  }

  /** Only the new object bears the fresh name. */
  lemma CreatedBears(db: Db, query: seq<seq<Item>>, parsedWith: Services, name: string)
    requires db.Sound() && RegularQuery(query) && forall i :: !Bears(db, i, name)
    ensures var db' := Populated(db, query, parsedWith, name);
      UniqueName(db', name) && Bears(db', db.nextInode, name) && forall j :: Bears(db', j, name) ==> j == db.nextInode
  {
    forall j: Inode ensures Bears(Populated(db, query, parsedWith, name), j, name) <==> j == db.nextInode {
      PopulatedNames(db, query, parsedWith, name, j);
    }
  }

  lemma PlainIsFlat(s: Services, db: Db)
    requires PlainServices(s, db)
    ensures FlatReasoner(s)
  {
  }

  /** What a sound and complete answer about the new object must be. */
  lemma CreatedFound(db: Db, query: seq<seq<Item>>, parsedWith: Services, name: string, db': Db, s: Services, inode: Inode)
    requires db.Sound() && RegularQuery(query) && forall i :: !Bears(db, i, name)
    requires db' == Populated(db, query, parsedWith, name) && PlainServices(s, db')
    requires inode != 0 ==> Bears(db', inode, name) && QueryAccepts(db', s, query, inode)
    requires UniqueName(db', name) ==> forall i :: Bears(db', i, name) && QueryAccepts(db', s, query, i) ==> inode == i
    ensures inode == if Findable(query) then db.nextInode else 0
  {
    CreatedBears(db, query, parsedWith, name);
    CreatedIsAcceptedIff(db, query, parsedWith, name, s);
  }

  /**
   Create, then look up: the path that created an object finds it, unless every AND set of the path
   excludes a tag that the path itself gives; then it finds nothing.
   */
  method LookUpCreated(db: Db, path: seq<string>, ghost query: seq<seq<Item>>, ghost parsedWith: Services,
      ghost name: string, db': Db, s: Services) returns (inode: Inode)
    requires db.Sound() && Proper(query) && RegularQuery(query) && OrdinaryQuery(query)
    requires name != "" && InodeCodec.Extract(name) == 0 && forall i :: !Bears(db, i, name)
    requires exists delimiter :: IsDelimiter(delimiter) && path == Written(query, delimiter, name)
    requires db' == Populated(db, query, parsedWith, name) && PlainServices(s, db')
    ensures inode == if Findable(query) then db.nextInode else 0
  {
    PopulatedCarries(db, query, parsedWith, name, TagKey.Tag("", "", ""));
    PlainIsFlat(s, db');
    inode := LookUpPath(path, s, db', query, name);
    LookUpOrdinary(s, db', query, name, inode);
    CreatedFound(db, query, parsedWith, name, db', s, inode);
  }

  // ----- what a path gives, written out -----

  lemma TagsOfWords(ns: string, k: string, o: Operator, v: string, name: string)
    ensures TagOf(Flat(name)) == TagKey.Tag(name, "", "")
    ensures TagOf(Triple(ns, Some(k), o, Some(v))) == TagKey.Tag(ns, k, v)
    ensures TagOf(Triple(ns, Some(k), o, None)) == TagKey.Tag(ns, k, "")
    ensures TagOf(Triple(ns, None, o, None)) == TagKey.Tag(ns, "", "")
  {
  }

  /** Creating through `ns:/k/eq/v` gives the object exactly the tag ns:/k=v. */
  lemma TripleIsGiven(db: Db, ns: string, k: string, v: string, parsedWith: Services, name: string, t: TagKey.Tag)
    requires db.Sound() && Regular(TagKey.Tag(ns, k, v)) && IsNamespace(ns) && ns[0] != '@'
    ensures var query := [[One(Triple(ns, Some(k), EqualTo, Some(v)))]];
      Populated(db, query, parsedWith, name).Carries(db.nextInode, t) <==> t == TagKey.Tag(ns, k, v)
  {
    var w := Triple(ns, Some(k), EqualTo, Some(v));
    var items := [One(w)];
    var query := [items];
    assert Writable(w) && RegularItem(items[0]) && ProperAnd(items);
    PopulatedCarries(db, query, parsedWith, name, t);
    assert Gives(items[0], t) <==> t == TagKey.Tag(ns, k, v);
    assert AndGives(items, t) <==> Gives(items[0], t);
    assert QueryGives(query, t) <==> AndGives(query[0], t);
  }

  lemma ThreeGive(x: Item, y: Item, z: Item, t: TagKey.Tag)
    ensures AndGives([x, y, z], t) <==> Gives(x, t) || Gives(y, t) || Gives(z, t)
  {
    var items := [x, y, z];
    assert items[0] == x && items[1] == y && items[2] == z;
  }

  /** Creating through `a/-/b/{/c/d/}` gives it a and c, neither the negated b nor the second member d. */
  lemma FlatTagsAreGiven(db: Db, a: string, b: string, c: string, d: string, parsedWith: Services, name: string, t: TagKey.Tag)
    requires db.Sound() && forall n :: n in {a, b, c, d} ==> Writable(Flat(n)) && Regular(TagKey.Tag(n, "", ""))
    ensures var query := [[One(Flat(a)), Not(Flat(b)), Group([Flat(c), Flat(d)])]];
      Populated(db, query, parsedWith, name).Carries(db.nextInode, t) <==> t in {TagKey.Tag(a, "", ""), TagKey.Tag(c, "", "")}
  {
    var items := [One(Flat(a)), Not(Flat(b)), Group([Flat(c), Flat(d)])];
    var query := [items];
    assert RegularItem(items[0]) && RegularItem(items[1]) && RegularItem(items[2]);
    assert ProperAnd(items);
    PopulatedCarries(db, query, parsedWith, name, t);
    ThreeGive(items[0], items[1], items[2], t);
    assert QueryGives(query, t) <==> AndGives(query[0], t);
  }
}

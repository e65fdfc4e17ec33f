/**
 Resolving a name in a query (src/path_resolution.c:195-219, 266-454): which object, if any, a
 compiled query and an object name stand for.
 */
module QueryEvaluator {
  import opened Schema
  import opened Tables
  import opened QueryGrammar
  import opened QueryCompiler
  import InodeCodec
  import TagKey

  ghost predicate Bears(db: Db, i: Inode, name: string) {
    i in db.objects && db.objects[i].name == name
  }

  ghost predicate UniqueName(db: Db, name: string) {
    forall i, j :: Bears(db, i, name) && Bears(db, j, name) ==> i == j
  }

  /** A triple tag with another operator than `eq` always seems to match, as inode 1. */
  predicate Blind(leaf: Leaf) {
    leaf.word.Triple? && leaf.word.operator != EqualTo
  }

  predicate IsAll(leaf: Leaf) {
    leaf.word == Flat("ALL")
  }

  ghost predicate AnyCarried(db: Db, i: Inode, chain: seq<Linked>) {
    exists k :: 0 <= k < |chain| && (i, chain[k].leaf.id) in db.tagging
  }

  /** The object carries the tag of the leaf or of an entry of its related chain. */
  ghost predicate Holds(db: Db, i: Inode, leaf: Leaf, related: seq<Linked>) {
    (i, leaf.id) in db.tagging || AnyCarried(db, i, related)
  }

  predicate Sighted(leaf: Leaf, related: seq<Linked>) {
    !Blind(leaf) && forall k :: 0 <= k < |related| ==> !Blind(related[k].leaf)
  }

  /** The one negated tag the evaluator looks at: the head of the first node's negated chain. */
  ghost predicate BarHolds(db: Db, i: Inode, ands: seq<Node>) {
    ands != [] && ands[0].negated != [] && Holds(db, i, ands[0].negated[0].leaf, ands[0].negated[0].related)
  }

  /** The object satisfies the AND set as the evaluator reads it. */
  ghost predicate AndAccepts(db: Db, ands: seq<Node>, i: Inode) {
    (forall k :: 0 <= k < |ands| ==> Holds(db, i, ands[k].leaf, ands[k].related)) && !BarHolds(db, i, ands)
  }

  ghost predicate Accepts(db: Db, tree: seq<seq<Node>>, i: Inode) {
    exists k :: 0 <= k < |tree| && AndAccepts(db, tree[k], i)
  }

  /** No special matches: neither the meta-tag ALL nor a triple tag with another operator than `eq`. */
  predicate Ordinary(ands: seq<Node>) {
    && ands != []
    && (forall k :: 0 <= k < |ands| ==>
          !IsAll(ands[k].leaf) && Sighted(ands[k].leaf, ands[k].related) && !ands[k].leaf.negate)
    && (ands[0].negated != [] ==> Sighted(ands[0].negated[0].leaf, ands[0].negated[0].related))
  }

  // ----- what each check finds, special matches included -----

  /** A tag that matches, as the inode; among objects of the same name any may be the one. */
  ghost predicate Hit(db: Db, name: string, leaf: Leaf, inode: Inode) {
    if Blind(leaf) then inode == 1 else inode != 0 && Bears(db, inode, name) && (inode, leaf.id) in db.tagging
  }

  ghost predicate Miss(db: Db, name: string, leaf: Leaf) {
    !Blind(leaf) && forall j: Inode :: j != 0 && Bears(db, j, name) ==> (j, leaf.id) !in db.tagging
  }

  /** The first match among a tag and its related chain. */
  ghost predicate FirstHit(db: Db, name: string, leaf: Leaf, related: seq<Linked>, inode: Inode) {
    Hit(db, name, leaf, inode) || (Miss(db, name, leaf) && exists k :: HitAt(db, name, related, k, inode))
  }

  ghost predicate HitAt(db: Db, name: string, related: seq<Linked>, k: nat, inode: Inode) {
    k < |related| && Hit(db, name, related[k].leaf, inode) && forall l :: 0 <= l < k ==> Miss(db, name, related[l].leaf)
  }

  ghost predicate AllMiss(db: Db, name: string, leaf: Leaf, related: seq<Linked>) {
    Miss(db, name, leaf) && forall k :: 0 <= k < |related| ==> Miss(db, name, related[k].leaf)
  }

  lemma HitIsOne(db: Db, name: string, leaf: Leaf, related: seq<Linked>, i: Inode, j: Inode)
    requires UniqueName(db, name) && FirstHit(db, name, leaf, related, i) && FirstHit(db, name, leaf, related, j)
    ensures i == j && !AllMiss(db, name, leaf, related)
  {
    if Miss(db, name, leaf) {
      var k: nat :| HitAt(db, name, related, k, i);
      var l: nat :| HitAt(db, name, related, l, j);
    }
  }

  /** Where the meta-tag ALL comes first in an AND set, or else its length. */
  function FirstAll(ands: seq<Node>): (n: nat)
    ensures n <= |ands| && (forall k :: 0 <= k < n ==> !IsAll(ands[k].leaf)) && (n < |ands| ==> IsAll(ands[n].leaf))
  {
    if ands == [] || IsAll(ands[0].leaf) then 0 else 1 + FirstAll(ands[1..])
  }

  /** The first `n` tags of the set all match, as the same inode. */
  ghost predicate Agree(db: Db, name: string, ands: seq<Node>, n: nat, inode: Inode)
    requires n <= |ands|
  {
    forall k :: 0 <= k < n ==> FirstHit(db, name, ands[k].leaf, ands[k].related, inode)
  }

  /** What ALL makes of a name: the inode in it, or an object of that name. */
  ghost predicate ByName(db: Db, name: string, inode: Inode) {
    if InodeCodec.Extract(name) != 0 then inode == InodeCodec.Extract(name) else Bears(db, inode, name)
  }

  /**
   What an AND set resolves a name to, whatever its tags: up to ALL, or to the end, all tags match as
   one inode; ALL then overrides it, and without ALL the first negated tag may bar it.
   */
  ghost predicate Gives(db: Db, name: string, ands: seq<Node>, inode: Inode)
    requires ands != []
  {
    var n := FirstAll(ands);
    if n < |ands| then ByName(db, name, inode) && (n == 0 || exists c :: Agree(db, name, ands, n, c))
    else
      && Agree(db, name, ands, n, inode)
      && (ands[0].negated != [] ==> AllMiss(db, name, ands[0].negated[0].leaf, ands[0].negated[0].related))
  }

  /** No node of the spine is negated; the parser sees to that. */
  predicate Positive(ands: seq<Node>) {
    forall k :: 0 <= k < |ands| ==> !ands[k].leaf.negate
  }

  /** Each check of the set can answer with one inode only, as when names are unique. */
  ghost predicate OneAnswer(db: Db, name: string, ands: seq<Node>) {
    && (forall k :: 0 <= k < FirstAll(ands) ==> OneHit(db, name, ands[k]))
    && (FirstAll(ands) < |ands| ==> forall i, j :: ByName(db, name, i) && ByName(db, name, j) ==> i == j)
  }

  ghost predicate OneHit(db: Db, name: string, node: Node) {
    forall i, j :: FirstHit(db, name, node.leaf, node.related, i) && FirstHit(db, name, node.leaf, node.related, j) ==> i == j
  }

  lemma UniqueIsOneAnswer(db: Db, name: string, ands: seq<Node>)
    requires UniqueName(db, name)
    ensures OneAnswer(db, name, ands)
  {
    forall k, i: Inode, j: Inode | 0 <= k < FirstAll(ands)
      && FirstHit(db, name, ands[k].leaf, ands[k].related, i) && FirstHit(db, name, ands[k].leaf, ands[k].related, j)
      ensures i == j
    {
      HitIsOne(db, name, ands[k].leaf, ands[k].related, i, j);
    }
  }

  /** Two tags of the set may be answered with different inodes, upon which the loop gives up. */
  ghost predicate Derailed(db: Db, name: string, ands: seq<Node>) {
    exists k, one, two :: DerailedAt(db, name, ands, k, one, two)
  }

  ghost predicate DerailedAt(db: Db, name: string, ands: seq<Node>, k: nat, one: Inode, two: Inode) {
    && 0 < k < FirstAll(ands) && one != two
    && Agree(db, name, ands, k, one) && FirstHit(db, name, ands[k].leaf, ands[k].related, two)
  }

  lemma MissNoHit(db: Db, name: string, leaf: Leaf, related: seq<Linked>, c: Inode)
    requires AllMiss(db, name, leaf, related)
    ensures !FirstHit(db, name, leaf, related, c)
  {
  }

  lemma HitNoMiss(db: Db, name: string, leaf: Leaf, related: seq<Linked>, c: Inode)
    requires FirstHit(db, name, leaf, related, c)
    ensures !AllMiss(db, name, leaf, related)
  {
  }

  lemma MissRefutes(db: Db, name: string, ands: seq<Node>, k: nat, i: Inode)
    requires k < FirstAll(ands) && AllMiss(db, name, ands[k].leaf, ands[k].related)
    ensures !Gives(db, name, ands, i)
  {
    forall c: Inode ensures !FirstHit(db, name, ands[k].leaf, ands[k].related, c) {
      MissNoHit(db, name, ands[k].leaf, ands[k].related, c);
    }
  }

  lemma NotBoth(db: Db, name: string, node: Node, other: Node, one: Inode, two: Inode, c: Inode)
    requires OneHit(db, name, node) && OneHit(db, name, other) && one != two
    requires FirstHit(db, name, node.leaf, node.related, one) && FirstHit(db, name, other.leaf, other.related, two)
    ensures !FirstHit(db, name, node.leaf, node.related, c) || !FirstHit(db, name, other.leaf, other.related, c)
  {
  }

  lemma MismatchRefutes(db: Db, name: string, ands: seq<Node>, k: nat, i: Inode, guessed: Inode, single: Inode)
    requires OneAnswer(db, name, ands) && DerailedAt(db, name, ands, k, guessed, single)
    ensures !Gives(db, name, ands, i)
  {
    forall c: Inode
      ensures !FirstHit(db, name, ands[0].leaf, ands[0].related, c) || !FirstHit(db, name, ands[k].leaf, ands[k].related, c)
    {
      NotBoth(db, name, ands[0], ands[k], guessed, single, c);
    }
  }

  lemma GivenIsOne(db: Db, name: string, ands: seq<Node>, i: Inode, j: Inode)
    requires OneAnswer(db, name, ands) && ands != [] && Gives(db, name, ands, i) && Gives(db, name, ands, j)
    ensures i == j
  {
    if FirstAll(ands) == |ands| {
      assert OneHit(db, name, ands[0]);
    }
  }

  // ----- the code -----

  /** `tagsistant_check_single_tagging`; among objects of the same name the query's last row counts. */
  method CheckSingleTagging(leaf: Leaf, db: Db, name: string) returns (inode: Inode)
    ensures if inode == 0 then Miss(db, name, leaf) else Hit(db, name, leaf, inode)
  {
    if Blind(leaf) { return 1; }
    if i :| i in db.objects && i != 0 && db.objects[i].name == name && (i, leaf.id) in db.tagging {
      inode := i;
    } else {
      inode := 0;
    }
  }

  /** A tag and, if it does not match, its related chain up to the first match. */
  method CheckWithRelated(leaf: Leaf, related: seq<Linked>, db: Db, name: string) returns (inode: Inode)
    ensures if inode == 0 then AllMiss(db, name, leaf, related) else FirstHit(db, name, leaf, related, inode)
  {
    inode := CheckSingleTagging(leaf, db, name);
    var k := 0;
    while inode == 0 && k < |related|
      invariant k <= |related|
      invariant inode != 0 ==> FirstHit(db, name, leaf, related, inode)
      invariant inode == 0 ==> Miss(db, name, leaf) && forall l :: 0 <= l < k ==> Miss(db, name, related[l].leaf)
    {
      inode := CheckSingleTagging(related[k].leaf, db, name);
      assert inode != 0 ==> HitAt(db, name, related, k, inode);
      k := k + 1;
    }
  }

  /** Lookup of a name for the meta-tag ALL. */
  method FindByName(db: Db, name: string) returns (inode: Inode)
    requires 0 !in db.objects
    ensures inode != 0 ==> ByName(db, name, inode)
    ensures inode == 0 ==> forall j :: j != 0 ==> !ByName(db, name, j)
  {
    inode := InodeCodec.Extract(name);
    if inode == 0 {
      if i :| i in db.objects && i != 0 && db.objects[i].name == name {
        inode := i;
      }
    }
  }

  /**
   `tagsistant_guess_inode_from_and_set`.  The loop over negated tags follows `next`, which negated
   nodes never have, so only the first of them is looked at.
   */
  method GuessInode(ands: seq<Node>, db: Db, name: string) returns (inode: Inode)
    requires ands != [] && Positive(ands) && 0 !in db.objects
    ensures inode != 0 ==> Gives(db, name, ands, inode)
    ensures inode == 0 ==> Derailed(db, name, ands) || forall i :: i != 0 ==> !Gives(db, name, ands, i)
    ensures OneAnswer(db, name, ands) ==> forall i :: i != 0 && Gives(db, name, ands, i) ==> inode == i
  {
    var guessed: Inode := 0;
    for k := 0 to |ands|
      invariant k <= FirstAll(ands) && Agree(db, name, ands, k, guessed)
      invariant k == 0 <==> guessed == 0
    {
      var node := ands[k];
      if IsAll(node.leaf) {
        inode := FindByName(db, name);
        return;
      }
      var single := CheckWithRelated(node.leaf, node.related, db, name);
      if single == 0 && !node.leaf.negate {
        forall i ensures !Gives(db, name, ands, i) { MissRefutes(db, name, ands, k, i); }
        return 0;
      }
      if guessed == 0 {
        guessed := single;
      }
      if guessed != single {
        assert DerailedAt(db, name, ands, k, guessed, single);
        forall i | OneAnswer(db, name, ands) ensures !Gives(db, name, ands, i) {
          MismatchRefutes(db, name, ands, k, i, guessed, single);
        }
        return 0;
      }
    }
    inode := guessed;
    if ands[0].negated != [] {
      var bar := ands[0].negated[0];
      var single := CheckWithRelated(bar.leaf, bar.related, db, name);
      if single != 0 {
        HitNoMiss(db, name, bar.leaf, bar.related, single);
        return 0;
      }
    }
    forall i | OneAnswer(db, name, ands) && Gives(db, name, ands, i) ensures i == inode {
      GivenIsOne(db, name, ands, i, inode);
    }
  }

  /** The tag of a node without relations. */
  function BareNode(name: string, id: TagId): Node {
    Node(Leaf(Flat(name), id, false), [], [])
  }

  /**
   Two objects of one name may hide each other: the second carries both tags, but the first tag may be
   answered with the first object, and then the query finds nothing.
   */
  lemma HomonymsHide(name: string)
    ensures var o, a, b := Object(name, ""), BareNode("a", 1), BareNode("b", 2);
      var db := Db(map[1 := TagKey.Tag("a", "", ""), 2 := TagKey.Tag("b", "", "")], 3,
        map[1 := o, 2 := o], 3, {(1, 1), (2, 1), (2, 2)}, [], map[]);
      Gives(db, name, [a, b], 2) && DerailedAt(db, name, [a, b], 1, 1, 2)
  {
  }

  /** The first `k` OR entries have tags, and none of them gives an inode, unless homonyms hide each other. */
  ghost predicate Passed(db: Db, name: string, tree: seq<seq<Node>>, k: nat)
    requires k <= |tree|
  {
    forall j :: 0 <= j < k ==>
      && tree[j] != []
      && (Derailed(db, name, tree[j]) || forall i :: i != 0 ==> !Gives(db, name, tree[j], i))
      && (OneAnswer(db, name, tree[j]) ==> forall i :: i != 0 ==> !Gives(db, name, tree[j], i))
  }

  /**
   The loop of `tagsistant_querytree_new` and of the consistency check: the first OR entry that matches.
   None stands for the null pointer that the loop follows when it comes to an OR entry without tags.
   */
  method ResolveName(tree: seq<seq<Node>>, db: Db, name: string) returns (found: Option<Inode>)
    requires 0 !in db.objects && forall k :: 0 <= k < |tree| ==> Positive(tree[k])
    ensures match found
      case None => exists k :: 0 <= k < |tree| && tree[k] == [] && Passed(db, name, tree, k)
      case Some(inode) =>
        if inode == 0 then Passed(db, name, tree, |tree|)
        else exists k :: 0 <= k < |tree| && tree[k] != [] && Gives(db, name, tree[k], inode) && Passed(db, name, tree, k)
  {
    var inode: Inode, k := 0, 0;
    while k < |tree| && inode == 0
      invariant k <= |tree| && (inode == 0 ==> Passed(db, name, tree, k))
      invariant inode != 0 ==> 0 < k && tree[k - 1] != [] && Gives(db, name, tree[k - 1], inode) && Passed(db, name, tree, k - 1)
    {
      if tree[k] == [] { return None; }
      inode := GuessInode(tree[k], db, name);
      k := k + 1;
    }
    found := Some(inode);
  }

  // ----- ordinary queries and special ones -----

  /** Without special matches an AND set gives the objects of that name that it accepts. */
  lemma GivesOrdinary(db: Db, name: string, ands: seq<Node>, i: Inode)
    requires Ordinary(ands) && i != 0
    ensures Gives(db, name, ands, i) ==> Bears(db, i, name) && AndAccepts(db, ands, i)
    ensures UniqueName(db, name) && Bears(db, i, name) && AndAccepts(db, ands, i) ==> Gives(db, name, ands, i)
  {
    assert FirstAll(ands) == |ands|;
    forall k | 0 <= k < |ands|
      ensures FirstHit(db, name, ands[k].leaf, ands[k].related, i) ==> Bears(db, i, name) && Holds(db, i, ands[k].leaf, ands[k].related)
      ensures UniqueName(db, name) && Bears(db, i, name) && Holds(db, i, ands[k].leaf, ands[k].related) ==>
        FirstHit(db, name, ands[k].leaf, ands[k].related, i)
    {
      OrdinaryHit(db, name, ands[k].leaf, ands[k].related, i);
    }
    if ands[0].negated != [] {
      OrdinaryHit(db, name, ands[0].negated[0].leaf, ands[0].negated[0].related, i);
    }
    assert FirstHit(db, name, ands[0].leaf, ands[0].related, i) ==> Bears(db, i, name);
  }

  lemma OrdinaryHit(db: Db, name: string, leaf: Leaf, related: seq<Linked>, i: Inode)
    requires Sighted(leaf, related) && i != 0
    ensures FirstHit(db, name, leaf, related, i) ==> Bears(db, i, name) && Holds(db, i, leaf, related)
    ensures UniqueName(db, name) && Bears(db, i, name) ==>
      && (Holds(db, i, leaf, related) ==> FirstHit(db, name, leaf, related, i))
      && (!Holds(db, i, leaf, related) ==> AllMiss(db, name, leaf, related))
    ensures AllMiss(db, name, leaf, related) && Bears(db, i, name) ==> !Holds(db, i, leaf, related)
  {
    if UniqueName(db, name) && Bears(db, i, name) && (i, leaf.id) !in db.tagging && AnyCarried(db, i, related) {
      var k: nat :| k < |related| && (i, related[k].leaf.id) in db.tagging;
      FirstCarried(db, name, related, i, k);
    }
  }

  lemma {:induction false} FirstCarried(db: Db, name: string, related: seq<Linked>, i: Inode, k: nat)
    requires UniqueName(db, name) && Bears(db, i, name) && i != 0 && forall l :: 0 <= l < |related| ==> !Blind(related[l].leaf)
    requires k < |related| && (i, related[k].leaf.id) in db.tagging
    ensures exists l :: HitAt(db, name, related, l, i)
  {
    if l: nat :| l < k && (i, related[l].leaf.id) in db.tagging {
      FirstCarried(db, name, related, i, l);
    } else {
      assert HitAt(db, name, related, k, i);
    }
  }

  /**
   A triple tag with another operator than `eq`, in the query or added by the reasoner, makes inode 1
   of every name that comes to it.
   */
  lemma SpecialGivesOne(db: Db, name: string, ands: seq<Node>, k: nat, i: Inode)
    requires k < |ands| && FirstAll(ands) == |ands|
    requires Blind(ands[k].leaf) || (Miss(db, name, ands[k].leaf)
      && exists l :: 0 <= l < |ands[k].related| && Blind(ands[k].related[l].leaf)
                     && forall m :: 0 <= m < l ==> Miss(db, name, ands[k].related[m].leaf))
    ensures Gives(db, name, ands, i) ==> i == 1
  {
    if Gives(db, name, ands, i) {
      assert FirstHit(db, name, ands[k].leaf, ands[k].related, i);
      if !Blind(ands[k].leaf) {
        var l: nat :| l < |ands[k].related| && Blind(ands[k].related[l].leaf)
          && forall m :: 0 <= m < l ==> Miss(db, name, ands[k].related[m].leaf);
        var h: nat :| HitAt(db, name, ands[k].related, h, i);
      }
    }
  }

  /** One tag of the set cannot make inode 1 of a name that no object bears. */
  predicate SomeSighted(ands: seq<Node>) {
    exists k :: 0 <= k < |ands| && Sighted(ands[k].leaf, ands[k].related)
  }

  /** The negated tag that counts always seems to match, so that the set never gives anything. */
  predicate AlwaysBarred(ands: seq<Node>)
    requires ands != []
  {
    ands[0].negated != [] && !Sighted(ands[0].negated[0].leaf, ands[0].negated[0].related)
  }

  lemma SightedNames(db: Db, name: string, leaf: Leaf, related: seq<Linked>, i: Inode)
    requires Sighted(leaf, related) && FirstHit(db, name, leaf, related, i)
    ensures Bears(db, i, name)
  {
  }

  const NO_TABLES := Db(map[], 1, map[], 1, {}, [], map[])

  /** On empty tables a tag with a special match in its chain is inode 1, whatever the name. */
  lemma BlindHits(name: string, leaf: Leaf, related: seq<Linked>)
    requires !Sighted(leaf, related)
    ensures FirstHit(NO_TABLES, name, leaf, related, 1)
  {
    if !Blind(leaf) {
      var k: nat :| k < |related| && Blind(related[k].leaf);
      FirstBlind(name, related, k);
    }
  }

  lemma {:induction false} FirstBlind(name: string, related: seq<Linked>, k: nat)
    requires k < |related| && Blind(related[k].leaf)
    ensures exists l :: HitAt(NO_TABLES, name, related, l, 1)
  {
    if l: nat :| l < k && Blind(related[l].leaf) {
      FirstBlind(name, related, l);
    } else {
      assert HitAt(NO_TABLES, name, related, k, 1);
    }
  }

  /** A set of special matches only gives inode 1 for any name, even when there are no objects at all. */
  lemma BlindSetGivesOne(name: string, ands: seq<Node>)
    requires ands != [] && FirstAll(ands) == |ands| && !SomeSighted(ands) && !AlwaysBarred(ands)
    ensures Gives(NO_TABLES, name, ands, 1) && !Bears(NO_TABLES, 1, name)
  {
    forall k | 0 <= k < |ands| ensures FirstHit(NO_TABLES, name, ands[k].leaf, ands[k].related, 1) {
      BlindHits(name, ands[k].leaf, ands[k].related);
    }
  }

  /** What an AND set gives always bears the name. */
  ghost predicate NamesObjects(ands: seq<Node>)
    requires ands != []
  {
    forall db, name, i :: Gives(db, name, ands, i) ==> Bears(db, i, name)
  }

  /**
   Without ALL, the answer is always an object of the name exactly when some tag of the set, with its
   related tags, has no special match, or the negated tag that counts has one.
   */
  lemma NamesObjectsIff(ands: seq<Node>)
    requires ands != [] && FirstAll(ands) == |ands|
    ensures NamesObjects(ands) <==> SomeSighted(ands) || AlwaysBarred(ands)
  {
    if SomeSighted(ands) {
      var k: nat :| k < |ands| && Sighted(ands[k].leaf, ands[k].related);
      forall db, name, i | Gives(db, name, ands, i) ensures Bears(db, i, name) {
        SightedNames(db, name, ands[k].leaf, ands[k].related, i);
      }
    } else if !AlwaysBarred(ands) {
      BlindSetGivesOne("", ands);
    }
  }

  // ----- what a compiled query means -----

  ghost predicate WordHolds(db: Db, s: Services, i: Inode, w: Word) {
    Holds(db, i, s.LeafOf(w, false), s.Reason(s.LeafOf(w, false)).related)
  }

  /** A tag holds when it or a tag the reasoner adds is carried, a group when one of its tags holds. */
  ghost predicate ItemHolds(db: Db, s: Services, i: Inode, item: Item) {
    match item
    case One(w) => WordHolds(db, s, i, w)
    case Group(ws) => exists w :: w in ws && WordHolds(db, s, i, w)
    case Not(w) => true
  }

  /** The tag, or the first tag of the group, that an AND set begins with. */
  function FirstWord(items: seq<Item>): Word
    requires items != [] && WritableItem(items[0]) && !items[0].Not?
  {
    if items[0].One? then items[0].word else items[0].words[0]
  }

  /** The negation that counts: what the first tag excludes by relation, or else a `-` right after it. */
  ghost predicate FirstNegationHolds(db: Db, s: Services, i: Inode, items: seq<Item>)
    requires items != [] && WritableItem(items[0]) && !items[0].Not?
  {
    WordBars(db, s, i, items, FirstWord(items))
  }

  /** The same, were `w` the first tag. */
  ghost predicate WordBars(db: Db, s: Services, i: Inode, items: seq<Item>, w: Word) {
    var excluded := s.Reason(s.LeafOf(w, false)).excluded;
    if excluded != [] then (i, excluded[0].id) in db.tagging
    else
      && |items| > 1 && items[1].Not?
      && Holds(db, i, s.LeafOf(items[1].word, true), s.Reason(s.LeafOf(items[1].word, true)).related)
  }

  ghost predicate NodesHold(db: Db, i: Inode, nodes: seq<Node>) {
    forall k :: 0 <= k < |nodes| ==> Holds(db, i, nodes[k].leaf, nodes[k].related)
  }

  ghost predicate ItemsHold(db: Db, s: Services, i: Inode, items: seq<Item>) {
    forall k :: 0 <= k < |items| ==> ItemHolds(db, s, i, items[k])
  }

  lemma CarriedAppend(db: Db, i: Inode, a: seq<Linked>, b: seq<Linked>)
    ensures AnyCarried(db, i, a + b) <==> AnyCarried(db, i, a) || AnyCarried(db, i, b)
  {
    assert forall k :: 0 <= k < |a| ==> (a + b)[k] == a[k];
    assert forall k :: 0 <= k < |b| ==> (a + b)[|a| + k] == b[k];
  }

  lemma ChainHolds(db: Db, s: Services, i: Inode, w: Word)
    ensures AnyCarried(db, i, s.MemberChain(w)) <==> WordHolds(db, s, i, w)
  {
    var first := Linked(s.LeafOf(w, false), s.Reason(s.LeafOf(w, false)).excluded);
    CarriedAppend(db, i, [first], s.Reason(s.LeafOf(w, false)).related);
    assert [first][0].leaf == s.LeafOf(w, false);
  }

  ghost predicate SomeHolds(db: Db, s: Services, i: Inode, words: seq<Word>) {
    exists w :: w in words && WordHolds(db, s, i, w)
  }

  lemma SomeSplit(db: Db, s: Services, i: Inode, words: seq<Word>)
    requires words != []
    ensures SomeHolds(db, s, i, words) <==> WordHolds(db, s, i, words[0]) || SomeHolds(db, s, i, words[1..])
  {
    assert forall w :: w in words <==> w == words[0] || w in words[1..];
  }

  lemma {:induction false} MembersHold(db: Db, s: Services, i: Inode, words: seq<Word>)
    ensures AnyCarried(db, i, Members(words, s)) <==> SomeHolds(db, s, i, words)
  {
    if words != [] {
      MembersHold(db, s, i, words[1..]);
      CarriedAppend(db, i, s.MemberChain(words[0]), Members(words[1..], s));
      ChainHolds(db, s, i, words[0]);
      SomeSplit(db, s, i, words);
    }
  }

  lemma GroupHolds(db: Db, s: Services, i: Inode, words: seq<Word>)
    requires words != []
    ensures Holds(db, i, GroupNode(words, s).leaf, GroupNode(words, s).related) <==> SomeHolds(db, s, i, words)
  {
    CarriedAppend(db, i, s.SpineNode(words[0]).related, Members(words[1..], s));
    MembersHold(db, s, i, words[1..]);
    SomeSplit(db, s, i, words);
  }

  /** The spine of a compiled AND set asks for exactly the tags and groups of its items. */
  lemma {:induction false} CompiledHolds(db: Db, s: Services, i: Inode, nodes: seq<Node>, items: seq<Item>)
    requires forall k :: 0 <= k < |items| ==> WritableItem(items[k])
    ensures NodesHold(db, i, CompileItems(nodes, items, s)) <==> NodesHold(db, i, nodes) && ItemsHold(db, s, i, items)
    decreases |items|
  {
    if items != [] {
      var nodes' := CompileItem(nodes, items[0], s);
      CompiledHolds(db, s, i, nodes', items[1..]);
      ItemCompiledHolds(db, s, i, nodes, items[0]);
      assert forall k :: 0 < k < |items| ==> items[k] == items[1..][k - 1];
      assert forall k :: 0 <= k < |items[1..]| ==> items[1..][k] == items[k + 1];
    }
  }

  lemma ItemCompiledHolds(db: Db, s: Services, i: Inode, nodes: seq<Node>, item: Item)
    requires WritableItem(item)
    ensures NodesHold(db, i, CompileItem(nodes, item, s)) <==> NodesHold(db, i, nodes) && ItemHolds(db, s, i, item)
  {
    var nodes' := CompileItem(nodes, item, s);
    if item.Not? {
      assert |nodes'| == |nodes|;
      assert forall k :: 0 <= k < |nodes| ==> nodes'[k].leaf == nodes[k].leaf && nodes'[k].related == nodes[k].related;
    } else {
      if item.Group? { GroupHolds(db, s, i, item.words); }
      assert nodes' == nodes + [nodes'[|nodes|]];
      assert forall k :: 0 <= k < |nodes| ==> nodes'[k] == nodes[k];
    }
  }

  /** Only a negation right after the first tag reaches the head of the first node's negated chain. */
  lemma {:induction false} FirstNegated(s: Services, nodes: seq<Node>, items: seq<Item>)
    requires nodes != [] && forall k :: 0 <= k < |items| ==> WritableItem(items[k])
    ensures var nodes' := CompileItems(nodes, items, s);
      && nodes' != []
      && (nodes[0].negated != [] ==> nodes'[0].negated != [] && nodes'[0].negated[0] == nodes[0].negated[0])
      && (nodes[0].negated == [] && |nodes| == 1 && items != [] && items[0].Not? ==>
            nodes'[0].negated != [] && nodes'[0].negated[0] == s.BarChain(items[0].word)[0])
      && (nodes[0].negated == [] && (|nodes| > 1 || items == [] || !items[0].Not?) ==> nodes'[0].negated == [])
    decreases |items|
  {
    if items != [] {
      FirstNegated(s, CompileItem(nodes, items[0], s), items[1..]);
    }
  }

  /**
   What the evaluator makes of a compiled AND set: every tag and every group must hold, and of all
   the negations exactly one counts.
   */
  lemma CompiledAndMeans(db: Db, s: Services, i: Inode, items: seq<Item>)
    requires ProperAnd(items)
    ensures AndAccepts(db, CompileItems([], items, s), i) <==>
      ItemsHold(db, s, i, items) && !FirstNegationHolds(db, s, i, items)
  {
    CompiledHolds(db, s, i, [], items);
    var head := CompileItem([], items[0], s);
    assert CompileItems([], items, s) == CompileItems(head, items[1..], s);
    FirstNegated(s, head, items[1..]);
    assert |items| > 1 ==> items[1..][0] == items[1];
  }
}

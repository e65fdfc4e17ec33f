/**
 Deduplication (src/deduplication.c): after an object's checksum is stored, the object is merged
 into the smallest inode with the same checksum.  SHA-1 is a function from inodes to checksums.
 */
module Deduplication {
  import opened Schema
  import opened Tables

  // ----- one step of the kernel -----

  /** `update objects set checksum = hex where inode = i` */
  function Stamped(db: Db, i: Inode, hex: string): Db {
    if i in db.objects then db.(objects := db.objects[i := db.objects[i].(checksum := hex)]) else db
  }

  ghost predicate HasChecksum(db: Db, i: Inode, hex: string) {
    i in db.objects && db.objects[i].checksum == hex
  }

  ghost predicate IsFirst(db: Db, i: Inode, hex: string) {
    HasChecksum(db, i, hex) && forall j :: HasChecksum(db, j, hex) ==> i <= j
  }

  /** `select inode from objects where checksum = hex order by inode limit 1`, 0 without a row. */
  ghost function MainInode(db: Db, hex: string): (main: Inode)
    ensures (exists i :: HasChecksum(db, i, hex)) ==> IsFirst(db, main, hex)
    ensures !(exists i :: HasChecksum(db, i, hex)) ==> main == 0
  {
    if exists i :: HasChecksum(db, i, hex) then
      assert exists i :: IsFirst(db, i, hex) by { FirstExists(db, hex); }
      var i: Inode :| IsFirst(db, i, hex);
      i
    else 0
  }

  lemma FirstExists(db: Db, hex: string)
    requires exists i :: HasChecksum(db, i, hex)
    ensures exists i :: IsFirst(db, i, hex)
  {
    var i :| HasChecksum(db, i, hex);
    Descend(db, hex, i);
  }

  lemma {:induction false} Descend(db: Db, hex: string, i: Inode)
    requires HasChecksum(db, i, hex)
    ensures exists j :: IsFirst(db, j, hex)
    decreases i
  {
    if !IsFirst(db, i, hex) {
      var j: Inode :| HasChecksum(db, j, hex) && j < i;
      Descend(db, hex, j);
    }
  }

  /**
   What an `update` does when a row it changes would equal another one: pass that row over, as the
   source expects, or fail as a whole, as SQLite and MySQL do unless told otherwise.
   */
  datatype OnClash = SkipRow | FailStatement

  ghost predicate Clashes(tagging: set<(Inode, TagId)>, i: Inode, main: Inode) {
    exists tag :: (i, tag) in tagging && (main, tag) in tagging
  }

  /** Moving the tagging of one inode to another, row by row, then deleting the rows left behind. */
  function Moved(tagging: set<(Inode, TagId)>, i: Inode, main: Inode): set<(Inode, TagId)> {
    (set p | p in tagging && p.0 != i) + (set p | p in tagging && p.0 == i :: (main, p.1))
  }

  /** The `update` and the `delete` that follows it. */
  ghost function Handed(tagging: set<(Inode, TagId)>, i: Inode, main: Inode, clash: OnClash): set<(Inode, TagId)> {
    if clash.FailStatement? && Clashes(tagging, i, main) then set p | p in tagging && p.0 != i
    else Moved(tagging, i, main)
  }

  /** `tagsistant_querytree_find_duplicates` */
  ghost function Merged(db: Db, i: Inode, hex: string, clash: OnClash): Db {
    var main := MainInode(db, hex);
    if main == 0 || main == i then db
    else db.(tagging := Handed(db.tagging, i, main, clash), objects := db.objects - {i})
  }

  /** The database part of `tagsistant_deduplication_kernel`. */
  ghost function Kernel(db: Db, i: Inode, hex: string, clash: OnClash): Db {
    Merged(Stamped(db, i, hex), i, hex, clash)
  }

  // ----- runs over files whose contents do not change -----

  /** The checksum of what each object holds; no content hashes to the blank that marks a missing one. */
  type Contents = f: Inode -> string | forall i :: f(i) != "" witness (i => "-")

  /** Every stored checksum is right or still blank. */
  ghost predicate RightOrBlank(db: Db, content: Contents) {
    forall i :: i in db.objects ==> db.objects[i].checksum == "" || db.objects[i].checksum == content(i)
  }

  /** The kernel applied to one object after the other. */
  ghost function Pass(db: Db, content: Contents, order: seq<Inode>, clash: OnClash): Db {
    if order == [] then db
    else
      var last := order[|order| - 1];
      Kernel(Pass(db, content, order[..|order| - 1], clash), last, content(last), clash)
  }

  lemma PassStep(db: Db, content: Contents, order: seq<Inode>, k: nat, clash: OnClash)
    requires k < |order|
    ensures Pass(db, content, order[..k + 1], clash)
      == Kernel(Pass(db, content, order[..k], clash), order[k], content(order[k]), clash)
  {
    assert order[..k + 1][..k] == order[..k];
  }

  ghost predicate ClassCarries(db: Db, content: Contents, hex: string, tag: TagId) {
    exists i :: i in db.objects && content(i) == hex && (i, tag) in db.tagging
  }

  ghost predicate ClassInhabited(db: Db, content: Contents, hex: string) {
    exists i :: i in db.objects && content(i) == hex
  }

  /** What every step keeps: no class of equal contents gains a tag or loses its last member. */
  ghost predicate KeepsClasses(before: Db, after: Db, content: Contents) {
    && (forall hex, tag :: ClassCarries(after, content, hex, tag) ==> ClassCarries(before, content, hex, tag))
    && (forall hex :: ClassInhabited(after, content, hex) <==> ClassInhabited(before, content, hex))
    && (forall i :: i in after.objects ==> i in before.objects && after.objects[i].name == before.objects[i].name)
    && (forall i :: i in before.objects && i !in after.objects ==>
          exists m :: m < i && m in after.objects && content(m) == content(i))
  }

  /** What a step conserves when no tag is lost: each class keeps its tags, too. */
  ghost predicate Conserves(before: Db, after: Db, content: Contents) {
    KeepsClasses(before, after, content)
    && forall hex, tag :: ClassCarries(before, content, hex, tag) ==> ClassCarries(after, content, hex, tag)
  }

  ghost predicate CarriedElsewhere(db: Db, content: Contents, i: Inode, tag: TagId) {
    exists j :: j != i && j in db.objects && content(j) == content(i) && (j, tag) in db.tagging
  }

  /**
   A step that loses no tag, judged by the tables before it: it merges nothing, or its `update` goes
   through, or each tag of the object is also on another copy.
   */
  ghost predicate Lossless(db: Db, content: Contents, i: Inode, clash: OnClash) {
    var main := MainInode(Stamped(db, i, content(i)), content(i));
    || clash.SkipRow? || main == 0 || main == i || !Clashes(db.tagging, i, main)
    || forall tag :: (i, tag) in db.tagging ==> CarriedElsewhere(db, content, i, tag)
  }

  /** The tables that a pass starts from and keeps. */
  ghost predicate Ready(db: Db, content: Contents) {
    db.ObjectsExist() && RightOrBlank(db, content) && 0 !in db.objects
  }

  /** A step that merges nothing: only a checksum is stored. */
  lemma StampConserves(db: Db, content: Contents, i: Inode, clash: OnClash)
    requires Ready(db, content) && MainInode(Stamped(db, i, content(i)), content(i)) in {0, i}
    ensures var db' := Kernel(db, i, content(i), clash);
      Conserves(db, db', content) && Ready(db', content)
  {
    assert Kernel(db, i, content(i), clash).objects.Keys == db.objects.Keys;
  }

  /** A merge: the smaller copy it goes to. */
  lemma MainIsCopy(db: Db, content: Contents, i: Inode)
    requires Ready(db, content)
    ensures var main := MainInode(Stamped(db, i, content(i)), content(i));
      main !in {0, i} ==> main in db.objects && content(main) == content(i) && (i in db.objects ==> main < i)
  {
    var hex := content(i);
    var stamped := Stamped(db, i, hex);
    var main := MainInode(stamped, hex);
    if main !in {0, i} {
      assert HasChecksum(stamped, main, hex);
      assert i in db.objects ==> HasChecksum(stamped, i, hex);
    }
  }

  /** The tags that an object has after a merge were in its class before. */
  lemma MergeGainsNothing(db: Db, content: Contents, i: Inode, clash: OnClash, hex: string, tag: TagId)
    requires Ready(db, content) && MainInode(Stamped(db, i, content(i)), content(i)) !in {0, i}
    requires ClassCarries(Kernel(db, i, content(i), clash), content, hex, tag)
    ensures ClassCarries(db, content, hex, tag)
  {
    var db' := Kernel(db, i, content(i), clash);
    MainIsCopy(db, content, i);
    var j: Inode :| j in db'.objects && content(j) == hex && (j, tag) in db'.tagging;
    var k := if (j, tag) in db.tagging then j else i;
    assert k in db.objects && content(k) == hex && (k, tag) in db.tagging;
  }

  /** Whatever the backend does, tags stay within their class and no class dies out. */
  lemma KernelKeepsClasses(db: Db, content: Contents, i: Inode, clash: OnClash)
    requires Ready(db, content)
    ensures var db' := Kernel(db, i, content(i), clash);
      KeepsClasses(db, db', content) && Ready(db', content)
  {
    var main := MainInode(Stamped(db, i, content(i)), content(i));
    var db' := Kernel(db, i, content(i), clash);
    MainIsCopy(db, content, i);
    if main in {0, i} {
      StampConserves(db, content, i, clash);
    } else {
      forall h, tag: TagId | ClassCarries(db', content, h, tag) ensures ClassCarries(db, content, h, tag) {
        MergeGainsNothing(db, content, i, clash, h, tag);
      }
      forall h ensures ClassInhabited(db', content, h) <==> ClassInhabited(db, content, h) {
        assert main in db'.objects;
        assert forall j :: j in db.objects && j != i ==> j in db'.objects;
      }
    }
  }

  /** Where a carrier of a tag is after a merge that loses nothing. */
  lemma MergeKeepsTag(db: Db, content: Contents, i: Inode, clash: OnClash, hex: string, tag: TagId)
    requires Ready(db, content) && Lossless(db, content, i, clash)
    requires MainInode(Stamped(db, i, content(i)), content(i)) !in {0, i} && ClassCarries(db, content, hex, tag)
    ensures ClassCarries(Kernel(db, i, content(i), clash), content, hex, tag)
  {
    var main, db' := MainInode(Stamped(db, i, content(i)), content(i)), Kernel(db, i, content(i), clash);
    MainIsCopy(db, content, i);
    var j: Inode :| j in db.objects && content(j) == hex && (j, tag) in db.tagging;
    if j != i {
      assert j in db'.objects && (j, tag) in db'.tagging;
    } else if clash.SkipRow? || !Clashes(db.tagging, i, main) {
      assert (i, tag).0 == i && (main, (i, tag).1) in db'.tagging;
      assert main in db'.objects;
    } else {
      assert CarriedElsewhere(db, content, i, tag);
      var k: Inode :| k != i && k in db.objects && content(k) == content(i) && (k, tag) in db.tagging;
      assert k in db'.objects && (k, tag) in db'.tagging;
    }
  }

  /** And where no carrier is left after one that does lose something. */
  lemma MergeLosesTag(db: Db, content: Contents, i: Inode, clash: OnClash) returns (tag: TagId)
    requires Ready(db, content) && !Lossless(db, content, i, clash)
    ensures ClassCarries(db, content, content(i), tag)
    ensures !ClassCarries(Kernel(db, i, content(i), clash), content, content(i), tag)
  {
    tag :| (i, tag) in db.tagging && !CarriedElsewhere(db, content, i, tag);
    assert i in db.objects by { assert (i, tag).0 in db.objects; }
  }

  /** A step keeps every tag of every class exactly when it is lossless. */
  lemma KernelConservesIff(db: Db, content: Contents, i: Inode, clash: OnClash)
    requires Ready(db, content)
    ensures var db' := Kernel(db, i, content(i), clash);
      (Conserves(db, db', content) <==> Lossless(db, content, i, clash)) && Ready(db', content)
  {
    var main := MainInode(Stamped(db, i, content(i)), content(i));
    KernelKeepsClasses(db, content, i, clash);
    if main in {0, i} {
      StampConserves(db, content, i, clash);
    } else if Lossless(db, content, i, clash) {
      forall hex, tag: TagId | ClassCarries(db, content, hex, tag)
        ensures ClassCarries(Kernel(db, i, content(i), clash), content, hex, tag)
      {
        MergeKeepsTag(db, content, i, clash, hex, tag);
      }
    } else {
      var tag := MergeLosesTag(db, content, i, clash);
    }
  }

  lemma KeepsTransitive(a: Db, b: Db, c: Db, content: Contents)
    requires KeepsClasses(a, b, content) && KeepsClasses(b, c, content)
    ensures KeepsClasses(a, c, content)
    ensures Conserves(a, c, content) <==> Conserves(a, b, content) && Conserves(b, c, content)
  {
    forall i | i in a.objects && i !in c.objects
      ensures exists m :: m < i && m in c.objects && content(m) == content(i)
    {
      if i in b.objects {
        var m :| m < i && m in c.objects && content(m) == content(i);
      } else {
        var m :| m < i && m in b.objects && content(m) == content(i);
        if m !in c.objects {
          var n :| n < m && n in c.objects && content(n) == content(m);
        }
      }
    }
  }

  /** Each step of the pass is lossless, judged where the pass has come to. */
  ghost predicate AllLossless(db: Db, content: Contents, order: seq<Inode>, clash: OnClash) {
    order == [] ||
      var front, last := order[..|order| - 1], order[|order| - 1];
      AllLossless(db, content, front, clash) && Lossless(Pass(db, content, front, clash), content, last, clash)
  }

  /**
   A pass, in whatever order the objects are visited and however often, keeps every tag exactly when
   each of its steps is lossless: a tag once lost never comes back.
   */
  lemma {:induction false} PassConservesIff(db: Db, content: Contents, order: seq<Inode>, clash: OnClash)
    requires Ready(db, content)
    ensures var db' := Pass(db, content, order, clash);
      && KeepsClasses(db, db', content) && Ready(db', content)
      && (Conserves(db, db', content) <==> AllLossless(db, content, order, clash))
  {
    if order != [] {
      var front, last := order[..|order| - 1], order[|order| - 1];
      PassConservesIff(db, content, front, clash);
      var middle := Pass(db, content, front, clash);
      KernelKeepsClasses(middle, content, last, clash);
      KernelConservesIff(middle, content, last, clash);
      KeepsTransitive(db, middle, Pass(db, content, order, clash), content);
    }
  }

  /** Row by row, as the source has it, no tag is ever lost. */
  lemma PassConserves(db: Db, content: Contents, order: seq<Inode>)
    requires Ready(db, content)
    ensures Conserves(db, Pass(db, content, order, SkipRow), content)
  {
    SkipRowIsLossless(db, content, order);
    PassConservesIff(db, content, order, SkipRow);
  }

  lemma {:induction false} SkipRowIsLossless(db: Db, content: Contents, order: seq<Inode>)
    ensures AllLossless(db, content, order, SkipRow)
  {
    if order != [] {
      SkipRowIsLossless(db, content, order[..|order| - 1]);
    }
  }

  ghost predicate AllDisjoint(db: Db, content: Contents, hex: string) {
    forall i, j :: Copies(db, content, hex, i, j) ==> Disjoint(db, i, j)
  }

  ghost predicate AllWithin(db: Db, content: Contents, hex: string) {
    forall i, j :: Copies(db, content, hex, i, j) ==> Within(db, i, j)
  }

  /** Copies that share no tag, or that all carry the same tags. */
  ghost predicate Alike(db: Db, content: Contents, hex: string) {
    AllDisjoint(db, content, hex) || AllWithin(db, content, hex)
  }

  ghost predicate Copies(db: Db, content: Contents, hex: string, i: Inode, j: Inode) {
    i != j && i in db.objects && j in db.objects && content(i) == hex && content(j) == hex
  }

  lemma AlikeIsLossless(db: Db, content: Contents, i: Inode, clash: OnClash)
    requires Ready(db, content) && Alike(db, content, content(i))
    ensures Lossless(db, content, i, clash)
  {
    var main := MainInode(Stamped(db, i, content(i)), content(i));
    MainIsCopy(db, content, i);
    if main !in {0, i} && Clashes(db.tagging, i, main) {
      var shared: TagId :| (i, shared) in db.tagging && (main, shared) in db.tagging;
      assert (i, shared).0 in db.objects;
      assert Copies(db, content, content(i), i, main);
      forall tag | (i, tag) in db.tagging ensures CarriedElsewhere(db, content, i, tag) {
        assert (main, tag) in db.tagging;
      }
    }
  }

  ghost predicate Disjoint(db: Db, i: Inode, j: Inode) {
    forall tag :: (i, tag) in db.tagging ==> (j, tag) !in db.tagging
  }

  ghost predicate Within(db: Db, i: Inode, j: Inode) {
    forall tag :: (i, tag) in db.tagging ==> (j, tag) in db.tagging
  }

  /** What a merge leaves of the tags of two copies. */
  lemma MergedTags(db: Db, content: Contents, i: Inode, clash: OnClash, a: Inode, b: Inode)
    requires Ready(db, content)
    requires MainInode(Stamped(db, i, content(i)), content(i)) !in {0, i} && i in db.objects
    requires Copies(Kernel(db, i, content(i), clash), content, content(i), a, b)
    ensures var main, db' := MainInode(Stamped(db, i, content(i)), content(i)), Kernel(db, i, content(i), clash);
      && Copies(db, content, content(i), i, main) && Copies(db, content, content(i), a, b)
      && a != i && b != i
      && (Disjoint(db, a, b) && Disjoint(db, i, b) && Disjoint(db, a, i) ==> Disjoint(db', a, b))
      && (Within(db, a, b) && Within(db, i, b) ==> Within(db', a, b))
  {
    MainIsCopy(db, content, i);
  }

  /** Objects of other contents are not touched. */
  lemma OtherTags(db: Db, content: Contents, i: Inode, clash: OnClash, hex: string, a: Inode, b: Inode)
    requires Ready(db, content) && (content(i) != hex || i !in db.objects)
    requires Copies(Kernel(db, i, content(i), clash), content, hex, a, b)
    ensures var db' := Kernel(db, i, content(i), clash);
      && Copies(db, content, hex, a, b)
      && (Disjoint(db, a, b) ==> Disjoint(db', a, b)) && (Within(db, a, b) ==> Within(db', a, b))
  {
    MainIsCopy(db, content, i);
    assert i !in db.objects ==> forall tag :: (i, tag) in db.tagging ==> (i, tag).0 in db.objects;
  }

  lemma StampedTags(db: Db, content: Contents, i: Inode, clash: OnClash, hex: string, a: Inode, b: Inode)
    requires MainInode(Stamped(db, i, content(i)), content(i)) in {0, i}
    requires Copies(Kernel(db, i, content(i), clash), content, hex, a, b)
    ensures var db' := Kernel(db, i, content(i), clash);
      && Copies(db, content, hex, a, b)
      && (Disjoint(db, a, b) ==> Disjoint(db', a, b)) && (Within(db, a, b) ==> Within(db', a, b))
  {
  }

  lemma PairKept(db: Db, content: Contents, i: Inode, clash: OnClash, hex: string, a: Inode, b: Inode)
    requires Ready(db, content) && Copies(Kernel(db, i, content(i), clash), content, hex, a, b)
    ensures AllDisjoint(db, content, hex) ==> Disjoint(Kernel(db, i, content(i), clash), a, b)
    ensures AllWithin(db, content, hex) ==> Within(Kernel(db, i, content(i), clash), a, b)
  {
    if MainInode(Stamped(db, i, content(i)), content(i)) in {0, i} {
      StampedTags(db, content, i, clash, hex, a, b);
    } else if content(i) == hex && i in db.objects {
      MergedTags(db, content, i, clash, a, b);
      assert Copies(db, content, hex, i, b) && Copies(db, content, hex, a, i);
    } else {
      OtherTags(db, content, i, clash, hex, a, b);
    }
  }

  /** A merge leaves alike copies alike. */
  lemma AlikeKept(db: Db, content: Contents, i: Inode, clash: OnClash, hex: string)
    requires Ready(db, content) && Alike(db, content, hex)
    ensures Alike(Kernel(db, i, content(i), clash), content, hex)
  {
    forall a, b | Copies(Kernel(db, i, content(i), clash), content, hex, a, b)
      ensures AllDisjoint(db, content, hex) ==> Disjoint(Kernel(db, i, content(i), clash), a, b)
      ensures AllWithin(db, content, hex) ==> Within(Kernel(db, i, content(i), clash), a, b)
    {
      PairKept(db, content, i, clash, hex, a, b);
    }
  }

  /** On alike copies no tag is lost, whatever the backend does and in whatever order. */
  lemma {:induction false} AlikePassIsLossless(db: Db, content: Contents, order: seq<Inode>, clash: OnClash)
    requires Ready(db, content) && forall hex :: Alike(db, content, hex)
    ensures AllLossless(db, content, order, clash)
    ensures forall hex :: Alike(Pass(db, content, order, clash), content, hex)
  {
    if order != [] {
      var front, last := order[..|order| - 1], order[|order| - 1];
      var middle := Pass(db, content, front, clash);
      AlikePassIsLossless(db, content, front, clash);
      PassConservesIff(db, content, front, clash);
      AlikeIsLossless(middle, content, last, clash);
      forall hex ensures Alike(Pass(db, content, order, clash), content, hex) {
        AlikeKept(middle, content, last, clash, hex);
      }
    }
  }

  /** A merge that loses a tag: object 2 shares tag 1 with its smaller copy, and tag 2 goes down with it. */
  lemma LosingMerge(content: Contents, a: Object, b: Object)
    requires content(1) == content(2) && a.checksum == content(1) && b.checksum == ""
    ensures var db := Db(map[], 3, map[1 := a, 2 := b], 3, {(1, 1), (2, 1), (2, 2)}, [], map[]);
      && Ready(db, content)
      && !Conserves(db, Kernel(db, 2, content(2), FailStatement), content)
      && Conserves(db, Kernel(db, 2, content(2), SkipRow), content)
  {
    var db := Db(map[], 3, map[1 := a, 2 := b], 3, {(1, 1), (2, 1), (2, 2)}, [], map[]);
    var stamped := Stamped(db, 2, content(2));
    assert HasChecksum(stamped, 1, content(2));
    assert MainInode(stamped, content(2)) == 1;
    assert (2, 1) in db.tagging && (1, 1) in db.tagging && (2, 2) in db.tagging;
    assert !CarriedElsewhere(db, content, 2, 2);
    KernelConservesIff(db, content, 2, FailStatement);
    KernelConservesIff(db, content, 2, SkipRow);
  }

  /** A smaller object with the same content is among those visited. */
  ghost predicate Beaten(db: Db, content: Contents, visited: seq<Inode>, i: Inode) {
    exists m :: m in visited && m in db.objects && m < i && content(m) == content(i)
  }

  /** The objects a pass takes away: those visited after a smaller one with the same content. */
  ghost function Losers(db: Db, content: Contents, order: seq<Inode>): set<Inode> {
    if order == [] then {}
    else
      var front, last := order[..|order| - 1], order[|order| - 1];
      Losers(db, content, front) + if Beaten(db, content, front, last) then {last} else {}
  }

  ghost predicate NoRepeats(order: seq<Inode>) {
    forall a, b :: 0 <= a < b < |order| ==> order[a] != order[b]
  }

  /** What a pass from blank checksums leaves: who is still there, and who carries a checksum. */
  ghost predicate Outcome(db: Db, content: Contents, order: seq<Inode>, db': Db) {
    && (forall i :: i in db'.objects <==> i in db.objects && i !in Losers(db, content, order))
    && (forall i :: i in db'.objects ==> db'.objects[i].checksum == if i in order then content(i) else "")
  }

  lemma {:induction false} LosersWereBeaten(db: Db, content: Contents, order: seq<Inode>, i: Inode)
    requires i in Losers(db, content, order)
    ensures i in order && Beaten(db, content, order, i)
  {
    var front, last := order[..|order| - 1], order[|order| - 1];
    if i in Losers(db, content, front) {
      LosersWereBeaten(db, content, front, i);
    }
    assert forall m :: m in front ==> m in order;
  }

  /** The smallest visited object of a class is never beaten, so it is still there to be found. */
  lemma {:induction false} SmallestVisited(db: Db, content: Contents, order: seq<Inode>, i: Inode) returns (m: Inode)
    requires i in order && i in db.objects
    ensures m in order && m in db.objects && content(m) == content(i) && m <= i && m !in Losers(db, content, order)
    decreases i
  {
    if i in Losers(db, content, order) {
      LosersWereBeaten(db, content, order, i);
      var j: Inode :| j in order && j in db.objects && j < i && content(j) == content(i);
      m := SmallestVisited(db, content, order, j);
    } else {
      m := i;
    }
  }

  lemma {:induction false} PassOutcome(db: Db, content: Contents, order: seq<Inode>, clash: OnClash)
    requires db.ObjectsExist() && 0 !in db.objects && NoRepeats(order)
    requires forall i :: i in db.objects ==> db.objects[i].checksum == ""
    ensures Outcome(db, content, order, Pass(db, content, order, clash))
  {
    if order != [] {
      var front, last := order[..|order| - 1], order[|order| - 1];
      PassOutcome(db, content, front, clash);
      LastVisited(order);
      KernelOutcome(db, content, front, Pass(db, content, front, clash), last, clash);
      OutcomeOf(db, content, order, Pass(db, content, order, clash));
    }
  }

  lemma BeatenIsNotMain(db: Db, content: Contents, visited: seq<Inode>, before: Db, last: Inode)
    requires Outcome(db, content, visited, before) && last in before.objects && Beaten(db, content, visited, last)
    ensures MainInode(Stamped(before, last, content(last)), content(last)) != last
  {
    var j: Inode :| j in visited && j in db.objects && j < last && content(j) == content(last);
    var m := SmallestVisited(db, content, visited, j);
    assert m in before.objects;
    assert HasChecksum(Stamped(before, last, content(last)), m, content(last));
  }

  lemma MainBeats(db: Db, content: Contents, visited: seq<Inode>, before: Db, last: Inode)
    requires Outcome(db, content, visited, before) && last in before.objects
    requires MainInode(Stamped(before, last, content(last)), content(last)) != last
    ensures Beaten(db, content, visited, last)
  {
    var stamped := Stamped(before, last, content(last));
    var main := MainInode(stamped, content(last));
    assert HasChecksum(stamped, last, content(last));
    assert HasChecksum(stamped, main, content(last));
    assert main in before.objects && before.objects[main].checksum == content(last);
  }

  lemma KernelObjects(db: Db, i: Inode, hex: string, clash: OnClash)
    requires 0 !in db.objects
    ensures var main, db' := MainInode(Stamped(db, i, hex), hex), Kernel(db, i, hex, clash);
      && (forall j :: j in db'.objects <==> j in db.objects && (j == i ==> main == i))
      && (forall j :: j in db'.objects ==> db'.objects[j].checksum == if j == i then hex else db.objects[j].checksum)
  {
    assert i in db.objects ==> HasChecksum(Stamped(db, i, hex), i, hex);
  }

  lemma LastVisited(order: seq<Inode>)
    requires order != [] && NoRepeats(order)
    ensures var front, last := order[..|order| - 1], order[|order| - 1];
      last !in front && NoRepeats(front) && forall i :: i in order <==> i in front || i == last
  {
    assert order == order[..|order| - 1] + [order[|order| - 1]];
  }

  /** One more visit, in terms of those before it. */
  lemma KernelOutcome(db: Db, content: Contents, front: seq<Inode>, before: Db, last: Inode, clash: OnClash)
    requires Outcome(db, content, front, before) && 0 !in db.objects && last !in front
    ensures var after := Kernel(before, last, content(last), clash);
      && (forall i :: i in after.objects <==>
            i in db.objects && i !in Losers(db, content, front) && !(i == last && Beaten(db, content, front, last)))
      && (forall i :: i in after.objects ==>
            after.objects[i].checksum == if i in front || i == last then content(i) else "")
  {
    KernelObjects(before, last, content(last), clash);
    if last in before.objects {
      if Beaten(db, content, front, last) {
        BeatenIsNotMain(db, content, front, before, last);
      } else if MainInode(Stamped(before, last, content(last)), content(last)) != last {
        MainBeats(db, content, front, before, last);
      }
    }
  }

  lemma OutcomeOf(db: Db, content: Contents, order: seq<Inode>, after: Db)
    requires order != [] && NoRepeats(order)
    requires var front, last := order[..|order| - 1], order[|order| - 1];
      && (forall i :: i in after.objects <==>
            i in db.objects && i !in Losers(db, content, front) && !(i == last && Beaten(db, content, front, last)))
      && (forall i :: i in after.objects ==>
            after.objects[i].checksum == if i in front || i == last then content(i) else "")
    ensures Outcome(db, content, order, after)
  {
    LastVisited(order);
  }

  // ----- what a pass leaves -----

  /** An object goes exactly when a smaller one with the same content was visited before it. */
  lemma {:induction false} LosersByPosition(db: Db, content: Contents, order: seq<Inode>, i: Inode)
    ensures i in Losers(db, content, order) <==>
      exists k :: 0 <= k < |order| && order[k] == i && Beaten(db, content, order[..k], i)
  {
    if order != [] {
      var n := |order| - 1;
      LosersByPosition(db, content, order[..n], i);
      assert forall k :: 0 <= k < n ==> order[..n][..k] == order[..k] && order[..n][k] == order[k];
    }
  }

  /** The pass visits every object once. */
  ghost predicate Visits(db: Db, order: seq<Inode>) {
    NoRepeats(order) && forall i :: i in order <==> i in db.objects
  }

  ghost predicate FirstOfItsContent(content: Contents, order: seq<Inode>, k: nat)
    requires k < |order|
  {
    forall j :: 0 <= j < k ==> content(order[j]) != content(order[k])
  }

  /** Among objects with the same content the smallest inode is visited first. */
  ghost predicate SmallestFirst(content: Contents, order: seq<Inode>) {
    forall k, l | 0 <= k < |order| && 0 <= l < |order| ::
      FirstOfItsContent(content, order, k) && content(order[l]) == content(order[k]) ==> order[k] <= order[l]
  }

  ghost predicate OnePerContent(db: Db, content: Contents) {
    forall i, j :: i in db.objects && j in db.objects && content(i) == content(j) ==> i == j
  }

  lemma {:induction false} FirstVisit(content: Contents, order: seq<Inode>, k: nat) returns (f: nat)
    requires k < |order|
    ensures f <= k && content(order[f]) == content(order[k]) && FirstOfItsContent(content, order, f)
    decreases k
  {
    f := k;
    if !FirstOfItsContent(content, order, k) {
      var j: nat :| j < k && content(order[j]) == content(order[k]);
      f := FirstVisit(content, order, j);
    }
  }

  lemma FirstVisitedStays(db: Db, content: Contents, order: seq<Inode>, k: nat)
    requires NoRepeats(order) && k < |order| && FirstOfItsContent(content, order, k)
    ensures order[k] !in Losers(db, content, order)
  {
    LosersByPosition(db, content, order, order[k]);
  }

  lemma OnlyFirstStays(db: Db, content: Contents, order: seq<Inode>, i: Inode) returns (k: nat)
    requires Visits(db, order) && SmallestFirst(content, order)
    requires i in db.objects && i !in Losers(db, content, order)
    ensures k < |order| && order[k] == i && FirstOfItsContent(content, order, k)
  {
    k :| 0 <= k < |order| && order[k] == i;
    var f := FirstVisit(content, order, k);
    if f < k {
      assert order[f] < i && order[f] in order[..k] && order[f] in order;
      assert Beaten(db, content, order[..k], i);
      LosersByPosition(db, content, order, i);
    }
  }

  /** A pass leaves one object per content exactly when it visits the smallest of each content first. */
  lemma OnePerContentIffSmallestFirst(db: Db, content: Contents, order: seq<Inode>, clash: OnClash)
    requires db.ObjectsExist() && 0 !in db.objects && Visits(db, order)
    requires forall i :: i in db.objects ==> db.objects[i].checksum == ""
    ensures OnePerContent(Pass(db, content, order, clash), content) <==> SmallestFirst(content, order)
  {
    var db' := Pass(db, content, order, clash);
    PassOutcome(db, content, order, clash);
    if OnePerContent(db', content) {
      forall k, l | 0 <= k < |order| && 0 <= l < |order| && FirstOfItsContent(content, order, k)
        && content(order[l]) == content(order[k])
        ensures order[k] <= order[l]
      {
        FirstVisitedStays(db, content, order, k);
        assert order[k] in order && order[l] in order;
        var m := SmallestVisited(db, content, order, order[l]);
        assert m in db'.objects && order[k] in db'.objects;
      }
    }
    if SmallestFirst(content, order) {
      forall i, j | i in db'.objects && j in db'.objects && content(i) == content(j)
        ensures i == j
      {
        var k := OnlyFirstStays(db, content, order, i);
        var l := OnlyFirstStays(db, content, order, j);
        assert order[k] <= order[l] && order[l] <= order[k];
      }
    }
  }

  /** Smallest first: exactly the smallest inode of each content stays. */
  lemma SmallestStays(db: Db, content: Contents, order: seq<Inode>, i: Inode, clash: OnClash)
    requires db.ObjectsExist() && 0 !in db.objects && Visits(db, order) && SmallestFirst(content, order)
    requires forall i :: i in db.objects ==> db.objects[i].checksum == ""
    ensures i in Pass(db, content, order, clash).objects <==>
      i in db.objects && forall j :: j in db.objects && content(j) == content(i) ==> i <= j
  {
    var db' := Pass(db, content, order, clash);
    PassOutcome(db, content, order, clash);
    if i in db'.objects {
      OnePerContentIffSmallestFirst(db, content, order, clash);
      forall j | j in db.objects && content(j) == content(i) ensures i <= j {
        var m := SmallestVisited(db, content, order, j);
        assert m in db'.objects;
      }
    } else if i in db.objects {
      LosersWereBeaten(db, content, order, i);
    }
  }

  /** Every survivor carries the tags of all the copies. */
  ghost predicate Inherited(db: Db, db': Db, content: Contents) {
    forall i: Inode, tag: TagId :: i in db'.objects ==> ((i, tag) in db'.tagging <==> ClassCarries(db, content, content(i), tag))
  }

  lemma InheritedIffConserved(db: Db, db': Db, content: Contents)
    requires KeepsClasses(db, db', content) && OnePerContent(db', content)
    ensures Inherited(db, db', content) <==> Conserves(db, db', content)
  {
    forall i: Inode, tag: TagId | i in db'.objects
      ensures (i, tag) in db'.tagging <==> ClassCarries(db', content, content(i), tag)
    {
    }
    if Inherited(db, db', content) {
      forall hex, tag: TagId | ClassCarries(db, content, hex, tag) ensures ClassCarries(db', content, hex, tag) {
        assert ClassInhabited(db, content, hex);
        var i: Inode :| i in db'.objects && content(i) == hex;
        assert (i, tag) in db'.tagging;
      }
    }
  }

  /** Then each survivor inherits the tags of all the copies exactly when every merge is lossless. */
  lemma InheritedIffLossless(db: Db, content: Contents, order: seq<Inode>, clash: OnClash)
    requires db.ObjectsExist() && 0 !in db.objects && Visits(db, order) && SmallestFirst(content, order)
    requires forall i :: i in db.objects ==> db.objects[i].checksum == ""
    ensures Inherited(db, Pass(db, content, order, clash), content) <==> AllLossless(db, content, order, clash)
  {
    PassConservesIff(db, content, order, clash);
    OnePerContentIffSmallestFirst(db, content, order, clash);
    InheritedIffConserved(db, Pass(db, content, order, clash), content);
  }

  /** Increasing inode order, as `tagsistant_fix_checksums` reads the table, is smallest first. */
  lemma IncreasingIsSmallestFirst(content: Contents, order: seq<Inode>)
    requires forall a, b :: 0 <= a < b < |order| ==> order[a] < order[b]
    ensures SmallestFirst(content, order)
  {
    forall k, l | 0 <= k < |order| && 0 <= l < |order| && FirstOfItsContent(content, order, k)
      && content(order[l]) == content(order[k])
      ensures order[k] <= order[l]
    {
    }
  }

  /**
   The kept object itself, after an `update` that fails as a whole: it has all the tags of both copies
   exactly when they shared none, or it had them all before.
   */
  lemma FailureKeepsTagsIff(tagging: set<(Inode, TagId)>, i: Inode, main: Inode)
    requires i != main
    ensures (forall tag :: (main, tag) in Handed(tagging, i, main, FailStatement) <==> (i, tag) in tagging || (main, tag) in tagging)
      <==> !Clashes(tagging, i, main) || forall tag :: (i, tag) in tagging ==> (main, tag) in tagging
  {
    if !Clashes(tagging, i, main) {
      forall tag: TagId | (i, tag) in tagging ensures (main, tag) in Moved(tagging, i, main) {
        assert (i, tag).0 == i;
      }
    }
  }
}

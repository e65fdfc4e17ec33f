/**
 The life of an object over runs of all operations: which steps give it tags and take them from it,
 and which one takes the object itself (src/fuse_operations/unlink.c:58-75, rmdir.c:67-93).
 */
module ObjectLife {
  import opened Schema
  import opened TagKey
  import opened Tables
  import opened Runs
  import Archive
  import Deduplication

  // ----- objects -----

  /** The step that ends an object: its last tag goes, it is removed through ALL, or it yields to a copy. */
  ghost predicate TakesAway(db: Db, op: Op, i: Inode) {
    match op
    case UnlinkObject(inode, spine, commit) => i == inode && commit && forall t :: db.Carries(i, t) ==> t in spine
    case UnlinkFromAll(inode, commit) => i == inode && commit
    case Deduplicate(inode, hex, _) => i == inode && Archive.Merges(db, inode, hex)
    case _ => false
  }

  ghost predicate Brings(db: Db, op: Op, i: Inode) {
    || (op.CreateObject? && op.commit && i == if op.found == 0 then db.nextInode else op.found)
    || (op.LinkObject? && i == db.nextInode)
  }

  lemma StepObjects(db: Db, op: Op, i: Inode)
    requires db.Sound() && WellFormed(db, op)
    ensures i in Apply(db, op).objects <==> (i in db.objects && !TakesAway(db, op, i)) || Brings(db, op, i)
  {
    Archive.ObjectsAfterIs(db, op);
    if op.UnlinkObject? {
      UnlinkKeeps(db, op.inode, op.spine);
    }
  }

  /** Inodes are never used again. */
  lemma InodesGrow(db: Db, op: Op)
    requires db.Sound() && WellFormed(db, op)
    ensures Apply(db, op).nextInode >= db.nextInode
  {
    match op
    case RemoveTags(spine) => db.DeleteAllKeeps(spine);
    case CreateObject(name, found, spine, _) => CreateKeeps(db, name, found, spine);
    case LinkObject(name, spine) => CreateKeeps(db, name, 0, spine);
    case UnlinkObject(inode, spine, _) => db.UntagAllKeeps(spine, inode);
    case RenameObject(from, to, name, spine, toSpine, _) =>
      if from != to { RenameKeeps(db, from, to, name, spine, toSpine); }
    case _ =>
  }

  /** What one step is, seen from the start of the run it belongs to. */
  lemma AfterFirst(db: Db, ops: seq<Op>, k: nat)
    requires k < |ops|
    ensures ops[..k + 1][1..] == ops[1..][..k]
    ensures After(Apply(db, ops[0]), ops[1..][..k]) == After(db, ops[..k + 1])
  {
    assert ops[..k + 1][1..] == ops[1..][..k];
  }

  lemma {:induction false} GoneForGood(db: Db, ops: seq<Op>, i: Inode)
    requires db.Sound() && IsRun(db, ops) && i !in db.objects && i < db.nextInode
    ensures i !in After(db, ops).objects
    decreases |ops|
  {
    if ops != [] {
      StepSoundIff(db, ops[0]);
      StepObjects(db, ops[0], i);
      InodesGrow(db, ops[0]);
      GoneForGood(Apply(db, ops[0]), ops[1..], i);
    }
  }

  ghost predicate TakenAt(db: Db, ops: seq<Op>, i: Inode, k: nat)
    requires k < |ops|
  {
    TakesAway(After(db, ops[..k]), ops[k], i)
  }

  /**
   Over any run an object is there until, and only until, a step takes it away: through a path whose
   tags are all it still has, through ALL, or in favour of a copy.
   */
  lemma {:induction false} LivesUntilTaken(db: Db, ops: seq<Op>, i: Inode)
    requires db.Sound() && IsRun(db, ops) && i in db.objects
    ensures i in After(db, ops).objects <==> forall k :: 0 <= k < |ops| ==> !TakenAt(db, ops, i, k)
    decreases |ops|
  {
    if ops != [] {
      var next, rest := Apply(db, ops[0]), ops[1..];
      StepSoundIff(db, ops[0]);
      StepObjects(db, ops[0], i);
      assert After(db, ops[..0]) == db;
      assert TakenAt(db, ops, i, 0) <==> TakesAway(db, ops[0], i);
      forall k | 0 <= k < |rest| ensures TakenAt(db, ops, i, k + 1) <==> TakenAt(next, rest, i, k) {
        AfterFirst(db, ops, k);
      }
      if TakesAway(db, ops[0], i) {
        InodesGrow(db, ops[0]);
        GoneForGood(next, rest, i);
      } else {
        LivesUntilTaken(next, rest, i);
        assert forall k :: 0 < k < |ops| ==> (TakenAt(db, ops, i, k) <==> TakenAt(next, rest, i, k - 1));
      }
    }
  }

  // ----- tags -----

  ghost predicate Renames(db: Db, op: Op) {
    op.RenameFlatTag? && op.source != op.target && db.HasRow(op.source) && !db.HasRow(op.target)
  }

  /** The steps that give a tag to an object. */
  ghost predicate Gains(db: Db, op: Op, i: Inode, t: Tag) {
    match op
    case CreateObject(_, found, spine, commit) =>
      commit && t in spine && i == if found == 0 then db.nextInode else found
    case LinkObject(_, spine) => i == db.nextInode && t in spine
    case RenameObject(from, to, _, _, toSpine, commit) => commit && from != to && i == from && t in toSpine
    case RenameFlatTag(source, _, target) => Renames(db, op) && t == target && db.Carries(i, source)
    case Deduplicate(inode, hex, clash) =>
      && Archive.Merges(db, inode, hex) && i == Deduplication.MainInode(Deduplication.Stamped(db, inode, hex), hex)
      && db.Carries(inode, t) && (clash.SkipRow? || !Deduplication.Clashes(db.tagging, inode, i))
    case _ => false
  }

  /** The steps that take a tag from an object; a deletion also takes whatever tag it fetched the id of. */
  ghost predicate Loses(db: Db, op: Op, i: Inode, t: Tag) {
    match op
    case RemoveTags(spine) => t in spine || db.IdOf(t) in db.FetchedAlong(spine)
    case UnlinkObject(inode, spine, commit) => commit && i == inode && t in spine
    case UnlinkFromAll(inode, commit) => commit && i == inode
    case RenameObject(from, to, _, spine, _, commit) => commit && from != to && i == from && t in spine
    case RenameFlatTag(source, _, _) => Renames(db, op) && t == source
    case Deduplicate(inode, hex, _) => Archive.Merges(db, inode, hex) && i == inode
    case _ => false
  }

  /** Who carries what after a step: what it gives, and what was there and is not taken. */
  ghost predicate Accounted(db: Db, op: Op, i: Inode, t: Tag) {
    Apply(db, op).Carries(i, t) <==> Gains(db, op, i, t) || (db.Carries(i, t) && !Loses(db, op, i, t))
  }

  lemma SameTables(db: Db, db': Db, i: Inode, t: Tag)
    requires db'.tagging == db.tagging && db'.tags == db.tags
    ensures db'.Carries(i, t) <==> db.Carries(i, t)
  {
  }

  /** New rows of `tags` tag nobody. */
  lemma MoreTags(db: Db, db': Db, i: Inode, t: Tag)
    requires db.Sound() && db'.tagging == db.tagging
    requires forall id :: id in db.tags ==> id in db'.tags && db'.tags[id] == db.tags[id]
    ensures db'.Carries(i, t) <==> db.Carries(i, t)
  {
    if id :| (i, id) in db.tagging && id in db.tags && db.tags[id] == t {
      assert db'.tags[id] == t;
    }
    if id :| (i, id) in db'.tagging && id in db'.tags && db'.tags[id] == t {
      assert db.GoodId((i, id).1);
    }
  }

  lemma RenamedRows(db: Db, op: Op)
    requires db.Sound() && WellFormed(db, op) && op.RenameFlatTag?
    ensures var db' := Apply(db, op);
      && db'.tagging == db.tagging && db'.tags.Keys == db.tags.Keys
      && forall id :: id in db.tags ==>
        db'.tags[id] == if Renames(db, op) && db.tags[id] == op.source then op.target else db.tags[id]
  {
    assert op.source == Tag(op.source.name, "", "") && op.target == Tag(op.target.name, "", "");
    RenameTagRows(db, op.source.name, op.triple, op.target.name);
  }

  lemma RenameTagCarries(db: Db, op: Op, i: Inode, t: Tag)
    requires db.Sound() && WellFormed(db, op) && op.RenameFlatTag?
    ensures Accounted(db, op, i, t)
  {
    var source, target, db' := op.source, op.target, Apply(db, op);
    RenamedRows(db, op);
    if id :| (i, id) in db.tagging && id in db.tags && db.tags[id] == t {
      assert db'.tags[id] == if Renames(db, op) && t == source then target else t;
    }
    if id :| (i, id) in db.tagging && id in db.tags && db.tags[id] == source {
      assert Renames(db, op) ==> db'.tags[id] == target;
    }
    if id :| (i, id) in db'.tagging && id in db'.tags && db'.tags[id] == t {
      assert id in db.tags && db.Carries(i, db.tags[id]);
    }
  }

  lemma MergeCarries(db: Db, op: Op, i: Inode, t: Tag)
    requires db.Sound() && op.Deduplicate?
    ensures Accounted(db, op, i, t)
  {
    var inode, hex, clash := op.inode, op.hex, op.clash;
    var stamped, db' := Deduplication.Stamped(db, inode, hex), Apply(db, op);
    var main := Deduplication.MainInode(stamped, hex);
    SameTables(db, stamped, i, t);
    if Archive.Merges(db, inode, hex) {
      assert db'.tagging == Deduplication.Handed(db.tagging, inode, main, clash);
      if id :| (i, id) in db.tagging && id in db.tags && db.tags[id] == t {
        assert i != inode ==> (i, id) in db'.tagging && db'.tags[id] == t;
      }
      if id :| (inode, id) in db.tagging && id in db.tags && db.tags[id] == t {
        assert clash.SkipRow? || !Deduplication.Clashes(db.tagging, inode, main) ==> (main, (inode, id).1) in db'.tagging;
      }
      if id :| (i, id) in db'.tagging && id in db'.tags && db'.tags[id] == t {
        assert (i, id) in db.tagging || (i == main && (inode, id) in db.tagging);
      }
    } else {
      SameTables(db, db', i, t);
    }
  }

  lemma RemovedCarries(db: Db, op: Op, i: Inode, t: Tag)
    requires op.UnlinkFromAll?
    ensures Accounted(db, op, i, t)
  {
    if id :| (i, id) in db.tagging && id in db.tags && db.tags[id] == t {
      assert i != op.inode ==> (i, id) in Apply(db, op).tagging;
    }
    if !op.commit { SameTables(db, Apply(db, op), i, t); }
  }

  lemma RelationCarries(db: Db, op: Op, i: Inode, t: Tag)
    requires db.Sound() && WellFormed(db, op) && op.AddRelation?
    ensures Accounted(db, op, i, t)
  {
    var ready := RelateReady(db, op.t1, op.t2);
    RelateReadyKeeps(db, op.t1, op.t2);
    ReadyKeepsRows(db, op.t1, op.t2);
    MoreTags(db, ready, i, t);
    if db.HasRow(op.t1) && KindOf(op.relation).Some? {
      SameTables(ready, Apply(db, op), i, t);
    } else {
      SameTables(db, Apply(db, op), i, t);
    }
  }

  lemma ReadyKeepsRows(db: Db, t1: Tag, t2: Tag)
    requires db.Sound() && Regular(t1) && Regular(t2)
    ensures var ready := RelateReady(db, t1, t2);
      forall id :: id in db.tags ==> id in ready.tags && ready.tags[id] == db.tags[id]
  {
    var first := db.AfterFetch(t1);
    db.FetchKeeps(t1);
    first.CreateKeeps(t2);
  }

  lemma MakeTagCarries(db: Db, op: Op, i: Inode, t: Tag)
    requires db.Sound() && WellFormed(db, op) && op.MakeTag?
    ensures Accounted(db, op, i, t)
  {
    db.CreateGrows(op.tag, i);
  }

  lemma DropRelationCarries(db: Db, op: Op, i: Inode, t: Tag)
    requires op.DropRelation?
    ensures Accounted(db, op, i, t)
  {
    assert Apply(db, op) == RemoveRelation(db, op.t1, op.relation, op.t2);
    SameTables(db, RemoveRelation(db, op.t1, op.relation, op.t2), i, t);
  }

  lemma LookCarries(db: Db, op: Op, i: Inode, t: Tag)
    requires op.Look?
    ensures Accounted(db, op, i, t)
  {
    SameTables(db, AfterLookUp(db, op.query, op.row), i, t);
  }

  lemma RemoveTagsCarries(db: Db, op: Op, i: Inode, t: Tag)
    requires db.Sound() && WellFormed(db, op) && op.RemoveTags?
    ensures Accounted(db, op, i, t)
  {
    db.DeleteAllKeeps(op.spine);
    assert Apply(db, op) == db.DeletedAll(op.spine);
    assert db.DeletedAll(op.spine).Carries(i, t) <==>
      db.Carries(i, t) && t !in op.spine && db.IdOf(t) !in db.FetchedAlong(op.spine);
  }

  lemma ObjectStepCarries(db: Db, op: Op, i: Inode, t: Tag)
    requires db.Sound() && WellFormed(db, op)
    requires op.CreateObject? || op.LinkObject? || op.UnlinkObject? || op.RenameObject?
    ensures Accounted(db, op, i, t)
  {
    match op
    case CreateObject(name, found, spine, commit) =>
      CreateCarries(db, name, found, spine, i, t);
      if !commit { SameTables(db, Apply(db, op), i, t); }
    case LinkObject(name, spine) => CreateCarries(db, name, 0, spine, i, t);
    case UnlinkObject(inode, spine, commit) =>
      UnlinkKeeps(db, inode, spine);
      if !commit { SameTables(db, Apply(db, op), i, t); }
    case RenameObject(from, to, name, spine, toSpine, commit) =>
      if from != to { RenameCarries(db, from, to, name, spine, toSpine, i, t); }
      if !commit { SameTables(db, Apply(db, op), i, t); }
  }

  /** Each operation accounts for all the tags of all the objects. */
  lemma StepCarries(db: Db, op: Op, i: Inode, t: Tag)
    requires db.Sound() && WellFormed(db, op)
    ensures Accounted(db, op, i, t)
  {
    match op
    case RemoveTags(_) => RemoveTagsCarries(db, op, i, t);
    case UnlinkFromAll(_, _) => RemovedCarries(db, op, i, t);
    case RenameFlatTag(_, _, _) => RenameTagCarries(db, op, i, t);
    case AddRelation(_, _, _) => RelationCarries(db, op, i, t);
    case Deduplicate(_, _, _) => MergeCarries(db, op, i, t);
    case CreateObject(_, _, _, _) => ObjectStepCarries(db, op, i, t);
    case LinkObject(_, _) => ObjectStepCarries(db, op, i, t);
    case UnlinkObject(_, _, _) => ObjectStepCarries(db, op, i, t);
    case RenameObject(_, _, _, _, _, _) => ObjectStepCarries(db, op, i, t);
    case MakeTag(_) => MakeTagCarries(db, op, i, t);
    case Look(_, _) => LookCarries(db, op, i, t);
    case DropRelation(_, _, _) => DropRelationCarries(db, op, i, t);
  }

  // ----- tags over runs -----

  ghost predicate GainedAt(db: Db, ops: seq<Op>, i: Inode, t: Tag, k: nat)
    requires k < |ops|
  {
    Gains(After(db, ops[..k]), ops[k], i, t)
  }

  ghost predicate LostAt(db: Db, ops: seq<Op>, i: Inode, t: Tag, k: nat)
    requires k < |ops|
  {
    var now := After(db, ops[..k]);
    Loses(now, ops[k], i, t) && !Gains(now, ops[k], i, t)
  }

  /** From step `k` on the tag is not taken away. */
  ghost predicate KeptSince(db: Db, ops: seq<Op>, i: Inode, t: Tag, k: nat) {
    forall l :: k <= l < |ops| ==> !LostAt(db, ops, i, t, l)
  }

  ghost predicate EverGained(db: Db, ops: seq<Op>, i: Inode, t: Tag) {
    exists k :: 0 <= k < |ops| && GainedAt(db, ops, i, t, k) && KeptSince(db, ops, i, t, k + 1)
  }

  lemma ShiftTags(db: Db, ops: seq<Op>, i: Inode, t: Tag, k: nat)
    requires k + 1 < |ops|
    ensures GainedAt(db, ops, i, t, k + 1) <==> GainedAt(Apply(db, ops[0]), ops[1..], i, t, k)
    ensures LostAt(db, ops, i, t, k + 1) <==> LostAt(Apply(db, ops[0]), ops[1..], i, t, k)
  {
    AfterFirst(db, ops, k);
  }

  lemma ShiftKept(db: Db, ops: seq<Op>, i: Inode, t: Tag, k: nat)
    requires k + 1 <= |ops|
    ensures KeptSince(db, ops, i, t, k + 1) <==> KeptSince(Apply(db, ops[0]), ops[1..], i, t, k)
  {
    forall l: nat | k <= l < |ops| - 1
      ensures LostAt(db, ops, i, t, l + 1) <==> LostAt(Apply(db, ops[0]), ops[1..], i, t, l)
    {
      ShiftTags(db, ops, i, t, l);
    }
    assert forall l :: k + 1 <= l < |ops| ==>
      (LostAt(db, ops, i, t, l) <==> LostAt(Apply(db, ops[0]), ops[1..], i, t, l - 1));
  }

  lemma GainedFirst(db: Db, ops: seq<Op>, i: Inode, t: Tag)
    requires ops != []
    ensures GainedAt(db, ops, i, t, 0) && KeptSince(db, ops, i, t, 1) <==>
      Gains(db, ops[0], i, t) && KeptSince(Apply(db, ops[0]), ops[1..], i, t, 0)
  {
    assert After(db, ops[..0]) == db;
    ShiftKept(db, ops, i, t, 0);
  }

  lemma GainedLater(db: Db, ops: seq<Op>, i: Inode, t: Tag, k: nat)
    requires k + 1 < |ops|
    ensures GainedAt(db, ops, i, t, k + 1) && KeptSince(db, ops, i, t, k + 2) <==>
      GainedAt(Apply(db, ops[0]), ops[1..], i, t, k) && KeptSince(Apply(db, ops[0]), ops[1..], i, t, k + 1)
  {
    ShiftTags(db, ops, i, t, k);
    ShiftKept(db, ops, i, t, k + 1);
  }

  lemma ShiftGained(db: Db, ops: seq<Op>, i: Inode, t: Tag)
    requires ops != []
    ensures EverGained(db, ops, i, t) <==>
      || (Gains(db, ops[0], i, t) && KeptSince(Apply(db, ops[0]), ops[1..], i, t, 0))
      || EverGained(Apply(db, ops[0]), ops[1..], i, t)
  {
    var next, rest := Apply(db, ops[0]), ops[1..];
    GainedFirst(db, ops, i, t);
    if k: nat :| k < |rest| && GainedAt(next, rest, i, t, k) && KeptSince(next, rest, i, t, k + 1) {
      GainedLater(db, ops, i, t, k);
      assert GainedAt(db, ops, i, t, k + 1) && KeptSince(db, ops, i, t, k + 1 + 1);
    }
    if k: nat :| k < |ops| && GainedAt(db, ops, i, t, k) && KeptSince(db, ops, i, t, k + 1) {
      if k > 0 {
        GainedLater(db, ops, i, t, k - 1);
        assert GainedAt(next, rest, i, t, k - 1) && KeptSince(next, rest, i, t, k - 1 + 1);
      }
    }
  }

  /**
   After any run an object carries exactly the tags that it had or was given on the way, and that no
   step has taken since.
   */
  lemma {:induction false} RunCarries(db: Db, ops: seq<Op>, i: Inode, t: Tag)
    requires db.Sound() && IsRun(db, ops)
    ensures After(db, ops).Carries(i, t) <==> (db.Carries(i, t) && KeptSince(db, ops, i, t, 0)) || EverGained(db, ops, i, t)
    decreases |ops|
  {
    if ops != [] {
      var next, rest := Apply(db, ops[0]), ops[1..];
      StepSoundIff(db, ops[0]);
      StepCarries(db, ops[0], i, t);
      RunCarries(next, rest, i, t);
      ShiftGained(db, ops, i, t);
      ShiftKept(db, ops, i, t, 0);
      assert After(db, ops[..0]) == db;
      assert KeptSince(db, ops, i, t, 0) <==> !LostAt(db, ops, i, t, 0) && KeptSince(db, ops, i, t, 1);
    }
  }
}

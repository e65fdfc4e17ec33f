/**
 What every operation does to every table, row by row: rows of `tags` and their ids, rows of
 `relations`, and the names and checksums of objects.  Taggings are in the module `ObjectLife`.
 */
module TableChanges {
  import opened Schema
  import opened TagKey
  import opened Tables
  import opened Runs
  import opened ObjectLife
  import Archive
  import Deduplication

  // ----- relations -----

  lemma {:induction false} WithoutTagCount(rows: seq<Relation>, id: TagId, r: Relation)
    ensures multiset(WithoutTag(rows, id))[r] == if r.tag1 == id || r.tag2 == id then 0 else multiset(rows)[r]
  {
    if rows != [] {
      WithoutTagCount(rows[1..], id, r);
      assert rows == [rows[0]] + rows[1..];
    }
  }

  lemma {:induction false} WithoutRowCount(rows: seq<Relation>, row: Relation, r: Relation)
    ensures multiset(WithoutRow(rows, row))[r] == if r == row then 0 else multiset(rows)[r]
  {
    if rows != [] {
      WithoutRowCount(rows[1..], row, r);
      assert rows == [rows[0]] + rows[1..];
    }
  }

  /** Deleting tags takes the relations with one of the fetched ids at either end, and no others. */
  lemma {:induction false} DeletedRelations(db: Db, spine: seq<Tag>, r: Relation)
    ensures multiset(db.DeletedAll(spine).relations)[r] ==
      if r.tag1 in db.FetchedAlong(spine) || r.tag2 in db.FetchedAlong(spine) then 0 else multiset(db.relations)[r]
    decreases |spine|
  {
    if spine != [] {
      WithoutTagCount(db.relations, db.Fetched(spine[0]), r);
      DeletedRelations(db.Deleted(spine[0]), spine[1..], r);
    }
  }

  /** The id that a tag has, or is given when it is made. */
  ghost function IdToBe(db: Db, t: Tag): TagId {
    if db.HasRow(t) then db.IdOf(t) else db.nextTag
  }

  ghost predicate AddsRelation(db: Db, op: Op, r: Relation) {
    && op.AddRelation? && db.HasRow(op.t1) && KindOf(op.relation).Some?
    && r == Relation(db.IdOf(op.t1), KindOf(op.relation).value, IdToBe(db, op.t2))
  }

  ghost predicate TakesRelation(db: Db, op: Op, r: Relation) {
    match op
    case RemoveTags(spine) => r.tag1 in db.FetchedAlong(spine) || r.tag2 in db.FetchedAlong(spine)
    case DropRelation(t1, relation, t2) =>
      IsFlat(t1) && IsFlat(t2) && KindOf(relation).Some? && r == Relation(db.IdOf(t1), KindOf(relation).value, db.IdOf(t2))
    case _ => false
  }

  lemma {:induction false} TaggedAllRelations(db: Db, spine: seq<Tag>, inode: Inode)
    ensures db.TaggedAll(spine, inode).relations == db.relations
    decreases |spine|
  {
    if spine != [] {
      TaggedAllRelations(db.Tagged(spine[0], inode), spine[1..], inode);
    }
  }

  lemma {:induction false} UntaggedAllRelations(db: Db, spine: seq<Tag>, inode: Inode)
    ensures db.UntaggedAll(spine, inode).relations == db.relations
    decreases |spine|
  {
    if spine != [] {
      UntaggedAllRelations(db.Untagged(spine[0], inode), spine[1..], inode);
    }
  }

  lemma ObjectStepRelations(db: Db, op: Op)
    requires op.CreateObject? || op.LinkObject? || op.UnlinkObject? || op.UnlinkFromAll? || op.RenameObject? || op.Deduplicate?
    ensures Apply(db, op).relations == db.relations
  {
    match op
    case CreateObject(name, found, spine, _) => TaggedAllRelations(Inserted(db, name, found), spine, CreateInode(db, found));
    case LinkObject(name, spine) => TaggedAllRelations(Inserted(db, name, 0), spine, CreateInode(db, 0));
    case UnlinkObject(inode, spine, _) => UntaggedAllRelations(db, spine, inode);
    case RenameObject(from, _, name, spine, toSpine, _) =>
      UntaggedAllRelations(Named(db, from, name), spine, from);
      TaggedAllRelations(Named(db, from, name).UntaggedAll(spine, from), toSpine, from);
    case _ =>
  }

  lemma AddRelationRows(db: Db, op: Op, r: Relation)
    requires db.Sound() && WellFormed(db, op) && op.AddRelation?
    ensures multiset(Apply(db, op).relations)[r] == multiset(db.relations)[r] + if AddsRelation(db, op, r) then 1 else 0
  {
    var ready := RelateReady(db, op.t1, op.t2);
    RelateReadyKeeps(db, op.t1, op.t2);
    ReadyId(db, op.t1, op.t2);
    ready.FetchedIsIdOf(op.t1);
    ready.FetchedIsIdOf(op.t2);
  }

  lemma ReadyId(db: Db, t1: Tag, t2: Tag)
    requires db.Sound() && Regular(t1) && Regular(t2)
    ensures RelateReady(db, t1, t2).IdOf(t2) == IdToBe(db, t2)
  {
    RelateReadyKeeps(db, t1, t2);
    if !db.HasRow(t2) {
      var first, ready := db.AfterFetch(t1), RelateReady(db, t1, t2);
      FetchSound(db, t1);
      first.FetchedIsIdOf(t2);
      assert ready.tags == db.tags[db.nextTag := t2];
      ready.IdIs(db.nextTag);
    }
  }

  lemma UnrelatedRows(db: Db, t1: Tag, kind: Kind, t2: Tag, r: Relation)
    requires db.Sound() && Regular(t1) && Regular(t2)
    ensures multiset(Unrelate(db, t1, kind, t2).relations)[r] ==
      if r == Relation(db.IdOf(t1), kind, db.IdOf(t2)) then 0 else multiset(db.relations)[r]
  {
    UnrelateReady(db, t1, t2);
    WithoutRowCount(db.relations, Relation(db.IdOf(t1), kind, db.IdOf(t2)), r);
  }

  lemma DropRelationRows(db: Db, op: Op, r: Relation)
    requires db.Sound() && WellFormed(db, op) && op.DropRelation?
    ensures multiset(Apply(db, op).relations)[r] == if TakesRelation(db, op, r) then 0 else multiset(db.relations)[r]
  {
    if IsFlat(op.t1) && IsFlat(op.t2) && KindOf(op.relation).Some? {
      UnrelatedRows(db, op.t1, KindOf(op.relation).value, op.t2, r);
    }
  }

  /** Every operation accounts for all rows of `relations`, and for how often each is there. */
  lemma StepRelations(db: Db, op: Op, r: Relation)
    requires db.Sound() && WellFormed(db, op)
    ensures multiset(Apply(db, op).relations)[r] ==
      (if TakesRelation(db, op, r) then 0 else multiset(db.relations)[r]) + (if AddsRelation(db, op, r) then 1 else 0)
  {
    match op
    case RemoveTags(spine) => DeletedRelations(db, spine, r);
    case AddRelation(_, _, _) => AddRelationRows(db, op, r);
    case DropRelation(_, _, _) => DropRelationRows(db, op, r);
    case MakeTag(_) =>
    case Look(_, _) =>
    case RenameFlatTag(_, _, _) =>
    case _ => ObjectStepRelations(db, op);
  }

  // ----- tags -----

  /** The steps that make a row of `tags`. */
  ghost predicate MakesRow(db: Db, op: Op, t: Tag) {
    match op
    case MakeTag(tag) => t == tag
    case CreateObject(_, _, spine, commit) => commit && t in spine
    case LinkObject(_, spine) => t in spine
    case RenameObject(from, to, _, _, toSpine, commit) => commit && from != to && t in toSpine
    case RenameFlatTag(_, _, target) => Renames(db, op) && t == target
    case AddRelation(t1, relation, t2) => db.HasRow(t1) && KindOf(relation).Some? && t == t2
    case _ => false
  }

  ghost predicate TakesRow(db: Db, op: Op, t: Tag) {
    match op
    case RemoveTags(spine) => t in spine
    case RenameFlatTag(source, _, _) => Renames(db, op) && t == source
    case _ => false
  }

  lemma MakeTagStepRows(db: Db, op: Op, t: Tag)
    requires db.Sound() && WellFormed(db, op) && op.MakeTag?
    ensures Apply(db, op).HasRow(t) <==> t == op.tag || db.HasRow(t)
  {
    db.CreateKeeps(op.tag);
  }

  lemma LookStepRows(db: Db, op: Op, t: Tag)
    requires op.Look? || op.DropRelation?
    ensures Apply(db, op).HasRow(t) <==> db.HasRow(t)
  {
    SameTagRows(db, Apply(db, op), t);
  }

  lemma RemoveTagsStepRows(db: Db, op: Op, t: Tag)
    requires db.Sound() && WellFormed(db, op) && op.RemoveTags?
    ensures Apply(db, op).HasRow(t) <==> db.HasRow(t) && t !in op.spine
  {
    db.DeleteAllKeeps(op.spine);
    assert Apply(db, op) == db.DeletedAll(op.spine);
  }

  lemma AddRelationStepRows(db: Db, op: Op, t: Tag)
    requires db.Sound() && WellFormed(db, op) && op.AddRelation?
    ensures Apply(db, op).HasRow(t) <==> db.HasRow(t) || (t == op.t2 && db.HasRow(op.t1) && KindOf(op.relation).Some?)
  {
    RelateReadyKeeps(db, op.t1, op.t2);
    SameTagRows(if db.HasRow(op.t1) && KindOf(op.relation).Some? then RelateReady(db, op.t1, op.t2) else db, Apply(db, op), t);
  }

  lemma RenameTagStepRows(db: Db, op: Op, t: Tag)
    requires db.Sound() && WellFormed(db, op) && op.RenameFlatTag?
    ensures Apply(db, op).HasRow(t) <==> MakesRow(db, op, t) || (db.HasRow(t) && !TakesRow(db, op, t))
  {
    var db' := Apply(db, op);
    RenamedRows(db, op);
    if db.HasRow(t) { assert db'.tags[db.IdOf(t)] == if Renames(db, op) && t == op.source then op.target else t; }
    if Renames(db, op) { assert db'.tags[db.IdOf(op.source)] == op.target; }
    if db'.HasRow(t) { assert db.HasRow(db.tags[db'.IdOf(t)]); }
  }

  lemma ObjectStepRows(db: Db, op: Op, t: Tag)
    requires db.Sound() && WellFormed(db, op)
    requires op.CreateObject? || op.LinkObject? || op.UnlinkObject? || op.UnlinkFromAll? || op.Deduplicate?
    ensures Apply(db, op).HasRow(t) <==> MakesRow(db, op, t) || db.HasRow(t)
  {
    match op
    case CreateObject(name, found, spine, _) =>
      CreateKeeps(db, name, found, spine);
      SameTagRows(db, Inserted(db, name, found), t);
    case LinkObject(name, spine) =>
      CreateKeeps(db, name, 0, spine);
      SameTagRows(db, Inserted(db, name, 0), t);
    case UnlinkObject(inode, spine, _) => db.UntagAllKeeps(spine, inode);
    case _ => SameTagRows(db, Apply(db, op), t);
  }

  lemma RenameObjectStepRows(db: Db, op: Op, t: Tag)
    requires db.Sound() && WellFormed(db, op) && op.RenameObject?
    ensures Apply(db, op).HasRow(t) <==> MakesRow(db, op, t) || db.HasRow(t)
  {
    if op.from != op.to {
      RenameKeeps(db, op.from, op.to, op.name, op.spine, op.toSpine);
      SameTagRows(db, Named(db, op.from, op.name).UntaggedAll(op.spine, op.from), t);
    }
  }

  lemma SameTagRows(db: Db, db': Db, t: Tag)
    requires db'.tags == db.tags
    ensures db'.HasRow(t) <==> db.HasRow(t)
  {
  }

  /** Every operation accounts for all rows of `tags`. */
  lemma StepRows(db: Db, op: Op, t: Tag)
    requires db.Sound() && WellFormed(db, op)
    ensures Apply(db, op).HasRow(t) <==> MakesRow(db, op, t) || (db.HasRow(t) && !TakesRow(db, op, t))
  {
    match op
    case RenameFlatTag(_, _, _) => RenameTagStepRows(db, op, t);
    case RenameObject(_, _, _, _, _, _) => RenameObjectStepRows(db, op, t);
    case MakeTag(_) => MakeTagStepRows(db, op, t);
    case RemoveTags(_) => RemoveTagsStepRows(db, op, t);
    case AddRelation(_, _, _) => AddRelationStepRows(db, op, t);
    case Look(_, _) => LookStepRows(db, op, t);
    case DropRelation(_, _, _) => LookStepRows(db, op, t);
    case _ => ObjectStepRows(db, op, t);
  }

  /** Where a row of `tags` goes: a deletion takes it, a tag rename renames it, and its id never changes. */
  ghost predicate RowKept(db: Db, op: Op, id: TagId)
    requires id in db.tags
  {
    var tags := Apply(db, op).tags;
    if op.RemoveTags? && db.tags[id] in op.spine then id !in tags
    else id in tags && tags[id] == if Renames(db, op) && db.tags[id] == op.source then op.target else db.tags[id]
  }

  lemma {:induction false} DeletedTags(db: Db, spine: seq<Tag>, id: TagId)
    requires id in db.tags
    ensures var tags := db.DeletedAll(spine).tags;
      if db.tags[id] in spine then id !in tags else id in tags && tags[id] == db.tags[id]
    decreases |spine|
  {
    if spine != [] {
      if db.tags[id] == spine[0] {
        DeletedIdStays(db.Deleted(spine[0]), spine[1..], id);
      } else {
        DeletedTags(db.Deleted(spine[0]), spine[1..], id);
      }
    }
  }

  lemma {:induction false} DeletedIdStays(db: Db, spine: seq<Tag>, id: TagId)
    requires id !in db.tags
    ensures id !in db.DeletedAll(spine).tags
    decreases |spine|
  {
    if spine != [] {
      DeletedIdStays(db.Deleted(spine[0]), spine[1..], id);
    }
  }

  lemma ObjectStepIds(db: Db, op: Op, id: TagId)
    requires db.Sound() && WellFormed(db, op) && id in db.tags
    requires op.CreateObject? || op.LinkObject? || op.UnlinkObject? || op.UnlinkFromAll? || op.Deduplicate?
    ensures id in Apply(db, op).tags && Apply(db, op).tags[id] == db.tags[id]
  {
    match op
    case CreateObject(name, found, spine, _) => CreateKeeps(db, name, found, spine);
    case LinkObject(name, spine) => CreateKeeps(db, name, 0, spine);
    case UnlinkObject(inode, spine, _) => db.UntagAllKeeps(spine, inode);
    case _ =>
  }

  lemma RenameObjectStepIds(db: Db, op: Op, id: TagId)
    requires db.Sound() && WellFormed(db, op) && id in db.tags && op.RenameObject?
    ensures id in Apply(db, op).tags && Apply(db, op).tags[id] == db.tags[id]
  {
    if op.from != op.to { RenameKeeps(db, op.from, op.to, op.name, op.spine, op.toSpine); }
  }

  lemma TagStepIds(db: Db, op: Op, id: TagId)
    requires db.Sound() && WellFormed(db, op) && id in db.tags
    requires op.MakeTag? || op.AddRelation? || op.Look? || op.DropRelation?
    ensures id in Apply(db, op).tags && Apply(db, op).tags[id] == db.tags[id]
  {
    if op.MakeTag? { db.CreateKeeps(op.tag); }
    if op.AddRelation? { ReadyKeepsRows(db, op.t1, op.t2); }
  }

  /** Every operation accounts for the ids of all tags. */
  lemma StepIds(db: Db, op: Op, id: TagId)
    requires db.Sound() && WellFormed(db, op) && id in db.tags
    ensures RowKept(db, op, id)
  {
    match op
    case RemoveTags(spine) => DeletedTags(db, spine, id);
    case RenameFlatTag(_, _, _) => RenamedRows(db, op);
    case MakeTag(_) => TagStepIds(db, op, id);
    case AddRelation(_, _, _) => TagStepIds(db, op, id);
    case Look(_, _) => TagStepIds(db, op, id);
    case DropRelation(_, _, _) => TagStepIds(db, op, id);
    case RenameObject(_, _, _, _, _, _) => RenameObjectStepIds(db, op, id);
    case _ => ObjectStepIds(db, op, id);
  }

  // ----- objects -----

  /** The row of an object after a step: a rename on disk that succeeds names it, a checksum is stored. */
  function RowAfter(db: Db, op: Op, i: Inode): Object {
    if i !in db.objects then Object(if op.CreateObject? || op.LinkObject? then op.name else "", "")
    else
      var row := db.objects[i];
      match op
      case RenameObject(from, to, name, _, _, commit) => if commit && from != to && i == from then Object(name, row.checksum) else row
      case Deduplicate(inode, hex, _) => if i == inode then Object(row.name, hex) else row
      case _ => row
  }

  lemma {:induction false} TaggedAllObjects(db: Db, spine: seq<Tag>, inode: Inode)
    ensures db.TaggedAll(spine, inode).objects == db.objects
    decreases |spine|
  {
    if spine != [] {
      TaggedAllObjects(db.Tagged(spine[0], inode), spine[1..], inode);
    }
  }

  lemma {:induction false} UntaggedAllObjects(db: Db, spine: seq<Tag>, inode: Inode)
    ensures db.UntaggedAll(spine, inode).objects == db.objects
    decreases |spine|
  {
    if spine != [] {
      UntaggedAllObjects(db.Untagged(spine[0], inode), spine[1..], inode);
    }
  }

  lemma ObjectStepNames(db: Db, op: Op, i: Inode)
    requires db.Sound() && WellFormed(db, op) && i in Apply(db, op).objects
    requires op.CreateObject? || op.LinkObject? || op.UnlinkObject? || op.UnlinkFromAll? || op.Deduplicate?
    ensures Apply(db, op).objects[i] == RowAfter(db, op, i)
  {
    match op
    case CreateObject(name, found, spine, _) => TaggedAllObjects(Inserted(db, name, found), spine, CreateInode(db, found));
    case LinkObject(name, spine) => TaggedAllObjects(Inserted(db, name, 0), spine, CreateInode(db, 0));
    case UnlinkObject(inode, spine, _) => UntaggedAllObjects(db, spine, inode);
    case _ =>
  }

  lemma RenameObjectNames(db: Db, op: Op, i: Inode)
    requires op.RenameObject? && i in Apply(db, op).objects
    ensures i in db.objects && Apply(db, op).objects[i] == RowAfter(db, op, i)
  {
    UntaggedAllObjects(Named(db, op.from, op.name), op.spine, op.from);
    TaggedAllObjects(Named(db, op.from, op.name).UntaggedAll(op.spine, op.from), op.toSpine, op.from);
  }

  /** Every operation accounts for the names and checksums of all objects; new objects get the next inode. */
  lemma StepNames(db: Db, op: Op, i: Inode)
    requires db.Sound() && WellFormed(db, op) && i in Apply(db, op).objects
    ensures Apply(db, op).objects[i] == RowAfter(db, op, i)
    ensures i !in db.objects ==> i == db.nextInode && (op.CreateObject? || op.LinkObject?)
  {
    StepObjects(db, op, i);
    match op
    case MakeTag(_) => Archive.OtherObjects(db, op);
    case RemoveTags(_) => Archive.OtherObjects(db, op);
    case Look(_, _) => Archive.OtherObjects(db, op);
    case RenameFlatTag(_, _, _) => Archive.OtherObjects(db, op);
    case AddRelation(_, _, _) => Archive.OtherObjects(db, op);
    case DropRelation(_, _, _) => Archive.OtherObjects(db, op);
    case RenameObject(_, _, _, _, _, _) => RenameObjectNames(db, op, i);
    case _ => ObjectStepNames(db, op, i);
  }

  // ----- names over runs -----

  /** The step gives the object this name. */
  ghost predicate Names(db: Db, op: Op, i: Inode, name: string) {
    || (Brings(db, op, i) && i !in db.objects && name == op.name)
    || (op.RenameObject? && op.commit && op.from != op.to && i == op.from && name == op.name)
  }

  ghost predicate NamedAt(db: Db, ops: seq<Op>, i: Inode, name: string, k: nat)
    requires k < |ops|
  {
    Names(After(db, ops[..k]), ops[k], i, name)
  }

  ghost predicate NamedSince(db: Db, ops: seq<Op>, i: Inode, k: nat) {
    exists l, name :: k <= l < |ops| && NamedAt(db, ops, i, name, l)
  }

  /** The last step of the run that names the object gives it this name. */
  ghost predicate LastNamed(db: Db, ops: seq<Op>, i: Inode, name: string) {
    exists k :: 0 <= k < |ops| && NamedAt(db, ops, i, name, k) && !NamedSince(db, ops, i, k + 1)
  }

  lemma StepName(db: Db, op: Op, i: Inode)
    requires db.Sound() && WellFormed(db, op) && i in Apply(db, op).objects
    ensures var name := Apply(db, op).objects[i].name;
      Names(db, op, i, name) || (i in db.objects && db.objects[i].name == name && forall n :: !Names(db, op, i, n))
  {
    StepNames(db, op, i);
    StepObjects(db, op, i);
  }

  lemma ShiftNamed(db: Db, ops: seq<Op>, i: Inode, name: string, k: nat)
    requires k + 1 < |ops|
    ensures NamedAt(db, ops, i, name, k + 1) <==> NamedAt(Apply(db, ops[0]), ops[1..], i, name, k)
  {
    AfterFirst(db, ops, k);
  }

  lemma ShiftNamedSince(db: Db, ops: seq<Op>, i: Inode, k: nat)
    requires k + 1 <= |ops|
    ensures NamedSince(db, ops, i, k + 1) <==> NamedSince(Apply(db, ops[0]), ops[1..], i, k)
  {
    var next, rest := Apply(db, ops[0]), ops[1..];
    if l: nat, name :| k + 1 <= l < |ops| && NamedAt(db, ops, i, name, l) {
      ShiftNamed(db, ops, i, name, l - 1);
      assert NamedAt(next, rest, i, name, l - 1);
    }
    if l: nat, name :| k <= l < |rest| && NamedAt(next, rest, i, name, l) {
      ShiftNamed(db, ops, i, name, l);
      assert NamedAt(db, ops, i, name, l + 1);
    }
  }

  lemma ShiftLastNamed(db: Db, ops: seq<Op>, i: Inode, name: string)
    requires ops != [] && LastNamed(Apply(db, ops[0]), ops[1..], i, name)
    ensures LastNamed(db, ops, i, name)
  {
    var next, rest := Apply(db, ops[0]), ops[1..];
    var k: nat :| k < |rest| && NamedAt(next, rest, i, name, k) && !NamedSince(next, rest, i, k + 1);
    ShiftNamed(db, ops, i, name, k);
    ShiftNamedSince(db, ops, i, k + 1);
    assert NamedAt(db, ops, i, name, k + 1) && !NamedSince(db, ops, i, k + 1 + 1);
  }

  lemma SinceFirst(db: Db, ops: seq<Op>, i: Inode)
    requires ops != []
    ensures NamedSince(db, ops, i, 0) <==> (exists n :: NamedAt(db, ops, i, n, 0)) || NamedSince(db, ops, i, 1)
  {
    if l: nat, n :| 0 <= l < |ops| && NamedAt(db, ops, i, n, l) {
      assert l == 0 || (1 <= l && NamedAt(db, ops, i, n, l));
    }
  }

  /** After any run an object is called what the last step that named it said, or what it was called before. */
  lemma {:induction false} RunNames(db: Db, ops: seq<Op>, i: Inode)
    requires db.Sound() && IsRun(db, ops) && i in After(db, ops).objects
    ensures var name := After(db, ops).objects[i].name;
      LastNamed(db, ops, i, name) || (i in db.objects && db.objects[i].name == name && !NamedSince(db, ops, i, 0))
    decreases |ops|
  {
    if ops != [] {
      var next, rest := Apply(db, ops[0]), ops[1..];
      StepSoundIff(db, ops[0]);
      RunNames(next, rest, i);
      var name := After(db, ops).objects[i].name;
      if LastNamed(next, rest, i, name) {
        ShiftLastNamed(db, ops, i, name);
      } else {
        StepName(db, ops[0], i);
        ShiftNamedSince(db, ops, i, 0);
        assert After(db, ops[..0]) == db;
        assert forall n :: NamedAt(db, ops, i, n, 0) <==> Names(db, ops[0], i, n);
        if Names(db, ops[0], i, name) {
          assert NamedAt(db, ops, i, name, 0) && !NamedSince(db, ops, i, 0 + 1);
        } else {
          SinceFirst(db, ops, i);
        }
      }
    }
  }

  // ----- numbering -----

  /** Every operation takes the next inode if it makes an object, and none otherwise. */
  lemma StepNumbers(db: Db, op: Op)
    requires db.Sound() && WellFormed(db, op)
    ensures Apply(db, op).nextInode == db.nextInode +
      if op.LinkObject? || (op.CreateObject? && op.commit && op.found == 0) then 1 else 0
  {
    match op
    case RemoveTags(spine) => db.DeleteAllKeeps(spine);
    case CreateObject(name, found, spine, _) => CreateKeeps(db, name, found, spine);
    case LinkObject(name, spine) => CreateKeeps(db, name, 0, spine);
    case UnlinkObject(inode, spine, _) => db.UntagAllKeeps(spine, inode);
    case RenameObject(from, to, name, spine, toSpine, _) =>
      if from != to { RenameKeeps(db, from, to, name, spine, toSpine); }
    case _ => TagStepNumbers(db, op);
  }

  lemma TagStepNumbers(db: Db, op: Op)
    requires op.MakeTag? || op.Look? || op.UnlinkFromAll? || op.RenameFlatTag? || op.AddRelation? || op.DropRelation? || op.Deduplicate?
    ensures Apply(db, op).nextInode == db.nextInode
  {
  }

  // ----- the cache -----

  /** The tags whose ids an operation leaves in the cache, be it rolled back or not. */
  ghost predicate Cached(db: Db, op: Op, t: Tag) {
    var before := CacheKey(t) in db.cache;
    match op
    case RemoveTags(spine) => before && t !in spine
    case Look(q, row) => before || (t == q.AsTag() && db.HasRow(t))
    case CreateObject(_, _, spine, _) => before || t in spine
    case LinkObject(_, spine) => before || t in spine
    case UnlinkObject(_, spine, _) => before || (t in spine && db.HasRow(t))
    case RenameObject(from, to, _, spine, toSpine, _) =>
      before || (from != to && ((t in spine && db.HasRow(t)) || t in toSpine))
    case RenameFlatTag(source, triple, _) => before && t != if triple.Some? then triple.value else source
    case AddRelation(t1, _, t2) => before || (t == t1 && db.HasRow(t)) || t == t2
    case DropRelation(t1, _, t2) =>
      before || (IsFlat(t2) && db.HasRow(t) && (t == t2 || (t == t1 && IsFlat(t1))))
    case _ => before
  }

  lemma FetchCache(db: Db, u: Tag, t: Tag)
    requires db.Consistent() && Regular(u) && Regular(t)
    ensures CacheKey(t) in db.AfterFetch(u).cache <==> CacheKey(t) in db.cache || (t == u && db.HasRow(t))
  {
    db.FetchedIsIdOf(u);
    if CacheKey(t) == CacheKey(u) { CacheKeyInjective(t, u); }
  }

  lemma {:induction false} UntaggedAllCache(db: Db, spine: seq<Tag>, inode: Inode, t: Tag)
    requires db.Consistent() && AllRegular(spine) && Regular(t)
    ensures CacheKey(t) in db.UntaggedAll(spine, inode).cache <==> CacheKey(t) in db.cache || (t in spine && db.HasRow(t))
    decreases |spine|
  {
    if spine != [] {
      var next := db.Untagged(spine[0], inode);
      FetchCache(db, spine[0], t);
      db.UntagKeeps(spine[0], inode);
      SameTagRows(db, next, t);
      UntaggedAllCache(next, spine[1..], inode, t);
    }
  }

  lemma TaggedAllCache(db: Db, spine: seq<Tag>, inode: Inode, t: Tag)
    requires db.Consistent() && AllRegular(spine) && Regular(t)
    ensures CacheKey(t) in db.TaggedAll(spine, inode).cache <==> CacheKey(t) in db.cache || t in spine
  {
    db.TagAllKeeps(spine, inode);
    if u :| u in spine && CacheKey(u) == CacheKey(t) { CacheKeyInjective(t, u); }
    if t in spine { assert t in Elements(spine); }
  }

  lemma {:induction false} DeletedAllCache(db: Db, spine: seq<Tag>, t: Tag)
    requires Regular(t)
    ensures CacheKey(t) in db.DeletedAll(spine).cache <==> CacheKey(t) in db.cache && t !in spine
    decreases |spine|
  {
    if spine != [] {
      if CacheKey(t) == CacheKey(spine[0]) { CacheKeyInjective(t, spine[0]); }
      DeletedAllCache(db.Deleted(spine[0]), spine[1..], t);
    }
  }

  lemma RenameObjectCache(db: Db, op: Op, t: Tag)
    requires db.Sound() && WellFormed(db, op) && Regular(t) && op.RenameObject?
    ensures CacheKey(t) in Apply(db, op).cache <==> Cached(db, op, t)
  {
    if op.from != op.to {
      var named := Named(db, op.from, op.name);
      RenameKeeps(db, op.from, op.to, op.name, op.spine, op.toSpine);
      SameTagRows(db, named, t);
      UntaggedAllCache(named, op.spine, op.from, t);
      TaggedAllCache(named.UntaggedAll(op.spine, op.from), op.toSpine, op.from, t);
    }
  }

  lemma CreatedCache(db: Db, name: string, found: Inode, spine: seq<Tag>, t: Tag)
    requires db.Sound() && AllRegular(spine) && Regular(t) && (found == 0 || found in db.objects)
    ensures CacheKey(t) in Create(db, name, found, spine).cache <==> CacheKey(t) in db.cache || t in spine
  {
    CreateKeeps(db, name, found, spine);
    TaggedAllCache(Inserted(db, name, found), spine, CreateInode(db, found), t);
  }

  lemma AddRelationCache(db: Db, op: Op, t: Tag)
    requires db.Sound() && WellFormed(db, op) && Regular(t) && op.AddRelation?
    ensures CacheKey(t) in Apply(db, op).cache <==> Cached(db, op, t)
  {
    FetchSound(db, op.t1);
    FetchCache(db, op.t1, t);
    ProvidedCache(db.AfterFetch(op.t1), op.t2, t);
    assert RelateReady(db, op.t1, op.t2) == Provided(db.AfterFetch(op.t1), op.t2);
    assert Apply(db, op).cache == RelateReady(db, op.t1, op.t2).cache;
  }

  lemma ProvidedCache(db: Db, u: Tag, t: Tag)
    requires db.Sound() && Regular(u) && Regular(t)
    ensures CacheKey(t) in Provided(db, u).cache <==> CacheKey(t) in db.cache || t == u
  {
    db.FetchedIsIdOf(u);
    db.CreateKeeps(u);
    var middle := if db.Fetched(u) != 0 then db else db.Created(u);
    assert middle.HasRow(u) && middle.cache == db.cache;
    FetchCache(middle, u, t);
  }

  lemma DropRelationCache(db: Db, op: Op, t: Tag)
    requires db.Sound() && WellFormed(db, op) && Regular(t) && op.DropRelation?
    ensures CacheKey(t) in Apply(db, op).cache <==> Cached(db, op, t)
  {
    FetchSound(db, op.t1);
    FetchCache(db, op.t1, t);
    FetchCache(db, op.t2, t);
    FetchCache(db.AfterFetch(op.t1), op.t2, t);
  }

  lemma LookCache(db: Db, op: Op, t: Tag)
    requires db.Sound() && WellFormed(db, op) && Regular(t) && op.Look?
    ensures CacheKey(t) in Apply(db, op).cache <==> Cached(db, op, t)
  {
    if CacheKey(t) == CacheKey(op.query.AsTag()) {
      CacheKeyInjective(t, op.query.AsTag());
      CachedLookUpIsPlain(db, op.query, op.row);
    }
  }

  /** Every operation accounts for what is cached about flat tags and complete triple tags. */
  lemma StepCache(db: Db, op: Op, t: Tag)
    requires db.Sound() && WellFormed(db, op) && Regular(t)
    ensures CacheKey(t) in Apply(db, op).cache <==> Cached(db, op, t)
  {
    match op
    case RemoveTags(spine) => DeletedAllCache(db, spine, t);
    case Look(_, _) => LookCache(db, op, t);
    case CreateObject(name, found, spine, _) => CreatedCache(db, name, found, spine, t);
    case LinkObject(name, spine) => CreatedCache(db, name, 0, spine, t);
    case UnlinkObject(inode, spine, _) => UntaggedAllCache(db, spine, inode, t);
    case RenameObject(_, _, _, _, _, _) => RenameObjectCache(db, op, t);
    case RenameFlatTag(source, triple, _) =>
      var dropped := if triple.Some? then triple.value else Tag(source.name, "", "");
      if CacheKey(t) == CacheKey(dropped) { CacheKeyInjective(t, dropped); }
    case AddRelation(_, _, _) => AddRelationCache(db, op, t);
    case DropRelation(_, _, _) => DropRelationCache(db, op, t);
    case _ =>
  }
}

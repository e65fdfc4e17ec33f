/**
 Tables and archive together: what the calls on disk, made within the transaction of an operation
 (src/fuse_operations/mknod.c:61, unlink.c:85-89, rename.c:94), allow to be committed, and what the two
 calls whose failure undoes nothing (link.c:78, src/path_resolution.c:1641-1642) leave behind.  The archive
 is the set of inodes whose files it holds.
 */
module Archive {
  import opened Schema
  import opened TagKey
  import opened Tables
  import opened Runs
  import Deduplication

  /** An operation, and whether the call on disk went well that no roll-back depends on. */
  datatype Step = Step(op: Op, diskOk: bool)

  ghost predicate Merges(db: Db, inode: Inode, hex: string) {
    Deduplication.MainInode(Deduplication.Stamped(db, inode, hex), hex) !in {0, inode}
  }

  /** What is committed has succeeded on disk: a file that is renamed, removed or read is there. */
  ghost predicate DiskAgrees(db: Db, archive: set<Inode>, op: Op) {
    match op
    case UnlinkObject(inode, spine, commit) => commit && inode !in Unlink(db, inode, spine).objects ==> inode in archive
    case UnlinkFromAll(inode, commit) => commit ==> inode in archive
    case RenameObject(from, to, _, _, _, commit) => commit && from != to ==> from in archive
    case Deduplicate(inode, _, _) => inode in archive
    case _ => true
  }

  ghost function ArchiveAfter(db: Db, archive: set<Inode>, step: Step): set<Inode> {
    match step.op
    case CreateObject(_, found, _, commit) => if commit then archive + {CreateInode(db, found)} else archive
    case LinkObject(_, _) => if step.diskOk then archive + {db.nextInode} else archive
    case UnlinkObject(inode, spine, commit) =>
      if commit && inode !in Unlink(db, inode, spine).objects then archive - {inode} else archive
    case UnlinkFromAll(inode, commit) => if commit then archive - {inode} else archive
    case Deduplicate(inode, hex, _) => if Merges(db, inode, hex) && step.diskOk then archive - {inode} else archive
    case _ => archive
  }

  /** A file whose object is gone. */
  ghost predicate LeavesStray(db: Db, step: Step) {
    step.op.Deduplicate? && Merges(db, step.op.inode, step.op.hex) && !step.diskOk
  }

  /** An object whose file was never made. */
  predicate LeavesHusk(step: Step) {
    step.op.LinkObject? && !step.diskOk
  }

  /** Every object has its file, and every file its object. */
  ghost predicate Tied(db: Db, archive: set<Inode>) {
    archive == db.objects.Keys
  }

  ghost predicate Possible(db: Db, archive: set<Inode>, op: Op) {
    WellFormed(db, op) && DiskAgrees(db, archive, op)
  }

  /** Which objects there are after an operation. */
  ghost function ObjectsAfter(db: Db, op: Op): set<Inode> {
    match op
    case CreateObject(_, found, _, commit) => if commit then db.objects.Keys + {CreateInode(db, found)} else db.objects.Keys
    case LinkObject(_, _) => db.objects.Keys + {db.nextInode}
    case UnlinkObject(inode, spine, commit) =>
      if commit && inode !in Unlink(db, inode, spine).objects then db.objects.Keys - {inode} else db.objects.Keys
    case UnlinkFromAll(inode, commit) => if commit then db.objects.Keys - {inode} else db.objects.Keys
    case Deduplicate(inode, hex, _) => if Merges(db, inode, hex) then db.objects.Keys - {inode} else db.objects.Keys
    case _ => db.objects.Keys
  }

  lemma CreatedObjects(db: Db, name: string, found: Inode, spine: seq<Tag>)
    requires db.Sound() && AllRegular(spine) && (found == 0 || found in db.objects)
    ensures Create(db, name, found, spine).objects.Keys == db.objects.Keys + {CreateInode(db, found)}
  {
    CreateKeeps(db, name, found, spine);
  }

  lemma UnlinkedObjects(db: Db, inode: Inode, spine: seq<Tag>)
    requires db.Sound() && AllRegular(spine)
    ensures var objects := Unlink(db, inode, spine).objects.Keys;
      objects == if inode !in objects then db.objects.Keys - {inode} else db.objects.Keys
  {
    UnlinkKeeps(db, inode, spine);
  }

  lemma RenamedObjects(db: Db, op: Op)
    requires db.Sound() && WellFormed(db, op) && op.RenameObject?
    ensures Rename(db, op.from, op.to, op.name, op.spine, op.toSpine).objects.Keys == db.objects.Keys
  {
    if op.from != op.to {
      RenameKeeps(db, op.from, op.to, op.name, op.spine, op.toSpine);
      assert Named(db, op.from, op.name).objects.Keys == db.objects.Keys;
    }
  }

  lemma OtherObjects(db: Db, op: Op)
    requires db.Sound() && WellFormed(db, op)
    requires op.MakeTag? || op.RemoveTags? || op.Look? || op.RenameFlatTag? || op.AddRelation? || op.DropRelation?
    ensures Apply(db, op).objects == db.objects
  {
    match op
    case RemoveTags(spine) => db.DeleteAllKeeps(spine);
    case AddRelation(t1, _, t2) => RelateReadyKeeps(db, t1, t2);
    case _ =>
  }

  lemma ObjectsAfterIs(db: Db, op: Op)
    requires db.Sound() && WellFormed(db, op)
    ensures Apply(db, op).objects.Keys == ObjectsAfter(db, op)
  {
    match op
    case CreateObject(name, found, spine, _) => CreatedObjects(db, name, found, spine);
    case LinkObject(name, spine) => CreatedObjects(db, name, 0, spine);
    case UnlinkObject(inode, spine, _) => UnlinkedObjects(db, inode, spine);
    case RenameObject(_, _, _, _, _, _) => RenamedObjects(db, op);
    case UnlinkFromAll(_, _) =>
    case Deduplicate(_, _, _) =>
    case _ => OtherObjects(db, op);
  }

  /** A step after which some file lacks its object is a deduplication that could not remove it. */
  lemma NoStrayIff(db: Db, archive: set<Inode>, step: Step)
    requires db.Sound() && archive <= db.objects.Keys && Possible(db, archive, step.op)
    ensures ArchiveAfter(db, archive, step) <= Apply(db, step.op).objects.Keys <==> !LeavesStray(db, step)
  {
    ObjectsAfterIs(db, step.op);
  }

  /** A step after which some object lacks its file is a hard link that failed. */
  lemma NoHuskIff(db: Db, archive: set<Inode>, step: Step)
    requires db.Sound() && Tied(db, archive) && Possible(db, archive, step.op)
    ensures Apply(db, step.op).objects.Keys <= ArchiveAfter(db, archive, step) <==> !LeavesHusk(step)
  {
    ObjectsAfterIs(db, step.op);
  }

  /** Objects and files stay tied exactly when neither is left behind without the other. */
  lemma TiedIff(db: Db, archive: set<Inode>, step: Step)
    requires db.Sound() && Tied(db, archive) && Possible(db, archive, step.op)
    ensures Tied(Apply(db, step.op), ArchiveAfter(db, archive, step)) <==> !LeavesStray(db, step) && !LeavesHusk(step)
  {
    NoStrayIff(db, archive, step);
    NoHuskIff(db, archive, step);
  }

  /** The harmless steps once the disk has its say: no rename of a missing object is committed. */
  ghost predicate HarmlessOnDisk(db: Db, op: Op) {
    match op
    case RenameObject(from, to, _, _, toSpine, commit) => from == to || commit || forall t :: t in toSpine ==> db.HasRow(t)
    case _ => Harmless(db, op)
  }

  lemma StepSoundOnDiskIff(db: Db, archive: set<Inode>, op: Op)
    requires db.Sound() && archive <= db.objects.Keys && Possible(db, archive, op)
    ensures Apply(db, op).Sound() <==> HarmlessOnDisk(db, op)
  {
    StepSoundIff(db, op);
  }

  /** A committed rename of a file without an object. */
  function StrayRename(inode: Inode): Op {
    RenameObject(inode, 0, "name", [], [Tag("tag", "", "")], true)
  }

  lemma StrayRenameHarms(db: Db, archive: set<Inode>, inode: Inode)
    requires db.Sound() && inode in archive && inode !in db.objects && inode != 0
    ensures Possible(db, archive, StrayRename(inode)) && !Apply(db, StrayRename(inode)).Sound()
  {
    var t := Tag("tag", "", "");
    assert forall at: nat :: !OccursAt("tag", at) && !OccursAt("", at);
    assert Regular(t) && StrayRename(inode).toSpine == [t];
    StepSoundIff(db, StrayRename(inode));
  }

  /** Object renames are safe exactly as long as there is no stray file. */
  lemma RenamesSafeIffNoStray(db: Db, archive: set<Inode>)
    requires db.Sound() && 0 !in archive
    ensures archive <= db.objects.Keys <==>
      forall op: Op :: op.RenameObject? && op.commit && Possible(db, archive, op) ==> Apply(db, op).Sound()
  {
    if archive <= db.objects.Keys {
      forall op: Op | op.RenameObject? && op.commit && Possible(db, archive, op) ensures Apply(db, op).Sound() {
        StepSoundIff(db, op);
      }
    } else {
      var inode :| inode in archive && inode !in db.objects;
      StrayRenameHarms(db, archive, inode);
      assert StrayRename(inode).RenameObject?;
    }
  }

  // ----- runs -----

  ghost predicate IsRunOnDisk(db: Db, archive: set<Inode>, steps: seq<Step>)
    decreases |steps|
  {
    steps == [] || (
      && Possible(db, archive, steps[0].op) && HarmlessOnDisk(db, steps[0].op) && !LeavesStray(db, steps[0])
      && IsRunOnDisk(Apply(db, steps[0].op), ArchiveAfter(db, archive, steps[0]), steps[1..]))
  }

  ghost function AfterOnDisk(db: Db, archive: set<Inode>, steps: seq<Step>): (Db, set<Inode>)
    decreases |steps|
  {
    if steps == [] then (db, archive)
    else AfterOnDisk(Apply(db, steps[0].op), ArchiveAfter(db, archive, steps[0]), steps[1..])
  }

  predicate NoHusks(steps: seq<Step>) {
    forall k :: 0 <= k < |steps| ==> !LeavesHusk(steps[k])
  }

  lemma {:induction false} RunOnDiskKeeps(db: Db, archive: set<Inode>, steps: seq<Step>)
    requires db.Sound() && archive <= db.objects.Keys && IsRunOnDisk(db, archive, steps)
    ensures var (db', archive') := AfterOnDisk(db, archive, steps);
      && db'.Sound() && archive' <= db'.objects.Keys
      && (Tied(db, archive) && NoHusks(steps) ==> Tied(db', archive'))
    decreases |steps|
  {
    if steps != [] {
      StepSoundOnDiskIff(db, archive, steps[0].op);
      NoStrayIff(db, archive, steps[0]);
      if Tied(db, archive) { TiedIff(db, archive, steps[0]); }
      RunOnDiskKeeps(Apply(db, steps[0].op), ArchiveAfter(db, archive, steps[0]), steps[1..]);
    }
  }

  /**
   From nothing, whatever the interleaving: sound tables, no file without its object, and no object without
   its file unless a hard link failed.
   */
  lemma EveryRunOnDisk(steps: seq<Step>)
    requires IsRunOnDisk(EMPTY, {}, steps)
    ensures var (db, archive) := AfterOnDisk(EMPTY, {}, steps);
      db.Sound() && archive <= db.objects.Keys && (NoHusks(steps) ==> Tied(db, archive))
  {
    assert EMPTY.Sound() && Tied(EMPTY, {});
    RunOnDiskKeeps(EMPTY, {}, steps);
  }

  /** A hard link to a path that names no inode: there is no file to link, and the new object stays without one. */
  lemma FailedLinkLeavesHusk(db: Db, archive: set<Inode>, name: string, spine: seq<Tag>)
    requires db.Sound() && Tied(db, archive) && AllRegular(spine)
    ensures var step := Step(LinkObject(name, spine), false);
      && Possible(db, archive, step.op) && Apply(db, step.op).Sound()
      && db.nextInode in Apply(db, step.op).objects && db.nextInode !in ArchiveAfter(db, archive, step)
  {
    StepSoundIff(db, LinkObject(name, spine));
    ObjectsAfterIs(db, LinkObject(name, spine));
  }
}

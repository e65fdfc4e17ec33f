/**
 The file operations that change the tables (unlink.c, rmdir.c, rename.c, mkdir.c and the creation
 in utils.c), and what every run of them keeps.
 */
module Runs {
  import opened Schema
  import opened TagKey
  import opened Tables
  import Deduplication

  // ----- lookups through the cache -----

  /** The arguments of `tagsistant_sql_get_tag_id`; a parser leaves out key and value of a flat tag. */
  datatype Query = Query(name: string, key: Option<string>, value: Option<string>) {
    function AsTag(): Tag {
      Tag(name, if key.Some? then key.value else "", if value.Some? then value.value else "")
    }

    predicate Matches(row: Tag) {
      if value.Some? then row == AsTag()
      else if key.Some? then row.name == name && row.key == key.value
      else row.name == name
    }
  }

  /** An id that the SQL query may return: `limit 1` leaves open which of several rows it is. */
  ghost predicate Answers(db: Db, q: Query, id: TagId) {
    if exists i :: i in db.tags && q.Matches(db.tags[i]) then id in db.tags && q.Matches(db.tags[id]) else id == 0
  }

  /** `tagsistant_sql_get_tag_id`, where `row` is what the SQL query would return. */
  ghost function LookUp(db: Db, q: Query, row: TagId): TagId {
    var key := CacheKey(q.AsTag());
    if key in db.cache && db.cache[key] != 0 then db.cache[key] else row
  }

  ghost function AfterLookUp(db: Db, q: Query, row: TagId): Db {
    var id := LookUp(db, q, row);
    if id == 0 then db else db.(cache := db.cache[CacheKey(q.AsTag()) := id])
  }

  /** By name alone, a flat tag is found exactly like by all three columns. */
  lemma RegularMatchesItself(db: Db, q: Query, id: TagId)
    requires db.Keyed() && Regular(q.AsTag()) && id in db.tags && q.Matches(db.tags[id])
    ensures db.tags[id] == q.AsTag()
  {
    assert WellNamed(db.tags[id]);
  }

  /** The cache is invisible: for a flat tag or a complete triple the cached lookup is the plain one. */
  lemma CachedLookUpIsPlain(db: Db, q: Query, row: TagId)
    requires db.Keyed() && db.Coherent() && Regular(q.AsTag()) && Answers(db, q, row)
    ensures Answers(db, q, LookUp(db, q, row)) && LookUp(db, q, row) == row == db.IdOf(q.AsTag())
  {
    var t := q.AsTag();
    assert db.CachedRight(t);
    if db.HasRow(t) {
      assert q.Matches(db.tags[db.IdOf(t)]);
      RegularMatchesItself(db, q, row);
      db.IdIs(row);
    } else {
      forall i | i in db.tags && q.Matches(db.tags[i]) ensures false {
        RegularMatchesItself(db, q, i);
      }
    }
  }

  lemma LookUpKeeps(db: Db, q: Query, row: TagId)
    requires db.Consistent() && CleanTag(q.AsTag()) && Answers(db, q, row)
    ensures AfterLookUp(db, q, row).Consistent()
  {
    var t := q.AsTag();
    var db' := AfterLookUp(db, q, row);
    if Regular(t) { CachedLookUpIsPlain(db, q, row); }
    forall u | Regular(u) ensures db'.CachedRight(u) {
      assert db.CachedRight(u);
      if CacheKey(u) == CacheKey(t) { CacheKeyInjective(u, t); }
      if db.HasRow(u) { db.SameId(db', u); }
    }
  }

  // ----- file operations -----

  /** `tagsistant_inner_create_and_tag_object`; `found` is what the lookup by name returned, or 0. */
  ghost function CreateInode(db: Db, found: Inode): Inode {
    if found != 0 then found else db.nextInode
  }

  function Inserted(db: Db, name: string, found: Inode): Db {
    if found != 0 then db
    else db.(objects := db.objects[db.nextInode := Object(name, "")], nextInode := db.nextInode + 1)
  }

  ghost function Create(db: Db, name: string, found: Inode, spine: seq<Tag>): Db {
    Inserted(db, name, found).TaggedAll(spine, CreateInode(db, found))
  }

  /** `unlink` and `rmdir` of an object: untag it, and delete it once no tag is left. */
  ghost function Unlink(db: Db, inode: Inode, spine: seq<Tag>): Db {
    var untagged := db.UntaggedAll(spine, inode);
    if untagged.IsTagged(inode) then untagged else untagged.(objects := untagged.objects - {inode})
  }

  /** `unlink` through the meta-tag ALL. */
  ghost function UnlinkAll(db: Db, inode: Inode): Db {
    db.(objects := db.objects - {inode}, tagging := set p | p in db.tagging && p.0 != inode)
  }

  /** `rename` of an object between two paths that resolve to `from` and `to`. */
  ghost function Rename(db: Db, from: Inode, to: Inode, name: string, fromSpine: seq<Tag>, toSpine: seq<Tag>): Db {
    if from == to then db
    else
      var named := if from in db.objects then db.(objects := db.objects[from := db.objects[from].(name := name)]) else db;
      named.UntaggedAll(fromSpine, from).TaggedAll(toSpine, from)
  }

  /** `update tags set tagname = to where tagname = from`, row by row. */
  function Renamed(t: Tag, from: string, to: string): Tag {
    if t.name == from then t.(name := to) else t
  }

  /** The statement fails as a whole when two rows would become equal. */
  ghost predicate RenameClashes(db: Db, from: string, to: string) {
    exists i, j :: i in db.tags && j in db.tags && i != j && Renamed(db.tags[i], from, to) == Renamed(db.tags[j], from, to)
  }

  /**
   `rename` of a tag.  When the path holds a triple tag before the last tag, `from_qtree->value` is
   set and the cache entry dropped is that of the triple, not that of the renamed tag.
   */
  ghost function RenameTag(db: Db, from: string, triple: Option<Tag>, to: string): Db {
    var key := CacheKey(if triple.Some? then triple.value else Tag(from, "", ""));
    db.(
      tags := if RenameClashes(db, from, to) then db.tags else (map i | i in db.tags :: Renamed(db.tags[i], from, to)),
      cache := WithoutEntry(db.cache, key))
  }

  predicate IsPrefix(s: string, text: string) {
    s <= text
  }

  predicate Occurs(s: string, text: string) {
    IsPrefix(s, text) || (text != "" && Occurs(s, text[1..]))
  }

  predicate IsSuffix(s: string, text: string) {
    |s| <= |text| && text[|text| - |s|..] == s
  }

  /**
   What the parser lets through as a relation: `^includes|excludes|is_equivalent$`, where each anchor
   belongs to one alternative only and the last one passes over a final newline.
   */
  predicate LetThrough(relation: string) {
    || IsPrefix("includes", relation) || Occurs("excludes", relation)
    || IsSuffix("is_equivalent", relation) || IsSuffix("is_equivalent\n", relation)
  }

  lemma {:induction false} OccursIff(s: string, text: string)
    ensures Occurs(s, text) <==> exists x, y :: text == x + (s + y)
  {
    if s <= text {
      assert text == "" + (s + text[|s|..]);
    } else if text != "" {
      OccursIff(s, text[1..]);
      if x, y :| text[1..] == x + (s + y) {
        assert text == [text[0]] + x + (s + y);
      }
      if x, y :| text == x + (s + y) {
        assert x == "" ==> text == s + y;
        assert text[1..] == x[1..] + (s + y);
      }
    } else {
      assert forall x, y :: text == x + (s + y) ==> s == "";
    }
  }

  /** The texts that get through, written out. */
  lemma LetThroughIff(relation: string)
    ensures LetThrough(relation) <==>
      || (exists x :: relation == "includes" + x)
      || (exists x, y :: relation == x + ("excludes" + y))
      || (exists x :: relation == x + "is_equivalent" || relation == x + "is_equivalent\n")
  {
    OccursIff("excludes", relation);
    PrefixIff("includes", relation);
    SuffixIff("is_equivalent", relation);
    SuffixIff("is_equivalent\n", relation);
  }

  lemma PrefixIff(s: string, text: string)
    ensures IsPrefix(s, text) <==> exists x :: text == s + x
  {
    if IsPrefix(s, text) { assert text == s + text[|s|..]; }
  }

  lemma SuffixIff(s: string, text: string)
    ensures IsSuffix(s, text) <==> exists x :: text == x + s
  {
    if IsSuffix(s, text) { assert text == text[..|text| - |s|] + s; }
  }

  /** What `mkdir` and `rmdir` then take for one. */
  function KindOf(relation: string): Option<Kind> {
    if relation == "is_equivalent" then Some(IsEquivalent)
    else if relation == "includes" then Some(Includes)
    else if relation == "excludes" then Some(Excludes)
    else None
  }

  /** The parser lets every relation through, and more. */
  lemma LetThroughIsLoose(relation: string)
    ensures KindOf(relation).Some? ==> LetThrough(relation)
    ensures LetThrough("includesX") && KindOf("includesX").None?
  {
  }

  /** `mkdir` in `relations/`: the second tag is created when it is missing, the first is not. */
  ghost function RelateReady(db: Db, t1: Tag, t2: Tag): Db {
    var first := db.AfterFetch(t1);
    (if first.Fetched(t2) != 0 then first else first.Created(t2)).AfterFetch(t2)
  }

  ghost function Relate(db: Db, t1: Tag, kind: Kind, t2: Tag): Db {
    var ready := RelateReady(db, t1, t2);
    ready.(relations := ready.relations + [Relation(ready.Fetched(t1), kind, ready.Fetched(t2))])
  }

  function WithoutRow(rows: seq<Relation>, row: Relation): (left: seq<Relation>)
    ensures forall r :: r in left <==> r in rows && r != row
  {
    if rows == [] then [] else (if rows[0] == row then [] else [rows[0]]) + WithoutRow(rows[1..], row)
  }

  /**
   `rmdir` in `relations/`, which knows flat tags only: a triple tag on the right is refused at once, one on
   the left is looked for under no name, and a relation that is none leaves the table alone.
   */
  ghost function RemoveRelation(db: Db, t1: Tag, relation: string, t2: Tag): Db {
    if !IsFlat(t2) then db
    else if !IsFlat(t1) then db.AfterFetch(t2)
    else if KindOf(relation).None? then db.AfterFetch(t1).AfterFetch(t2)
    else Unrelate(db, t1, KindOf(relation).value, t2)
  }

  ghost function Unrelate(db: Db, t1: Tag, kind: Kind, t2: Tag): Db {
    var ready := db.AfterFetch(t1).AfterFetch(t2);
    ready.(relations := WithoutRow(ready.relations, Relation(ready.Fetched(t1), kind, ready.Fetched(t2))))
  }

  /** The end of a transaction: a rollback restores the tables but not the cache. */
  ghost function Finish(before: Db, after: Db, commit: bool): Db {
    if commit then after else before.(cache := after.cache)
  }

  // ----- what each operation does to the tags of objects -----

  /** Tables that differ in their objects agree on everything about tags. */
  lemma SameTags(db: Db, db': Db)
    requires db.Consistent() && db'.tags == db.tags && db'.nextTag == db.nextTag
    requires db'.tagging == db.tagging && db'.relations == db.relations && db'.cache == db.cache
    requires (forall i :: i in db'.objects ==> 0 < i < db'.nextInode) && 0 < db'.nextInode
    ensures db'.Consistent()
    ensures forall t :: db'.HasRow(t) <==> db.HasRow(t)
    ensures forall i, t :: db'.Carries(i, t) <==> db.Carries(i, t)
  {
    forall t | Regular(t) ensures db'.CachedRight(t) {
      assert db.CachedRight(t);
      if db.HasRow(t) { db.SameId(db', t); }
    }
  }

  /** A new object carries exactly the spine tags; an object found by name gains them. */
  lemma CreateKeeps(db: Db, name: string, found: Inode, spine: seq<Tag>)
    requires db.Sound() && AllRegular(spine) && (found == 0 || found in db.objects)
    ensures var db', inode := Create(db, name, found, spine), CreateInode(db, found);
      db'.Sound() && inode in db'.objects && db'.GrownBy(Inserted(db, name, found), Elements(spine), inode)
    ensures Inserted(db, name, found).Consistent()
  {
    SameTags(db, Inserted(db, name, found));
    Inserted(db, name, found).TagAllKeeps(spine, CreateInode(db, found));
  }

  lemma CreateCarries(db: Db, name: string, found: Inode, spine: seq<Tag>, i: Inode, t: Tag)
    requires db.Sound() && AllRegular(spine) && (found == 0 || found in db.objects)
    ensures Create(db, name, found, spine).Carries(i, t) <==> db.Carries(i, t) || (i == CreateInode(db, found) && t in spine)
  {
    CreateKeeps(db, name, found, spine);
    SameTags(db, Inserted(db, name, found));
  }

  /** An object survives until its last tag goes, and is deleted by the very step that takes it. */
  lemma UnlinkKeeps(db: Db, inode: Inode, spine: seq<Tag>)
    requires db.Sound() && AllRegular(spine)
    ensures var db' := Unlink(db, inode, spine);
      && db'.Sound()
      && (inode in db'.objects <==> inode in db.objects && exists t :: db.Carries(inode, t) && t !in spine)
      && (forall i :: i in db'.objects <==> i in db.objects && (i == inode ==> inode in db'.objects))
      && (forall i, t :: db'.Carries(i, t) <==> db.Carries(i, t) && !(i == inode && t in spine))
  {
    var untagged := db.UntaggedAll(spine, inode);
    db.UntagAllKeeps(spine, inode);
    if untagged.IsTagged(inode) {
      var id :| (inode, id) in untagged.tagging;
      assert untagged.GoodId(id) && untagged.Carries(inode, untagged.tags[id]);
    } else {
      SameTags(untagged, Unlink(db, inode, spine));
    }
  }

  lemma UnlinkAllKeeps(db: Db, inode: Inode)
    requires db.Sound()
    ensures UnlinkAll(db, inode).Sound()
  {
    var db' := UnlinkAll(db, inode);
    forall t | Regular(t) ensures db'.CachedRight(t) {
      assert db.CachedRight(t);
      if db.HasRow(t) { db.SameId(db', t); }
    }
  }

  /** The object row after `update objects set objectname = ..`. */
  function Named(db: Db, inode: Inode, name: string): Db {
    if inode in db.objects then db.(objects := db.objects[inode := db.objects[inode].(name := name)]) else db
  }

  lemma RenameKeeps(db: Db, from: Inode, to: Inode, name: string, fromSpine: seq<Tag>, toSpine: seq<Tag>)
    requires db.Sound() && AllRegular(fromSpine) && AllRegular(toSpine) && from != to
    ensures var untagged, db' := Named(db, from, name).UntaggedAll(fromSpine, from), Rename(db, from, to, name, fromSpine, toSpine);
      && untagged.Consistent() && untagged.ShrunkBy(Named(db, from, name), Elements(fromSpine), from)
      && db'.Consistent() && db'.GrownBy(untagged, Elements(toSpine), from)
    ensures Named(db, from, name).Consistent()
  {
    SameTags(db, Named(db, from, name));
    Named(db, from, name).UntagAllKeeps(fromSpine, from);
    Named(db, from, name).UntaggedAll(fromSpine, from).TagAllKeeps(toSpine, from);
  }

  /** Renaming between different inodes: the old tags, minus the source path's, plus the destination path's. */
  lemma RenameCarries(db: Db, from: Inode, to: Inode, name: string, fromSpine: seq<Tag>, toSpine: seq<Tag>, i: Inode, t: Tag)
    requires db.Sound() && AllRegular(fromSpine) && AllRegular(toSpine) && from != to
    ensures Rename(db, from, to, name, fromSpine, toSpine).Carries(i, t) <==>
      if i == from then (db.Carries(from, t) && t !in fromSpine) || t in toSpine else db.Carries(i, t)
  {
    RenameKeeps(db, from, to, name, fromSpine, toSpine);
    SameTags(db, Named(db, from, name));
  }

  /** A rename that is carried through keeps integrity exactly when the source resolves, or tags nothing. */
  lemma RenameSoundIff(db: Db, from: Inode, to: Inode, name: string, fromSpine: seq<Tag>, toSpine: seq<Tag>)
    requires db.Sound() && AllRegular(fromSpine) && AllRegular(toSpine)
    ensures Rename(db, from, to, name, fromSpine, toSpine).Sound() <==> from == to || from in db.objects || toSpine == []
  {
    if from != to {
      RenameKeeps(db, from, to, name, fromSpine, toSpine);
      var db' := Rename(db, from, to, name, fromSpine, toSpine);
      if from !in db.objects && toSpine != [] {
        assert db'.Carries(from, toSpine[0]);
        var id :| (from, id) in db'.tagging;
        assert (from, id).0 !in db'.objects;
      }
    }
  }

  /**
   After a rollback the tables are back but the cache is not: it is still right exactly when the
   operation had created none of the tags it used.
   */
  lemma RollbackSoundIff(before: Db, after: Db, spine: set<Tag>)
    requires before.Sound() && after.Consistent() && forall t :: t in spine ==> Regular(t) && CacheKey(t) in after.cache
    requires forall t :: after.HasRow(t) <==> before.HasRow(t) || t in spine
    requires forall t :: before.HasRow(t) ==> after.IdOf(t) == before.IdOf(t)
    ensures Finish(before, after, false).Sound() <==> forall t :: t in spine ==> before.HasRow(t)
  {
    var back := Finish(before, after, false);
    assert forall t :: back.HasRow(t) <==> before.HasRow(t);
    if forall t :: t in spine ==> before.HasRow(t) {
      forall t | Regular(t) ensures back.CachedRight(t) {
        assert after.CachedRight(t);
        if before.HasRow(t) { before.SameId(back, t); }
      }
    } else {
      var t :| t in spine && !before.HasRow(t);
      assert !back.CachedRight(t);
    }
  }

  /** The rows that were there before tagging keep their ids. */
  lemma GrownKeepsIds(before: Db, after: Db, spine: set<Tag>, inode: Inode)
    requires before.Keyed() && after.Keyed() && after.GrownBy(before, spine, inode)
    ensures forall t :: before.HasRow(t) ==> after.IdOf(t) == before.IdOf(t)
  {
    forall t | before.HasRow(t) ensures after.IdOf(t) == before.IdOf(t) {
      before.SameId(after, t);
    }
  }

  lemma SameRowsSameIds(before: Db, after: Db)
    requires before.Keyed() && after.Keyed() && after.tags == before.tags
    ensures forall t :: after.HasRow(t) <==> before.HasRow(t)
    ensures forall t :: before.HasRow(t) ==> after.IdOf(t) == before.IdOf(t)
  {
    forall t | before.HasRow(t) ensures after.IdOf(t) == before.IdOf(t) {
      before.SameId(after, t);
    }
  }

  /** A rolled-back creation, as when `mknod` or `mkdir` fails on disk. */
  lemma FailedCreateSoundIff(db: Db, name: string, found: Inode, spine: seq<Tag>)
    requires db.Sound() && AllRegular(spine) && (found == 0 || found in db.objects)
    ensures Finish(db, Create(db, name, found, spine), false).Sound() <==> forall t :: t in spine ==> db.HasRow(t)
  {
    var inserted, after := Inserted(db, name, found), Create(db, name, found, spine);
    CreateKeeps(db, name, found, spine);
    SameRowsSameIds(db, inserted);
    GrownKeepsIds(inserted, after, Elements(spine), CreateInode(db, found));
    RollbackSoundIff(db, after, Elements(spine));
  }

  /** A rolled-back rename, as when `rename` fails on disk. */
  lemma FailedRenameSoundIff(db: Db, from: Inode, to: Inode, name: string, fromSpine: seq<Tag>, toSpine: seq<Tag>)
    requires db.Sound() && AllRegular(fromSpine) && AllRegular(toSpine) && from != to
    ensures Finish(db, Rename(db, from, to, name, fromSpine, toSpine), false).Sound()
      <==> forall t :: t in toSpine ==> db.HasRow(t)
  {
    var untagged := Named(db, from, name).UntaggedAll(fromSpine, from);
    var after := Rename(db, from, to, name, fromSpine, toSpine);
    RenameKeeps(db, from, to, name, fromSpine, toSpine);
    SameRowsSameIds(db, untagged);
    GrownKeepsIds(untagged, after, Elements(toSpine), from);
    RollbackSoundIff(db, after, Elements(toSpine));
  }

  /** A rolled-back `unlink` or `rmdir` creates no tag. */
  lemma FailedUnlinkSound(db: Db, inode: Inode, spine: seq<Tag>)
    requires db.Sound() && AllRegular(spine)
    ensures Finish(db, Unlink(db, inode, spine), false).Sound()
  {
    var after := Unlink(db, inode, spine);
    db.UntagAllKeeps(spine, inode);
    UnlinkKeeps(db, inode, spine);
    SameRowsSameIds(db, after);
    RollbackSoundIff(db, after, {});
  }

  // ----- renaming a tag -----

  /** What renaming a flat tag does to the rows. */
  lemma RenameTagRows(db: Db, from: string, triple: Option<Tag>, to: string)
    requires db.Keyed() && IsFlat(Tag(from, "", "")) && IsFlat(Tag(to, "", "")) && Clean(to)
    ensures var source, target, db' := Tag(from, "", ""), Tag(to, "", ""), RenameTag(db, from, triple, to);
      && db'.Keyed()
      && (RenameClashes(db, from, to) <==> from != to && db.HasRow(source) && db.HasRow(target))
      && (RenameClashes(db, from, to) || from == to ==> db'.tags == db.tags)
      && (!RenameClashes(db, from, to) ==> forall id :: id in db.tags ==>
            id in db'.tags && db'.tags[id] == if db.tags[id] == source then target else db.tags[id])
      && db'.tags.Keys == db.tags.Keys
  {
    var source, target, db' := Tag(from, "", ""), Tag(to, "", ""), RenameTag(db, from, triple, to);
    forall id | id in db.tags
      ensures Renamed(db.tags[id], from, to) == if db.tags[id] == source then target else db.tags[id]
      ensures WellNamed(Renamed(db.tags[id], from, to))
    {
      assert WellNamed(db.tags[id]);
    }
    if from != to && db.HasRow(source) && db.HasRow(target) {
      var i, j := db.IdOf(source), db.IdOf(target);
      assert Renamed(db.tags[i], from, to) == Renamed(db.tags[j], from, to);
    }
  }

  /** A tag other than the two names involved keeps its row and its id. */
  lemma RenameTagKeepsOthers(db: Db, from: string, triple: Option<Tag>, to: string, t: Tag)
    requires db.Keyed() && IsFlat(Tag(from, "", "")) && IsFlat(Tag(to, "", "")) && Clean(to)
    requires db.HasRow(t) && (t != Tag(from, "", "") || from == to || db.HasRow(Tag(to, "", "")))
    ensures var db' := RenameTag(db, from, triple, to); db'.HasRow(t) && db'.IdOf(t) == db.IdOf(t)
  {
    RenameTagRows(db, from, triple, to);
    db.SameId(RenameTag(db, from, triple, to), t);
  }

  /**
   A tag rename keeps the cache right exactly when the path holds no triple tag, or the renamed tag
   was not cached, or the table did not change.
   */
  lemma RenameTagSoundIff(db: Db, from: string, triple: Option<Tag>, to: string)
    requires db.Sound() && Regular(Tag(from, "", "")) && Regular(Tag(to, "", "")) && IsFlat(Tag(from, "", "")) && IsFlat(Tag(to, "", ""))
    requires triple.Some? ==> Regular(triple.value) && IsNamespace(triple.value.name)
    ensures RenameTag(db, from, triple, to).Sound() <==>
      triple.None? || CacheKey(Tag(from, "", "")) !in db.cache || from == to || db.HasRow(Tag(to, "", ""))
  {
    var source, target, db' := Tag(from, "", ""), Tag(to, "", ""), RenameTag(db, from, triple, to);
    var dropped := if triple.Some? then triple.value else source;
    RenameTagRows(db, from, triple, to);
    assert db.CachedRight(source);
    if triple.None? || CacheKey(source) !in db.cache || from == to || db.HasRow(target) {
      forall t | Regular(t) ensures db'.CachedRight(t) {
        assert db.CachedRight(t);
        if CacheKey(t) in db'.cache {
          RenameTagKeepsOthers(db, from, triple, to, t);
        }
      }
      forall id | db.GoodId(id) ensures db'.GoodId(id) {}
    } else {
      if CacheKey(source) == CacheKey(dropped) { CacheKeyInjective(source, dropped); }
      assert !db'.HasRow(source);
      assert !db'.CachedRight(source);
    }
  }

  // ----- relations -----

  /** A lookup leaves sound tables sound, and every row its id. */
  lemma FetchSound(db: Db, t: Tag)
    requires db.Sound() && CleanTag(t)
    ensures db.AfterFetch(t).Sound()
    ensures forall u :: db.AfterFetch(t).HasRow(u) <==> db.HasRow(u)
    ensures forall u :: db.HasRow(u) ==> db.AfterFetch(t).IdOf(u) == db.IdOf(u)
  {
    db.FetchKeeps(t);
    SameRowsSameIds(db, db.AfterFetch(t));
  }

  /** Looking a tag up, creating it if it is missing, and looking it up again. */
  ghost function Provided(db: Db, t: Tag): Db {
    (if db.Fetched(t) != 0 then db else db.Created(t)).AfterFetch(t)
  }

  lemma ProvidedKeeps(db: Db, t: Tag)
    requires db.Sound() && Regular(t)
    ensures var ready := Provided(db, t);
      && ready.Sound()
      && (forall u :: ready.HasRow(u) <==> db.HasRow(u) || u == t)
      && (forall u :: db.HasRow(u) ==> ready.IdOf(u) == db.IdOf(u))
      && CacheKey(t) in ready.cache
      && ready.relations == db.relations && ready.tagging == db.tagging && ready.objects == db.objects
  {
    db.FetchedIsIdOf(t);
    db.CreateKeeps(t);
    var middle := if db.Fetched(t) != 0 then db else db.Created(t);
    middle.FetchedIsIdOf(t);
    FetchSound(middle, t);
    forall u | db.HasRow(u) ensures middle.IdOf(u) == db.IdOf(u) {
      db.SameId(middle, u);
    }
  }

  lemma RelateReadyKeeps(db: Db, t1: Tag, t2: Tag)
    requires db.Sound() && Regular(t1) && Regular(t2)
    ensures var ready := RelateReady(db, t1, t2);
      && ready.Sound()
      && (forall t :: ready.HasRow(t) <==> db.HasRow(t) || t == t2)
      && (forall t :: db.HasRow(t) ==> ready.IdOf(t) == db.IdOf(t))
      && CacheKey(t2) in ready.cache
      && ready.relations == db.relations && ready.tagging == db.tagging && ready.objects == db.objects
  {
    FetchSound(db, t1);
    ProvidedKeeps(db.AfterFetch(t1), t2);
    assert RelateReady(db, t1, t2) == Provided(db.AfterFetch(t1), t2);
  }

  /** `mkdir` in `relations/` rolls back when the first tag does not exist or the relation is none. */
  ghost function MakeRelation(db: Db, t1: Tag, relation: string, t2: Tag): Db {
    if db.HasRow(t1) && KindOf(relation).Some? then Relate(db, t1, KindOf(relation).value, t2)
    else Finish(db, RelateReady(db, t1, t2), false)
  }

  lemma RelationsReplaced(db: Db, rows: seq<Relation>)
    requires db.Sound()
    requires forall r :: r in rows ==> db.GoodId(r.tag1) && db.GoodId(r.tag2)
    ensures db.(relations := rows).Sound()
  {
    var db' := db.(relations := rows);
    SameRowsSameIds(db, db');
    forall t | Regular(t) ensures db'.CachedRight(t) {
      assert db.CachedRight(t);
    }
    assert forall k :: 0 <= k < |rows| ==> rows[k] in rows;
  }

  lemma RelationsGood(db: Db, r: Relation)
    requires db.TagsExist() && r in db.relations
    ensures db.GoodId(r.tag1) && db.GoodId(r.tag2)
  {
    var k :| 0 <= k < |db.relations| && db.relations[k] == r;
  }

  /** Both ends of the row that a committed `mkdir` adds are the ids of its two tags. */
  lemma RelateKeeps(db: Db, t1: Tag, kind: Kind, t2: Tag)
    requires db.Sound() && Regular(t1) && Regular(t2) && db.HasRow(t1)
    ensures var db' := Relate(db, t1, kind, t2);
      db'.Sound() && db'.relations == db.relations + [Relation(db'.IdOf(t1), kind, db'.IdOf(t2))]
  {
    var ready, db' := RelateReady(db, t1, t2), Relate(db, t1, kind, t2);
    RelateReadyKeeps(db, t1, t2);
    ready.FetchedIsIdOf(t1);
    ready.FetchedIsIdOf(t2);
    assert ready.HasRow(t1) && ready.HasRow(t2);
    forall r | r in db'.relations ensures ready.GoodId(r.tag1) && ready.GoodId(r.tag2) {
      if r in ready.relations { RelationsGood(ready, r); }
    }
    RelationsReplaced(ready, db'.relations);
    SameRowsSameIds(ready, db');
  }

  /** The roll-back leaves the cache right exactly when the second tag was there before. */
  lemma MakeRelationSoundIff(db: Db, t1: Tag, relation: string, t2: Tag)
    requires db.Sound() && Regular(t1) && Regular(t2)
    ensures MakeRelation(db, t1, relation, t2).Sound() <==> db.HasRow(t2) || (db.HasRow(t1) && KindOf(relation).Some?)
  {
    if db.HasRow(t1) && KindOf(relation).Some? {
      RelateKeeps(db, t1, KindOf(relation).value, t2);
    } else {
      RelateReadyKeeps(db, t1, t2);
      RollbackSoundIff(db, RelateReady(db, t1, t2), {t2});
    }
  }

  lemma UnrelateReady(db: Db, t1: Tag, t2: Tag)
    requires db.Sound() && Regular(t1) && Regular(t2)
    ensures var ready := db.AfterFetch(t1).AfterFetch(t2);
      ready.Sound() && ready.Fetched(t1) == db.IdOf(t1) && ready.Fetched(t2) == db.IdOf(t2)
  {
    var first := db.AfterFetch(t1);
    var ready := first.AfterFetch(t2);
    FetchSound(db, t1);
    FetchSound(first, t2);
    ready.FetchedIsIdOf(t1);
    ready.FetchedIsIdOf(t2);
  }

  /** `rmdir` of a relation removes exactly the rows it names. */
  lemma UnrelateKeeps(db: Db, t1: Tag, kind: Kind, t2: Tag)
    requires db.Sound() && Regular(t1) && Regular(t2)
    ensures Unrelate(db, t1, kind, t2).Sound()
    ensures forall r :: r in Unrelate(db, t1, kind, t2).relations <==>
      r in db.relations && r != Relation(db.IdOf(t1), kind, db.IdOf(t2))
  {
    UnrelateReady(db, t1, t2);
    var ready, db' := db.AfterFetch(t1).AfterFetch(t2), Unrelate(db, t1, kind, t2);
    forall r | r in db'.relations ensures ready.GoodId(r.tag1) && ready.GoodId(r.tag2) {
      RelationsGood(ready, r);
    }
    RelationsReplaced(ready, db'.relations);
  }

  lemma RemoveRelationKeeps(db: Db, t1: Tag, relation: string, t2: Tag)
    requires db.Sound() && Regular(t1) && Regular(t2)
    ensures RemoveRelation(db, t1, relation, t2).Sound()
  {
    UnrelateReady(db, t1, t2);
    db.FetchKeeps(t2);
    if KindOf(relation).Some? { UnrelateKeeps(db, t1, KindOf(relation).value, t2); }
  }

  function KindText(kind: Kind): string {
    match kind
    case Includes => "includes"
    case Excludes => "excludes"
    case IsEquivalent => "is_equivalent"
  }

  /** Some `rmdir` takes the row away. */
  ghost predicate Removable(db: Db, row: Relation) {
    exists op: Op :: op.DropRelation? && WellFormed(db, op) && row !in Apply(db, op).relations
  }

  lemma FlatDropIs(db: Db, t1: Tag, kind: Kind, t2: Tag)
    requires Regular(t1) && Regular(t2) && IsFlat(t1) && IsFlat(t2)
    ensures var op := DropRelation(t1, KindText(kind), t2); WellFormed(db, op) && Apply(db, op) == Unrelate(db, t1, kind, t2)
  {
    LetThroughIsLoose(KindText(kind));
  }

  lemma FlatIsRemovable(db: Db, row: Relation)
    requires db.Sound() && row in db.relations && row.tag1 in db.tags && row.tag2 in db.tags
    requires IsFlat(db.tags[row.tag1]) && IsFlat(db.tags[row.tag2])
    ensures Removable(db, row)
  {
    RelationsGood(db, row);
    db.IdIs(row.tag1);
    db.IdIs(row.tag2);
    var t1, t2 := db.tags[row.tag1], db.tags[row.tag2];
    var op := DropRelation(t1, KindText(row.kind), t2);
    FlatDropIs(db, t1, row.kind, t2);
    UnrelateKeeps(db, t1, row.kind, t2);
    assert op.DropRelation? && row !in Apply(db, op).relations;
  }

  /** A relation can be removed exactly when it is between flat tags, though `mkdir` makes others, too. */
  lemma RemovableIff(db: Db, row: Relation)
    requires db.Sound() && row in db.relations
    ensures row.tag1 in db.tags && row.tag2 in db.tags
    ensures Removable(db, row) <==> IsFlat(db.tags[row.tag1]) && IsFlat(db.tags[row.tag2])
  {
    RelationsGood(db, row);
    if IsFlat(db.tags[row.tag1]) && IsFlat(db.tags[row.tag2]) {
      FlatIsRemovable(db, row);
    }
    if op: Op :| op.DropRelation? && WellFormed(db, op) && row !in Apply(db, op).relations {
      OnlyNamedRowGoes(db, op, row);
    }
  }

  lemma OnlyNamedRowGoes(db: Db, op: Op, row: Relation)
    requires db.Sound() && op.DropRelation? && WellFormed(db, op)
    requires row in db.relations && row !in Apply(db, op).relations
    ensures IsFlat(op.t1) && IsFlat(op.t2) && row.tag1 in db.tags && row.tag2 in db.tags
    ensures db.tags[row.tag1] == op.t1 && db.tags[row.tag2] == op.t2
  {
    RelationsGood(db, row);
    assert db.AfterFetch(op.t1).AfterFetch(op.t2).relations == db.relations;
    UnrelateKeeps(db, op.t1, KindOf(op.relation).value, op.t2);
  }

  /** Handing taggings on to an object that exists. */
  lemma HandingKeeps(db: Db, inode: Inode, main: Inode, clash: Deduplication.OnClash)
    requires db.Sound() && main in db.objects && main != inode
    ensures db.(tagging := Deduplication.Handed(db.tagging, inode, main, clash), objects := db.objects - {inode}).Sound()
  {
    var db' := db.(tagging := Deduplication.Handed(db.tagging, inode, main, clash), objects := db.objects - {inode});
    SameRowsSameIds(db, db');
    forall t | Regular(t) ensures db'.CachedRight(t) {
      assert db.CachedRight(t);
    }
  }

  lemma DeduplicateKeeps(db: Db, inode: Inode, hex: string, clash: Deduplication.OnClash)
    requires db.Sound()
    ensures Deduplication.Kernel(db, inode, hex, clash).Sound()
  {
    var stamped := Deduplication.Stamped(db, inode, hex);
    var main := Deduplication.MainInode(stamped, hex);
    SameTags(db, stamped);
    if main !in {0, inode} {
      assert Deduplication.HasChecksum(stamped, main, hex);
      HandingKeeps(stamped, inode, main, clash);
    }
  }

  // ----- the life of an object -----

  /** A sequence of `unlink` and `rmdir`, each through a path that resolved to some inode. */
  ghost function UnlinkEach(db: Db, steps: seq<(Inode, seq<Tag>)>): Db
    decreases |steps|
  {
    if steps == [] then db else UnlinkEach(Unlink(db, steps[0].0, steps[0].1), steps[1..])
  }

  ghost predicate Addressed(steps: seq<(Inode, seq<Tag>)>, inode: Inode) {
    exists k :: 0 <= k < |steps| && steps[k].0 == inode
  }

  ghost predicate Spared(steps: seq<(Inode, seq<Tag>)>, inode: Inode, t: Tag) {
    forall k :: 0 <= k < |steps| && steps[k].0 == inode ==> t !in steps[k].1
  }

  /** An object outlives a sequence of removals exactly when some tag of its was never removed. */
  lemma {:induction false} SurvivesWhileTagged(db: Db, steps: seq<(Inode, seq<Tag>)>, inode: Inode)
    requires db.Sound() && forall k :: 0 <= k < |steps| ==> AllRegular(steps[k].1)
    ensures var db' := UnlinkEach(db, steps);
      && db'.Sound()
      && (forall t :: db'.Carries(inode, t) <==> db.Carries(inode, t) && Spared(steps, inode, t))
      && (inode in db'.objects <==>
            inode in db.objects && (Addressed(steps, inode) ==> exists t :: db.Carries(inode, t) && Spared(steps, inode, t)))
    decreases |steps|
  {
    if steps != [] {
      var rest, middle := steps[1..], Unlink(db, steps[0].0, steps[0].1);
      UnlinkKeeps(db, steps[0].0, steps[0].1);
      SurvivesWhileTagged(middle, rest, inode);
      StepsSplit(steps, inode);
    }
  }

  lemma StepsSplit(steps: seq<(Inode, seq<Tag>)>, inode: Inode)
    requires steps != []
    ensures Addressed(steps, inode) <==> steps[0].0 == inode || Addressed(steps[1..], inode)
    ensures forall t :: Spared(steps, inode, t) <==>
      (steps[0].0 == inode ==> t !in steps[0].1) && Spared(steps[1..], inode, t)
  {
    var rest := steps[1..];
    assert forall k :: 0 <= k < |rest| ==> rest[k] == steps[k + 1];
    assert forall k :: 0 < k < |steps| ==> steps[k] == rest[k - 1];
  }

  // ----- runs -----

  /**
   The operations, with the ids and inodes that their paths resolved to and whether they committed.  A hard
   link is made outside any transaction (src/fuse_operations/link.c:44-45): whatever happens on disk, the
   new object stays.
   */
  datatype Op =
    | MakeTag(tag: Tag)
    | RemoveTags(spine: seq<Tag>)
    | Look(query: Query, row: TagId)
    | CreateObject(name: string, found: Inode, spine: seq<Tag>, commit: bool)
    | LinkObject(name: string, spine: seq<Tag>)
    | UnlinkObject(inode: Inode, spine: seq<Tag>, commit: bool)
    | UnlinkFromAll(inode: Inode, commit: bool)
    | RenameObject(from: Inode, to: Inode, name: string, spine: seq<Tag>, toSpine: seq<Tag>, commit: bool)
    | RenameFlatTag(source: Tag, triple: Option<Tag>, target: Tag)
    | AddRelation(t1: Tag, relation: string, t2: Tag)
    | DropRelation(t1: Tag, relation: string, t2: Tag)
    | Deduplicate(inode: Inode, hex: string, clash: Deduplication.OnClash)

  /** What paths deliver: clean names, complete tags, and answers the tables really gave. */
  ghost predicate WellFormed(db: Db, op: Op) {
    match op
    case MakeTag(t) => WellNamed(t)
    case RemoveTags(spine) => forall k :: 0 <= k < |spine| ==> CleanTag(spine[k])
    case Look(q, row) => CleanTag(q.AsTag()) && Answers(db, q, row)
    case CreateObject(_, found, spine, _) => AllRegular(spine) && (found == 0 || found in db.objects)
    case LinkObject(_, spine) => AllRegular(spine)
    case UnlinkObject(_, spine, _) => AllRegular(spine)
    case UnlinkFromAll(_, _) => true
    case RenameObject(_, _, _, spine, toSpine, _) => AllRegular(spine) && AllRegular(toSpine)
    case RenameFlatTag(source, triple, target) =>
      && Regular(source) && IsFlat(source) && Regular(target) && IsFlat(target)
      && (triple.Some? ==> Regular(triple.value) && IsNamespace(triple.value.name))
    case AddRelation(t1, relation, t2) => Regular(t1) && Regular(t2) && LetThrough(relation)
    case DropRelation(t1, relation, t2) => Regular(t1) && Regular(t2) && LetThrough(relation)
    case Deduplicate(_, _, _) => true
  }

  ghost function Apply(db: Db, op: Op): Db {
    match op
    case MakeTag(t) => db.Created(t)
    case RemoveTags(spine) => db.DeletedAll(spine)
    case Look(q, row) => AfterLookUp(db, q, row)
    case CreateObject(name, found, spine, commit) => Finish(db, Create(db, name, found, spine), commit)
    case LinkObject(name, spine) => Create(db, name, 0, spine)
    case UnlinkObject(inode, spine, commit) => Finish(db, Unlink(db, inode, spine), commit)
    case UnlinkFromAll(inode, commit) => Finish(db, UnlinkAll(db, inode), commit)
    case RenameObject(from, to, name, spine, toSpine, commit) =>
      Finish(db, Rename(db, from, to, name, spine, toSpine), commit || from == to)
    case RenameFlatTag(source, triple, target) => RenameTag(db, source.name, triple, target.name)
    case AddRelation(t1, relation, t2) => MakeRelation(db, t1, relation, t2)
    case DropRelation(t1, relation, t2) => RemoveRelation(db, t1, relation, t2)
    case Deduplicate(inode, hex, clash) => Deduplication.Kernel(db, inode, hex, clash)
  }

  /** The steps that leave integrity and the cache intact. */
  ghost predicate Harmless(db: Db, op: Op) {
    match op
    case CreateObject(_, _, spine, commit) => commit || forall t :: t in spine ==> db.HasRow(t)
    case RenameObject(from, to, _, _, toSpine, commit) =>
      || from == to
      || (if commit then from in db.objects || toSpine == [] else forall t :: t in toSpine ==> db.HasRow(t))
    case RenameFlatTag(source, triple, target) =>
      triple.None? || CacheKey(source) !in db.cache || source == target || db.HasRow(target)
    case AddRelation(t1, relation, t2) => db.HasRow(t2) || (db.HasRow(t1) && KindOf(relation).Some?)
    case _ => true
  }

  /**
   From sound tables, a step ends in sound tables exactly when it is harmless: the other steps are
   those that roll back the creation of a tag they cached, tag an object that is not there, or
   rename a cached tag behind the cache's back.
   */
  lemma StepSoundIff(db: Db, op: Op)
    requires db.Sound() && WellFormed(db, op)
    ensures Apply(db, op).Sound() <==> Harmless(db, op)
  {
    match op
    case MakeTag(t) => db.CreateKeeps(t);
    case RemoveTags(spine) => db.DeleteAllKeeps(spine);
    case Look(q, row) => LookUpKeeps(db, q, row);
    case CreateObject(name, found, spine, commit) =>
      CreateKeeps(db, name, found, spine);
      FailedCreateSoundIff(db, name, found, spine);
    case LinkObject(name, spine) => CreateKeeps(db, name, 0, spine);
    case UnlinkObject(inode, spine, commit) =>
      UnlinkKeeps(db, inode, spine);
      FailedUnlinkSound(db, inode, spine);
    case UnlinkFromAll(inode, commit) =>
      UnlinkAllKeeps(db, inode);
    case RenameObject(from, to, name, spine, toSpine, commit) =>
      RenameSoundIff(db, from, to, name, spine, toSpine);
      if from != to { FailedRenameSoundIff(db, from, to, name, spine, toSpine); }
    case RenameFlatTag(source, triple, target) =>
      assert source == Tag(source.name, "", "") && target == Tag(target.name, "", "");
      RenameTagSoundIff(db, source.name, triple, target.name);
    case AddRelation(t1, relation, t2) => MakeRelationSoundIff(db, t1, relation, t2);
    case DropRelation(t1, relation, t2) => RemoveRelationKeeps(db, t1, relation, t2);
    case Deduplicate(inode, hex, clash) => DeduplicateKeeps(db, inode, hex, clash);
  }

  const EMPTY := Db(map[], 1, map[], 1, {}, [], map[])

  /** A run of well-formed, harmless steps. */
  ghost predicate IsRun(db: Db, ops: seq<Op>)
    decreases |ops|
  {
    ops == [] || (WellFormed(db, ops[0]) && Harmless(db, ops[0]) && IsRun(Apply(db, ops[0]), ops[1..]))
  }

  ghost function After(db: Db, ops: seq<Op>): Db
    decreases |ops|
  {
    if ops == [] then db else After(Apply(db, ops[0]), ops[1..])
  }

  lemma {:induction false} RunKeepsSound(db: Db, ops: seq<Op>)
    requires db.Sound() && IsRun(db, ops)
    ensures After(db, ops).Sound()
    decreases |ops|
  {
    if ops != [] {
      StepSoundIff(db, ops[0]);
      RunKeepsSound(Apply(db, ops[0]), ops[1..]);
    }
  }

  /**
   From empty tables, whatever the interleaving: every tagging row is on an existing object and an
   existing tag, both ends of every relation exist, and cached lookups answer like the table.
   */
  lemma EveryRunIsSound(ops: seq<Op>, q: Query, row: TagId)
    requires IsRun(EMPTY, ops) && Regular(q.AsTag()) && Answers(After(EMPTY, ops), q, row)
    ensures var db := After(EMPTY, ops);
      && (forall p :: p in db.tagging ==> p.0 in db.objects && p.1 in db.tags)
      && (forall r :: r in db.relations ==> r.tag1 in db.tags && r.tag2 in db.tags)
      && LookUp(db, q, row) == row
  {
    RunKeepsSound(EMPTY, ops);
    var db := After(EMPTY, ops);
    CachedLookUpIsPlain(db, q, row);
    forall r | r in db.relations ensures r.tag1 in db.tags && r.tag2 in db.tags {
      RelationsGood(db, r);
    }
  }

  // ----- deleting a triple tag that is only partly given -----

  lemma RunOfTwo(db: Db, first: Op, second: Op)
    ensures IsRun(db, [first, second]) <==>
      && WellFormed(db, first) && Harmless(db, first)
      && WellFormed(Apply(db, first), second) && Harmless(Apply(db, first), second)
    ensures After(db, [first, second]) == Apply(Apply(db, first), second)
  {
    assert [first, second][1..] == [second] && [second][1..] == [];
    assert IsRun(Apply(Apply(db, first), second), []);
    assert After(Apply(db, first), [second]) == After(Apply(Apply(db, first), second), []);
  }

  lemma DeletedOne(db: Db, t: Tag)
    ensures Apply(db, RemoveTags([t])) == db.Deleted(t)
  {
    assert [t][1..] == [];
    assert db.DeletedAll([t]) == db.Deleted(t).DeletedAll([]);
  }

  lemma PartIsClean(t: Tag)
    requires CleanTag(t)
    ensures CleanTag(Tag(t.name, t.key, ""))
  {
    assert forall at: nat :: !OccursAt("", at);
  }

  /** What the path of a partly given triple tag leaves in the cache, and what its deletion then does. */
  lemma PartialDeletion(db: Db, i: Inode, t: Tag)
    requires db.Sound() && Regular(t) && db.Carries(i, t) && t.value != ""
    requires CacheKey(Tag(t.name, t.key, "")) !in db.cache
    ensures var part, middle := Tag(t.name, t.key, ""), AfterLookUp(db, Query(t.name, Some(t.key), None), db.IdOf(t));
      middle.Consistent() && middle.Deleted(part).HasRow(t) && !middle.Deleted(part).Carries(i, t)
  {
    var part, q := Tag(t.name, t.key, ""), Query(t.name, Some(t.key), None);
    var middle := AfterLookUp(db, q, db.IdOf(t));
    assert db.HasRow(t) && q.Matches(db.tags[db.IdOf(t)]);
    PartIsClean(t);
    LookUpKeeps(db, q, db.IdOf(t));
    SameRowsSameIds(db, middle);
    assert middle.Fetched(part) == db.IdOf(t) == middle.IdOf(t);
    middle.DeleteKeeps(part);
  }

  /**
   `rmdir` of `store/ns:/k`: reading the path caches the id of some ns:/k=v for it, and the deletion then
   takes the taggings of that tag, whose row stays.
   */
  lemma PartialDeletionTakesOthers(db: Db, i: Inode, t: Tag)
    requires db.Sound() && Regular(t) && IsNamespace(t.name) && t.key != "" && t.value != "" && db.Carries(i, t)
    requires CacheKey(Tag(t.name, t.key, "")) !in db.cache
    ensures var ops := [Look(Query(t.name, Some(t.key), None), db.IdOf(t)), RemoveTags([Tag(t.name, t.key, "")])];
      IsRun(db, ops) && After(db, ops).HasRow(t) && !After(db, ops).Carries(i, t)
  {
    var part, q := Tag(t.name, t.key, ""), Query(t.name, Some(t.key), None);
    assert db.HasRow(t) && q.Matches(db.tags[db.IdOf(t)]);
    PartIsClean(t);
    PartialDeletion(db, i, t);
    RunOfTwo(db, Look(q, db.IdOf(t)), RemoveTags([part]));
    DeletedOne(Apply(db, Look(q, db.IdOf(t))), part);
  }

  /** Tables to which that happens. */
  lemma PartialDeletionExample()
    ensures var t := Tag("ns:", "k", "v");
      var db := Db(map[1 := t], 2, map[1 := Object("o", "")], 2, {(1, 1)}, [], map[]);
      var ops := [Look(Query("ns:", Some("k"), None), 1), RemoveTags([Tag("ns:", "k", "")])];
      db.Sound() && IsRun(db, ops) && db.Carries(1, t) && After(db, ops).HasRow(t) && !After(db, ops).Carries(1, t)
  {
    var t := Tag("ns:", "k", "v");
    var db := Db(map[1 := t], 2, map[1 := Object("o", "")], 2, {(1, 1)}, [], map[]);
    assert forall at: nat :: !OccursAt("ns:", at) && !OccursAt("k", at) && !OccursAt("v", at);
    assert Regular(t) && db.tags[1] == t;
    db.IdIs(1);
    assert (1, 1) in db.tagging;
    PartialDeletionTakesOthers(db, 1, t);
  }

  // ----- lookups, column by column -----

  /** What a lookup may return: the id of a row with the given name, and the given key and value if there are any. */
  lemma AnswersIff(db: Db, q: Query, id: TagId)
    requires db.Keyed() && (q.value.Some? ==> q.key.Some?)
    ensures Answers(db, q, id) <==>
      if id == 0 then !exists i :: i in db.tags && HasColumns(db.tags[i], q) else id in db.tags && HasColumns(db.tags[id], q)
  {
    forall i | i in db.tags ensures q.Matches(db.tags[i]) <==> HasColumns(db.tags[i], q) {
    }
  }

  predicate HasColumns(row: Tag, q: Query) {
    row.name == q.name && (q.key.Some? ==> row.key == q.key.value) && (q.value.Some? ==> row.value == q.value.value)
  }
}

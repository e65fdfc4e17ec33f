/**
 The repository's database and tag-id cache as the program changes them, statement by statement.
 Each method is proved against the function of the module `Tables`, `Runs` or `Deduplication`
 whose properties are proved there.
 */
module TagStore {
  import opened Schema
  import opened TagKey
  import opened Tables
  import opened Runs
  import Deduplication

  /** The spine tags of a query tree, as `tagsistant_querytree_traverse` meets them. */
  function Flatten(tree: seq<seq<Tag>>): seq<Tag> {
    if tree == [] then [] else tree[0] + Flatten(tree[1..])
  }

  lemma FlattenStep(tree: seq<seq<Tag>>, k: nat)
    requires k < |tree|
    ensures Flatten(tree[k..]) == tree[k] + Flatten(tree[k + 1..])
    ensures AllRegular(Flatten(tree[k..])) <==> AllRegular(tree[k]) && AllRegular(Flatten(tree[k + 1..]))
  {
    var rest := Flatten(tree[k + 1..]);
    assert tree[k..][1..] == tree[k + 1..];
    assert forall t :: t in tree[k] + rest <==> t in tree[k] || t in rest;
  }

  class Store {
    var tags: map<TagId, Tag>
    var nextTag: TagId
    var objects: map<Inode, Object>
    var nextInode: Inode
    var tagging: set<(Inode, TagId)>
    var relations: seq<Relation>
    var cache: map<string, TagId>
    /** What the backend makes of a unique clash in an `update`. */
    const clash: Deduplication.OnClash

    constructor (clash: Deduplication.OnClash)
      ensures State() == EMPTY && this.clash == clash
    {
      this.clash := clash;
      tags, nextTag, objects, nextInode, tagging, relations, cache := map[], 1, map[], 1, {}, [], map[];
    }

    function State(): Db
      reads this
    {
      Db(tags, nextTag, objects, nextInode, tagging, relations, cache)
    }

    // ----- src/sql.c -----

    /** The three forms of the `select tag_id` query. */
    method SelectTagId(q: Query) returns (id: TagId)
      ensures Answers(State(), q, id)
    {
      if i :| i in tags && q.Matches(tags[i]) {
        id := i;
      } else {
        id := 0;
      }
    }

    /** `tagsistant_sql_get_tag_id`; `row` is what the SQL query returns, if it is asked. */
    method GetTagId(q: Query) returns (id: TagId, ghost row: TagId)
      modifies `cache
      ensures Answers(old(State()), q, row)
      ensures id == LookUp(old(State()), q, row) && State() == AfterLookUp(old(State()), q, row)
    {
      var key := CacheKey(q.AsTag());
      if key in cache && cache[key] != 0 {
        row := SomeAnswer(State(), q);
        return cache[key], row;
      }
      id := SelectTagId(q);
      row := id;
      if id != 0 {
        cache := cache[key := id];
      }
    }

    /** The same with key and value given, as when tagging, untagging and deleting. */
    method GetExactTagId(t: Tag) returns (id: TagId)
      requires State().Keyed()
      modifies `cache
      ensures id == old(State()).Fetched(t) && State() == old(State()).AfterFetch(t)
    {
      ghost var db := State();
      ghost var row;
      id, row := GetTagId(Query(t.name, Some(t.key), Some(t.value)));
      ExactAnswer(db, t, row);
    }

    /** `tagsistant_sql_create_tag` */
    method CreateTag(t: Tag)
      modifies `tags, `nextTag
      ensures State() == old(State()).Created(t)
    {
      if exists i :: i in tags && tags[i] == t { return; }
      tags := tags[nextTag := t];
      nextTag := nextTag + 1;
    }

    /** `tagsistant_remove_tag_from_cache` */
    method RemoveTagFromCache(t: Tag)
      modifies `cache
      ensures cache == WithoutEntry(old(cache), CacheKey(t))
    {
      cache := WithoutEntry(cache, CacheKey(t));
    }

    /** `tagsistant_sql_delete_tag` */
    method DeleteTag(t: Tag)
      requires State().Keyed()
      modifies this
      ensures State() == old(State()).Deleted(t)
    {
      var id := GetExactTagId(t);
      RemoveTagFromCache(t);
      tags := WithoutTagRow(tags, t);
      tagging := WithoutTagging(tagging, id);
      relations := WithoutTag(relations, id);
    }

    /** `tagsistant_sql_tag_object` */
    method TagObject(t: Tag, inode: Inode)
      requires State().Consistent() && Regular(t)
      modifies this
      ensures State() == old(State()).Tagged(t, inode)
    {
      var id := GetExactTagId(t);
      if id == 0 {
        old(State()).CreateKeeps(t);
        CreateTag(t);
        id := GetExactTagId(t);
      }
      tagging := tagging + {(inode, id)};
    }

    /** `tagsistant_sql_untag_object` */
    method UntagObject(t: Tag, inode: Inode)
      requires State().Keyed()
      modifies this
      ensures State() == old(State()).Untagged(t, inode)
    {
      var id := GetExactTagId(t);
      tagging := tagging - {(inode, id)};
    }

    // ----- tagsistant_querytree_traverse, src/path_resolution.c:1709-1731 -----

    method TagAndSet(spine: seq<Tag>, inode: Inode)
      requires State().Consistent() && AllRegular(spine)
      modifies this
      ensures State() == old(State()).TaggedAll(spine, inode) && State().Consistent()
    {
      ghost var goal := State().TaggedAll(spine, inode);
      for k := 0 to |spine|
        invariant State().Consistent() && State().TaggedAll(spine[k..], inode) == goal
      {
        assert spine[k] in spine && spine[k..][1..] == spine[k + 1..];
        State().TagKeeps(spine[k], inode);
        TagObject(spine[k], inode);
      }
    }

    method TraverseTag(tree: seq<seq<Tag>>, inode: Inode)
      requires State().Consistent() && AllRegular(Flatten(tree))
      modifies this
      ensures State() == old(State()).TaggedAll(Flatten(tree), inode) && State().Consistent()
    {
      ghost var goal := State().TaggedAll(Flatten(tree), inode);
      for k := 0 to |tree|
        invariant State().Consistent() && AllRegular(Flatten(tree[k..]))
        invariant State().TaggedAll(Flatten(tree[k..]), inode) == goal
      {
        FlattenStep(tree, k);
        State().TaggedAllAppend(tree[k], Flatten(tree[k + 1..]), inode);
        TagAndSet(tree[k], inode);
      }
    }

    method UntagAndSet(spine: seq<Tag>, inode: Inode)
      requires State().Consistent() && AllRegular(spine)
      modifies this
      ensures State() == old(State()).UntaggedAll(spine, inode) && State().Consistent()
    {
      ghost var goal := State().UntaggedAll(spine, inode);
      for k := 0 to |spine|
        invariant State().Consistent() && State().UntaggedAll(spine[k..], inode) == goal
      {
        assert spine[k] in spine && spine[k..][1..] == spine[k + 1..];
        State().UntagKeeps(spine[k], inode);
        UntagObject(spine[k], inode);
      }
    }

    method TraverseUntag(tree: seq<seq<Tag>>, inode: Inode)
      requires State().Consistent() && AllRegular(Flatten(tree))
      modifies this
      ensures State() == old(State()).UntaggedAll(Flatten(tree), inode) && State().Consistent()
    {
      ghost var goal := State().UntaggedAll(Flatten(tree), inode);
      for k := 0 to |tree|
        invariant State().Consistent() && AllRegular(Flatten(tree[k..]))
        invariant State().UntaggedAll(Flatten(tree[k..]), inode) == goal
      {
        FlattenStep(tree, k);
        State().UntaggedAllAppend(tree[k], Flatten(tree[k + 1..]), inode);
        UntagAndSet(tree[k], inode);
      }
    }

    // ----- the file operations -----

    /** `rollback`, given the tables as they were when the transaction began. */
    method Rollback(saved: Db)
      modifies this
      ensures State() == Finish(saved, old(State()), false)
    {
      tags, nextTag, objects, nextInode := saved.tags, saved.nextTag, saved.objects, saved.nextInode;
      tagging, relations := saved.tagging, saved.relations;
    }

    /** With `force`, or when no object has the name, insert a new one. */
    method FindOrInsertObject(name: string, force: bool) returns (inode: Inode, ghost found: Inode)
      requires State().Sound()
      modifies `objects, `nextInode
      ensures found == 0 || (found in old(objects) && old(objects)[found].name == name)
      ensures found == 0 <==> force || !exists i :: i in old(objects) && old(objects)[i].name == name
      ensures inode == CreateInode(old(State()), found)
      ensures State() == Inserted(old(State()), name, found) && State().Consistent()
    {
      inode := 0;
      if !force {
        if i :| i in objects && objects[i].name == name {
          inode := i;
        }
      }
      found := inode;
      SameTags(State(), Inserted(State(), name, found));
      if force || inode == 0 {
        objects := objects[nextInode := Object(name, "")];
        inode := nextInode;
        nextInode := nextInode + 1;
      }
    }

    /** `tagsistant_inner_create_and_tag_object` */
    method CreateAndTagObject(name: string, tree: seq<seq<Tag>>, force: bool) returns (inode: Inode, ghost found: Inode)
      requires State().Sound() && AllRegular(Flatten(tree))
      modifies this
      ensures found == 0 || (found in old(objects) && old(objects)[found].name == name)
      ensures found == 0 <==> force || !exists i :: i in old(objects) && old(objects)[i].name == name
      ensures inode == CreateInode(old(State()), found)
      ensures State() == Create(old(State()), name, found, Flatten(tree))
    {
      inode, found := FindOrInsertObject(name, force);
      TraverseTag(tree, inode);
    }

    /** The tables' part of `tagsistant_link`, outside any transaction: what `link` says on disk changes nothing. */
    method LinkObject(name: string, tree: seq<seq<Tag>>) returns (inode: Inode)
      requires State().Sound() && AllRegular(Flatten(tree))
      modifies this
      ensures State() == Apply(old(State()), Op.LinkObject(name, Flatten(tree))) && inode == old(nextInode)
    {
      ghost var found;
      inode, found := CreateAndTagObject(name, tree, true);
    }

    method UntagOrDelete(inode: Inode, tree: seq<seq<Tag>>) returns (doUnlink: bool)
      requires State().Sound() && AllRegular(Flatten(tree))
      modifies this
      ensures State() == Unlink(old(State()), inode, Flatten(tree))
      ensures doUnlink <==> inode !in objects
    {
      UnlinkKeeps(State(), inode, Flatten(tree));
      TraverseUntag(tree, inode);
      doUnlink := true;
      if exists p :: p in tagging && p.0 == inode {
        doUnlink := false;
      } else {
        objects := objects - {inode};
      }
    }

    /** The store branch of `tagsistant_unlink` and of `tagsistant_rmdir`; `diskOk` is the result on disk. */
    method UnlinkObject(inode: Inode, tree: seq<seq<Tag>>, all: bool, diskOk: bool) returns (doUnlink: bool)
      requires State().Sound() && AllRegular(Flatten(tree))
      modifies this
      ensures State() == Apply(old(State()),
        if all then UnlinkFromAll(inode, diskOk)
        else Op.UnlinkObject(inode, Flatten(tree), diskOk || !doUnlink))
      ensures !all ==> (doUnlink <==> inode !in Unlink(old(State()), inode, Flatten(tree)).objects)
    {
      var saved := State();
      doUnlink := true;
      if all {
        objects := objects - {inode};
        tagging := set p | p in tagging && p.0 != inode;
      } else {
        doUnlink := UntagOrDelete(inode, tree);
      }
      if doUnlink && !diskOk {
        Rollback(saved);
      }
    }

    /** `tagsistant_rmdir` on an incomplete path: every spine tag is deleted. */
    method RemoveTags(spine: seq<Tag>)
      requires State().Consistent() && forall t :: t in spine ==> CleanTag(t)
      modifies this
      ensures State() == Apply(old(State()), Op.RemoveTags(spine))
    {
      ghost var goal := State().DeletedAll(spine);
      var k := 0;
      while k < |spine|
        invariant 0 <= k <= |spine| && State().Consistent()
        invariant State().DeletedAll(spine[k..]) == goal
      {
        assert spine[k] in spine;
        State().DeleteKeeps(spine[k]);
        DeleteTag(spine[k]);
        k := k + 1;
      }
    }

    /** `update objects set objectname = name where inode = inode` */
    method NameObject(inode: Inode, name: string)
      requires State().Sound()
      modifies `objects
      ensures State() == Named(old(State()), inode, name) && State().Consistent()
    {
      SameTags(State(), Named(State(), inode, name));
      if inode in objects {
        objects := objects[inode := objects[inode].(name := name)];
      }
    }

    /** Renaming the object row, then untagging and tagging. */
    method MoveObject(from: Inode, ghost to: Inode, name: string, fromTree: seq<seq<Tag>>, toTree: seq<seq<Tag>>)
      requires State().Sound() && AllRegular(Flatten(fromTree)) && AllRegular(Flatten(toTree)) && from != to
      modifies this
      ensures State() == Rename(old(State()), from, to, name, Flatten(fromTree), Flatten(toTree))
    {
      NameObject(from, name);
      TraverseUntag(fromTree, from);
      TraverseTag(toTree, from);
    }

    /** The object branch of `tagsistant_rename`; `diskOk` is the result of the rename on disk. */
    method RenameObject(from: Inode, to: Inode, name: string, fromTree: seq<seq<Tag>>, toTree: seq<seq<Tag>>, diskOk: bool)
      requires State().Sound() && AllRegular(Flatten(fromTree)) && AllRegular(Flatten(toTree))
      modifies this
      ensures State() == Apply(old(State()), Op.RenameObject(from, to, name, Flatten(fromTree), Flatten(toTree), diskOk))
    {
      if from == to { return; }
      var saved := State();
      MoveObject(from, to, name, fromTree, toTree);
      if !diskOk {
        Rollback(saved);
      }
    }

    /** The tag branch of `tagsistant_rename` on two incomplete `store/` paths. */
    method RenameTag(from: string, triple: Option<Tag>, to: string)
      modifies this
      ensures State() == Runs.RenameTag(old(State()), from, triple, to)
    {
      if !exists i, j :: i in tags && j in tags && i != j && Renamed(tags[i], from, to) == Renamed(tags[j], from, to) {
        tags := map i | i in tags :: Renamed(tags[i], from, to);
      }
      RemoveTagFromCache(if triple.Some? then triple.value else Tag(from, "", ""));
    }

    /** Look a tag up and create it if it is missing, as `mkdir` does with the second tag of a relation. */
    method GetOrCreateTagId(t: Tag) returns (id: TagId)
      requires State().Consistent() && Regular(t)
      modifies this
      ensures var db := old(State());
        State() == (if db.Fetched(t) != 0 then db else db.Created(t)).AfterFetch(t)
      ensures id == (if old(State()).Fetched(t) != 0 then old(State()) else old(State()).Created(t)).Fetched(t)
    {
      id := GetExactTagId(t);
      if id == 0 {
        old(State()).CreateKeeps(t);
        CreateTag(t);
        id := GetExactTagId(t);
      }
    }

    /** `tagsistant_mkdir` in `relations/` */
    method MakeRelation(t1: Tag, relation: string, t2: Tag) returns (ok: bool)
      requires State().Sound() && Regular(t1) && Regular(t2)
      modifies this
      ensures State() == Apply(old(State()), AddRelation(t1, relation, t2))
      ensures ok <==> old(State()).HasRow(t1) && KindOf(relation).Some?
    {
      var saved := State();
      saved.FetchedIsIdOf(t1);
      saved.FetchKeeps(t1);
      var id1 := GetExactTagId(t1);
      var id2 := GetOrCreateTagId(t2);
      assert State() == RelateReady(saved, t1, t2);
      EndsOfRelation(saved, t1, t2);
      MakeRelationIs(saved, t1, relation, t2);
      ok := id1 != 0 && id2 != 0 && KindOf(relation).Some?;
      if ok {
        relations := relations + [Relation(id1, KindOf(relation).value, id2)];
      } else {
        Rollback(saved);
      }
    }

    method RemoveFlatRelation(t1: Tag, relation: string, t2: Tag) returns (ok: bool)
      requires State().Sound() && Regular(t1) && Regular(t2) && IsFlat(t1) && IsFlat(t2)
      modifies this
      ensures State() == Runs.RemoveRelation(old(State()), t1, relation, t2)
      ensures ok <==> old(State()).HasRow(t1) && old(State()).HasRow(t2) && KindOf(relation).Some?
    {
      UnrelateReady(State(), t1, t2);
      State().FetchedIsIdOf(t1);
      State().FetchKeeps(t1);
      ghost var before := State();
      var id1 := GetExactTagId(t1);
      ghost var first := State();
      SameRowsSameIds(before, first);
      first.FetchedIsIdOf(t2);
      var id2 := GetExactTagId(t2);
      ok := id1 != 0 && id2 != 0 && KindOf(relation).Some?;
      assert State() == first.AfterFetch(t2);
      if ok {
        relations := WithoutRow(relations, Relation(id1, KindOf(relation).value, id2));
      } else if KindOf(relation).Some? {
        NoSuchRow(before, relations, Relation(id1, KindOf(relation).value, id2));
      }
      UnrelateIs(before, first.AfterFetch(t2), t1, relation, t2, id1, id2);
    }

    /**
     `tagsistant_rmdir` in `relations/`: `second_tag` is not set for a triple tag, nor is `first_tag`, whose
     lookup then finds nothing.
     */
    method RemoveRelation(t1: Tag, relation: string, t2: Tag) returns (ok: bool)
      requires State().Sound() && Regular(t1) && Regular(t2)
      modifies this
      ensures State() == Apply(old(State()), DropRelation(t1, relation, t2))
      ensures ok <==>
        && IsFlat(t1) && IsFlat(t2) && old(State()).HasRow(t1) && old(State()).HasRow(t2)
        && KindOf(relation).Some?
    {
      if !IsFlat(t2) { return false; }
      if IsFlat(t1) {
        ok := RemoveFlatRelation(t1, relation, t2);
      } else {
        var id2 := GetExactTagId(t2);
        ok := false;
      }
    }

    // ----- src/deduplication.c -----

    /** `update tagging set inode = main where inode = i`, on a backend that passes over a row that would clash. */
    method MoveTagging(i: Inode, main: Inode)
      requires i != main
      modifies `tagging
      ensures forall p: (Inode, TagId) :: p.0 != i && p in tagging <==> p in Deduplication.Moved(old(tagging), i, main)
    {
      var rows := set p | p in tagging && p.0 == i;
      while rows != {}
        invariant rows <= old(tagging) && forall p :: p in rows ==> p.0 == i && p in tagging
        invariant forall p: (Inode, TagId) :: p.0 != i && p in tagging <==>
          p.0 != i && (p in old(tagging) || (p.0 == main && (i, p.1) in old(tagging) && (i, p.1) !in rows))
        invariant forall p: (Inode, TagId) :: p.0 == i && p in tagging ==> p in old(tagging)
        decreases rows
      {
        var row :| row in rows;
        if (main, row.1) !in tagging {
          tagging := tagging - {row} + {(main, row.1)};
        }
        rows := rows - {row};
      }
    }

    /** The same statement on either kind of backend: when it fails as a whole, nothing moves. */
    method UpdateTagging(i: Inode, main: Inode)
      requires i != main
      modifies `tagging
      ensures (set p | p in tagging && p.0 != i) == Deduplication.Handed(old(tagging), i, main, clash)
    {
      if clash.FailStatement? && exists p :: p in tagging && p.0 == i && (main, p.1) in tagging {
        assert Deduplication.Clashes(tagging, i, main);
        return;
      }
      assert Deduplication.Clashes(tagging, i, main) ==> clash.SkipRow? by {
        if tag :| (i, tag) in tagging && (main, tag) in tagging {
          assert (i, tag).0 == i && (main, (i, tag).1) in tagging;
        }
      }
      MoveTagging(i, main);
    }

    /** `tagsistant_querytree_find_duplicates`: true when the object stays and may be autotagged. */
    method FindDuplicates(i: Inode, hex: string) returns (stays: bool)
      modifies `tagging, `objects
      ensures State() == Deduplication.Merged(old(State()), i, hex, clash)
      ensures stays <==> Deduplication.MainInode(old(State()), hex) in {0, i}
    {
      var main := FirstWithChecksum(hex);
      if main == 0 || main == i { return true; }
      UpdateTagging(i, main);
      tagging := set p | p in tagging && p.0 != i;
      objects := objects - {i};
      return false;
    }

    /** `select inode from objects where checksum = .. order by inode limit 1` */
    method FirstWithChecksum(hex: string) returns (main: Inode)
      ensures main == Deduplication.MainInode(State(), hex)
    {
      var matching := set i | i in objects && objects[i].checksum == hex;
      main := 0;
      if i :| i in matching {
        main := i;
        var left := matching - {i};
        while left != {}
          invariant main in matching && left <= matching
          invariant forall j :: j in matching && j !in left ==> main <= j
          decreases left
        {
          var j :| j in left;
          if j < main { main := j; }
          left := left - {j};
        }
        assert Deduplication.HasChecksum(State(), main, hex);
        assert forall j :: Deduplication.HasChecksum(State(), j, hex) ==> j in matching;
      } else {
        assert forall j :: Deduplication.HasChecksum(State(), j, hex) ==> j in matching;
      }
    }

    /** The database part of `tagsistant_deduplication_kernel`. */
    method DeduplicationKernel(i: Inode, hex: string) returns (stays: bool)
      modifies `tagging, `objects
      ensures State() == Deduplication.Kernel(old(State()), i, hex, clash)
    {
      if i in objects {
        objects := objects[i := objects[i].(checksum := hex)];
      }
      stays := FindDuplicates(i, hex);
    }

    /** `tagsistant_deduplication_loop` over the objects that `tagsistant_fix_checksums` has queued. */
    method DeduplicationLoop(queue: seq<Inode>, content: Deduplication.Contents)
      modifies `tagging, `objects
      ensures State() == Deduplication.Pass(old(State()), content, queue, clash)
    {
      ghost var before := State();
      for k := 0 to |queue|
        invariant State() == Deduplication.Pass(before, content, queue[..k], clash)
      {
        Deduplication.PassStep(before, content, queue, k, clash);
        var stays := DeduplicationKernel(queue[k], content(queue[k]));
      }
      assert queue[..|queue|] == queue;
    }
  }

  /** What the two lookups of `mkdir` return: the first id is 0 when its tag is missing, the second never is. */
  lemma EndsOfRelation(db: Db, t1: Tag, t2: Tag)
    requires db.Sound() && Regular(t1) && Regular(t2)
    ensures var first := db.AfterFetch(t1);
      var middle := if first.Fetched(t2) != 0 then first else first.Created(t2);
      var ready := RelateReady(db, t1, t2);
      && (db.Fetched(t1) != 0 <==> db.HasRow(t1))
      && (db.HasRow(t1) ==> ready.Fetched(t1) == db.Fetched(t1))
      && ready.Fetched(t2) == middle.Fetched(t2) != 0
  {
    var first := db.AfterFetch(t1);
    var middle := if first.Fetched(t2) != 0 then first else first.Created(t2);
    var ready := RelateReady(db, t1, t2);
    RelateReadyKeeps(db, t1, t2);
    db.FetchedIsIdOf(t1);
    db.FetchKeeps(t1);
    first.FetchedIsIdOf(t2);
    first.CreateKeeps(t2);
    middle.FetchedIsIdOf(t2);
    ready.FetchedIsIdOf(t1);
    ready.FetchedIsIdOf(t2);
    SameRowsSameIds(middle, ready);
  }

  lemma UnrelateIs(db: Db, ready: Db, t1: Tag, relation: string, t2: Tag, id1: TagId, id2: TagId)
    requires ready == db.AfterFetch(t1).AfterFetch(t2) && ready.Fetched(t1) == id1 && ready.Fetched(t2) == id2
    requires IsFlat(t1) && IsFlat(t2)
    ensures Runs.RemoveRelation(db, t1, relation, t2) ==
      if KindOf(relation).None? then ready
      else ready.(relations := WithoutRow(ready.relations, Relation(id1, KindOf(relation).value, id2)))
  {
  }

  lemma MakeRelationIs(db: Db, t1: Tag, relation: string, t2: Tag)
    ensures var ready := RelateReady(db, t1, t2);
      Apply(db, AddRelation(t1, relation, t2)) ==
        if db.HasRow(t1) && KindOf(relation).Some?
        then ready.(relations := ready.relations + [Relation(ready.Fetched(t1), KindOf(relation).value, ready.Fetched(t2))])
        else db.(cache := ready.cache)
  {
  }

  /** No row mentions the id 0 of a missing tag. */
  lemma NoSuchRow(db: Db, rows: seq<Relation>, row: Relation)
    requires db.Keyed() && db.TagsExist() && rows == db.relations && (row.tag1 == 0 || row.tag2 == 0)
    ensures WithoutRow(rows, row) == rows
  {
    if row in rows { RelationsGood(db, row); }
    WithoutAbsentRow(rows, row);
  }

  lemma {:induction false} WithoutAbsentRow(rows: seq<Relation>, row: Relation)
    requires row !in rows
    ensures WithoutRow(rows, row) == rows
  {
    if rows != [] {
      WithoutAbsentRow(rows[1..], row);
    }
  }

  lemma SomeAnswer(db: Db, q: Query) returns (row: TagId)
    ensures Answers(db, q, row)
  {
    if exists i :: i in db.tags && q.Matches(db.tags[i]) {
      row :| row in db.tags && q.Matches(db.tags[row]);
    } else {
      row := 0;
    }
  }

  lemma ExactAnswer(db: Db, t: Tag, row: TagId)
    requires db.Keyed() && Answers(db, Query(t.name, Some(t.key), Some(t.value)), row)
    ensures row == db.IdOf(t)
  {
    var q := Query(t.name, Some(t.key), Some(t.value));
    assert q.AsTag() == t;
    if db.HasRow(t) {
      assert q.Matches(db.tags[db.IdOf(t)]);
      db.IdIs(row);
    }
  }
}

/**
 The four tables and the tag-id cache as values, and what each statement of src/sql.c does to
 them.  The file operations are built from these; their runs are in the module `Runs`.
 */
module Tables {
  import opened Schema
  import opened TagKey

  predicate IsFlat(t: Tag) {
    !IsNamespace(t.name) && t.key == "" && t.value == ""
  }

  /** What `mkdir` can put in `tags`: a flat tag, or a triple tag that may still lack key or value. */
  ghost predicate WellNamed(t: Tag) {
    CleanTag(t) && (IsFlat(t) || IsNamespace(t.name))
  }

  /** What objects are tagged with: a flat tag or a complete triple tag. */
  ghost predicate Regular(t: Tag) {
    CleanTag(t) && (IsFlat(t) || (IsNamespace(t.name) && t.key != "" && t.value != ""))
  }

  function Elements(spine: seq<Tag>): set<Tag> {
    set t | t in spine
  }

  lemma ElementsSplit(spine: seq<Tag>)
    requires spine != []
    ensures Elements(spine) == {spine[0]} + Elements(spine[1..])
  {
  }

  ghost predicate AllRegular(spine: seq<Tag>) {
    forall t :: t in spine ==> Regular(t)
  }

  datatype Object = Object(name: string, checksum: string)

  datatype Db = Db(
    tags: map<TagId, Tag>,
    nextTag: TagId,
    objects: map<Inode, Object>,
    nextInode: Inode,
    tagging: set<(Inode, TagId)>,
    relations: seq<Relation>,
    cache: map<string, TagId>)
  {
    // ----- what the tables say -----

    ghost predicate HasRow(t: Tag) {
      exists id :: id in tags && tags[id] == t
    }

    /** `select tag_id from tags where tagname = .. and key = .. and value = .. limit 1`, 0 without a row. */
    ghost function IdOf(t: Tag): (id: TagId)
      ensures HasRow(t) ==> id in tags && tags[id] == t
      ensures !HasRow(t) ==> id == 0
    {
      if HasRow(t) then var id :| id in tags && tags[id] == t; id else 0
    }

    ghost predicate Carries(inode: Inode, t: Tag) {
      exists id :: (inode, id) in tagging && id in tags && tags[id] == t
    }

    ghost predicate IsTagged(inode: Inode) {
      exists id :: (inode, id) in tagging
    }

    // ----- invariants -----

    /** Automatic keys, and the unique constraint on the columns of `tags`. */
    ghost predicate Keyed() {
      && (forall id :: id in tags ==> 0 < id < nextTag && WellNamed(tags[id]))
      && (forall id, id' :: id in tags && id' in tags && tags[id] == tags[id'] ==> id == id')
      && (forall i :: i in objects ==> 0 < i < nextInode)
      && 0 < nextTag && 0 < nextInode
    }

    ghost predicate CachedRight(t: Tag) {
      CacheKey(t) in cache ==> HasRow(t) && cache[CacheKey(t)] == IdOf(t)
    }

    /** Whatever the cache holds for a flat tag or a complete triple tag is what the table says. */
    ghost predicate Coherent() {
      forall t :: Regular(t) ==> CachedRight(t)
    }

    /** A tag id that tagging and relations may mention. */
    ghost predicate GoodId(id: TagId) {
      id in tags && Regular(tags[id])
    }

    ghost predicate TagsExist() {
      && (forall p :: p in tagging ==> GoodId(p.1))
      && (forall k :: 0 <= k < |relations| ==> GoodId(relations[k].tag1) && GoodId(relations[k].tag2))
    }

    ghost predicate ObjectsExist() {
      forall p :: p in tagging ==> p.0 in objects
    }

    /** Everything but that tagged objects exist. */
    ghost predicate Consistent() {
      Keyed() && Coherent() && TagsExist()
    }

    ghost predicate Sound() {
      Consistent() && ObjectsExist()
    }

    // ----- statements -----

    /** What `tagsistant_sql_get_tag_id` returns when it is given a value: the cached id, if any. */
    ghost function Fetched(t: Tag): TagId {
      if CacheKey(t) in cache && cache[CacheKey(t)] != 0 then cache[CacheKey(t)] else IdOf(t)
    }

    ghost function AfterFetch(t: Tag): Db {
      if Fetched(t) == 0 then this else this.(cache := cache[CacheKey(t) := Fetched(t)])
    }

    /** `tagsistant_sql_create_tag`: the unique constraint makes it a no-op on an existing row. */
    ghost function Created(t: Tag): Db {
      if HasRow(t) then this else this.(tags := tags[nextTag := t], nextTag := nextTag + 1)
    }

    /** `tagsistant_sql_tag_object` */
    ghost function Tagged(t: Tag, inode: Inode): Db {
      var db := if Fetched(t) != 0 then this else Created(t);
      db.AfterFetch(t).(tagging := tagging + {(inode, db.Fetched(t))})
    }

    /** `tagsistant_sql_untag_object` */
    ghost function Untagged(t: Tag, inode: Inode): Db {
      AfterFetch(t).(tagging := tagging - {(inode, Fetched(t))})
    }

    /** `tagsistant_sql_delete_tag` */
    ghost function Deleted(t: Tag): Db {
      var id := Fetched(t);
      this.(
        cache := WithoutEntry(cache, CacheKey(t)),
        tags := WithoutTagRow(tags, t),
        tagging := WithoutTagging(tagging, id),
        relations := WithoutTag(relations, id))
    }

    /** `tagsistant_querytree_traverse` with each of the three, over all spine tags of a path. */
    ghost function TaggedAll(spine: seq<Tag>, inode: Inode): Db
      decreases |spine|
    {
      if spine == [] then this else Tagged(spine[0], inode).TaggedAll(spine[1..], inode)
    }

    ghost function UntaggedAll(spine: seq<Tag>, inode: Inode): Db
      decreases |spine|
    {
      if spine == [] then this else Untagged(spine[0], inode).UntaggedAll(spine[1..], inode)
    }

    lemma {:induction false} TaggedAllAppend(a: seq<Tag>, b: seq<Tag>, inode: Inode)
      ensures TaggedAll(a + b, inode) == TaggedAll(a, inode).TaggedAll(b, inode)
      decreases |a|
    {
      if a == [] {
        assert a + b == b;
      } else {
        assert (a + b)[1..] == a[1..] + b;
        Tagged(a[0], inode).TaggedAllAppend(a[1..], b, inode);
      }
    }

    lemma {:induction false} UntaggedAllAppend(a: seq<Tag>, b: seq<Tag>, inode: Inode)
      ensures UntaggedAll(a + b, inode) == UntaggedAll(a, inode).UntaggedAll(b, inode)
      decreases |a|
    {
      if a == [] {
        assert a + b == b;
      } else {
        assert (a + b)[1..] == a[1..] + b;
        Untagged(a[0], inode).UntaggedAllAppend(a[1..], b, inode);
      }
    }

    ghost function DeletedAll(spine: seq<Tag>): Db
      decreases |spine|
    {
      if spine == [] then this else Deleted(spine[0]).DeletedAll(spine[1..])
    }

    // ----- what they keep -----

    lemma FetchedIsIdOf(t: Tag)
      requires Coherent() && Regular(t)
      ensures Fetched(t) == IdOf(t)
    {
      assert CachedRight(t);
    }

    lemma IdIs(id: TagId)
      requires Keyed() && id in tags
      ensures IdOf(tags[id]) == id
    {
      assert HasRow(tags[id]);
    }

    /** A row keeps its id as long as it stays in the table. */
    lemma SameId(db: Db, t: Tag)
      requires Keyed() && db.Keyed() && HasRow(t)
      requires IdOf(t) in db.tags && db.tags[IdOf(t)] == t
      ensures db.HasRow(t) && db.IdOf(t) == IdOf(t)
    {
      db.IdIs(IdOf(t));
    }

    /** A lookup may only add a right entry. */
    lemma FetchKeeps(t: Tag)
      requires Consistent() && CleanTag(t)
      ensures AfterFetch(t).Consistent()
    {
      var db := AfterFetch(t);
      forall u | Regular(u) ensures db.CachedRight(u) {
        assert CachedRight(u);
        if CacheKey(u) == CacheKey(t) { CacheKeyInjective(u, t); }
        if HasRow(u) { SameId(db, u); }
      }
    }

    lemma CreateKeeps(t: Tag)
      requires Consistent() && WellNamed(t)
      ensures Created(t).Consistent()
      ensures forall u :: Created(t).HasRow(u) <==> HasRow(u) || u == t
      ensures forall id :: id in tags ==> id in Created(t).tags && Created(t).tags[id] == tags[id]
    {
      var db := Created(t);
      assert !HasRow(t) ==> db.tags[nextTag] == t;
      forall u | HasRow(u) ensures db.HasRow(u) {
        assert db.tags[IdOf(u)] == u;
      }
      forall u | Regular(u) ensures db.CachedRight(u) {
        assert CachedRight(u);
        if HasRow(u) { SameId(db, u); }
      }
    }

    /** How tagging `inode` with `spine` may change the tables: new rows and new tagging, nothing else. */
    ghost predicate GrownBy(before: Db, spine: set<Tag>, inode: Inode) {
      && objects == before.objects && nextInode == before.nextInode && relations == before.relations
      && (forall u :: HasRow(u) <==> before.HasRow(u) || u in spine)
      && (forall id :: id in before.tags ==> id in tags && tags[id] == before.tags[id])
      && before.tagging <= tagging && (forall p :: p in tagging ==> p in before.tagging || p.0 == inode)
      && (forall j, u :: Carries(j, u) <==> before.Carries(j, u) || (j == inode && u in spine))
      && cache.Keys == before.cache.Keys + set u | u in spine :: CacheKey(u)
    }

    lemma TagExisting(t: Tag, inode: Inode)
      requires Consistent() && Regular(t) && HasRow(t)
      ensures Tagged(t, inode).Consistent() && Tagged(t, inode).GrownBy(this, {t}, inode)
    {
      FetchedIsIdOf(t);
      FetchKeeps(t);
      var fetched := AfterFetch(t);
      var db := Tagged(t, inode);
      assert db.tagging == tagging + {(inode, IdOf(t))};
      forall u ensures db.HasRow(u) <==> HasRow(u) {}
      forall u | Regular(u) ensures db.CachedRight(u) {
        assert fetched.CachedRight(u);
        if fetched.HasRow(u) { fetched.SameId(db, u); }
      }
      forall j, u ensures db.Carries(j, u) <==> Carries(j, u) || (j == inode && u == t) {
        if Carries(j, u) {
          var id :| (j, id) in tagging && id in tags && tags[id] == u;
          assert (j, id) in db.tagging;
        }
        if db.Carries(j, u) {
          var id :| (j, id) in db.tagging && id in db.tags && db.tags[id] == u;
          assert (j, id) in tagging ==> Carries(j, u);
        }
        if j == inode && u == t {
          assert (j, IdOf(t)) in db.tagging && db.tags[IdOf(t)] == t;
        }
      }
    }

    lemma CreateGrows(t: Tag, inode: Inode)
      requires Consistent() && WellNamed(t)
      ensures forall j, u :: Created(t).Carries(j, u) <==> Carries(j, u)
    {
      CreateKeeps(t);
      var db := Created(t);
      forall j: Inode, u ensures db.Carries(j, u) <==> Carries(j, u) {
        if Carries(j, u) {
          var id :| (j, id) in tagging && id in tags && tags[id] == u;
          assert db.tags[id] == u;
        }
        if db.Carries(j, u) {
          var id :| (j, id) in db.tagging && id in db.tags && db.tags[id] == u;
          assert GoodId(id);
        }
      }
    }

    /** Tagging: afterwards the object also carries the tag, whose row exists; nothing else changes. */
    lemma TagKeeps(t: Tag, inode: Inode)
      requires Consistent() && Regular(t)
      ensures Tagged(t, inode).Consistent() && Tagged(t, inode).GrownBy(this, {t}, inode)
    {
      FetchedIsIdOf(t);
      CreateKeeps(t);
      CreateGrows(t, inode);
      var middle := if Fetched(t) != 0 then this else Created(t);
      assert middle.HasRow(t);
      middle.FetchedIsIdOf(t);
      middle.TagExisting(t, inode);
      assert Tagged(t, inode) == middle.Tagged(t, inode);
    }

    /** How untagging `inode` from `spine` may change the tables: tagging rows go, nothing else changes. */
    ghost predicate ShrunkBy(before: Db, spine: set<Tag>, inode: Inode) {
      && objects == before.objects && nextInode == before.nextInode && relations == before.relations
      && tags == before.tags && nextTag == before.nextTag
      && tagging <= before.tagging
      && (forall j, u :: Carries(j, u) <==> before.Carries(j, u) && !(j == inode && u in spine))
      && cache.Keys <= before.cache.Keys + set u | u in spine :: CacheKey(u)
    }

    lemma UntagKeeps(t: Tag, inode: Inode)
      requires Consistent() && Regular(t)
      ensures Untagged(t, inode).Consistent() && Untagged(t, inode).ShrunkBy(this, {t}, inode)
    {
      FetchedIsIdOf(t);
      FetchKeeps(t);
      var fetched := AfterFetch(t);
      var db := Untagged(t, inode);
      forall u | Regular(u) ensures db.CachedRight(u) {
        assert fetched.CachedRight(u);
        if fetched.HasRow(u) { fetched.SameId(db, u); }
      }
      forall j, u ensures db.Carries(j, u) <==> Carries(j, u) && !(j == inode && u == t) {
        if Carries(j, u) {
          var id :| (j, id) in tagging && id in tags && tags[id] == u;
          IdIs(id);
          if !(j == inode && u == t) {
            assert (j, id) in db.tagging;
          }
        }
        if db.Carries(j, u) {
          var id :| (j, id) in db.tagging && id in db.tags && db.tags[id] == u;
          IdIs(id);
        }
      }
    }

    /**
     Deleting a tag takes the taggings and relations of the fetched id along.  For a triple tag without
     key or value that may be the id of another tag, cached by a lookup; even then nothing dangles.
     */
    lemma DeleteKeeps(t: Tag)
      requires Consistent() && CleanTag(t)
      ensures var db := Deleted(t);
        && db.Consistent()
        && db.objects == objects && db.nextInode == nextInode && db.tagging <= tagging
        && (forall u :: db.HasRow(u) <==> HasRow(u) && u != t)
        && (forall u :: db.HasRow(u) ==> db.IdOf(u) == IdOf(u))
        && (forall j, u :: db.Carries(j, u) <==> Carries(j, u) && u != t && IdOf(u) != Fetched(t))
        && (Regular(t) ==> forall j, u :: db.Carries(j, u) <==> Carries(j, u) && u != t)
    {
      var db := Deleted(t);
      var id := Fetched(t);
      if Regular(t) { FetchedIsIdOf(t); }
      forall u ensures db.HasRow(u) <==> HasRow(u) && u != t {
        if HasRow(u) && u != t { assert db.tags[IdOf(u)] == u; }
      }
      forall i | GoodId(i) && i != id ensures db.GoodId(i) {
        IdIs(i);
      }
      forall u | db.HasRow(u) ensures db.IdOf(u) == IdOf(u) {
        SameId(db, u);
      }
      forall u | Regular(u) ensures db.CachedRight(u) {
        assert CachedRight(u);
      }
      forall j: Inode, u ensures db.Carries(j, u) <==> Carries(j, u) && u != t && IdOf(u) != id {
        DeletedCarries(t, j, u);
      }
      if Regular(t) {
        forall j: Inode, u | Carries(j, u) && u != t ensures IdOf(u) != id {
          assert HasRow(u);
        }
      }
    }

    lemma DeletedCarries(t: Tag, j: Inode, u: Tag)
      requires Consistent()
      ensures Deleted(t).Carries(j, u) <==> Carries(j, u) && u != t && IdOf(u) != Fetched(t)
    {
      var db := Deleted(t);
      if i :| (j, i) in tagging && i in tags && tags[i] == u {
        IdIs(i);
        assert u != t && i != Fetched(t) ==> (j, i) in db.tagging && db.tags[i] == u;
      }
      if i :| (j, i) in db.tagging && i in db.tags && db.tags[i] == u {
        IdIs(i);
      }
    }

    /**
     A deletion takes the deleted tag, and no other, from the objects exactly when the fetched id is its
     own, or nobody is tagged with the id it takes for its own.
     */
    lemma DeletesOnlyIff(t: Tag)
      requires Consistent() && CleanTag(t)
      ensures (forall j, u :: Deleted(t).Carries(j, u) <==> Carries(j, u) && u != t)
        <==> Fetched(t) == IdOf(t) || forall j :: (j, Fetched(t)) !in tagging
    {
      var id := Fetched(t);
      DeleteKeeps(t);
      if id != IdOf(t) && exists j :: (j, id) in tagging {
        var j: Inode :| (j, id) in tagging;
        assert GoodId((j, id).1);
        IdIs(id);
        assert Carries(j, tags[id]) && !Deleted(t).Carries(j, tags[id]);
      } else {
        forall j: Inode, u | Carries(j, u) && u != t ensures IdOf(u) != id {
          var i :| (j, i) in tagging && i in tags && tags[i] == u;
          IdIs(i);
        }
      }
    }

    /** The ids that deleting the tags of a path one after the other takes for theirs. */
    ghost function FetchedAlong(spine: seq<Tag>): set<TagId>
      decreases |spine|
    {
      if spine == [] then {} else {Fetched(spine[0])} + Deleted(spine[0]).FetchedAlong(spine[1..])
    }

    lemma {:induction false} TagAllKeeps(spine: seq<Tag>, inode: Inode)
      requires Consistent() && AllRegular(spine)
      ensures TaggedAll(spine, inode).Consistent()
      ensures TaggedAll(spine, inode).GrownBy(this, Elements(spine), inode)
      decreases |spine|
    {
      if spine != [] {
        TagKeeps(spine[0], inode);
        var middle := Tagged(spine[0], inode);
        middle.TagAllKeeps(spine[1..], inode);
        ElementsSplit(spine);
        TaggedAll(spine, inode).GrowsOn(this, middle, {spine[0]}, Elements(spine[1..]), inode);
      }
    }

    lemma GrowsOn(before: Db, middle: Db, some: set<Tag>, others: set<Tag>, inode: Inode)
      requires middle.GrownBy(before, some, inode) && GrownBy(middle, others, inode)
      ensures GrownBy(before, some + others, inode)
    {
    }

    lemma {:induction false} UntagAllKeeps(spine: seq<Tag>, inode: Inode)
      requires Consistent() && AllRegular(spine)
      ensures UntaggedAll(spine, inode).Consistent()
      ensures UntaggedAll(spine, inode).ShrunkBy(this, Elements(spine), inode)
      decreases |spine|
    {
      if spine != [] {
        UntagKeeps(spine[0], inode);
        var middle := Untagged(spine[0], inode);
        middle.UntagAllKeeps(spine[1..], inode);
        ElementsSplit(spine);
        UntaggedAll(spine, inode).ShrinksOn(this, middle, {spine[0]}, Elements(spine[1..]), inode);
      }
    }

    lemma ShrinksOn(before: Db, middle: Db, some: set<Tag>, others: set<Tag>, inode: Inode)
      requires middle.ShrunkBy(before, some, inode) && ShrunkBy(middle, others, inode)
      ensures ShrunkBy(before, some + others, inode)
    {
    }

    lemma {:induction false} DeleteAllKeeps(spine: seq<Tag>)
      requires Consistent() && forall k :: 0 <= k < |spine| ==> CleanTag(spine[k])
      ensures var db := DeletedAll(spine);
        && db.Consistent()
        && db.objects == objects && db.nextInode == nextInode && db.tagging <= tagging
        && (forall u :: db.HasRow(u) <==> HasRow(u) && u !in spine)
        && (forall j, u :: db.Carries(j, u) <==> Carries(j, u) && u !in spine && IdOf(u) !in FetchedAlong(spine))
        && (AllRegular(spine) ==> forall j, u :: db.Carries(j, u) <==> Carries(j, u) && u !in spine)
      decreases |spine|
    {
      if spine != [] {
        DeleteKeeps(spine[0]);
        var middle := Deleted(spine[0]);
        middle.DeleteAllKeeps(spine[1..]);
        forall j, u | middle.Carries(j, u) ensures middle.IdOf(u) == IdOf(u) {
          assert middle.HasRow(u);
        }
      }
    }
  }

  /** `g_hash_table_remove` on the cache. */
  function WithoutEntry(cache: map<string, TagId>, key: string): map<string, TagId> {
    map k | k in cache && k != key :: cache[k]
  }

  /** `delete from tags where tagname = .. and key = .. and value = ..` */
  function WithoutTagRow(tags: map<TagId, Tag>, t: Tag): map<TagId, Tag> {
    map i | i in tags && tags[i] != t :: tags[i]
  }

  /** `delete from tagging where tag_id = ..` */
  function WithoutTagging(tagging: set<(Inode, TagId)>, id: TagId): set<(Inode, TagId)> {
    set p | p in tagging && p.1 != id
  }

  /** `delete from relations where tag1_id = .. or tag2_id = ..` */
  function WithoutTag(rows: seq<Relation>, id: TagId): (left: seq<Relation>)
    ensures forall r :: r in left <==> r in rows && r.tag1 != id && r.tag2 != id
  {
    if rows == [] then []
    else (if rows[0].tag1 == id || rows[0].tag2 == id then [] else [rows[0]]) + WithoutTag(rows[1..], id)
  }
}

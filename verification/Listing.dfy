/**
 Directory listings of a query (src/fuse_operations/readdir.c:93-130): objects that share a name
 are told apart by their inodes, and so are all objects when the query forces it.
 */
module Listing {
  import opened Schema
  import opened InodeCodec

  /** `tagsistant_file_handle` */
  datatype Handle = Handle(name: string, inode: Inode)

  /** The reusable data set: each name of the result with the objects that bear it. */
  type DataSet = map<string, seq<Handle>>

  /** What is assumed of the module that fills the data set, which is not part of this model. */
  ghost predicate WellFormed(rds: DataSet) {
    forall n :: n in rds ==>
      && rds[n] != []
      && (forall k :: 0 <= k < |rds[n]| ==> rds[n][k].name == n && 1 <= rds[n][k].inode < TWO_32)
      && (forall k, l :: 0 <= k < l < |rds[n]| ==> rds[n][k] != rds[n][l])
  }

  /** What one object looks like in the listing. */
  function Shown(h: Handle, homonyms: nat, force: bool): string
    requires h.inode < TWO_32
  {
    if homonyms > 1 || force then WithInode(h.inode, h.name) else h.name
  }

  predicate Bounded(list: seq<Handle>) {
    forall k :: 0 <= k < |list| ==> list[k].inode < TWO_32
  }

  function ShownAll(list: seq<Handle>, homonyms: nat, force: bool): seq<string>
    requires Bounded(list)
  {
    if list == [] then []
    else ShownAll(list[..|list| - 1], homonyms, force) + [Shown(list[|list| - 1], homonyms, force)]
  }

  /** One entry per object, in the order of the list. */
  lemma {:induction false} ShownAt(list: seq<Handle>, k: nat, homonyms: nat, force: bool)
    requires k < |list| && Bounded(list)
    ensures |ShownAll(list, homonyms, force)| == |list|
    ensures ShownAll(list, homonyms, force)[k] == Shown(list[k], homonyms, force)
  {
    if |list| > 1 {
      ShownAt(list[..|list| - 1], if k < |list| - 1 then k else 0, homonyms, force);
    }
  }

  lemma ShownStep(list: seq<Handle>, k: nat, homonyms: nat, force: bool)
    requires k < |list| && Bounded(list)
    ensures ShownAll(list[..k + 1], homonyms, force) == ShownAll(list[..k], homonyms, force) + [Shown(list[k], homonyms, force)]
  {
    assert list[..k + 1][..k] == list[..k];
  }

  /** The buffer behind FUSE's `filler`, with the query's `force_inode_in_filenames`. */
  class Directory {
    var entries: seq<string>
    const force: bool

    constructor (force: bool)
      ensures entries == [] && this.force == force
    {
      entries := [];
      this.force := force;
    }

    method Filler(entry: string)
      modifies this
      ensures entries == old(entries) + [entry]
    {
      entries := entries + [entry];
    }

    /** The loop that adds inodes to file names. */
    method FillHomonyms(list: seq<Handle>)
      requires |list| > 1 && Bounded(list)
      modifies this
      ensures entries == old(entries) + ShownAll(list, |list|, force)
    {
      for k := 0 to |list|
        invariant entries == old(entries) + ShownAll(list[..k], |list|, force)
      {
        Filler(WithInode(list[k].inode, list[k].name));
        ShownStep(list, k, |list|, force);
      }
      assert list[..|list|] == list;
    }

    /** `tagsistant_readdir_on_store_filler` */
    method StoreFiller(list: seq<Handle>)
      requires Bounded(list)
      modifies this
      ensures entries == old(entries) + ShownAll(list, |list|, force)
    {
      if |list| > 1 {
        FillHomonyms(list);
      } else if list != [] {
        if force {
          Filler(WithInode(list[0].inode, list[0].name));
        } else {
          Filler(list[0].name);
        }
        assert ShownAll(list, 1, force) == [Shown(list[0], 1, force)];
      }
    }
  }

  ghost predicate Listed(rds: DataSet, h: Handle) {
    h.name in rds && h in rds[h.name]
  }

  function EntryOf(rds: DataSet, h: Handle, force: bool): string
    requires h.name in rds && h.inode < TWO_32
  {
    Shown(h, |rds[h.name]|, force)
  }

  /** No two listed objects share an entry. */
  ghost predicate AllDistinct(rds: DataSet, force: bool)
    requires WellFormed(rds)
  {
    forall g, h :: Listed(rds, g) && Listed(rds, h) && g != h ==> EntryOf(rds, g, force) != EntryOf(rds, h, force)
  }

  /** A name borne by one object alone, which spells out the prefixed name of one of several homonyms. */
  ghost predicate Impostor(rds: DataSet, n: string, h: Handle)
    requires WellFormed(rds)
  {
    n in rds && |rds[n]| == 1 && Listed(rds, h) && |rds[h.name]| > 1 && n == WithInode(h.inode, h.name)
  }

  /** Entries are distinct exactly when inodes are forced or no stored name is an impostor. */
  lemma DistinctIffNoImpostor(rds: DataSet, force: bool)
    requires WellFormed(rds)
    ensures AllDistinct(rds, force) <==> force || !exists n, h :: Impostor(rds, n, h)
  {
    if force || !exists n, h :: Impostor(rds, n, h) {
      forall g, h | Listed(rds, g) && Listed(rds, h) && g != h
        ensures EntryOf(rds, g, force) != EntryOf(rds, h, force)
      {
        if EntryOf(rds, g, force) == EntryOf(rds, h, force) {
          Clash(rds, force, g, h);
        }
      }
    }
    if !force && exists n, h :: Impostor(rds, n, h) {
      var n, h :| Impostor(rds, n, h);
      var g := rds[n][0];
      assert Listed(rds, g);
      WithInodeLonger(h.inode, h.name);
    }
  }

  lemma WithInodeLonger(inode: Inode, name: string)
    requires inode < TWO_32
    ensures |WithInode(inode, name)| > |name|
  {
  }

  lemma Clash(rds: DataSet, force: bool, g: Handle, h: Handle)
    requires WellFormed(rds) && Listed(rds, g) && Listed(rds, h) && g != h
    requires EntryOf(rds, g, force) == EntryOf(rds, h, force)
    ensures !force && (Impostor(rds, g.name, h) || Impostor(rds, h.name, g))
  {
    if force || (|rds[g.name]| > 1 && |rds[h.name]| > 1) {
      WithInodeInjective(g.inode, g.name, h.inode, h.name);
    }
  }

  /**
   When no stored name looks prefixed, all entries are distinct and every entry can be read back:
   a prefixed one yields its own object, a plain one yields no inode and its own name.
   */
  lemma EveryEntryDecodes(rds: DataSet, force: bool, h: Handle)
    requires WellFormed(rds) && Listed(rds, h)
    requires forall n :: n in rds ==> !HasPrefix(n) && '/' !in n
    requires forall g :: Listed(rds, g) ==> g.inode < TWO_31
    ensures AllDistinct(rds, force)
    ensures Strip(EntryOf(rds, h, force)) == h.name
    ensures Extract(EntryOf(rds, h, force)) == if force || |rds[h.name]| > 1 then h.inode else 0
  {
    forall n, g | Impostor(rds, n, g) ensures false {
      PrefixOf(Decimal(g.inode), g.name);
    }
    DistinctIffNoImpostor(rds, force);
    if force || |rds[h.name]| > 1 {
      RoundTrip(h.inode, h.name);
    } else {
      NoSlashNoInode(h.name);
    }
  }
}

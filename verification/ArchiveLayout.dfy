/** Where `tagsistant_querytree_rebuild_paths` puts an object on disk (src/path_resolution.c:986-1017). */
module ArchiveLayout {
  import opened Schema
  import opened InodeCodec

  const DEPTH := 1000

  function Reverse(s: string): (r: string)
    ensures |r| == |s|
  {
    if s == "" then "" else Reverse(s[1..]) + [s[0]]
  }

  /** Every character becomes a directory of its own. */
  function Spread(s: string): (r: string)
    ensures |r| == 2 * |s|
    ensures forall k :: 0 <= k < |s| ==> r[2 * k] == '/' && r[2 * k + 1] == s[k]
  {
    if s == "" then "" else Spread(s[..|s| - 1]) + ['/', s[|s| - 1]]
  }

  function Directory(inode: Inode): string {
    Spread(Reverse(Decimal(inode % DEPTH)))
  }

  function FullPath(archive: string, inode: Inode, name: string): string
    requires inode < TWO_32
  {
    archive + PathBelow(inode, name)
  }

  /** `archive_path`, as it follows the root of the archive. */
  function PathBelow(inode: Inode, name: string): string
    requires inode < TWO_32
  {
    Directory(inode) + "/" + WithInode(inode, name)
  }

  lemma {:induction false} ReverseAt(s: string, k: nat)
    requires k < |s|
    ensures Reverse(s)[k] == s[|s| - 1 - k]
  {
    if k < |s| - 1 {
      ReverseAt(s[1..], k);
    }
  }

  lemma ReverseInjective(s: string, t: string)
    requires Reverse(s) == Reverse(t)
    ensures s == t
  {
    forall k | 0 <= k < |s| ensures s[k] == t[k] {
      ReverseAt(s, |s| - 1 - k);
      ReverseAt(t, |s| - 1 - k);
    }
  }

  lemma SpreadInjective(s: string, t: string)
    requires Spread(s) == Spread(t)
    ensures s == t
  {
    assert |s| == |t|;
    forall k | 0 <= k < |s| ensures s[k] == t[k] {
      assert Spread(s)[2 * k + 1] == Spread(t)[2 * k + 1];
    }
  }

  /** A directory for each digit of the inode modulo 1000, the last one first. */
  lemma DirectoryByDigits(inode: Inode)
    ensures var digits, directory := Decimal(inode % 1000), Directory(inode);
      && |directory| == 2 * |digits|
      && forall k :: 0 <= k < |digits| ==> directory[2 * k] == '/' && directory[2 * k + 1] == digits[|digits| - 1 - k]
  {
    var digits, directory := Decimal(inode % 1000), Directory(inode);
    var reversed := Reverse(digits);
    assert directory == Spread(reversed);
    forall k | 0 <= k < |digits|
      ensures directory[2 * k] == '/' && directory[2 * k + 1] == digits[|digits| - 1 - k]
    {
      ReverseAt(digits, k);
      assert directory[2 * k + 1] == reversed[k];
    }
  }

  /** Two objects share a directory exactly when their inodes agree modulo 1000. */
  lemma SameDirectoryIffCongruent(i: Inode, j: Inode)
    ensures Directory(i) == Directory(j) <==> i % 1000 == j % 1000
  {
    if Directory(i) == Directory(j) {
      SpreadInjective(Reverse(Decimal(i % DEPTH)), Reverse(Decimal(j % DEPTH)));
      ReverseInjective(Decimal(i % DEPTH), Decimal(j % DEPTH));
      ParseInvertsDecimal(i % DEPTH);
      ParseInvertsDecimal(j % DEPTH);
    }
  }

  lemma SlashAt(s: string, k: nat, rest: string)
    requires k <= |s|
    ensures (Spread(s) + "/" + rest)[2 * k] == '/'
  {
    assert k < |s| ==> Spread(s)[2 * k] == '/';
  }

  lemma NoSlashAt(s: string, inode: Inode, name: string)
    requires inode < TWO_32
    ensures var path := Spread(s) + "/" + WithInode(inode, name);
      2 * |s| + 2 < |path| && path[2 * |s| + 2] != '/'
  {
    PrintSignedShape(inode);
    var p := WithInode(inode, name);
    assert p[1] != '/';
    assert (Spread(s) + "/" + p)[|Spread(s)| + 1..] == p;
  }

  lemma ShallowerDiffers(i: Inode, n: string, j: Inode, m: string)
    requires i < TWO_32 && j < TWO_32 && |Directory(i)| < |Directory(j)|
    ensures PathBelow(i, n) != PathBelow(j, m)
  {
    var d := Reverse(Decimal(i % DEPTH));
    NoSlashAt(d, i, n);
    SlashAt(Reverse(Decimal(j % DEPTH)), |d| + 1, WithInode(j, m));
  }

  lemma SameDepthDiffers(i: Inode, n: string, j: Inode, m: string)
    requires i < TWO_32 && j < TWO_32 && i != j && |Directory(i)| == |Directory(j)|
    ensures PathBelow(i, n) != PathBelow(j, m)
  {
    var at := |Directory(i)| + 1;
    assert PathBelow(i, n)[at..] == WithInode(i, n) && PathBelow(j, m)[at..] == WithInode(j, m);
    if WithInode(i, n) == WithInode(j, m) {
      WithInodeInjective(i, n, j, m);
    }
  }

  /** Where an object is kept. */
  lemma StoredPath(archive: string, inode: Inode, name: string)
    requires inode < 0x8000_0000
    ensures FullPath(archive, inode, name) == archive + (Directory(inode) + "/" + (Decimal(inode) + "___" + name))
  {
  }

  /** Distinct inodes never share a path, whatever the objects are called. */
  lemma DistinctPaths(archive: string, i: Inode, n: string, j: Inode, m: string)
    requires i < TWO_32 && j < TWO_32 && i != j
    ensures FullPath(archive, i, n) != FullPath(archive, j, m)
  {
    if |Directory(i)| < |Directory(j)| {
      ShallowerDiffers(i, n, j, m);
    } else if |Directory(j)| < |Directory(i)| {
      ShallowerDiffers(j, m, i, n);
    } else {
      SameDepthDiffers(i, n, j, m);
    }
    assert FullPath(archive, i, n)[|archive|..] == PathBelow(i, n);
    assert FullPath(archive, j, m)[|archive|..] == PathBelow(j, m);
  }
}

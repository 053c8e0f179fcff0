/**
  What the duplicate file finder computes, as reference definitions over
  values, and the guarantees it gives about them.

  The scan sees the file system through two observations: the size of a
  path (`None` when `stat` fails) and the hex digest `compute_file_hash`
  returns for it (the empty string when reading the file fails). Both are
  fixed functions of the path for the duration of one scan.
*/
module DuplicateFinder {
  import opened Wrappers
  import opened Buckets

  type Path = string

  /** A hex digest as the hasher returns it; `HashFailed` marks a file that could not be read. */
  type Digest = string

  const HashFailed: Digest := ""

  /** What one scan observes of the file system. */
  datatype Disk = Disk(size: Path -> Option<nat>, hash: Path -> Digest)

  /** One file name produced by the directory walk. */
  datatype WalkEntry = WalkEntry(path: Path, isSymlink: bool)

  /** A reported set of files with the same size and the same content digest. */
  datatype DuplicateGroup = DuplicateGroup(fileSize: nat, files: seq<Path>)

  /** The walk output with symbolic links removed, in walk order. */
  function RegularFiles(walk: seq<WalkEntry>): (files: seq<Path>)
    ensures |files| <= |walk|
    ensures forall p :: p in files <==> WalkEntry(p, false) in walk
  {
    if walk == [] then []
    else
      var init, e := walk[..|walk| - 1], walk[|walk| - 1];
      assert walk == init + [e];
      RegularFiles(init) + (if e.isSymlink then [] else [e.path])
  }

  /** The filter keeps walk order: filtering two walks in turn is filtering them joined. */
  lemma {:induction false} RegularFilesAppend(w1: seq<WalkEntry>, w2: seq<WalkEntry>)
    ensures RegularFiles(w1 + w2) == RegularFiles(w1) + RegularFiles(w2)
    decreases |w2|
  {
    if w2 == [] {
      assert w1 + w2 == w1;
    } else {
      var init, e := w2[..|w2| - 1], w2[|w2| - 1];
      SplitLast(w1, w2);
      RegularFilesSnoc(w1 + init, e);
      RegularFilesSnoc(init, e);
      RegularFilesAppend(w1, init);
      AppendAssoc(RegularFiles(w1), RegularFiles(init), if e.isSymlink then [] else [e.path]);
    }
  }

  lemma RegularFilesSnoc(walk: seq<WalkEntry>, e: WalkEntry)
    ensures RegularFiles(walk + [e]) == RegularFiles(walk) + if e.isSymlink then [] else [e.path]
  {
    assert (walk + [e])[..|walk|] == walk;
  }

  /** The key a hashed file is filed under: its digest, or none when hashing failed. */
  function DigestKey(hash: Path -> Digest): Path -> Option<Digest> {
    p => if hash(p) == HashFailed then None else Some(hash(p))
  }

  /** The groups emitted for the digests `ds` of one size bucket: one per digest shared by two or more files. */
  function DigestGroups(size: nat, paths: seq<Path>, hash: Path -> Digest, ds: seq<Digest>): seq<DuplicateGroup> {
    if ds == [] then []
    else
      var b := Bucket(paths, DigestKey(hash), ds[|ds| - 1]);
      DigestGroups(size, paths, hash, ds[..|ds| - 1]) + (if |b| > 1 then [DuplicateGroup(size, b)] else [])
  }

  /**
    The groups emitted for the bucket `paths` of files of one size: none for
    a lone file, the whole bucket for empty files, and otherwise one group
    per digest shared by at least two of them, in first-seen digest order.
  */
  function SizeGroups(size: nat, paths: seq<Path>, hash: Path -> Digest): seq<DuplicateGroup> {
    if |paths| < 2 then []
    else if size == 0 then [DuplicateGroup(0, paths)]
    else DigestGroups(size, paths, hash, Keys(paths, DigestKey(hash)))
  }

  /** The groups emitted for the size buckets `sizes`, in that order. */
  function GroupsOver(files: seq<Path>, disk: Disk, sizes: seq<nat>): seq<DuplicateGroup> {
    if sizes == [] then []
    else
      var k := sizes[|sizes| - 1];
      GroupsOver(files, disk, sizes[..|sizes| - 1]) + SizeGroups(k, Bucket(files, disk.size, k), disk.hash)
  }

  /** The duplicate groups a scan of `files` reports, in report order. */
  function Detect(files: seq<Path>, disk: Disk): seq<DuplicateGroup> {
    GroupsOver(files, disk, Keys(files, disk.size))
  }

  /** The files hashed for the size buckets `sizes`, in hashing order. */
  function HashedOver(files: seq<Path>, disk: Disk, sizes: seq<nat>): seq<Path> {
    if sizes == [] then []
    else
      var k := sizes[|sizes| - 1];
      var b := Bucket(files, disk.size, k);
      HashedOver(files, disk, sizes[..|sizes| - 1]) + (if k > 0 && |b| >= 2 then b else [])
  }

  /** Every file a scan of `files` passes to the hasher, in order. */
  function HashedFiles(files: seq<Path>, disk: Disk): seq<Path> {
    HashedOver(files, disk, Keys(files, disk.size))
  }

  /** The evidence the finder takes for two files having the same content. */
  predicate Matches(disk: Disk, p: Path, q: Path) {
    && disk.size(p).Some?
    && disk.size(p) == disk.size(q)
    && (disk.size(p).value == 0 || (disk.hash(p) != HashFailed && disk.hash(p) == disk.hash(q)))
  }

  /** How many of the groups are groups of empty files. */
  function ZeroCount(gs: seq<DuplicateGroup>): nat {
    if gs == [] then 0
    else ZeroCount(gs[..|gs| - 1]) + (if gs[|gs| - 1].fileSize == 0 then 1 else 0)
  }

  /** The number of files listed over all groups (the report's "Total duplicated files"). */
  function TotalFiles(gs: seq<DuplicateGroup>): nat {
    if gs == [] then 0
    else TotalFiles(gs[..|gs| - 1]) + |gs[|gs| - 1].files|
  }

  /** The bytes taken by every copy beyond the first of each group (the report's "Total wasted space"). */
  function WastedBytes(gs: seq<DuplicateGroup>): nat {
    if gs == [] then 0
    else
      var g := gs[|gs| - 1];
      WastedBytes(gs[..|gs| - 1]) + (if |g.files| == 0 then 0 else (|g.files| - 1) * g.fileSize)
  }

  /** The position of `k` in `ks`. */
  function IndexOf<K(==)>(ks: seq<K>, k: K): (i: nat)
    requires k in ks
    ensures i < |ks| && ks[i] == k && k !in ks[..i]
  {
    if ks[0] == k then 0
    else
      var j := IndexOf(ks[1..], k);
      assert ks[1..][..j] == ks[1..j + 1];
      assert ks[..j + 1] == [ks[0]] + ks[1..j + 1];
      j + 1
  }

  // ---------------------------------------------------------------------
  // Structure of the group sequence
  // ---------------------------------------------------------------------

  lemma {:induction false} DigestGroupsMember(size: nat, paths: seq<Path>, hash: Path -> Digest, ds: seq<Digest>, g: DuplicateGroup)
    requires g in DigestGroups(size, paths, hash, ds)
    ensures exists d :: d in ds && |Bucket(paths, DigestKey(hash), d)| >= 2 &&
                        g == DuplicateGroup(size, Bucket(paths, DigestKey(hash), d))
  {
    var init, d := ds[..|ds| - 1], ds[|ds| - 1];
    if g in DigestGroups(size, paths, hash, init) {
      DigestGroupsMember(size, paths, hash, init, g);
      var e :| e in init && |Bucket(paths, DigestKey(hash), e)| >= 2 &&
               g == DuplicateGroup(size, Bucket(paths, DigestKey(hash), e));
      assert e in ds;
    }
  }

  lemma {:induction false} DigestGroupsIncludes(size: nat, paths: seq<Path>, hash: Path -> Digest, ds: seq<Digest>, d: Digest)
    requires d in ds && |Bucket(paths, DigestKey(hash), d)| >= 2
    ensures DuplicateGroup(size, Bucket(paths, DigestKey(hash), d)) in DigestGroups(size, paths, hash, ds)
  {
    var init := ds[..|ds| - 1];
    if d != ds[|ds| - 1] {
      assert ds == init + [ds[|ds| - 1]];
      DigestGroupsIncludes(size, paths, hash, init, d);
    }
  }

  lemma {:induction false} GroupsOverMember(files: seq<Path>, disk: Disk, sizes: seq<nat>, g: DuplicateGroup)
    requires g in GroupsOver(files, disk, sizes)
    ensures exists k :: k in sizes && g in SizeGroups(k, Bucket(files, disk.size, k), disk.hash)
  {
    var init := sizes[..|sizes| - 1];
    if g in GroupsOver(files, disk, init) {
      GroupsOverMember(files, disk, init, g);
      var k :| k in init && g in SizeGroups(k, Bucket(files, disk.size, k), disk.hash);
      assert k in sizes;
    }
  }

  lemma {:induction false} GroupsOverIncludes(files: seq<Path>, disk: Disk, sizes: seq<nat>, k: nat, g: DuplicateGroup)
    requires k in sizes && g in SizeGroups(k, Bucket(files, disk.size, k), disk.hash)
    ensures g in GroupsOver(files, disk, sizes)
  {
    var init := sizes[..|sizes| - 1];
    if k != sizes[|sizes| - 1] {
      assert sizes == init + [sizes[|sizes| - 1]];
      GroupsOverIncludes(files, disk, init, k, g);
    }
  }

  /** What every group built from one size bucket looks like. */
  /** A group of a size bucket is the whole bucket for empty files, and one of its digest groups otherwise. */
  lemma SizeGroupsCases(size: nat, paths: seq<Path>, hash: Path -> Digest, g: DuplicateGroup)
    requires g in SizeGroups(size, paths, hash)
    ensures |paths| >= 2
    ensures size == 0 ==> g == DuplicateGroup(0, paths)
    ensures size > 0 ==> g in DigestGroups(size, paths, hash, Keys(paths, DigestKey(hash)))
  {
  }

  lemma SizeGroupsShape(size: nat, paths: seq<Path>, hash: Path -> Digest, g: DuplicateGroup)
    requires g in SizeGroups(size, paths, hash)
    ensures g.fileSize == size && |g.files| >= 2 && IsSubseq(g.files, paths)
    ensures forall p :: p in g.files ==> p in paths
    ensures size > 0 ==> forall p, q :: p in g.files && q in g.files ==> hash(p) != HashFailed && hash(p) == hash(q)
  {
    SizeGroupsCases(size, paths, hash, g);
    if size == 0 {
      SubseqReflexive(paths);
    } else {
      var key := DigestKey(hash);
      DigestGroupsMember(size, paths, hash, Keys(paths, key), g);
      var d :| d in Keys(paths, key) && |Bucket(paths, key, d)| >= 2 && g == DuplicateGroup(size, Bucket(paths, key, d));
      BucketIsSubseq(paths, key, d);
      forall p | p in g.files
        ensures hash(p) != HashFailed && hash(p) == d
      {
        assert key(p) == Some(d);
      }
    }
  }

  // ---------------------------------------------------------------------
  // Guarantees of the finder
  // ---------------------------------------------------------------------

  /**
    Every reported group has at least two members, lists them in input
    order, and all of them have the group's size; for non-empty files they
    also share one successfully computed digest.
  */
  lemma GroupSound(files: seq<Path>, disk: Disk, g: DuplicateGroup)
    requires g in Detect(files, disk)
    ensures |g.files| >= 2
    ensures IsSubseq(g.files, files)
    ensures forall p :: p in g.files ==> p in files && disk.size(p) == Some(g.fileSize)
    ensures g.fileSize > 0 ==>
              forall p, q :: p in g.files && q in g.files ==> disk.hash(p) != HashFailed && disk.hash(p) == disk.hash(q)
  {
    GroupsOverMember(files, disk, Keys(files, disk.size), g);
    var k :| k in Keys(files, disk.size) && g in SizeGroups(k, Bucket(files, disk.size, k), disk.hash);
    SizeGroupsShape(k, Bucket(files, disk.size, k), disk.hash, g);
    BucketIsSubseq(files, disk.size, k);
    SubseqTransitive(g.files, Bucket(files, disk.size, k), files);
  }

  lemma TwoDistinctMembers<T>(s: seq<T>, p: T, q: T)
    requires p in s && q in s && p != q
    ensures |s| >= 2
  {
  }

  /** Two distinct input files that match by size and digest end up in one group. */
  lemma GroupComplete(files: seq<Path>, disk: Disk, p: Path, q: Path)
    requires p in files && q in files && p != q
    requires Matches(disk, p, q)
    ensures exists g :: g in Detect(files, disk) && p in g.files && q in g.files
  {
    var k := disk.size(p).value;
    var b := Bucket(files, disk.size, k);
    assert p in b && q in b;
    TwoDistinctMembers(b, p, q);
    var sizes := Keys(files, disk.size);
    assert k in sizes;
    if k == 0 {
      GroupsOverIncludes(files, disk, sizes, k, DuplicateGroup(0, b));
    } else {
      var key := DigestKey(disk.hash);
      var d := disk.hash(p);
      var bd := Bucket(b, key, d);
      assert p in bd && q in bd;
      TwoDistinctMembers(bd, p, q);
      DigestGroupsIncludes(k, b, disk.hash, Keys(b, key), d);
      GroupsOverIncludes(files, disk, sizes, k, DuplicateGroup(k, bd));
    }
  }

  /**
    Grouping correctness: two distinct input files share a reported group
    exactly when both sizes are known and equal and, unless the files are
    empty, both digests were computed and are equal.
  */
  lemma SameGroupIff(files: seq<Path>, disk: Disk, p: Path, q: Path)
    requires p in files && q in files && p != q
    ensures (exists g :: g in Detect(files, disk) && p in g.files && q in g.files) <==> Matches(disk, p, q)
  {
    if exists g :: g in Detect(files, disk) && p in g.files && q in g.files {
      var g :| g in Detect(files, disk) && p in g.files && q in g.files;
      GroupSound(files, disk, g);
    }
    if Matches(disk, p, q) {
      GroupComplete(files, disk, p, q);
    }
  }

  /**
    A group is the whole class of each of its members: every file of its
    size, or for non-empty files every file of its size with the member's
    digest.
  */
  lemma GroupIsWholeClass(files: seq<Path>, disk: Disk, g: DuplicateGroup, p: Path)
    requires g in Detect(files, disk) && p in g.files
    ensures var b := Bucket(files, disk.size, g.fileSize);
            g.files == if g.fileSize == 0 then b else Bucket(b, DigestKey(disk.hash), disk.hash(p))
  {
    GroupsOverMember(files, disk, Keys(files, disk.size), g);
    var k :| k in Keys(files, disk.size) && g in SizeGroups(k, Bucket(files, disk.size, k), disk.hash);
    var b := Bucket(files, disk.size, k);
    SizeGroupsShape(k, b, disk.hash, g);
    SizeGroupsCases(k, b, disk.hash, g);
    if k > 0 {
      var key := DigestKey(disk.hash);
      DigestGroupsMember(k, b, disk.hash, Keys(b, key), g);
      var d :| d in Keys(b, key) && |Bucket(b, key, d)| >= 2 && g == DuplicateGroup(k, Bucket(b, key, d));
      assert key(p) == Some(d);
    }
  }

  /** The groups partition the files they list: two groups sharing a file are the same group. */
  lemma GroupsDisjoint(files: seq<Path>, disk: Disk, g1: DuplicateGroup, g2: DuplicateGroup, p: Path)
    requires g1 in Detect(files, disk) && g2 in Detect(files, disk)
    requires p in g1.files && p in g2.files
    ensures g1 == g2
  {
    GroupSound(files, disk, g1);
    GroupSound(files, disk, g2);
    GroupIsWholeClass(files, disk, g1, p);
    GroupIsWholeClass(files, disk, g2, p);
  }

  /** A file whose size cannot be read, or whose non-empty content cannot be hashed, is in no group. */
  lemma FailedFilesInNoGroup(files: seq<Path>, disk: Disk, p: Path)
    requires disk.size(p) == None || (disk.size(p) != Some(0) && disk.hash(p) == HashFailed)
    ensures forall g :: g in Detect(files, disk) ==> p !in g.files
  {
    forall g | g in Detect(files, disk)
      ensures p !in g.files
    {
      GroupSound(files, disk, g);
    }
  }

  lemma {:induction false} ZeroCountAppend(a: seq<DuplicateGroup>, b: seq<DuplicateGroup>)
    ensures ZeroCount(a + b) == ZeroCount(a) + ZeroCount(b)
  {
    if b != [] {
      assert (a + b)[..|a + b| - 1] == a + b[..|b| - 1];
      ZeroCountAppend(a, b[..|b| - 1]);
    } else {
      assert a + b == a;
    }
  }

  lemma {:induction false} DigestGroupsNotEmptyFiles(size: nat, paths: seq<Path>, hash: Path -> Digest, ds: seq<Digest>)
    requires size > 0
    ensures ZeroCount(DigestGroups(size, paths, hash, ds)) == 0
  {
    if ds != [] {
      var init := ds[..|ds| - 1];
      var b := Bucket(paths, DigestKey(hash), ds[|ds| - 1]);
      DigestGroupsNotEmptyFiles(size, paths, hash, init);
      ZeroCountAppend(DigestGroups(size, paths, hash, init), if |b| > 1 then [DuplicateGroup(size, b)] else []);
    }
  }

  /** Only the bucket of size 0 yields a group of empty files, and then just one. */
  lemma SizeGroupsZeroCount(size: nat, paths: seq<Path>, hash: Path -> Digest)
    ensures ZeroCount(SizeGroups(size, paths, hash)) == if size == 0 && |paths| >= 2 then 1 else 0
  {
    if size > 0 && |paths| >= 2 {
      DigestGroupsNotEmptyFiles(size, paths, hash, Keys(paths, DigestKey(hash)));
    }
  }

  lemma {:induction false} GroupsOverZeroCount(files: seq<Path>, disk: Disk, sizes: seq<nat>)
    requires Distinct(sizes)
    ensures ZeroCount(GroupsOver(files, disk, sizes)) ==
            if 0 in sizes && |Bucket(files, disk.size, 0)| >= 2 then 1 else 0
  {
    if sizes != [] {
      var init, k := sizes[..|sizes| - 1], sizes[|sizes| - 1];
      assert sizes == init + [k];
      assert Distinct(init);
      GroupsOverZeroCount(files, disk, init);
      SizeGroupsZeroCount(k, Bucket(files, disk.size, k), disk.hash);
      ZeroCountAppend(GroupsOver(files, disk, init), SizeGroups(k, Bucket(files, disk.size, k), disk.hash));
    }
  }

  /**
    Zero-byte shortcut: two or more empty files form exactly one group, of
    size 0, holding all of them; with fewer there is no group of empty files.
  */
  lemma EmptyFilesGroup(files: seq<Path>, disk: Disk)
    ensures var empties := Bucket(files, disk.size, 0);
            && (|empties| >= 2 ==> DuplicateGroup(0, empties) in Detect(files, disk))
            && ZeroCount(Detect(files, disk)) == (if |empties| >= 2 then 1 else 0)
  {
    var sizes := Keys(files, disk.size);
    var empties := Bucket(files, disk.size, 0);
    GroupsOverZeroCount(files, disk, sizes);
    if |empties| >= 2 {
      GroupsOverIncludes(files, disk, sizes, 0, DuplicateGroup(0, empties));
    }
  }

  /** The groups `gs` are each of one of the sizes `sizes`, and come in the order of `sizes`. */
  predicate SizeOrdered(sizes: seq<nat>, gs: seq<DuplicateGroup>) {
    && (forall i :: 0 <= i < |gs| ==> gs[i].fileSize in sizes)
    && (forall i, j :: 0 <= i < j < |gs| ==> IndexOf(sizes, gs[i].fileSize) <= IndexOf(sizes, gs[j].fileSize))
  }

  lemma IndexOfSnoc<K>(init: seq<K>, k: K, x: K)
    requires Distinct(init + [k]) && x in init + [k]
    ensures IndexOf(init + [k], x) == if x == k then |init| else IndexOf(init, x)
  {
    var ks := init + [k];
    var i := IndexOf(ks, x);
    if x == k {
      assert ks[|init|] == k;
    } else {
      assert x in init;
      var j := IndexOf(init, x);
      assert ks[j] == x;
    }
  }

  /** Appending the groups of a new size keeps the groups in size order. */
  lemma SizeOrderedSnoc(init: seq<nat>, k: nat, front: seq<DuplicateGroup>, back: seq<DuplicateGroup>)
    requires Distinct(init + [k])
    requires SizeOrdered(init, front)
    requires forall g :: g in back ==> g.fileSize == k
    ensures SizeOrdered(init + [k], front + back)
  {
    var sizes, gs := init + [k], front + back;
    forall i | 0 <= i < |gs|
      ensures gs[i].fileSize in sizes && IndexOf(sizes, gs[i].fileSize) == if i < |front| then IndexOf(init, front[i].fileSize) else |init|
    {
      if i < |front| {
        assert gs[i] == front[i];
        IndexOfSnoc(init, k, front[i].fileSize);
        assert front[i].fileSize != k;
      } else {
        assert gs[i] == back[i - |front|] && gs[i] in back;
        IndexOfSnoc(init, k, k);
      }
    }
    forall i, j | 0 <= i < j < |gs|
      ensures IndexOf(sizes, gs[i].fileSize) <= IndexOf(sizes, gs[j].fileSize)
    {
      if j < |front| {
        assert IndexOf(init, front[i].fileSize) <= IndexOf(init, front[j].fileSize);
      } else if i < |front| {
        assert IndexOf(init, front[i].fileSize) < |init|;
      }
    }
  }

  lemma {:induction false} GroupsOverOrdered(files: seq<Path>, disk: Disk, sizes: seq<nat>)
    requires Distinct(sizes)
    ensures SizeOrdered(sizes, GroupsOver(files, disk, sizes))
  {
    if sizes != [] {
      var init, k := sizes[..|sizes| - 1], sizes[|sizes| - 1];
      assert sizes == init + [k];
      assert Distinct(init);
      GroupsOverOrdered(files, disk, init);
      var back := SizeGroups(k, Bucket(files, disk.size, k), disk.hash);
      forall g | g in back
        ensures g.fileSize == k
      {
        SizeGroupsShape(k, Bucket(files, disk.size, k), disk.hash, g);
      }
      SizeOrderedSnoc(init, k, GroupsOver(files, disk, init), back);
    }
  }

  /**
    Report order: the groups come in the order in which their sizes were
    first met in the input (which `KeysPrefix` shows `Keys` to be).
  */
  lemma GroupsInFirstSeenSizeOrder(files: seq<Path>, disk: Disk)
    ensures SizeOrdered(Keys(files, disk.size), Detect(files, disk))
  {
    GroupsOverOrdered(files, disk, Keys(files, disk.size));
  }

  /**
    The groups `gs` of one size bucket each stand for a digest of `ds`,
    read off their first member, and come in the order of `ds` with no
    digest twice.
  */
  predicate DigestOrdered(hash: Path -> Digest, ds: seq<Digest>, gs: seq<DuplicateGroup>) {
    && (forall i :: 0 <= i < |gs| ==> gs[i].files != [] && hash(gs[i].files[0]) in ds)
    && (forall i, j :: 0 <= i < j < |gs| ==> IndexOf(ds, hash(gs[i].files[0])) < IndexOf(ds, hash(gs[j].files[0])))
  }

  lemma {:induction false} DigestGroupsOrdered(size: nat, paths: seq<Path>, hash: Path -> Digest, ds: seq<Digest>)
    requires Distinct(ds)
    ensures DigestOrdered(hash, ds, DigestGroups(size, paths, hash, ds))
  {
    if ds != [] {
      var init, d := ds[..|ds| - 1], ds[|ds| - 1];
      assert ds == init + [d];
      assert Distinct(init);
      DigestGroupsOrdered(size, paths, hash, init);
      var front := DigestGroups(size, paths, hash, init);
      var b := Bucket(paths, DigestKey(hash), d);
      var back := if |b| > 1 then [DuplicateGroup(size, b)] else [];
      var gs := front + back;
      forall i | 0 <= i < |gs|
        ensures gs[i].files != [] && hash(gs[i].files[0]) in ds
        ensures IndexOf(ds, hash(gs[i].files[0])) == if i < |front| then IndexOf(init, hash(front[i].files[0])) else |init|
      {
        if i < |front| {
          assert gs[i] == front[i];
          IndexOfSnoc(init, d, hash(front[i].files[0]));
        } else {
          assert gs[i].files == b && b[0] in b;
          IndexOfSnoc(init, d, d);
        }
      }
      forall i, j | 0 <= i < j < |gs|
        ensures IndexOf(ds, hash(gs[i].files[0])) < IndexOf(ds, hash(gs[j].files[0]))
      {
        if j < |front| {
          assert IndexOf(init, hash(front[i].files[0])) < IndexOf(init, hash(front[j].files[0]));
        } else {
          assert IndexOf(init, hash(front[i].files[0])) < |init|;
        }
      }
    }
  }

  /**
    Within one size bucket of non-empty files, groups come in the order in
    which their digests were first computed, one group per digest.
  */
  lemma GroupsInFirstSeenDigestOrder(size: nat, paths: seq<Path>, hash: Path -> Digest)
    requires size > 0 && |paths| >= 2
    ensures DigestOrdered(hash, Keys(paths, DigestKey(hash)), SizeGroups(size, paths, hash))
  {
    DigestGroupsOrdered(size, paths, hash, Keys(paths, DigestKey(hash)));
  }

  /** One more size bucket contributes its groups after those of the buckets before it. */
  lemma GroupsOverSnoc(files: seq<Path>, disk: Disk, sizes: seq<nat>, k: nat)
    ensures GroupsOver(files, disk, sizes + [k]) == GroupsOver(files, disk, sizes) + SizeGroups(k, Bucket(files, disk.size, k), disk.hash)
  {
    assert (sizes + [k])[..|sizes|] == sizes;
  }

  lemma {:induction false} GroupsOverAppend(files: seq<Path>, disk: Disk, a: seq<nat>, b: seq<nat>)
    ensures GroupsOver(files, disk, a + b) == GroupsOver(files, disk, a) + GroupsOver(files, disk, b)
    decreases |b|
  {
    if b == [] {
      assert a + b == a;
    } else {
      var init, k := b[..|b| - 1], b[|b| - 1];
      SplitLast(a, b);
      GroupsOverSnoc(files, disk, a + init, k);
      GroupsOverSnoc(files, disk, init, k);
      GroupsOverAppend(files, disk, a, init);
      AppendAssoc(GroupsOver(files, disk, a), GroupsOver(files, disk, init), SizeGroups(k, Bucket(files, disk.size, k), disk.hash));
    }
  }

  lemma GroupsOverSizes(files: seq<Path>, disk: Disk, sizes: seq<nat>, g: DuplicateGroup)
    requires g in GroupsOver(files, disk, sizes)
    ensures g.fileSize in sizes
  {
    GroupsOverMember(files, disk, sizes, g);
    var k :| k in sizes && g in SizeGroups(k, Bucket(files, disk.size, k), disk.hash);
    SizeGroupsShape(k, Bucket(files, disk.size, k), disk.hash, g);
  }

  /** A key that occurs once is in neither part of the list around it. */
  lemma DistinctSplit(ks: seq<nat>, i: nat)
    requires Distinct(ks) && i < |ks|
    ensures ks[i] !in ks[..i] && ks[i] !in ks[i + 1..]
  {
    var front, back := ks[..i], ks[i + 1..];
    forall x | x in back
      ensures x != ks[i]
    {
      var j :| 0 <= j < |back| && back[j] == x;
      assert ks[i + 1 + j] == x;
    }
    forall x | x in front
      ensures x != ks[i]
    {
      var j :| 0 <= j < |front| && front[j] == x;
      assert ks[j] == x;
    }
  }

  /** Groups built from size buckets other than `k` are not of size `k`. */
  lemma GroupsOverOtherSizes(files: seq<Path>, disk: Disk, sizes: seq<nat>, k: nat)
    requires k !in sizes
    ensures forall g :: g in GroupsOver(files, disk, sizes) ==> g.fileSize != k
  {
    forall g | g in GroupsOver(files, disk, sizes)
      ensures g.fileSize != k
    {
      GroupsOverSizes(files, disk, sizes, g);
    }
  }

  /**
    In the report, the groups of one size form a single run, and that run is
    exactly what the size's bucket yields, so the properties of `SizeGroups`
    (such as `GroupsInFirstSeenDigestOrder`) hold of the report itself.
  */
  lemma DetectSizeRun(files: seq<Path>, disk: Disk, k: nat)
    requires k in Keys(files, disk.size)
    ensures exists before, after ::
              && Detect(files, disk) == before + SizeGroups(k, Bucket(files, disk.size, k), disk.hash) + after
              && (forall g :: g in before ==> g.fileSize != k)
              && (forall g :: g in after ==> g.fileSize != k)
  {
    var ks := Keys(files, disk.size);
    var i := IndexOf(ks, k);
    var front, back := ks[..i], ks[i + 1..];
    var run := SizeGroups(k, Bucket(files, disk.size, k), disk.hash);
    var before, after := GroupsOver(files, disk, front), GroupsOver(files, disk, back);
    assert Detect(files, disk) == before + run + after by {
      SplitAt(ks, i);
      GroupsOverAppend(files, disk, front + [k], back);
      GroupsOverAppend(files, disk, front, [k]);
      assert [k][..0] == [];
    }
    DistinctSplit(ks, i);
    GroupsOverOtherSizes(files, disk, front, k);
    GroupsOverOtherSizes(files, disk, back, k);
  }

  /** Within one size bucket no group is emitted twice. */
  lemma SizeGroupsNoRepeats(size: nat, paths: seq<Path>, hash: Path -> Digest, i: nat, j: nat)
    requires i < j < |SizeGroups(size, paths, hash)|
    ensures SizeGroups(size, paths, hash)[i] != SizeGroups(size, paths, hash)[j]
  {
    var gs := SizeGroups(size, paths, hash);
    assert size > 0 && |paths| >= 2;
    GroupsInFirstSeenDigestOrder(size, paths, hash);
    var ds := Keys(paths, DigestKey(hash));
    assert IndexOf(ds, hash(gs[i].files[0])) < IndexOf(ds, hash(gs[j].files[0]));
  }

  /** A group of a size not yet seen differs from every group of the buckets before it. */
  lemma OtherSizeDiffers(files: seq<Path>, disk: Disk, sizes: seq<nat>, k: nat, g1: DuplicateGroup, g2: DuplicateGroup)
    requires k !in sizes
    requires g1 in GroupsOver(files, disk, sizes) && g2 in SizeGroups(k, Bucket(files, disk.size, k), disk.hash)
    ensures g1 != g2
  {
    GroupsOverSizes(files, disk, sizes, g1);
    SizeGroupsShape(k, Bucket(files, disk.size, k), disk.hash, g2);
  }

  /** Two positions inside the last bucket's run of groups hold different groups. */
  lemma RunPairDiffers(files: seq<Path>, disk: Disk, init: seq<nat>, k: nat, i: nat, j: nat)
    requires |GroupsOver(files, disk, init)| <= i < j
    requires j < |GroupsOver(files, disk, init)| + |SizeGroups(k, Bucket(files, disk.size, k), disk.hash)|
    ensures (GroupsOver(files, disk, init) + SizeGroups(k, Bucket(files, disk.size, k), disk.hash))[i] !=
            (GroupsOver(files, disk, init) + SizeGroups(k, Bucket(files, disk.size, k), disk.hash))[j]
  {
    var front := GroupsOver(files, disk, init);
    var run := SizeGroups(k, Bucket(files, disk.size, k), disk.hash);
    SizeGroupsNoRepeats(k, Bucket(files, disk.size, k), disk.hash, i - |front|, j - |front|);
    ConcatDiffers(front, run, i, j);
  }

  /** A group of the earlier sizes and a group of a new last size are different groups. */
  lemma FrontRunDiffers(files: seq<Path>, disk: Disk, init: seq<nat>, k: nat, i: nat, j: nat)
    requires k !in init
    requires i < |GroupsOver(files, disk, init)| <= j
    requires j < |GroupsOver(files, disk, init)| + |SizeGroups(k, Bucket(files, disk.size, k), disk.hash)|
    ensures (GroupsOver(files, disk, init) + SizeGroups(k, Bucket(files, disk.size, k), disk.hash))[i] !=
            (GroupsOver(files, disk, init) + SizeGroups(k, Bucket(files, disk.size, k), disk.hash))[j]
  {
    var front := GroupsOver(files, disk, init);
    var run := SizeGroups(k, Bucket(files, disk.size, k), disk.hash);
    OtherSizeDiffers(files, disk, init, k, front[i], run[j - |front|]);
    ConcatDiffers(front, run, i, j);
  }

  /** A pair of positions reaching into the last bucket's groups holds two different groups. */
  lemma LastRunDiffers(files: seq<Path>, disk: Disk, init: seq<nat>, k: nat, i: nat, j: nat)
    requires k !in init
    requires |GroupsOver(files, disk, init)| <= j
    requires i < j < |GroupsOver(files, disk, init) + SizeGroups(k, Bucket(files, disk.size, k), disk.hash)|
    ensures (GroupsOver(files, disk, init) + SizeGroups(k, Bucket(files, disk.size, k), disk.hash))[i] !=
            (GroupsOver(files, disk, init) + SizeGroups(k, Bucket(files, disk.size, k), disk.hash))[j]
  {
    if i >= |GroupsOver(files, disk, init)| {
      RunPairDiffers(files, disk, init, k, i, j);
    } else {
      FrontRunDiffers(files, disk, init, k, i, j);
    }
  }

  /** Over distinct sizes no group is emitted twice. */
  lemma {:induction false} GroupsOverNoRepeats(files: seq<Path>, disk: Disk, sizes: seq<nat>, i: nat, j: nat)
    requires Distinct(sizes) && i < j < |GroupsOver(files, disk, sizes)|
    ensures GroupsOver(files, disk, sizes)[i] != GroupsOver(files, disk, sizes)[j]
  {
    var init, k := sizes[..|sizes| - 1], sizes[|sizes| - 1];
    var front := GroupsOver(files, disk, init);
    DistinctSplit(sizes, |sizes| - 1);
    if j < |front| {
      assert Distinct(init);
      GroupsOverNoRepeats(files, disk, init, i, j);
    } else {
      LastRunDiffers(files, disk, init, k, i, j);
    }
  }

  /** No group is reported twice: distinct positions of the report hold distinct groups. */
  lemma DetectNoRepeats(files: seq<Path>, disk: Disk, i: nat, j: nat)
    requires i < j < |Detect(files, disk)|
    ensures Detect(files, disk)[i] != Detect(files, disk)[j]
  {
    GroupsOverNoRepeats(files, disk, Keys(files, disk.size), i, j);
  }

  /** Every member of a reported group determines the group's file list. */
  lemma GroupClasses(files: seq<Path>, disk: Disk, g: DuplicateGroup)
    requires g in Detect(files, disk)
    ensures forall p :: p in g.files ==>
              var b := Bucket(files, disk.size, g.fileSize);
              g.files == if g.fileSize == 0 then b else Bucket(b, DigestKey(disk.hash), disk.hash(p))
  {
    forall p | p in g.files
      ensures var b := Bucket(files, disk.size, g.fileSize);
              g.files == if g.fileSize == 0 then b else Bucket(b, DigestKey(disk.hash), disk.hash(p))
    {
      GroupIsWholeClass(files, disk, g, p);
    }
  }

  /** Groups at different positions of the report share no file. */
  lemma DetectGroupsDisjoint(files: seq<Path>, disk: Disk, i: nat, j: nat)
    requires i < j < |Detect(files, disk)|
    ensures forall p :: p in Detect(files, disk)[i].files ==> p !in Detect(files, disk)[j].files
  {
    var gs := Detect(files, disk);
    DetectNoRepeats(files, disk, i, j);
    GroupSound(files, disk, gs[i]);
    GroupSound(files, disk, gs[j]);
    GroupClasses(files, disk, gs[i]);
    GroupClasses(files, disk, gs[j]);
  }

  lemma {:induction false} HashedOverMembers(files: seq<Path>, disk: Disk, sizes: seq<nat>, p: Path)
    ensures p in HashedOver(files, disk, sizes) <==>
            exists k :: k in sizes && k > 0 && |Bucket(files, disk.size, k)| >= 2 && p in Bucket(files, disk.size, k)
  {
    if sizes != [] {
      var init, k := sizes[..|sizes| - 1], sizes[|sizes| - 1];
      assert sizes == init + [k];
      HashedOverMembers(files, disk, init, p);
      var b := Bucket(files, disk.size, k);
      assert HashedOver(files, disk, sizes) == HashedOver(files, disk, init) + (if k > 0 && |b| >= 2 then b else []);
      if p in HashedOver(files, disk, init) {
        var k' :| k' in init && k' > 0 && |Bucket(files, disk.size, k')| >= 2 && p in Bucket(files, disk.size, k');
        assert k' in sizes;
      }
      if exists k' :: k' in sizes && k' > 0 && |Bucket(files, disk.size, k')| >= 2 && p in Bucket(files, disk.size, k') {
        var k' :| k' in sizes && k' > 0 && |Bucket(files, disk.size, k')| >= 2 && p in Bucket(files, disk.size, k');
        if k' != k {
          assert k' in init;
        }
      }
    }
  }

  /**
    The hasher sees exactly the files of known, non-zero size that share
    that size with some other file; in particular no empty file is hashed.
  */
  lemma HashedFilesExactly(files: seq<Path>, disk: Disk, p: Path)
    ensures p in HashedFiles(files, disk) <==>
            && p in files
            && disk.size(p).Some?
            && disk.size(p).value > 0
            && |Bucket(files, disk.size, disk.size(p).value)| >= 2
  {
    HashedOverMembers(files, disk, Keys(files, disk.size), p);
  }

  // ---------------------------------------------------------------------
  // Totals
  // ---------------------------------------------------------------------

  lemma {:induction false} TotalFilesAppend(a: seq<DuplicateGroup>, b: seq<DuplicateGroup>)
    ensures TotalFiles(a + b) == TotalFiles(a) + TotalFiles(b)
  {
    if b != [] {
      assert (a + b)[..|a + b| - 1] == a + b[..|b| - 1];
      TotalFilesAppend(a, b[..|b| - 1]);
    } else {
      assert a + b == a;
    }
  }

  lemma {:induction false} WastedBytesAppend(a: seq<DuplicateGroup>, b: seq<DuplicateGroup>)
    ensures WastedBytes(a + b) == WastedBytes(a) + WastedBytes(b)
  {
    if b != [] {
      assert (a + b)[..|a + b| - 1] == a + b[..|b| - 1];
      WastedBytesAppend(a, b[..|b| - 1]);
    } else {
      assert a + b == a;
    }
  }

  /** Groups of empty files waste no space. */
  lemma {:induction false} EmptyFilesWasteNothing(gs: seq<DuplicateGroup>)
    requires forall g :: g in gs ==> g.fileSize == 0
    ensures WastedBytes(gs) == 0
  {
    if gs != [] {
      assert gs[|gs| - 1] in gs;
      assert forall g :: g in gs[..|gs| - 1] ==> g in gs;
      EmptyFilesWasteNothing(gs[..|gs| - 1]);
    }
  }

  /** Each group of at least two files contributes at least two to the file total. */
  lemma {:induction false} AtLeastTwoPerGroup(gs: seq<DuplicateGroup>)
    requires forall g :: g in gs ==> |g.files| >= 2
    ensures 2 * |gs| <= TotalFiles(gs)
  {
    if gs != [] {
      assert gs[|gs| - 1] in gs;
      assert forall g :: g in gs[..|gs| - 1] ==> g in gs;
      AtLeastTwoPerGroup(gs[..|gs| - 1]);
    }
  }

  lemma {:induction false} DigestGroupsTotal(size: nat, paths: seq<Path>, hash: Path -> Digest, ds: seq<Digest>)
    ensures TotalFiles(DigestGroups(size, paths, hash, ds)) <= Total(paths, DigestKey(hash), ds)
  {
    if ds != [] {
      var init := ds[..|ds| - 1];
      var b := Bucket(paths, DigestKey(hash), ds[|ds| - 1]);
      DigestGroupsTotal(size, paths, hash, init);
      TotalFilesAppend(DigestGroups(size, paths, hash, init), if |b| > 1 then [DuplicateGroup(size, b)] else []);
    }
  }

  lemma SizeGroupsTotal(size: nat, paths: seq<Path>, hash: Path -> Digest)
    ensures TotalFiles(SizeGroups(size, paths, hash)) <= |paths|
  {
    if |paths| >= 2 && size > 0 {
      var key := DigestKey(hash);
      DigestGroupsTotal(size, paths, hash, Keys(paths, key));
      KeysPartition(paths, key);
    }
  }

  lemma {:induction false} GroupsOverTotal(files: seq<Path>, disk: Disk, sizes: seq<nat>)
    ensures TotalFiles(GroupsOver(files, disk, sizes)) <= Total(files, disk.size, sizes)
  {
    if sizes != [] {
      var init, k := sizes[..|sizes| - 1], sizes[|sizes| - 1];
      GroupsOverTotal(files, disk, init);
      SizeGroupsTotal(k, Bucket(files, disk.size, k), disk.hash);
      TotalFilesAppend(GroupsOver(files, disk, init), SizeGroups(k, Bucket(files, disk.size, k), disk.hash));
    }
  }

  /**
    The reported file total lies between twice the number of groups and the
    number of files whose size could be read.
  */
  lemma DetectTotals(files: seq<Path>, disk: Disk)
    ensures 2 * |Detect(files, disk)| <= TotalFiles(Detect(files, disk))
    ensures TotalFiles(Detect(files, disk)) <= CountKeyed(files, disk.size) <= |files|
  {
    forall g | g in Detect(files, disk)
      ensures |g.files| >= 2
    {
      GroupSound(files, disk, g);
    }
    AtLeastTwoPerGroup(Detect(files, disk));
    GroupsOverTotal(files, disk, Keys(files, disk.size));
    KeysPartition(files, disk.size);
  }
}

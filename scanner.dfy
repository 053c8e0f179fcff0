/**
  The scan itself, step by step as `run_scan` performs it: the walk filter,
  the size dictionary, the unique-size credit, the per-bucket hashing loop
  with its progress counter, the emission of groups and the report totals.
  Each loop is proved against the reference definitions of `DuplicateFinder`.
*/
module Scanner {
  import opened Wrappers
  import opened Buckets
  import opened DuplicateFinder

  /** The progress values shown while `n` files are hashed from count `c`: one more per file. */
  function Ticks(c: nat, n: nat): (t: seq<nat>)
    ensures |t| == n
    ensures forall i :: 0 <= i < n ==> t[i] == c + i + 1
  {
    if n == 0 then [] else Ticks(c, n - 1) + [c + n]
  }

  lemma TicksSnoc(events: seq<nat>, c: nat, n: nat)
    ensures events + Ticks(c, n) + [c + n + 1] == events + Ticks(c, n + 1)
  {
  }

  /** Progress never goes backwards. */
  predicate Monotone(events: seq<nat>) {
    forall i :: 0 < i < |events| ==> events[i - 1] <= events[i]
  }

  /** No progress value exceeds `bound`. */
  predicate Bounded(events: seq<nat>, bound: nat) {
    forall i :: 0 <= i < |events| ==> events[i] <= bound
  }

  /** The progress shown while hashing extends a monotone, bounded history. */
  lemma TicksExtend(events: seq<nat>, c: nat, n: nat)
    requires events != [] && events[|events| - 1] == c
    requires Monotone(events) && Bounded(events, c)
    ensures var e := events + Ticks(c, n);
            && e[0] == events[0] && e[|e| - 1] == c + n
            && Monotone(e) && Bounded(e, c + n)
  {
    var e := events + Ticks(c, n);
    forall i | 0 < i < |e|
      ensures e[i - 1] <= e[i]
    {
      if i > |events| {
        assert e[i - 1] == c + (i - 1 - |events|) + 1;
        assert e[i] == c + (i - |events|) + 1;
      } else if i == |events| {
        assert e[i] == c + 1;
      }
    }
  }

  /**
    The progress values one size bucket of `n` files shows when the counter
    stands at `c`: none for a bucket credited up front, a single jump for a
    bucket of empty files, one tick per file handed to the hasher otherwise.
  */
  function BucketProgress(size: nat, n: nat, c: nat): (t: seq<nat>)
    ensures |t| == if n < 2 then 0 else if size == 0 then 1 else n
    ensures t != [] ==> t[|t| - 1] == c + n
  {
    if n < 2 then [] else if size == 0 then [c + n] else Ticks(c, n)
  }

  /** A bucket's progress extends a monotone, bounded history ending at the counter. */
  lemma BucketProgressExtend(events: seq<nat>, size: nat, n: nat, c: nat)
    requires events != [] && events[|events| - 1] == c
    requires Monotone(events) && Bounded(events, c)
    ensures var e := events + BucketProgress(size, n, c);
            var c' := c + if n >= 2 then n else 0;
            && e[0] == events[0] && e[|e| - 1] == c'
            && Monotone(e) && Bounded(e, c')
  {
    if n >= 2 && size > 0 {
      TicksExtend(events, c, n);
    }
  }

  /**
    Every value the progress bar shows through the size loop over the
    buckets of `sizes`, starting from the value `c` shown before it: each
    bucket continues from the last value shown so far.
  */
  function Progress(files: seq<Path>, disk: Disk, sizes: seq<nat>, c: nat): (t: seq<nat>)
    ensures t != [] && t[0] == c
  {
    if sizes == [] then [c]
    else
      var init, k := sizes[..|sizes| - 1], sizes[|sizes| - 1];
      var t := Progress(files, disk, init, c);
      t + BucketProgress(k, |Bucket(files, disk.size, k)|, t[|t| - 1])
  }

  /** After its starting value, the bar shows one value per hashed file and one per bucket of empty files. */
  lemma {:induction false} ProgressLength(files: seq<Path>, disk: Disk, sizes: seq<nat>, c: nat)
    ensures |Progress(files, disk, sizes, c)| == 1 + |HashedOver(files, disk, sizes)| + ZeroCount(GroupsOver(files, disk, sizes))
  {
    if sizes != [] {
      var init, k := sizes[..|sizes| - 1], sizes[|sizes| - 1];
      var b := Bucket(files, disk.size, k);
      ProgressLength(files, disk, init, c);
      ZeroCountAppend(GroupsOver(files, disk, init), SizeGroups(k, b, disk.hash));
      SizeGroupsZeroCount(k, b, disk.hash);
    }
  }

  /**
    The bar never goes backwards and never passes the count of files in
    buckets of two or more, which is where it ends: each bucket starts from
    `c` plus the files of the larger buckets before it.
  */
  lemma {:induction false} ProgressShape(files: seq<Path>, disk: Disk, sizes: seq<nat>, c: nat)
    ensures var t := Progress(files, disk, sizes, c);
            var top := c + LargeTotal(files, disk.size, sizes);
            t[|t| - 1] == top && Monotone(t) && Bounded(t, top)
  {
    if sizes != [] {
      var init, k := sizes[..|sizes| - 1], sizes[|sizes| - 1];
      var t0 := Progress(files, disk, init, c);
      ProgressShape(files, disk, init, c);
      BucketProgressExtend(t0, k, |Bucket(files, disk.size, k)|, t0[|t0| - 1]);
    }
  }

  /** The walk loop: every walked name that is not a symbolic link, in walk order. */
  method CollectRegularFiles(walk: seq<WalkEntry>) returns (allFiles: seq<Path>)
    ensures allFiles == RegularFiles(walk)
  {
    allFiles := [];
    for i := 0 to |walk|
      invariant allFiles == RegularFiles(walk[..i])
    {
      assert walk[..i + 1][..i] == walk[..i];
      if !walk[i].isSymlink {
        allFiles := allFiles + [walk[i].path];
      }
    }
    assert walk[..|walk|] == walk;
  }

  /**
    The size phase: files are appended to the list under their size, in
    input order, and sizes are remembered in first-insertion order; a file
    whose size cannot be read is skipped.
  */
  method GroupBySize(files: seq<Path>, size: Path -> Option<nat>) returns (sizes: seq<nat>, bySize: map<nat, seq<Path>>)
    ensures sizes == Keys(files, size)
    ensures forall k :: k in bySize <==> k in sizes
    ensures forall k :: k in bySize ==> bySize[k] == Bucket(files, size, k)
  {
    sizes, bySize := [], map[];
    for i := 0 to |files|
      invariant Grouped(files[..i], size, sizes, bySize)
    {
      var f := files[i];
      TakeSnoc(files, i);
      match size(f) {
        case None =>
          GroupedSkip(files[..i], size, sizes, bySize, f);
        case Some(s) =>
          GroupedDictAppend(files[..i], size, sizes, bySize, f, s);
          var d := DictAppend(sizes, bySize, s, f);
          sizes, bySize := d.0, d.1;
      }
    }
    assert files[..|files|] == files;
  }

  /** The number of size buckets holding a single file: those files are credited to progress at once. */
  method CountUniqueSized(ghost files: seq<Path>, ghost size: Path -> Option<nat>, sizes: seq<nat>, bySize: map<nat, seq<Path>>)
    returns (n: nat)
    requires forall k :: k in sizes ==> k in bySize && bySize[k] == Bucket(files, size, k)
    ensures n == SingletonCount(files, size, sizes)
  {
    n := 0;
    for i := 0 to |sizes|
      invariant n == SingletonCount(files, size, sizes[..i])
    {
      assert sizes[..i + 1][..i] == sizes[..i];
      if |bySize[sizes[i]]| < 2 {
        n := n + 1;
      }
    }
    assert sizes[..|sizes|] == sizes;
  }

  /** One hashed file: filed under its digest when hashing succeeded, dropped when it failed. */
  method FileUnderDigest<D(==,!new)>(ghost s: seq<Path>, ghost key: Path -> Option<D>, digests0: seq<D>, byDigest0: map<D, seq<Path>>,
                                     p: Path, h: D, failed: D)
    returns (digests: seq<D>, byDigest: map<D, seq<Path>>)
    requires Grouped(s, key, digests0, byDigest0)
    requires key(p) == if h == failed then None else Some(h)
    ensures Grouped(s + [p], key, digests, byDigest)
    ensures h == failed ==> digests == digests0 && byDigest == byDigest0
  {
    if h != failed {
      GroupedDictAppend(s, key, digests0, byDigest0, p, h);
      var d := DictAppend(digests0, byDigest0, h, p);
      digests, byDigest := d.0, d.1;
    } else {
      GroupedSkip(s, key, digests0, byDigest0, p);
      digests, byDigest := digests0, byDigest0;
    }
  }

  /**
    The hash phase for one size bucket: each file is hashed in turn, the
    progress counter advances once per file whatever the outcome, and a
    file is filed under its digest only when hashing succeeded.
  */
  method HashBucket<D(==,!new)>(paths: seq<Path>, hash: Path -> D, failed: D, ghost key: Path -> Option<D>, processed0: nat, events0: seq<nat>)
    returns (digests: seq<D>, byDigest: map<D, seq<Path>>, processed: nat, events: seq<nat>, ghost hashedHere: seq<Path>)
    requires forall p {:trigger hash(p)} :: key(p) == if hash(p) == failed then None else Some(hash(p))
    ensures Grouped(paths, key, digests, byDigest)
    ensures processed == processed0 + |paths|
    ensures events == events0 + Ticks(processed0, |paths|)
    ensures hashedHere == paths
  {
    digests, byDigest, processed, events := [], map[], processed0, events0;
    hashedHere := [];
    for j := 0 to |paths|
      invariant Grouped(paths[..j], key, digests, byDigest)
      invariant hashedHere == paths[..j]
      invariant processed == processed0 + j
      invariant events == events0 + Ticks(processed0, j)
    {
      var p := paths[j];
      TakeSnoc(paths, j);
      var h := hash(p);
      assert key(p) == if h == failed then None else Some(h);
      hashedHere := hashedHere + [p];
      processed := processed + 1;
      events := events + [processed];
      assert events == events0 + Ticks(processed0, j + 1) by {
        TicksSnoc(events0, processed0, j);
      }
      digests, byDigest := FileUnderDigest(paths[..j], key, digests, byDigest, p, h, failed);
    }
    assert paths[..|paths|] == paths;
  }

  /** The emission loop for one size bucket: one group per digest list of more than one file, in digest order. */
  method EmitDigestGroups(size: nat, ghost paths: seq<Path>, ghost hash: Path -> Digest,
                          digests: seq<Digest>, byDigest: map<Digest, seq<Path>>, duplicates0: seq<DuplicateGroup>)
    returns (duplicates: seq<DuplicateGroup>)
    requires forall d :: d in digests ==> d in byDigest && byDigest[d] == Bucket(paths, DigestKey(hash), d)
    ensures duplicates == duplicates0 + DigestGroups(size, paths, hash, digests)
  {
    duplicates := duplicates0;
    for j := 0 to |digests|
      invariant duplicates == duplicates0 + DigestGroups(size, paths, hash, digests[..j])
    {
      assert digests[..j + 1][..j] == digests[..j];
      var finalPaths := byDigest[digests[j]];
      if |finalPaths| > 1 {
        duplicates := duplicates + [DuplicateGroup(size, finalPaths)];
      }
    }
    assert digests[..|digests|] == digests;
  }

  /** Taking one more size bucket into account extends the groups, the hashed files and the large-bucket total. */
  lemma StepOneSize(files: seq<Path>, disk: Disk, sizes: seq<nat>, i: nat)
    requires i < |sizes|
    ensures var k := sizes[i];
            var b := Bucket(files, disk.size, k);
            && GroupsOver(files, disk, sizes[..i + 1]) == GroupsOver(files, disk, sizes[..i]) + SizeGroups(k, b, disk.hash)
            && HashedOver(files, disk, sizes[..i + 1]) == HashedOver(files, disk, sizes[..i]) + (if k > 0 && |b| >= 2 then b else [])
            && LargeTotal(files, disk.size, sizes[..i + 1]) == LargeTotal(files, disk.size, sizes[..i]) + (if |b| >= 2 then |b| else 0)
  {
    assert sizes[..i + 1][..i] == sizes[..i];
  }

  /** Taking one more size bucket into account extends the progress by that bucket's values. */
  lemma ProgressStep(files: seq<Path>, disk: Disk, sizes: seq<nat>, i: nat, c: nat)
    requires i < |sizes|
    ensures var t := Progress(files, disk, sizes[..i], c);
            Progress(files, disk, sizes[..i + 1], c) == t + BucketProgress(sizes[i], |Bucket(files, disk.size, sizes[i])|, t[|t| - 1])
  {
    assert sizes[..i + 1][..i] == sizes[..i];
  }

  /**
    One pass of the size loop: a bucket of fewer than two files was already
    credited; a bucket of empty files becomes one group at once and moves
    the counter in a single step; any other bucket goes through the hash
    phase and then the emission loop.
  */
  method ScanSizeBucket(size: nat, paths: seq<Path>, disk: Disk,
                        duplicates0: seq<DuplicateGroup>, processed0: nat, events0: seq<nat>)
    returns (duplicates: seq<DuplicateGroup>, processed: nat, events: seq<nat>, ghost hashedHere: seq<Path>)
    requires events0 != [] && events0[|events0| - 1] == processed0
    requires Monotone(events0) && Bounded(events0, processed0)
    ensures duplicates == duplicates0 + SizeGroups(size, paths, disk.hash)
    ensures processed == processed0 + (if |paths| >= 2 then |paths| else 0)
    ensures |events| == |events0| + (if |paths| < 2 then 0 else if size == 0 then 1 else |paths|)
    ensures events[0] == events0[0] && events[|events| - 1] == processed
    ensures Monotone(events) && Bounded(events, processed)
    ensures hashedHere == if size > 0 && |paths| >= 2 then paths else []
    ensures events == events0 + BucketProgress(size, |paths|, processed0)
  {
    BucketProgressExtend(events0, size, |paths|, processed0);
    duplicates, processed, events, hashedHere := duplicates0, processed0, events0, [];
    if |paths| < 2 {
      // credited to progress before the size loop
    } else if size == 0 {
      duplicates := duplicates + [DuplicateGroup(0, paths)];
      processed := processed + |paths|;
      events := events + [processed];
    } else {
      var digests, byDigest;
      digests, byDigest, processed, events, hashedHere := HashBucket(paths, disk.hash, HashFailed, DigestKey(disk.hash), processed, events);
      duplicates := EmitDigestGroups(size, paths, disk.hash, digests, byDigest, duplicates);
    }
  }

  /**
    The size loop: the buckets in first-insertion order of their sizes,
    with the counter starting at `unique`, the files already credited.
  */
  method ScanSizes(files: seq<Path>, disk: Disk, sizes: seq<nat>, bySize: map<nat, seq<Path>>, unique: nat)
    returns (duplicates: seq<DuplicateGroup>, processed: nat, events: seq<nat>, ghost hashed: seq<Path>)
    requires forall k :: k in sizes ==> k in bySize && bySize[k] == Bucket(files, disk.size, k)
    ensures duplicates == GroupsOver(files, disk, sizes)
    ensures hashed == HashedOver(files, disk, sizes)
    ensures processed == unique + LargeTotal(files, disk.size, sizes)
    ensures events == Progress(files, disk, sizes, unique)
  {
    duplicates, processed, events, hashed := [], unique, [unique], [];
    for i := 0 to |sizes|
      invariant duplicates == GroupsOver(files, disk, sizes[..i])
      invariant hashed == HashedOver(files, disk, sizes[..i])
      invariant processed == unique + LargeTotal(files, disk.size, sizes[..i])
      invariant events == Progress(files, disk, sizes[..i], unique)
      invariant events[|events| - 1] == processed && Monotone(events) && Bounded(events, processed)
    {
      var size := sizes[i];
      var paths := bySize[size];
      StepOneSize(files, disk, sizes, i);
      ProgressStep(files, disk, sizes, i, unique);
      ghost var hashedHere;
      duplicates, processed, events, hashedHere := ScanSizeBucket(size, paths, disk, duplicates, processed, events);
      hashed := hashed + hashedHere;
    }
    assert sizes[..|sizes|] == sizes;
  }

  /**
    Duplicate detection over the collected files: size phase, unique-size
    credit, then per size bucket either the zero-byte shortcut or the hash
    phase. `events` records every value shown on the progress bar; `hashed`
    every file handed to the hasher.
  */
  method FindDuplicates(allFiles: seq<Path>, disk: Disk)
    returns (duplicates: seq<DuplicateGroup>, processed: nat, events: seq<nat>, ghost hashed: seq<Path>)
    ensures duplicates == Detect(allFiles, disk)
    ensures hashed == HashedFiles(allFiles, disk)
    ensures processed == CountKeyed(allFiles, disk.size)
    ensures processed == |allFiles| <==> forall i :: 0 <= i < |allFiles| ==> disk.size(allFiles[i]).Some?
    ensures allFiles == [] ==> events == []
    ensures allFiles != [] ==>
              && |events| == 1 + |hashed| + ZeroCount(duplicates)
              && events[0] == SingletonCount(allFiles, disk.size, Keys(allFiles, disk.size))
              && events[|events| - 1] == processed
    ensures allFiles != [] ==>
              var unique := SingletonCount(allFiles, disk.size, Keys(allFiles, disk.size));
              events == Progress(allFiles, disk, Keys(allFiles, disk.size), unique)
    ensures Monotone(events) && Bounded(events, |allFiles|)
  {
    if |allFiles| == 0 {
      return [], 0, [], [];
    }
    var sizes, bySize := GroupBySize(allFiles, disk.size);
    var unique := CountUniqueSized(allFiles, disk.size, sizes, bySize);
    duplicates, processed, events, hashed := ScanSizes(allFiles, disk, sizes, bySize, unique);
    ProgressLength(allFiles, disk, sizes, unique);
    ProgressShape(allFiles, disk, sizes, unique);
    SplitTotal(allFiles, disk.size, sizes);
    KeysPartition(allFiles, disk.size);
  }

  /** The report totals: files listed over all groups, and bytes beyond the first copy of each group. */
  method ReportTotals(duplicates: seq<DuplicateGroup>) returns (totalFiles: nat, totalWastedBytes: nat)
    ensures totalFiles == TotalFiles(duplicates)
    ensures totalWastedBytes == WastedBytes(duplicates)
  {
    totalFiles, totalWastedBytes := 0, 0;
    for i := 0 to |duplicates|
      invariant totalFiles == TotalFiles(duplicates[..i])
      invariant totalWastedBytes == WastedBytes(duplicates[..i])
    {
      assert duplicates[..i + 1][..i] == duplicates[..i];
      var count := |duplicates[i].files|;
      if count != 0 {
        totalFiles := totalFiles + count;
        totalWastedBytes := totalWastedBytes + (count - 1) * duplicates[i].fileSize;
      }
    }
    assert duplicates[..|duplicates|] == duplicates;
  }

  /** Everything one scan produces. */
  datatype ScanOutcome = ScanOutcome(
    totalCount: nat,
    duplicates: seq<DuplicateGroup>,
    processed: nat,
    progress: seq<nat>,
    totalFiles: nat,
    wastedBytes: nat)

  /**
    A whole scan of a walked directory: collect the regular files, find the
    duplicate groups and compute the report totals. With no files the scan
    stops before any progress is shown.
  */
  method RunScan(walk: seq<WalkEntry>, disk: Disk) returns (r: ScanOutcome)
    ensures r.totalCount == |RegularFiles(walk)|
    ensures r.duplicates == Detect(RegularFiles(walk), disk)
    ensures r.processed == CountKeyed(RegularFiles(walk), disk.size) <= r.totalCount
    ensures r.totalCount == 0 ==> r.duplicates == [] && r.progress == []
    ensures r.processed == r.totalCount <==>
              forall i :: 0 <= i < |RegularFiles(walk)| ==> disk.size(RegularFiles(walk)[i]).Some?
    ensures r.totalCount > 0 ==>
              && |r.progress| == 1 + |HashedFiles(RegularFiles(walk), disk)| + ZeroCount(r.duplicates)
              && r.progress[0] == SingletonCount(RegularFiles(walk), disk.size, Keys(RegularFiles(walk), disk.size))
              && r.progress[|r.progress| - 1] == r.processed
    ensures r.totalCount > 0 ==>
              var files := RegularFiles(walk);
              var unique := SingletonCount(files, disk.size, Keys(files, disk.size));
              r.progress == Progress(files, disk, Keys(files, disk.size), unique)
    ensures Monotone(r.progress) && Bounded(r.progress, r.totalCount)
    ensures r.totalFiles == TotalFiles(r.duplicates) && r.wastedBytes == WastedBytes(r.duplicates)
  {
    var allFiles := CollectRegularFiles(walk);
    var duplicates, processed, events, hashed := FindDuplicates(allFiles, disk);
    var totalFiles, wastedBytes := ReportTotals(duplicates);
    r := ScanOutcome(|allFiles|, duplicates, processed, events, totalFiles, wastedBytes);
  }
}

# Duplicate file finder — a verified model of the scan

This project models the scan at the heart of `DuplicateFileFinder.py`:
`run_scan`, which walks a directory, keeps the regular files (not symbolic
links), buckets them by byte size, credits lone-size files to progress,
reports every bucket of two or more empty files as one group without
hashing, hashes every other bucket of two or more files one file at a time
(advancing the progress counter once per file) and groups them by digest,
emits every digest bucket of two or more files as a duplicate group, and
finally sums the files listed and the bytes wasted over all groups.

The model has four modules:

- `Wrappers` (`wrappers.dfy`): the `Option` type.
- `Buckets` (`buckets.dfy`): the insertion-ordered `defaultdict(list)` the
  scan builds twice. The dictionary is held as a key order `seq<K>` plus a
  `map<K, seq<T>>`. Its meaning is given by two reference functions. `Keys`
  is the first-seen key order. `Bucket` is the input-ordered list under one
  key. `DictAppend` is `d[k].append(x)`.
- `DuplicateFinder` (`finder.dfy`): what the scan computes, written as
  functions over values. `RegularFiles`, `Detect` and `HashedFiles` are
  defined here, along with the report totals. The guarantees are proved
  about these functions: soundness, completeness, partition, ordering, the
  zero-byte shortcut, failed files and totals.
- `Scanner` (`scanner.dfy`): the scan as imperative code, one method per
  loop of `run_scan`. Each loop is proved equal to the reference functions,
  and the progress counter is tracked as well. `RunScan` chains the
  methods.

The file system is passed in as a `Disk` value. `size` returns `None` when
`stat()` fails. `hash` is what `compute_file_hash` returns, where the empty
string `HashFailed` is its failure sentinel. The scan's `if h:` test is
`DigestKey`: it files a path under its digest only when hashing succeeded.
`HashBucket` works for any digest type, given the sentinel and that filing
rule. The directory walk is its output: a sequence of `WalkEntry(path,
isSymlink)` in walk order. Every value passed to `print_progress_bar` is
recorded, in order, in the `progress` sequence. Every file passed to the
hasher is recorded in a ghost log, appended right where `HashBucket` calls
`hash`.

Progress accounting follows the code. The comment at
`DuplicateFileFinder.py:143-146` plans for the counter to reach
`total_count`. But only files that made it into the size dictionary are
credited, at :148-149, :166 and :173. So the final counter equals the
number of files whose size could be read. It equals the number of files
found exactly when every `stat()` succeeded, and `FindDuplicates` and
`RunScan` state both directions.

## Model

| member | source | states |
|---|---|---|
| Buckets.Bucket | DuplicateFileFinder.py:124-129 | The list under key `k` holds exactly the elements whose key is `k`, and is never longer than the input. |
| Buckets.Keys | DuplicateFileFinder.py:118-129 | A key is in the dictionary's key order exactly when its list is non-empty, and no key is listed twice. |
| Buckets.CountKeyed | DuplicateFileFinder.py:124-129 | The number of files with a readable size is at most the number of files, and is equal to it exactly when every size is readable. |
| Buckets.BucketIsSubseq | DuplicateFileFinder.py:124-129 | Each list keeps its elements in input order (it is a subsequence of the input). |
| Buckets.KeysPrefix | DuplicateFileFinder.py:156 | Reading more input only extends the key order, so iteration order is first-insertion order. |
| Buckets.GroupedSkip | DuplicateFileFinder.py:128-129 | An element without a key (failed `stat`, failed hash) leaves the dictionary in step with the longer input. |
| Buckets.GroupedDictAppend | DuplicateFileFinder.py:127 | `d[k].append(x)` for `x`'s own key keeps key order and lists equal to `Keys`/`Bucket` of the longer input. |
| Buckets.KeysPartition | DuplicateFileFinder.py:124-129 | Every file with a readable size lies in exactly one bucket: the bucket sizes sum to the readable count. |
| Buckets.SplitTotal | DuplicateFileFinder.py:148-149 | The singleton buckets plus the files in buckets of two or more make up all bucketed files. |
| DuplicateFinder.RegularFiles | DuplicateFileFinder.py:97-102 | A path is collected exactly when the walk produced it as a non-symlink; never more paths than walk entries. |
| Buckets.SingletonCount | DuplicateFileFinder.py:148 | Reference definition: the number of size buckets holding fewer than two files. `Scanner.CountUniqueSized` computes it and `Buckets.SplitTotal` relates it to the total. |
| Buckets.DictAppend | DuplicateFileFinder.py:127 | Reference definition of `d[k].append(x)` on a `defaultdict(list)`. `Buckets.GroupedDictAppend` proves that it keeps the dictionary equal to `Keys`/`Bucket`. |
| DuplicateFinder.RegularFilesAppend | DuplicateFileFinder.py:97-102 | The filter keeps walk order: filtering a joined walk gives the two filtered parts joined. |
| DuplicateFinder.DigestGroups | DuplicateFileFinder.py:179-184 | Reference definition: in digest order, one group per digest list of more than one file. `Scanner.EmitDigestGroups` computes it; `DuplicateFinder.GroupsInFirstSeenDigestOrder` proves its order. |
| DuplicateFinder.SizeGroups | DuplicateFileFinder.py:156-184 | Reference definition of what one size bucket yields: nothing for fewer than two files, the whole bucket for size 0, otherwise `DigestGroups` in first-seen digest order. `Scanner.ScanSizeBucket` computes it; `DuplicateFinder.SizeGroupsZeroCount` and `DuplicateFinder.GroupsInFirstSeenDigestOrder` give its properties. |
| DuplicateFinder.GroupsOver | DuplicateFileFinder.py:156-184 | Reference definition: the `SizeGroups` of the sizes listed, joined in that order. The size loop of `Scanner.FindDuplicates` keeps this as its invariant. |
| DuplicateFinder.Detect | DuplicateFileFinder.py:117-184 | Reference definition of the reported groups: `GroupsOver` of the first-seen size order. `Scanner.FindDuplicates` computes it. Its guarantees are the lemmas `GroupSound`, `SameGroupIff`, `GroupIsWholeClass`, `GroupsDisjoint`, `FailedFilesInNoGroup`, `EmptyFilesGroup`, `GroupsInFirstSeenSizeOrder`, `DetectSizeRun`, `DetectNoRepeats`, `DetectGroupsDisjoint` and `DetectTotals`. |
| DuplicateFinder.HashedOver | DuplicateFileFinder.py:156-172 | Reference definition: the files of the listed sizes that reach the hasher, in hashing order. |
| DuplicateFinder.HashedFiles | DuplicateFileFinder.py:156-172 | Reference definition of every file passed to the hasher in one scan. `Scanner.FindDuplicates` proves its hash log equal to it; `DuplicateFinder.HashedFilesExactly` characterises it. |
| DuplicateFinder.TotalFiles | DuplicateFileFinder.py:226 | Reference definition of "total duplicated files": the sum of the group sizes. `Scanner.ReportTotals` computes it; `DuplicateFinder.DetectTotals` bounds it. |
| DuplicateFinder.WastedBytes | DuplicateFileFinder.py:227 | Reference definition of wasted space: the sum of `(count - 1) * size` over non-empty groups. `Scanner.ReportTotals` computes it; `DuplicateFinder.EmptyFilesWasteNothing` is about it. |
| DuplicateFinder.GroupSound | DuplicateFileFinder.py:156-184 | Every reported group has at least two members, all from the input and in input order, all of the group's size; for non-empty files all share one successfully computed digest. |
| DuplicateFinder.GroupComplete | DuplicateFileFinder.py:156-184 | Two distinct files of equal known size that are empty, or that have the same successful digest, share a reported group. |
| DuplicateFinder.SameGroupIff | DuplicateFileFinder.py:156-184 | Two distinct input files share a group if and only if their sizes are known and equal and, for non-empty files, their digests were computed and are equal. |
| DuplicateFinder.GroupIsWholeClass | DuplicateFileFinder.py:156-184 | A group holds every file of its size (empty files), or every file of its size with its members' digest. |
| DuplicateFinder.GroupsDisjoint | DuplicateFileFinder.py:156-184 | Two reported groups that share a file are the same group. |
| DuplicateFinder.SizeGroupsNoRepeats | DuplicateFileFinder.py:170-184 | Two different positions in what one size bucket yields hold different groups, because every digest has its own group. |
| DuplicateFinder.GroupsOverNoRepeats | DuplicateFileFinder.py:156-184 | Over a list of distinct sizes, two different positions of the joined groups hold different groups. |
| DuplicateFinder.DetectNoRepeats | DuplicateFileFinder.py:156-184 | No group is reported twice: two different positions of the report hold different groups. |
| DuplicateFinder.GroupClasses | DuplicateFileFinder.py:156-184 | For each member of a reported group, the group is that member's size bucket (empty files) or that member's digest list within its size bucket. |
| DuplicateFinder.DetectGroupsDisjoint | DuplicateFileFinder.py:156-184 | Two different positions of the report hold groups with no file in common. |
| DuplicateFinder.FailedFilesInNoGroup | DuplicateFileFinder.py:124-177 | A file whose size cannot be read, or a non-empty file whose hash failed, is in no group. |
| DuplicateFinder.SizeGroupsZeroCount | DuplicateFileFinder.py:157-168 | A size bucket yields exactly one empty-file group when its size is 0 and it has two or more files, and none otherwise. |
| DuplicateFinder.EmptyFilesGroup | DuplicateFileFinder.py:160-168 | Two or more empty files are reported as one size-0 group holding all of them in input order, and there is exactly one such group; with fewer there is none. |
| DuplicateFinder.HashedFilesExactly | DuplicateFileFinder.py:156-172 | A file is passed to the hasher if and only if its size is known, non-zero and shared by another file; empty files are never hashed. |
| DuplicateFinder.GroupsInFirstSeenSizeOrder | DuplicateFileFinder.py:156 | Groups come in the order in which their sizes were first met in the input. |
| DuplicateFinder.DetectSizeRun | DuplicateFileFinder.py:156-184 | In the report, the groups of one size form a single run, and that run is exactly what the size's bucket yields (with `GroupsInFirstSeenDigestOrder`, the report's groups of one size are in first-seen digest order). |
| DuplicateFinder.GroupsInFirstSeenDigestOrder | DuplicateFileFinder.py:179-184 | Within one size, groups come in first-seen digest order, one group per digest. |
| DuplicateFinder.EmptyFilesWasteNothing | DuplicateFileFinder.py:227 | Groups of empty files add nothing to the wasted bytes. |
| DuplicateFinder.AtLeastTwoPerGroup | DuplicateFileFinder.py:226 | Groups of two or more files add at least two files per group to the file total. |
| DuplicateFinder.DetectTotals | DuplicateFileFinder.py:199-227 | The reported file total is at least twice the number of groups and at most the number of files with a readable size. |
| Scanner.Ticks | DuplicateFileFinder.py:171-174 | Built by adding one value per hashed file; proved by induction to be exactly `c+1` to `c+n`, so `n` files from count `c` show each of those values once, in order. |
| Scanner.TicksExtend | DuplicateFileFinder.py:171-174 | The values shown while hashing extend the history without going backwards and end at the new count. |
| Scanner.BucketProgress | DuplicateFileFinder.py:157-174 | Reference definition of the values one size bucket shows: none for fewer than two files, one value for a bucket of empty files, one per file otherwise; the last value is the counter plus the bucket's files. |
| Scanner.BucketProgressExtend | DuplicateFileFinder.py:157-174 | A bucket's values extend a monotone history ending at the counter into one that is still monotone, bounded by the new counter and ends at it. |
| Scanner.Progress | DuplicateFileFinder.py:148-174 | Reference definition of every value shown from the unique-size credit on, bucket by bucket in size order; it starts at the credit. |
| Scanner.ProgressLength | DuplicateFileFinder.py:152-174 | The bar shows one value for the credit, one per hashed file and one per bucket of empty files. |
| Scanner.ProgressShape | DuplicateFileFinder.py:148-174 | The bar never goes backwards, never passes the credit plus the files in buckets of two or more, and ends at that sum. |
| Scanner.CollectRegularFiles | DuplicateFileFinder.py:97-102 | The walk loop collects exactly `RegularFiles` of the walk. |
| Scanner.GroupBySize | DuplicateFileFinder.py:118-129 | The size dictionary has key order `Keys` and lists `Bucket` of the files by size; unreadable files are dropped. |
| Scanner.CountUniqueSized | DuplicateFileFinder.py:148-149 | The early credit is the number of size buckets holding one file. |
| Scanner.HashBucket | DuplicateFileFinder.py:170-177 | The digest dictionary of one size bucket is `Keys`/`Bucket` under the filing rule; the counter rises by exactly one per file, failed or not, and shows each value once; the log recorded at each call to the hasher is exactly the bucket, in order. |
| Scanner.FileUnderDigest | DuplicateFileFinder.py:176-177 | Filing one hashed file keeps the digest dictionary equal to `Keys`/`Bucket` of the longer input; a failed hash leaves it unchanged. |
| Scanner.EmitDigestGroups | DuplicateFileFinder.py:179-184 | Emission appends one group per digest list of more than one file, in digest order. |
| Scanner.ScanSizeBucket | DuplicateFileFinder.py:156-184 | One size bucket appends its `SizeGroups`; the counter grows by the number of files in the bucket when it holds two or more; progress stays monotone and bounded by the counter; the hasher is called on the whole bucket when its size is non-zero and it holds two or more files, and on no file otherwise; the values shown are exactly `BucketProgress` of the bucket. |
| Scanner.ScanSizes | DuplicateFileFinder.py:156-184 | The size loop appends `GroupsOver` the sizes, hashes `HashedOver` them, raises the counter by the files in buckets of two or more and shows exactly `Progress` from the credit. |
| Scanner.FindDuplicates | DuplicateFileFinder.py:117-184 | The groups are `Detect`, the files the hasher was called on (logged at the call) are `HashedFiles`, the final counter is the readable count and equals the file count exactly when every size is readable; the first progress value is the unique-size credit, progress never decreases and never exceeds the file count; no progress is shown for no files; otherwise the values shown are exactly `Progress` over the first-seen size order from the unique-size credit. |
| Scanner.ReportTotals | DuplicateFileFinder.py:199-227 | The totals are the summed group sizes and the summed `(count - 1) * size`, skipping empty groups. |
| Scanner.RunScan | DuplicateFileFinder.py:95-227 | A whole scan: the total is the number of regular files, the groups are `Detect` of them, no files means no groups and no progress, progress is monotone and bounded by the total, the values shown are exactly `Progress` from the unique-size credit, and the report totals match the groups. |

## Left out

- Directory walking, `Path.resolve`, the `exists`/`is_dir` check and `stat()` are file-system I/O. The walk output and the size lookup are inputs.
- An exception during the walk exits the program. The model takes the walk output as given.
- The SHA-256 computation and its 8 KiB chunked read loop live in a foreign library. A digest is an arbitrary function of the path, with `""` for a read failure.
- Hash collisions are not modelled. "Same digest" stands for "same content".
- The file system is taken to not change during the scan: size and hash are fixed functions of the path.
- `format_size` and `print_progress_bar` do floating-point formatting. Progress is recorded as the sequence of counter values passed to the bar.
- Printing, ANSI colours, the tree-style report layout, the "no files" and "no duplicates" messages and the footer are presentation only.
- `print_help`, `main` and argument handling are command-line plumbing.
- The stdout encoding reconfiguration is environment setup.
- Paths are strings. `Path(root) / name` joining is part of the walk input.
- The hash loop is stated for any digest type. It takes the filing rule as a ghost parameter, which its precondition ties to the sentinel test; the scan passes `DigestKey`.

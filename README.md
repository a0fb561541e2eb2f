# photosort in Dafny

photosort is a command-line tool: `photosort <from dir> <to dir>`. It walks the
source tree, reads each photo's capture date from its EXIF metadata, and copies
each file into a destination bucket `<to dir>/<year>-<month>`, for example
`2023-3` for March 2023. A file without a readable date goes to
`<to dir>/unsorted`. A bucket is created the first time it is needed. A file
whose name is already present in its bucket is skipped and left alone. A
failed copy stops the whole run.

This project models that pipeline over an abstract file system. The file
system is a map from path strings to entries, and an entry is a directory or a
file with its bytes. The model proves that the pipeline:

- never changes or removes an existing entry;
- writes only below the destination root;
- copies every placed file to exactly one path, with identical bytes;
- skips on conflict;
- halts at the first failed copy;
- is idempotent: a second run writes nothing.

Modules, leaf first:

- `Wrappers` (wrappers.dfy): `Option`.
- `Strings` (strings.dfy): `LastIndex`, and decimal rendering as `strconv.Itoa`
  does it, with its inverse `Atoi`.
- `Paths` (paths.dfy): `Join` (`dir + "/" + name`), `Base` (the last segment)
  and `Below` (strictly inside a directory).
- `Buckets` (buckets.dfy): the capture result (`Option<Date>`), `BucketName`,
  and the parser `ParseBucketName` that inverts it.
- `Files` (filesystem.dfy): the file-system state, `DirExists`/`FileExists`,
  `os.Mkdir` and the `cp` helper.
- `Placement` (placement.dfy): one walk callback (`Process`), the walk
  (`Walk`), the whole program (`Photosort`), and the lemmas about them.
- `Sorting` (sorter.dfy): class `Sorter`. Its field `fs` holds the file-system
  state, and its methods perform the callback's steps in place. Each method is
  proved to reach exactly the state and result that the matching function of
  `Files` or `Placement` gives. Every lemma about those functions therefore
  holds of the methods too.
- `Scenarios` (scenarios.dfy): concrete runs, and what a partial copy leaves
  behind.

Parameters stand in for what the program gets from outside:

- The walk is given as a sequence of `WalkEntry` values. Each holds the path,
  the is-directory flag, the capture result and `fault`.
- The capture result stands for what `getDateTime` returns. `None` means
  opening the file, decoding its EXIF data or reading its DateTime field
  failed.
- `fault` stands for an operating-system I/O error while that file is being
  copied (`Files.IoFault`). `OpenFails` means `os.Open` refuses the source
  and `CreateFails` means `os.Create` refuses the destination, each on a path
  the map shows as usable; neither writes anything. `StreamBreaks(k)` means
  the byte stream breaks after `k` bytes, or the final close fails when `k` is
  at least the file size.

## Model

| member | source | states |
|---|---|---|
| Strings.Itoa | main.go:131 | The result is a decimal numeral in canonical form. It starts with '-' exactly when the number is negative. Its digits have no leading zero, and it is never "-0". |
| Strings.NatToStringRoundTrip | main.go:131 | Reading back the digits that `NatToString` writes gives the original natural number. |
| Strings.ItoaRoundTrip | main.go:131 | `Atoi(Itoa(n)) == n` for every integer. |
| Strings.StringToNatRoundTrip | main.go:131 | Every decimal numeral without zero-padding is exactly what `NatToString` writes for its value. |
| Strings.AtoiRoundTrip | main.go:131 | `Itoa(Atoi(s)) == s` for every numeral in `strconv.Itoa`'s canonical form, so Itoa writes exactly the canonical numerals. |
| Strings.ItoaInjective | main.go:131 | Distinct integers get distinct decimal strings. |
| Strings.LastIndex | main.go:121 | Returns -1 or a position holding the character, and no later position holds it. This is what `Base` relies on. |
| Paths.Join | main.go:107 | `filepath.Join` of a directory and one name: `dir`, the separator, then `name`, so the result is exactly one character longer than the two parts together. |
| Paths.Base | main.go:121 | `filepath.Base`: a suffix of the path with no separator, and the character just before it is a separator. |
| Paths.BaseOfJoin | main.go:124 | The base of `dir/name` is `name` when `name` has no separator. |
| Paths.JoinBelow | main.go:132 | `dest/bucket` and `dest/bucket/leaf` lie strictly below `dest` and are different paths. |
| Buckets.BucketDir | main.go:132 | No contract of its own: the bucket `dest/BucketName(capture)`. `Placement.TargetLayout` states that it lies below `dest` and that its base name is the bucket name. |
| Buckets.BucketName | main.go:131 | The name never contains a separator. It is "unsorted" exactly when there is no capture date. |
| Buckets.BucketNameRoundTrip | main.go:131 | Every bucket name parses back to the capture result it was made from: year, month, or "no date". The parser accepts only unpadded, canonical numerals. |
| Buckets.ParseBucketNameExact | main.go:131 | The parser accepts only names that `BucketName` writes. A parsed name is exactly the bucket name of its capture result, so zero-padded or signed numerals such as "2023-03" are rejected. Together with the round trip, bucket names and capture results match one to one. |
| Buckets.BucketNameInjective | main.go:132 | Different capture results never share a bucket. No date ever produces "unsorted". |
| Buckets.March2023 | main.go:131 | A capture date in March 2023 gives the name "2023-3", with no zero-padding. |
| Buckets.NoDateIsUnsorted | main.go:107 | A file with no capture date is bucketed at `dest/unsorted`. |
| Files.DirExists | main.go:39-48 | No contract of its own: the path is present and is a directory. `Files.ExistsExclusive` relates it to `FileExists`. |
| Files.FileExists | main.go:51-60 | No contract of its own: the path is present and is not a directory. `Files.ExistsExclusive` relates it to `DirExists`. |
| Files.ExistsExclusive | main.go:39-60 | `dirExists` and `fileExists` never both hold. One of them holds exactly when the path exists. |
| Files.Mkdir | main.go:118 | The directory is created exactly when the path is absent and its parent is a directory. Any change is exactly that new directory, so a failed mkdir writes nothing. No other path changes, and nothing existing is replaced. |
| Files.Cp | main.go:63-83 | Only the destination can change. It fails without writing when the source is missing, the parent is not a directory, or the destination is a directory. An open or create fault also writes nothing. It succeeds exactly when the source is a file and no I/O error occurs, and then the destination holds the source's bytes. Whenever open and create succeed, a file is left at the destination, even if the copy then fails. A directory source leaves exactly an empty destination file. A stream fault after `k` bytes leaves exactly the source's first `k` bytes. |
| Placement.EnsureBucket | main.go:117-118 | The bucket is created only when `dirExists` reports it absent and nothing is at that path. Nothing that exists is removed or replaced. |
| Placement.Target | main.go:121 | No contract of its own: `bucket/Base(path)`. `Placement.TargetLayout` states where it lies. |
| Placement.TargetLayout | main.go:121-132 | The bucket lies below `dest`, and the target lies below the bucket and differs from it. The target's base name is the walked file's base name, and the bucket's base name is the bucket name. |
| Placement.CopyIfAbsent | main.go:121-127 | Skips exactly when a file is already at the target, and then changes nothing. Otherwise only the target can change. It copies exactly when the target is free, the source is a file, the bucket is a directory and no I/O error occurs. A copy leaves the source's bytes at the target. |
| Placement.Process | main.go:113 | A directory entry produces no outcome and changes nothing. A non-directory entry always produces one outcome. |
| Placement.ProcessTouchesOnlyBucketAndTarget | main.go:113-147 | One callback keeps every existing entry. Only the bucket directory and `bucket/Base(path)` can appear. |
| Placement.ProcessGrows | main.go:113-147 | Every path one callback adds lies below the destination root. |
| Placement.ProcessConflictSkips | main.go:138-139 | If a file is already at the target, the entry is skipped. At most the bucket is created, and the target keeps its bytes. |
| Placement.ProcessCopiesExactly | main.go:141 | A copied entry's target was free before, and now holds exactly the source file's bytes in an existing bucket. The rest of the state is the bucket step alone. |
| Placement.ProcessIntoExistingBucket | main.go:134-141 | A file whose bucket already exists and whose target is free is copied there, and nothing else changes. |
| Placement.ProcessIntoNewBucket | main.go:134-141 | A file whose bucket and target are both missing, under a destination directory, gets a new bucket and an exact copy. |
| Placement.ProcessEarlyFaultWritesNothing | main.go:64-74 | When `os.Open` or `os.Create` fails, the state is the bucket step alone. The outcome is Failed, or Skipped when a file is already at the target. |
| Placement.ProcessPlaces | main.go:121-124 | After a skip or a copy, the target holds a file. |
| Placement.Walk | main.go:110-150 | No contract of its own: the entries are processed in order, and the first failed copy halts the walk as `log.Fatal` does. Its properties are stated by `WalkHaltsAtFailure`, `WalkCountsFiles`, `WalkGrows`, `WalkPreservesExisting`, `WalkHaltIgnoresRest` and `WalkIdempotent`. |
| Placement.WalkHaltsAtFailure | main.go:125-126 | The walk halts exactly when its last outcome is a failed copy, and no earlier outcome is a failure. |
| Placement.WalkCountsFiles | main.go:113 | A completed walk reports exactly one outcome per non-directory entry. A halted walk reports no more outcomes than that. |
| Placement.WalkGrows | main.go:110-150 | A walk only adds entries, and only below the destination root. |
| Placement.WalkPreservesExisting | main.go:110-150 | Every entry present before a walk, source files included, is present afterwards with the same contents. |
| Placement.WalkHaltIgnoresRest | main.go:142-143 | Once a walk halts, entries after the failure change nothing. |
| Placement.WalkSettles | main.go:121 | After a completed walk, every visited file's target holds a file, and its bucket step would be a no-op. |
| Placement.WalkOverSettled | main.go:138 | A walk over settled entries writes nothing and reports every file as skipped. |
| Placement.WalkIdempotent | main.go:121 | After a completed walk, walking the same entries again writes nothing and skips every file, whatever copy faults the second walk meets, provided every file's capture result reads the same. |
| Placement.Photosort | main.go:90-105 | Fewer than two arguments gives a usage error. A missing source or destination root gives an invalid-root error. In both cases nothing is written. |
| Placement.PhotosortGrows | main.go:107-150 | A run never changes or removes an existing entry. It writes only below the destination argument. |
| Placement.PhotosortIdempotent | main.go:110-150 | A second run after a completed run completes, writes nothing, and reports every file as skipped, whatever copy faults the second run meets, provided every file's capture result reads the same. |
| Sorting.Sorter.constructor | main.go:85-88 | The object starts with the given file-system state. |
| Sorting.Sorter.Mkdir | main.go:118 | Reaches the state `Files.Mkdir` describes. |
| Sorting.Sorter.Cp | main.go:63-83 | Performs open, create or truncate, stream and close in turn. Reaches the state and result that `Files.Cp` describes. |
| Sorting.Sorter.EnsureDir | main.go:117-118 | Reaches the state `EnsureBucket` describes, and keeps every existing entry. |
| Sorting.Sorter.CopyIfAbsent | main.go:121-127 | Reaches the state and outcome that `Placement.CopyIfAbsent` describes, and keeps every existing entry. |
| Sorting.Sorter.ProcessFile | main.go:113-147 | Reaches the state and outcome that `Process` describes. It adds entries only below the destination. |
| Sorting.Sorter.WalkAll | main.go:110-150 | The loop reaches the state, outcomes and halt flag that `Walk` describes. |
| Sorting.Sorter.Run | main.go:90-150 | Reaches the state and status that `Photosort` describes. |
| Scenarios.DatedPhotoIsCopied | main.go:130-145 | With source `s` and destination `d`, a file `s/a` dated July 2021 is copied byte for byte to `d/2021-7/a`, and the directory entry `s` is skipped over. |
| Scenarios.ConflictingPhotoIsSkipped | main.go:138-139 | An existing `d/2024-4/a` is kept and an April 2024 `s/a` is skipped. The state is unchanged. |
| Scenarios.UndatedPhotoIsUnsorted | main.go:115-128 | A file without a date is copied to `d/unsorted/a`, and `d/unsorted` is created for it. |
| Scenarios.PartialCopySurvivesRerun | main.go:124-126 | A copy that fails after `k` bytes leaves a truncated file at the target. A later run without the fault skips that file, so the truncated copy stays. |

## Left out

- EXIF decoding (`exif.RegisterParsers`, `exif.Decode`, `x.DateTime`, main.go:23-33) is a foreign library. Its result is the per-entry capture value: `Some(date)` or `None`.
- Real OS calls (`os.Open`, `os.Create`, `os.Stat`, `os.Mkdir`, `io.Copy`) are operations on the map. An I/O error of `cp` that the map cannot explain is the per-entry `fault` parameter. `os.Stat` and `os.Mkdir` are given no such errors: they fail only as the map dictates.
- The map is not required to form a tree, so a file can be present below a path that is not a directory. `Mkdir` and `Cp` check the parent directory explicitly, as the operating system would.
- `filepath.Walk` is a given sequence of entries. Its traversal order, its error argument and the nil `info` that the callback would dereference are not modelled. The model does not check that the entries' is-directory flags agree with the map.
- The source root argument is only checked for existence. The walk entries stand for what walking it visits.
- Paths are not normalised. `Join` is `dir + "/" + name` without `filepath.Clean`. `Base` does not strip trailing separators and does not map "" to ".".
- `time.Time` is reduced to an integer year and a month in 1..12. Day and time of day are not used by the program.
- Permission bits (`os.FileMode(0777)`), log and println message text, and exit codes beyond the `Status` values are left out.
- The deferred closes leave no trace in the map.
- Concurrency is not modelled; the program is sequential.
- Placement.WalkIdempotent, Placement.PhotosortIdempotent: the rerun must read the same capture result for every file. A transient open or EXIF read error in `getDateTime` (main.go:16-33) on the rerun would send a dated file to `unsorted`, where its name is free, so the program would copy it a second time.

/**
  Concrete runs of the program over small file systems, and what a failed copy
  leaves behind for a later run.
 */
module Scenarios {
  import opened Wrappers
  import opened Paths
  import opened Buckets
  import opened Files
  import opened Placement

  /** os.Args of a run from source directory "s" to destination directory "d". */
  const Args: seq<string> := ["photosort", "s", "d"]

  lemma TargetJuly2021()
    ensures var e := WalkEntry("s/a", false, Some(Date(2021, 7)), None);
      BucketDir("d", e.capture) == "d/2021-7" && Target("d", e) == "d/2021-7/a"
  {
    BaseOfJoin("s", "a");
    July2021();
  }

  lemma TargetApril2024()
    ensures var e := WalkEntry("s/a", false, Some(Date(2024, 4)), None);
      BucketDir("d", e.capture) == "d/2024-4" && Target("d", e) == "d/2024-4/a"
  {
    BaseOfJoin("s", "a");
    April2024();
  }

  lemma TargetUndated()
    ensures var e := WalkEntry("s/a", false, None, None);
      BucketDir("d", e.capture) == "d/unsorted" && Target("d", e) == "d/unsorted/a"
  {
    BaseOfJoin("s", "a");
  }

  /** A photo taken in July 2021 is copied, byte for byte, to d/2021-7/a. */
  lemma DatedPhotoIsCopied()
    ensures var fs := map["s" := Dir, "s/a" := File([1, 2, 3]), "d" := Dir];
      var es := [WalkEntry("s", true, None, None), WalkEntry("s/a", false, Some(Date(2021, 7)), None)];
      Photosort(fs, Args, es)
        == RunResult(fs["d/2021-7" := Dir]["d/2021-7/a" := File([1, 2, 3])], Completed([Copied]))
  {
    var fs := map["s" := Dir, "s/a" := File([1, 2, 3]), "d" := Dir];
    var d := WalkEntry("s", true, None, None);
    var e := WalkEntry("s/a", false, Some(Date(2021, 7)), None);
    var fs2 := fs["d/2021-7" := Dir]["d/2021-7/a" := File([1, 2, 3])];
    TargetJuly2021();
    ProcessIntoNewBucket(fs, "d", e);
    OneStepWalk(fs, fs2, "d", e, Some(Copied));
    DirectoryThenFile(fs, fs2, "d", d, e);
  }

  /** An existing d/2024-4/a is kept and the April 2024 photo of that name is skipped. */
  lemma ConflictingPhotoIsSkipped()
    ensures var fs := map["s" := Dir, "s/a" := File([7]), "d" := Dir, "d/2024-4" := Dir, "d/2024-4/a" := File([9])];
      var es := [WalkEntry("s/a", false, Some(Date(2024, 4)), None)];
      Photosort(fs, Args, es) == RunResult(fs, Completed([Skipped]))
  {
    var fs := map["s" := Dir, "s/a" := File([7]), "d" := Dir, "d/2024-4" := Dir, "d/2024-4/a" := File([9])];
    var e := WalkEntry("s/a", false, Some(Date(2024, 4)), None);
    TargetApril2024();
    ProcessConflictSkips(fs, "d", e);
    assert EnsureBucket(fs, "d", BucketName(e.capture)) == fs;
    OneStepWalk(fs, fs, "d", e, Some(Skipped));
  }

  /** A file without a capture date goes to d/unsorted, which is created for it. */
  lemma UndatedPhotoIsUnsorted()
    ensures var fs := map["s" := Dir, "s/a" := File([5]), "d" := Dir];
      var es := [WalkEntry("s/a", false, None, None)];
      Photosort(fs, Args, es)
        == RunResult(fs["d/unsorted" := Dir]["d/unsorted/a" := File([5])], Completed([Copied]))
  {
    var fs := map["s" := Dir, "s/a" := File([5]), "d" := Dir];
    var e := WalkEntry("s/a", false, None, None);
    var fs2 := fs["d/unsorted" := Dir]["d/unsorted/a" := File([5])];
    TargetUndated();
    ProcessIntoNewBucket(fs, "d", e);
    OneStepWalk(fs, fs2, "d", e, Some(Copied));
  }

  /** A directory entry followed by a file walks like the file alone. */
  lemma DirectoryThenFile(fs: FileSystem, fs': FileSystem, dest: string, d: WalkEntry, e: WalkEntry)
    requires d.isDir && Walk(fs, dest, [e]) == Report(fs', [Copied], false)
    ensures Walk(fs, dest, [d, e]) == Report(fs', [Copied], false)
  {
    assert [d, e][1..] == [e];
  }

  /** A walk over one entry whose processing does not fail reports just that entry. */
  lemma OneStepWalk(fs: FileSystem, fs': FileSystem, dest: string, e: WalkEntry, o: Option<Outcome>)
    requires Process(fs, dest, e) == Step(fs', o) && o != Some(Failed)
    ensures Walk(fs, dest, [e]) == Report(fs', Outs(o), false)
  {
    assert [e][1..] == [];
  }

  /**
    A copy that fails part-way has already created the destination file. Run
    again without the fault, the conflict check finds that file and skips the
    entry, so the truncated copy stays.
   */
  lemma PartialCopySurvivesRerun(fs: FileSystem, dest: string, e: WalkEntry, k: nat)
    requires !e.isDir && e.fault == Some(StreamBreaks(k))
    requires FileExists(fs, e.path) && k < |fs[e.path].data|
    requires DirExists(fs, dest) && Target(dest, e) !in fs
    requires BucketDir(dest, e.capture) !in fs || DirExists(fs, BucketDir(dest, e.capture))
    ensures var r := Process(fs, dest, e);
      && r.outcome == Some(Failed)
      && FileExists(r.fs, Target(dest, e))
      && r.fs[Target(dest, e)] != fs[e.path]
      && Process(r.fs, dest, e.(fault := None)) == Step(r.fs, Some(Skipped))
  {
    var name, base := BucketName(e.capture), Base(e.path);
    var fs1 := EnsureBucket(fs, dest, name);
    var c := CopyIfAbsent(fs1, e.path, Join(dest, name), base, e.fault);
    PartialCopy(fs, dest, name, e.path, base, k);
    assert Process(fs, dest, e) == Step(c.fs, Some(c.outcome));
    assert Process(c.fs, dest, e.(fault := None))
      == Step(CopyIfAbsent(EnsureBucket(c.fs, dest, name), e.path, Join(dest, name), base, None).fs, Some(Skipped));
  }

  lemma PartialCopy(fs: FileSystem, dest: string, name: string, from: string, base: string, k: nat)
    requires FileExists(fs, from) && k < |fs[from].data|
    requires DirExists(fs, dest) && Join(Join(dest, name), base) !in fs
    requires Join(dest, name) !in fs || DirExists(fs, Join(dest, name))
    ensures var b, t := Join(dest, name), Join(Join(dest, name), base);
      var c := CopyIfAbsent(EnsureBucket(fs, dest, name), from, b, base, Some(StreamBreaks(k)));
      && c.outcome == Failed
      && FileExists(c.fs, t) && c.fs[t] != fs[from]
      && EnsureBucket(c.fs, dest, name) == c.fs
      && CopyIfAbsent(c.fs, from, b, base, None) == Placed(c.fs, Skipped)
  {
    var b, t := Join(dest, name), Join(Join(dest, name), base);
    JoinBelow(dest, name, base);
    var fs1 := EnsureBucket(fs, dest, name);
    assert DirExists(fs1, b) && t !in fs1;
    assert from != b && from != t;
    var c := Cp(fs1, from, b, base, Some(StreamBreaks(k)));
    assert c.fs == fs1[t := File(fs[from].data[..k])];
    assert |c.fs[t].data| == k;
  }
}

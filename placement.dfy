/**
  The placement pipeline of the walk callback, as functions of the file-system
  state: for each non-directory entry choose the bucket, create it when
  `dirExists` says it is missing, and copy the file there unless `fileExists`
  reports a file of the same base name; a failed copy halts the whole run.
  The walk itself is given as the sequence of entries it visits.
 */
module Placement {
  import opened Wrappers
  import opened Paths
  import opened Buckets
  import opened Files

  /**
    One entry visited by the walk: its path, whether it is a directory, the
    result of reading its capture time, and `fault`, which stands for an I/O
    error of the operating system while it is copied (None: no error).
   */
  datatype WalkEntry = WalkEntry(path: string, isDir: bool, capture: Capture, fault: Option<IoFault>)

  /** What happened to one non-directory entry. */
  datatype Outcome = Copied | Skipped | Failed

  /** Where the entry's copy goes: `bucket/Base(path)`. */
  function Target(dest: string, e: WalkEntry): string {
    Join(BucketDir(dest, e.capture), Base(e.path))
  }

  /** `if !dirExists(bucket) { os.Mkdir(bucket) }`, the Mkdir error ignored. */
  function EnsureBucket(fs: FileSystem, dest: string, name: string): (r: FileSystem)
    ensures Extends(fs, r)
    ensures r != fs ==> Join(dest, name) !in fs && r == fs[Join(dest, name) := Dir]
    ensures DirExists(r, Join(dest, name)) <==> DirExists(fs, Join(dest, name)) || (Join(dest, name) !in fs && DirExists(fs, dest))
  {
    if DirExists(fs, Join(dest, name)) then fs else Mkdir(fs, dest, name)
  }

  datatype Placed = Placed(fs: FileSystem, outcome: Outcome)

  /** The conflict check followed by cp: an existing file at `dir/name` is never touched. */
  function CopyIfAbsent(fs: FileSystem, from: string, dir: string, name: string, fault: Option<IoFault>): (r: Placed)
    ensures r.outcome == Skipped <==> FileExists(fs, Join(dir, name))
    ensures r.outcome == Skipped ==> r.fs == fs
    ensures Extends(fs, r.fs)
    ensures forall p :: p != Join(dir, name) ==> Unchanged(fs, r.fs, p)
    ensures r.outcome == Copied <==>
      Join(dir, name) !in fs && FileExists(fs, from) && DirExists(fs, dir) && fault.None?
    ensures r.outcome == Copied ==> r.fs == fs[Join(dir, name) := fs[from]]
  {
    var to := Join(dir, name);
    if FileExists(fs, to) then Placed(fs, Skipped)
    else
      var c := Cp(fs, from, dir, name, fault);
      Placed(c.fs, if c.ok then Copied else Failed)
  }

  datatype Step = Step(fs: FileSystem, outcome: Option<Outcome>)

  /**
    The walk callback applied to one entry. Directory entries are never
    classified, copied or created at the destination.
   */
  function Process(fs: FileSystem, dest: string, e: WalkEntry): (r: Step)
    ensures r.outcome.None? <==> e.isDir
    ensures e.isDir ==> r.fs == fs
  {
    if e.isDir then Step(fs, None)
    else
      var name := BucketName(e.capture);
      var fs1 := EnsureBucket(fs, dest, name);
      var c := CopyIfAbsent(fs1, e.path, Join(dest, name), Base(e.path), e.fault);
      Step(c.fs, Some(c.outcome))
  }

  /**
    The bucket step followed by the copy step, for any bucket name and base
    name: existing entries stay, and only the bucket and the target, both
    below `dest`, can appear or change.
   */
  lemma EnsureThenCopy(fs: FileSystem, dest: string, name: string, from: string, base: string, fault: Option<IoFault>)
    ensures var b := Join(dest, name);
      var r := CopyIfAbsent(EnsureBucket(fs, dest, name), from, b, base, fault).fs;
      && Extends(fs, r)
      && (forall p :: p != b && p != Join(b, base) ==> Unchanged(fs, r, p))
      && NewOnlyBelow(fs, r, dest)
  {
    var b := Join(dest, name);
    var fs1 := EnsureBucket(fs, dest, name);
    var r := CopyIfAbsent(fs1, from, b, base, fault).fs;
    JoinBelow(dest, name, base);
    forall p | p != b && p != Join(b, base)
      ensures Unchanged(fs, r, p)
    {
      assert Unchanged(fs, fs1, p);
      assert Unchanged(fs1, r, p);
    }
  }

  /** Only the bucket directory and the target path can change; nothing is removed or replaced. */
  lemma ProcessTouchesOnlyBucketAndTarget(fs: FileSystem, dest: string, e: WalkEntry)
    ensures var r := Process(fs, dest, e);
      && Extends(fs, r.fs)
      && forall p :: p != BucketDir(dest, e.capture) && p != Target(dest, e) ==> Unchanged(fs, r.fs, p)
  {
    if !e.isDir {
      var name, base := BucketName(e.capture), Base(e.path);
      EnsureThenCopy(fs, dest, name, e.path, base, e.fault);
      assert Process(fs, dest, e).fs
        == CopyIfAbsent(EnsureBucket(fs, dest, name), e.path, Join(dest, name), base, e.fault).fs;
    }
  }

  /** Every write of the callback lands strictly below the destination root. */
  lemma ProcessGrows(fs: FileSystem, dest: string, e: WalkEntry)
    ensures Grows(fs, Process(fs, dest, e).fs, dest)
  {
    EnsureThenCopy(fs, dest, BucketName(e.capture), e.path, Base(e.path), e.fault);
  }

  /**
    Conflict rule: when a file already sits at the target, the entry is skipped
    and nothing but, possibly, the bucket directory is created.
   */
  lemma ProcessConflictSkips(fs: FileSystem, dest: string, e: WalkEntry)
    requires !e.isDir && FileExists(fs, Target(dest, e))
    ensures var r := Process(fs, dest, e);
      && r.outcome == Some(Skipped)
      && r.fs == EnsureBucket(fs, dest, BucketName(e.capture))
      && r.fs[Target(dest, e)] == fs[Target(dest, e)]
  {
    JoinBelow(dest, BucketName(e.capture), Base(e.path));
  }

  /**
    A copied file lands at the target with exactly the source's bytes; the
    target was free and the source is left as it was.
   */
  lemma ProcessCopiesExactly(fs: FileSystem, dest: string, e: WalkEntry)
    requires Process(fs, dest, e).outcome == Some(Copied)
    ensures var r := Process(fs, dest, e);
      && Target(dest, e) !in fs
      && FileExists(fs, e.path)
      && r.fs[Target(dest, e)] == fs[e.path]
      && DirExists(r.fs, BucketDir(dest, e.capture))
      && r.fs == EnsureBucket(fs, dest, BucketName(e.capture))[Target(dest, e) := fs[e.path]]
  {
    var name, base := BucketName(e.capture), Base(e.path);
    var b, t := Join(dest, name), Join(Join(dest, name), base);
    JoinBelow(dest, name, base);
    var fs1 := EnsureBucket(fs, dest, name);
    var c := CopyIfAbsent(fs1, e.path, b, base, e.fault);
    assert c.outcome == Copied;
    assert t !in fs1 && FileExists(fs1, e.path) && DirExists(fs1, b);
    assert c.fs == fs1[t := fs1[e.path]];
    assert e.path != b;
    assert fs1[e.path] == fs[e.path];
  }

  /**
    A file whose bucket does not exist yet, under a destination that is a
    directory, gets a new bucket and an exact copy there.
   */
  lemma ProcessIntoNewBucket(fs: FileSystem, dest: string, e: WalkEntry)
    requires !e.isDir && e.fault.None? && FileExists(fs, e.path) && DirExists(fs, dest)
    requires BucketDir(dest, e.capture) !in fs && Target(dest, e) !in fs
    ensures Process(fs, dest, e)
      == Step(fs[BucketDir(dest, e.capture) := Dir][Target(dest, e) := fs[e.path]], Some(Copied))
  {
    var name, base := BucketName(e.capture), Base(e.path);
    FreshBucketCopy(fs, dest, name, e.path, base);
    assert Process(fs, dest, e)
      == Step(CopyIfAbsent(EnsureBucket(fs, dest, name), e.path, Join(dest, name), base, None).fs, Some(Copied));
  }

  /**
    A file whose bucket already exists and whose target is free is copied
    there; nothing else changes.
   */
  lemma ProcessIntoExistingBucket(fs: FileSystem, dest: string, e: WalkEntry)
    requires !e.isDir && e.fault.None? && FileExists(fs, e.path)
    requires DirExists(fs, BucketDir(dest, e.capture)) && Target(dest, e) !in fs
    ensures Process(fs, dest, e) == Step(fs[Target(dest, e) := fs[e.path]], Some(Copied))
  {
    JoinBelow(dest, BucketName(e.capture), Base(e.path));
  }

  /**
    The layout of the destination: the bucket lies below `dest`, the target
    lies below the bucket, and the target keeps the walked file's base name.
   */
  lemma TargetLayout(dest: string, e: WalkEntry)
    ensures Below(dest, BucketDir(dest, e.capture)) && Below(dest, Target(dest, e))
    ensures Below(BucketDir(dest, e.capture), Target(dest, e))
    ensures Target(dest, e) != BucketDir(dest, e.capture)
    ensures Base(Target(dest, e)) == Base(e.path)
    ensures Base(BucketDir(dest, e.capture)) == BucketName(e.capture)
  {
    var name, base := BucketName(e.capture), Base(e.path);
    JoinBelow(dest, name, base);
    JoinBelow(Join(dest, name), base, "");
    BaseOfJoin(Join(dest, name), base);
    BaseOfJoin(dest, name);
  }

  lemma FreshBucketCopy(fs: FileSystem, dest: string, name: string, from: string, base: string)
    requires FileExists(fs, from) && DirExists(fs, dest)
    requires Join(dest, name) !in fs && Join(Join(dest, name), base) !in fs
    ensures var b, t := Join(dest, name), Join(Join(dest, name), base);
      CopyIfAbsent(EnsureBucket(fs, dest, name), from, b, base, None) == Placed(fs[b := Dir][t := fs[from]], Copied)
  {
    var b, t := Join(dest, name), Join(Join(dest, name), base);
    JoinBelow(dest, name, base);
    var fs1 := fs[b := Dir];
    assert EnsureBucket(fs, dest, name) == fs1;
    assert from != b && from != t;
    var c := Cp(fs1, from, b, base, None);
    assert c.ok;
    assert c.fs == fs1[t := fs[from]];
  }

  /** A skipped or copied file leaves its target holding a file. */
  lemma ProcessPlaces(fs: FileSystem, dest: string, e: WalkEntry)
    requires !e.isDir && Process(fs, dest, e).outcome != Some(Failed)
    ensures FileExists(Process(fs, dest, e).fs, Target(dest, e))
  {
    JoinBelow(dest, BucketName(e.capture), Base(e.path));
  }

  /**
    When os.Open or os.Create refuses the copy, the entry fails unless its
    target already holds a file, and nothing beyond the bucket step is written.
   */
  lemma ProcessEarlyFaultWritesNothing(fs: FileSystem, dest: string, e: WalkEntry)
    requires !e.isDir && (e.fault == Some(OpenFails) || e.fault == Some(CreateFails))
    ensures var fs1 := EnsureBucket(fs, dest, BucketName(e.capture));
      Process(fs, dest, e)
        == Step(fs1, Some(if FileExists(fs1, Target(dest, e)) then Skipped else Failed))
  {
    var name, base := BucketName(e.capture), Base(e.path);
    var fs1 := EnsureBucket(fs, dest, name);
    var c := CopyIfAbsent(fs1, e.path, Join(dest, name), base, e.fault);
    assert c.fs == fs1;
    assert c.outcome == if FileExists(fs1, Join(Join(dest, name), base)) then Skipped else Failed;
  }

  /** The outcomes a processed entry contributes: none for a directory. */
  function Outs(o: Option<Outcome>): seq<Outcome> {
    if o.Some? then [o.value] else []
  }

  /** Number of non-directory entries. */
  function FileCount(es: seq<WalkEntry>): nat
    decreases |es|
  {
    if es == [] then 0 else (if es[0].isDir then 0 else 1) + FileCount(es[1..])
  }

  datatype Report = Report(fs: FileSystem, outcomes: seq<Outcome>, halted: bool)

  /** `outs` followed by what `r` reports. */
  function Prefixed(outs: seq<Outcome>, r: Report): Report {
    Report(r.fs, outs + r.outcomes, r.halted)
  }

  /**
    The walk over `es`: entries are processed in order and the first failed
    copy halts the run, leaving the remaining entries unprocessed.
   */
  function Walk(fs: FileSystem, dest: string, es: seq<WalkEntry>): Report
    decreases |es|
  {
    if es == [] then Report(fs, [], false)
    else
      var s := Process(fs, dest, es[0]);
      if s.outcome == Some(Failed) then Report(s.fs, [Failed], true)
      else Prefixed(Outs(s.outcome), Walk(s.fs, dest, es[1..]))
  }

  /** `halted` holds exactly when the last outcome is a failure, and no earlier outcome is one. */
  predicate FailsOnlyAtEnd(outcomes: seq<Outcome>, halted: bool) {
    && (halted <==> |outcomes| > 0 && outcomes[|outcomes| - 1] == Failed)
    && (forall i :: 0 <= i < |outcomes| - 1 ==> outcomes[i] != Failed)
  }

  /** The walk halts exactly at its first failed copy. */
  lemma {:induction false} WalkHaltsAtFailure(fs: FileSystem, dest: string, es: seq<WalkEntry>)
    ensures var r := Walk(fs, dest, es); FailsOnlyAtEnd(r.outcomes, r.halted)
    decreases |es|
  {
    if es != [] {
      var s := Process(fs, dest, es[0]);
      if s.outcome == Some(Failed) {
        assert Walk(fs, dest, es) == Report(s.fs, [Failed], true);
      } else {
        var rest := Walk(s.fs, dest, es[1..]);
        assert Walk(fs, dest, es) == Prefixed(Outs(s.outcome), rest);
        WalkHaltsAtFailure(s.fs, dest, es[1..]);
        OutcomesAfterStep(Outs(s.outcome), rest.outcomes, rest.halted);
      }
    }
  }

  lemma OutcomesAfterStep(outs: seq<Outcome>, rest: seq<Outcome>, halted: bool)
    requires |outs| <= 1 && Failed !in outs
    requires FailsOnlyAtEnd(rest, halted)
    ensures FailsOnlyAtEnd(outs + rest, halted)
  {
    assert forall i :: 0 <= i < |rest| ==> (outs + rest)[|outs| + i] == rest[i];
  }

  /** A walk reports at most one outcome per non-directory entry, and exactly one each when it completes. */
  lemma {:induction false} WalkCountsFiles(fs: FileSystem, dest: string, es: seq<WalkEntry>)
    ensures var r := Walk(fs, dest, es);
      && (!r.halted ==> |r.outcomes| == FileCount(es))
      && |r.outcomes| <= FileCount(es)
    decreases |es|
  {
    if es != [] {
      var s := Process(fs, dest, es[0]);
      if s.outcome != Some(Failed) {
        WalkCountsFiles(s.fs, dest, es[1..]);
      }
    }
  }

  /** One step of the walk over the suffix of `es` that starts at `i`. */
  lemma WalkUnfold(fs: FileSystem, dest: string, es: seq<WalkEntry>, i: nat)
    requires i < |es|
    ensures var s := Process(fs, dest, es[i]);
      Walk(fs, dest, es[i..])
        == if s.outcome == Some(Failed) then Report(s.fs, [Failed], true)
           else Prefixed(Outs(s.outcome), Walk(s.fs, dest, es[i + 1..]))
  {
    assert es[i..][0] == es[i] && es[i..][1..] == es[i + 1..];
  }

  lemma PrefixedTwice(a: seq<Outcome>, b: seq<Outcome>, r: Report)
    ensures Prefixed(a, Prefixed(b, r)) == Prefixed(a + b, r)
  {
    assert a + (b + r.outcomes) == (a + b) + r.outcomes;
  }

  /** The walk only adds entries, and only below the destination root. */
  lemma {:induction false} WalkGrows(fs: FileSystem, dest: string, es: seq<WalkEntry>)
    ensures Grows(fs, Walk(fs, dest, es).fs, dest)
    decreases |es|
  {
    if es != [] {
      var s := Process(fs, dest, es[0]);
      ProcessGrows(fs, dest, es[0]);
      if s.outcome != Some(Failed) {
        WalkGrows(s.fs, dest, es[1..]);
        GrowsTransitive(fs, s.fs, Walk(s.fs, dest, es[1..]).fs, dest);
      }
    }
  }

  /** No existing file or directory, in the source tree or the destination, is ever changed or removed. */
  lemma WalkPreservesExisting(fs: FileSystem, dest: string, es: seq<WalkEntry>, p: string)
    requires p in fs
    ensures var r := Walk(fs, dest, es); p in r.fs && r.fs[p] == fs[p]
  {
    WalkGrows(fs, dest, es);
  }

  /** After a halt, further entries change nothing: the walk stopped at the failure. */
  lemma {:induction false} WalkHaltIgnoresRest(fs: FileSystem, dest: string, es: seq<WalkEntry>, more: seq<WalkEntry>)
    requires Walk(fs, dest, es).halted
    ensures Walk(fs, dest, es + more) == Walk(fs, dest, es)
    decreases |es|
  {
    assert es != [];
    assert (es + more)[0] == es[0];
    assert (es + more)[1..] == es[1..] + more;
    var s := Process(fs, dest, es[0]);
    if s.outcome != Some(Failed) {
      WalkHaltIgnoresRest(s.fs, dest, es[1..], more);
    }
  }

  /**
    An entry is settled in `fs` when processing it again changes nothing: its
    target already holds a file, and creating its bucket would be a no-op.
   */
  predicate Settled(fs: FileSystem, dest: string, e: WalkEntry) {
    e.isDir ||
    (FileExists(fs, Target(dest, e)) && (BucketDir(dest, e.capture) in fs || !DirExists(fs, dest)))
  }

  lemma SettledIsSkipped(fs: FileSystem, dest: string, e: WalkEntry)
    requires Settled(fs, dest, e)
    ensures Process(fs, dest, e) == Step(fs, if e.isDir then None else Some(Skipped))
  {
  }

  lemma ProcessSettles(fs: FileSystem, dest: string, e: WalkEntry)
    requires Process(fs, dest, e).outcome != Some(Failed)
    ensures Settled(Process(fs, dest, e).fs, dest, e)
  {
    if !e.isDir {
      ProcessPlaces(fs, dest, e);
      ProcessTouchesOnlyBucketAndTarget(fs, dest, e);
    }
  }

  lemma SettledPersists(fs: FileSystem, fs': FileSystem, dest: string, e: WalkEntry)
    requires Settled(fs, dest, e) && Grows(fs, fs', dest)
    ensures Settled(fs', dest, e)
  {
    GrowsKeepsRoot(fs, fs', dest);
  }

  /** After a walk that did not halt, every entry it visited is settled. */
  lemma {:induction false} WalkSettles(fs: FileSystem, dest: string, es: seq<WalkEntry>)
    requires !Walk(fs, dest, es).halted
    ensures forall i :: 0 <= i < |es| ==> Settled(Walk(fs, dest, es).fs, dest, es[i])
    decreases |es|
  {
    if es != [] {
      var s := Process(fs, dest, es[0]);
      var r := Walk(s.fs, dest, es[1..]);
      ProcessSettles(fs, dest, es[0]);
      WalkGrows(s.fs, dest, es[1..]);
      SettledPersists(s.fs, r.fs, dest, es[0]);
      WalkSettles(s.fs, dest, es[1..]);
      forall i | 1 <= i < |es|
        ensures Settled(r.fs, dest, es[i])
      {
        assert es[i] == es[1..][i - 1];
      }
    }
  }

  function Skips(n: nat): seq<Outcome> {
    seq(n, _ => Skipped)
  }

  lemma SkipsCons(n: nat)
    ensures [Skipped] + Skips(n) == Skips(n + 1)
  {
    assert forall i :: 0 <= i < n + 1 ==> ([Skipped] + Skips(n))[i] == Skipped;
  }

  /** A walk over settled entries writes nothing and skips every file. */
  lemma {:induction false} WalkOverSettled(fs: FileSystem, dest: string, es: seq<WalkEntry>)
    requires forall i :: 0 <= i < |es| ==> Settled(fs, dest, es[i])
    ensures Walk(fs, dest, es) == Report(fs, Skips(FileCount(es)), false)
    decreases |es|
  {
    if es != [] {
      var o := if es[0].isDir then None else Some(Skipped);
      SettledIsSkipped(fs, dest, es[0]);
      WalkUnfold(fs, dest, es, 0);
      assert es[0..] == es;
      assert Walk(fs, dest, es) == Prefixed(Outs(o), Walk(fs, dest, es[1..]));
      assert forall i :: 0 <= i < |es| - 1 ==> es[1..][i] == es[i + 1];
      WalkOverSettled(fs, dest, es[1..]);
      var n := FileCount(es[1..]);
      SkipsCons(n);
      assert Outs(o) + Skips(n) == Skips(FileCount(es));
    }
  }

  /**
    `es'` visits the same paths as `es`, with the same kinds and capture
    results; only the copy faults the operating system would raise may differ.
   */
  predicate SameButFaults(es: seq<WalkEntry>, es': seq<WalkEntry>) {
    |es| == |es'| && forall i :: 0 <= i < |es| ==> es'[i] == es[i].(fault := es'[i].fault)
  }

  /**
    Idempotence: after a walk that ran to completion, walking the same entries
    again, under any copy faults, with the same capture results, writes
    nothing and reports every file as skipped.
   */
  lemma WalkIdempotent(fs: FileSystem, dest: string, es: seq<WalkEntry>, es': seq<WalkEntry>)
    requires !Walk(fs, dest, es).halted && SameButFaults(es, es')
    ensures var r := Walk(fs, dest, es);
      Walk(r.fs, dest, es') == Report(r.fs, Skips(FileCount(es')), false)
  {
    var r := Walk(fs, dest, es);
    WalkSettles(fs, dest, es);
    forall i | 0 <= i < |es'|
      ensures Settled(r.fs, dest, es'[i])
    {
      assert Settled(r.fs, dest, es[i]);
      assert Target(dest, es'[i]) == Target(dest, es[i]);
    }
    WalkOverSettled(r.fs, dest, es');
  }

  /** How a run of the program ends. */
  datatype Status =
    | UsageError                          // fewer than two arguments
    | InvalidRoot                         // the source or destination cannot be stat'd
    | Halted(outcomes: seq<Outcome>)      // a copy failed; the last outcome is that failure
    | Completed(outcomes: seq<Outcome>)   // every entry was processed

  datatype RunResult = RunResult(fs: FileSystem, status: Status)

  /**
    The program: `args` is os.Args (program name first), `es` the entries the
    walk of the source root visits.
   */
  function Photosort(fs: FileSystem, args: seq<string>, es: seq<WalkEntry>): (r: RunResult)
    ensures r.status == UsageError <==> |args| < 3
    ensures r.status == InvalidRoot <==> |args| >= 3 && (args[1] !in fs || args[2] !in fs)
    ensures r.status == UsageError || r.status == InvalidRoot ==> r.fs == fs
  {
    if |args| < 3 then RunResult(fs, UsageError)
    else
      var from, to := args[1], args[2];
      if from !in fs || to !in fs then RunResult(fs, InvalidRoot)
      else
        var w := Walk(fs, to, es);
        RunResult(w.fs, if w.halted then Halted(w.outcomes) else Completed(w.outcomes))
  }

  /** A run never changes or removes an existing entry, and it writes only below the destination root. */
  lemma PhotosortGrows(fs: FileSystem, args: seq<string>, es: seq<WalkEntry>)
    requires |args| >= 3
    ensures Grows(fs, Photosort(fs, args, es).fs, args[2])
  {
    WalkGrows(fs, args[2], es);
  }

  /**
    Running the program a second time after a completed run, whatever copy
    faults that second run meets, writes nothing and skips every file, as long
    as every capture result reads the same as before.
   */
  lemma PhotosortIdempotent(fs: FileSystem, args: seq<string>, es: seq<WalkEntry>, es': seq<WalkEntry>)
    requires Photosort(fs, args, es).status.Completed? && SameButFaults(es, es')
    ensures var r := Photosort(fs, args, es);
      Photosort(r.fs, args, es') == RunResult(r.fs, Completed(Skips(FileCount(es'))))
  {
    WalkGrows(fs, args[2], es);
    WalkIdempotent(fs, args[2], es, es');
  }
}

/**
  The program as it runs: an object holding the file-system state, whose
  methods perform the callback's steps one after another and update that
  state in place. Each method is proved to end in exactly the state, and with
  exactly the result, that the corresponding function of Files or Placement
  describes, so everything proved there holds of these methods.
 */
module Sorting {
  import opened Wrappers
  import opened Paths
  import opened Buckets
  import opened Files
  import opened Placement

  class Sorter {
    var fs: FileSystem

    constructor (initial: FileSystem)
      ensures fs == initial
    {
      fs := initial;
    }

    /** os.Mkdir(parent/name), its error ignored by the caller. */
    method Mkdir(parent: string, name: string)
      modifies this
      ensures fs == Files.Mkdir(old(fs), parent, name)
    {
      var p := Join(parent, name);
      if p !in fs && DirExists(fs, parent) {
        fs := fs[p := Dir];
      }
    }

    /** cp(from, dir/name): open, create, stream, close; `ok` is false on any error. */
    method Cp(from: string, dir: string, name: string, fault: Option<IoFault>) returns (ok: bool)
      modifies this
      ensures CopyResult(fs, ok) == Files.Cp(old(fs), from, dir, name, fault)
    {
      var to := Join(dir, name);
      if from !in fs || fault == Some(OpenFails) {
        return false;   // os.Open fails
      }
      if !DirExists(fs, dir) || DirExists(fs, to) || fault == Some(CreateFails) {
        return false;   // os.Create fails
      }
      fs := fs[to := File([])];   // os.Create creates or truncates the destination
      var src := fs[from];
      if src.Dir? {
        return false;   // io.Copy cannot read a directory
      }
      var n := Written(|src.data|, fault);
      fs := fs[to := File(src.data[..n])];
      ok := fault.None?;
    }

    /** Creates the bucket `dest/name` only when dirExists reports it absent. */
    method EnsureDir(dest: string, name: string)
      modifies this
      ensures fs == EnsureBucket(old(fs), dest, name)
      ensures Extends(old(fs), fs)
    {
      if !DirExists(fs, Join(dest, name)) {
        Mkdir(dest, name);
      }
    }

    /** Skips when fileExists(dir/name); otherwise copies `from` there. */
    method CopyIfAbsent(from: string, dir: string, name: string, fault: Option<IoFault>) returns (o: Outcome)
      modifies this
      ensures Placed(fs, o) == Placement.CopyIfAbsent(old(fs), from, dir, name, fault)
      ensures Extends(old(fs), fs)
    {
      if FileExists(fs, Join(dir, name)) {
        return Skipped;
      }
      var ok := Cp(from, dir, name, fault);
      o := if ok then Copied else Failed;
    }

    /** The walk callback for one entry: `None` for a directory, otherwise the file's outcome. */
    method ProcessFile(dest: string, e: WalkEntry) returns (o: Option<Outcome>)
      modifies this
      ensures Step(fs, o) == Process(old(fs), dest, e)
      ensures Grows(old(fs), fs, dest)
    {
      ProcessGrows(fs, dest, e);
      if e.isDir {
        return None;
      }
      var name := BucketName(e.capture);
      EnsureDir(dest, name);
      var c := CopyIfAbsent(e.path, Join(dest, name), Base(e.path), e.fault);
      o := Some(c);
    }

    /** filepath.Walk over `es`, halting at the first failed copy as log.Fatal does. */
    method WalkAll(dest: string, es: seq<WalkEntry>) returns (outcomes: seq<Outcome>, halted: bool)
      modifies this
      ensures Report(fs, outcomes, halted) == Walk(old(fs), dest, es)
    {
      outcomes, halted := [], false;
      var i := 0;
      while i < |es|
        invariant 0 <= i <= |es|
        invariant Walk(old(fs), dest, es) == Prefixed(outcomes, Walk(fs, dest, es[i..]))
      {
        WalkUnfold(fs, dest, es, i);
        var o := ProcessFile(dest, es[i]);
        if o == Some(Failed) {
          outcomes, halted := outcomes + [Failed], true;
          return;
        }
        PrefixedTwice(outcomes, Outs(o), Walk(fs, dest, es[i + 1..]));
        outcomes := outcomes + Outs(o);
        i := i + 1;
      }
      assert outcomes + [] == outcomes;
    }

    /** main: the argument and root checks, then the walk. */
    method Run(args: seq<string>, es: seq<WalkEntry>) returns (status: Status)
      modifies this
      ensures RunResult(fs, status) == Photosort(old(fs), args, es)
    {
      if |args| < 3 {
        return UsageError;
      }
      var from, to := args[1], args[2];
      if from !in fs {
        return InvalidRoot;
      }
      if to !in fs {
        return InvalidRoot;
      }
      var outcomes, halted := WalkAll(to, es);
      status := if halted then Halted(outcomes) else Completed(outcomes);
    }
  }
}

/**
  An abstract file system: a map from path to entry, where an entry is a
  directory or a regular file with its bytes. The queries `dirExists` and
  `fileExists`, the `os.Mkdir` call and the `cp` helper are modelled over it.
  The map is not required to form a tree; operations that need a parent
  directory check for it explicitly.
 */
module Files {
  import opened Wrappers
  import opened Paths

  newtype byte = b: int | 0 <= b < 256

  datatype Entry = Dir | File(data: seq<byte>)

  type FileSystem = map<string, Entry>

  /** dirExists: the path can be stat'd and is a directory. */
  predicate DirExists(fs: FileSystem, p: string) {
    p in fs && fs[p].Dir?
  }

  /** fileExists: the path can be stat'd and is not a directory. */
  predicate FileExists(fs: FileSystem, p: string) {
    p in fs && fs[p].File?
  }

  /** Every stat-able path is exactly one of a directory or a file. */
  lemma ExistsExclusive(fs: FileSystem, p: string)
    ensures !(DirExists(fs, p) && FileExists(fs, p))
    ensures DirExists(fs, p) || FileExists(fs, p) <==> p in fs
  {
  }

  /** Path `p` is present in both states with the same entry, or absent from both. */
  predicate Unchanged(fs: FileSystem, fs': FileSystem, p: string) {
    (p in fs <==> p in fs') && (p in fs ==> fs'[p] == fs[p])
  }

  /** `fs'` keeps every entry of `fs`: nothing was removed, replaced or rewritten. */
  predicate Extends(fs: FileSystem, fs': FileSystem) {
    forall p :: p in fs ==> p in fs' && fs'[p] == fs[p]
  }

  /** Every path that `fs'` has and `fs` lacks lies below directory `root`. */
  predicate NewOnlyBelow(fs: FileSystem, fs': FileSystem, root: string) {
    forall p :: p in fs' && p !in fs ==> Below(root, p)
  }

  /** `fs'` grew from `fs` by adding entries below `root` and nothing else. */
  predicate Grows(fs: FileSystem, fs': FileSystem, root: string) {
    Extends(fs, fs') && NewOnlyBelow(fs, fs', root)
  }

  lemma GrowsTransitive(fs1: FileSystem, fs2: FileSystem, fs3: FileSystem, root: string)
    requires Grows(fs1, fs2, root) && Grows(fs2, fs3, root)
    ensures Grows(fs1, fs3, root)
  {
  }

  /** Growing below `root` leaves the entry of `root` itself as it was. */
  lemma GrowsKeepsRoot(fs: FileSystem, fs': FileSystem, root: string)
    requires Grows(fs, fs', root)
    ensures Unchanged(fs, fs', root)
  {
    NotBelowSelf(root);
  }

  /**
    os.Mkdir(parent/name): creates the directory when nothing is at that path
    and the parent is a directory; otherwise it fails and changes nothing.
   */
  function Mkdir(fs: FileSystem, parent: string, name: string): (r: FileSystem)
    ensures var p := Join(parent, name);
      && (DirExists(r, p) <==> DirExists(fs, p) || (p !in fs && DirExists(fs, parent)))
      && (forall q :: q != p ==> Unchanged(fs, r, q))
      && Extends(fs, r)
      && (r != fs ==> r == fs[p := Dir])
  {
    var p := Join(parent, name);
    if p !in fs && DirExists(fs, parent) then fs[p := Dir] else fs
  }

  /**
    An operating-system error during cp. `OpenFails` and `CreateFails` stand
    for os.Open or os.Create refusing a path that exists (permissions, a
    read-only mount, a full disk); `StreamBreaks(after)` for io.Copy or the
    final close failing once `after` bytes have reached the destination.
   */
  datatype IoFault = OpenFails | CreateFails | StreamBreaks(after: nat)

  /** Number of bytes the stream writes before `fault` interrupts it. */
  function Written(size: nat, fault: Option<IoFault>): (n: nat)
    ensures n <= size
    ensures fault.None? ==> n == size
    ensures fault.Some? && fault.value.StreamBreaks? && fault.value.after < size ==> n == fault.value.after
  {
    match fault
    case Some(StreamBreaks(k)) => if k < size then k else size
    case _ => size
  }

  datatype CopyResult = CopyResult(fs: FileSystem, ok: bool)

  /**
    cp(from, dir/name). Opening `from` fails when it is absent or on
    `OpenFails`; creating the destination fails when `dir` is not a directory,
    the destination is one, or on `CreateFails`. Both failures write nothing.
    Once created (or truncated) the destination receives the source's bytes;
    reading a directory fails at once and leaves the new file empty, and
    `StreamBreaks(k)` stops the stream after k bytes.
   */
  function Cp(fs: FileSystem, from: string, dir: string, name: string, fault: Option<IoFault>): (r: CopyResult)
    ensures var to := Join(dir, name);
      && (forall p :: p != to ==> Unchanged(fs, r.fs, p))
      && (r.ok <==> FileExists(fs, from) && DirExists(fs, dir) && !DirExists(fs, to) && fault.None?)
      && (r.ok && from != to ==> r.fs == fs[to := fs[from]])
      && (fault == Some(OpenFails) || fault == Some(CreateFails) ==> r.fs == fs)
      && (r.fs != fs ==> from in fs && DirExists(fs, dir) && !DirExists(fs, to) && FileExists(r.fs, to))
      && (from in fs && fs[from].Dir? && r.fs != fs ==> r.fs[to] == File([]))
      && (var streams := from in fs && DirExists(fs, dir) && !DirExists(fs, to)
            && fault != Some(OpenFails) && fault != Some(CreateFails);
          && (streams ==> FileExists(r.fs, to))
          && (streams && fs[from].Dir? ==> r.fs == fs[to := File([])])
          && (streams && fs[from].File? && from != to && fault.Some? && fault.value.StreamBreaks?
                && fault.value.after < |fs[from].data| ==>
                r.fs == fs[to := File(fs[from].data[..fault.value.after])]))
  {
    var to := Join(dir, name);
    if from !in fs || fault == Some(OpenFails) then CopyResult(fs, false)
    else if !DirExists(fs, dir) || DirExists(fs, to) || fault == Some(CreateFails) then CopyResult(fs, false)
    else
      var created := fs[to := File([])];
      match created[from]
      case Dir => CopyResult(created, false)
      case File(data) =>
        var n := Written(|data|, fault);
        assert n == |data| ==> data[..n] == data;
        CopyResult(created[to := File(data[..n])], fault.None?)
  }
}

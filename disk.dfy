/**
 * The file system as the programs see it: a set of file paths, the paths
 * whose removal the operating system refuses, and a log of the effects the
 * programs had, in order. `os.remove` and `shutil.copy` are modelled by their
 * effect on the set; their failures are caught and only logged.
 */
module Disk {

  /** An effect on the disk, or a confirmation prompt shown to the user. */
  datatype Event =
    | Copied(source: string, target: string)
    | CopyFailed(source: string)
    | Prompted(path: string, original: string)
    | Removed(path: string)
    | RemoveFailed(path: string)

  datatype Disk = Disk(files: set<string>, locked: set<string>, log: seq<Event>)

  /** The event a removal attempt logs. */
  function RemoveOutcome(d: Disk, path: string): Event {
    if path in d.files && path !in d.locked then Removed(path) else RemoveFailed(path)
  }

  /** The event a copy attempt logs. */
  function CopyOutcome(d: Disk, source: string, target: string): Event {
    if source in d.files && source != target then Copied(source, target) else CopyFailed(source)
  }

  /** `os.remove(path)` in a try block: it fails, and the failure is logged, when the file is missing or locked. */
  function Remove(d: Disk, path: string): (r: Disk)
    ensures r.locked == d.locked
    ensures path in r.files <==> path in d.files && path in d.locked
    ensures forall p :: p != path ==> (p in r.files <==> p in d.files)
    ensures r.log == d.log + [RemoveOutcome(d, path)]
  {
    if path in d.files && path !in d.locked then d.(files := d.files - {path}, log := d.log + [Removed(path)])
    else d.(log := d.log + [RemoveFailed(path)])
  }

  /**
   * `shutil.copy(source, target)` in a try block: it fails, and the failure is
   * logged, when the source is missing or is the target itself (`SameFileError`).
   */
  function Copy(d: Disk, source: string, target: string): (r: Disk)
    ensures r.locked == d.locked
    ensures r.files == if CopyOutcome(d, source, target).Copied? then d.files + {target} else d.files
    ensures source in d.files ==> target in r.files
    ensures r.log == d.log + [CopyOutcome(d, source, target)]
  {
    if source in d.files && source != target then d.(files := d.files + {target}, log := d.log + [Copied(source, target)])
    else d.(log := d.log + [CopyFailed(source)])
  }
}

/**
 * The module-level state that MediaMatch.py and androidmobile.py share
 * between their scan thread and their GUI: the flags `abort_scan` and
 * `popup_active`, with the disk the delete action works on. `World` is that
 * state as a value and the functions below are its transitions; the class
 * `ScanSession` holds it in fields and its methods perform the transitions.
 */
module Session {
  import opened Disk

  datatype World = World(disk: Disk, abort: bool, popup: bool)

  /**
   * `show_deletion_popup`: a no-op while a popup is open; otherwise it marks a
   * popup open and shows the prompt. Either way a popup is open afterwards,
   * and at most one prompt is ever added.
   */
  function ShowPopup(w: World, path: string, original: string): (r: World)
    ensures r.popup && r.abort == w.abort
    ensures r.disk.files == w.disk.files && r.disk.locked == w.disk.locked
    ensures r.disk.log == w.disk.log + (if w.popup then [] else [Prompted(path, original)])
  {
    if w.popup then w
    else w.(popup := true, disk := w.disk.(log := w.disk.log + [Prompted(path, original)]))
  }

  /** `set_popup_inactive`. */
  function ClosePopup(w: World): (r: World)
    ensures !r.popup && r.disk == w.disk && r.abort == w.abort
  {
    w.(popup := false)
  }

  /** `delete_action`: try to remove the file; whether or not that fails, the popup is closed (`finally`). */
  function Delete(w: World, path: string): (r: World)
    ensures !r.popup && r.abort == w.abort
    ensures r.disk == Remove(w.disk, path)
  {
    ClosePopup(w.(disk := Remove(w.disk, path)))
  }

  /** `skip_action`: close the popup and leave every file in place. */
  function Skip(w: World): (r: World)
    ensures !r.popup && r.abort == w.abort && r.disk == w.disk
  {
    ClosePopup(w)
  }

  /** The user's click on the popup: Delete when `delete`, Skip otherwise. */
  function Resolve(w: World, path: string, delete: bool): (r: World)
    ensures !r.popup && r.abort == w.abort
    ensures r.disk == if delete then Remove(w.disk, path) else w.disk
  {
    if delete then Delete(w, path) else Skip(w)
  }

  /**
   * One read of `abort_scan` by the scan thread; `pressed` says whether the
   * GUI's Abort button (`abort_scan_process`) was pressed since the last read.
   * Nothing ever resets the flag.
   */
  function Poll(w: World, pressed: bool): (r: World)
    ensures r.abort == (w.abort || pressed)
    ensures r.disk == w.disk && r.popup == w.popup
  {
    w.(abort := w.abort || pressed)
  }

  /** The flags and the disk, as the fields of one object. */
  class ScanSession {
    var files: set<string>
    const locked: set<string>
    var log: seq<Event>
    var abortScan: bool
    var popupActive: bool

    function State(): World
      reads this
    {
      World(Disk(files, locked, log), abortScan, popupActive)
    }

    /** The program's start: both flags false (as the globals are initialised), nothing logged. */
    constructor (files: set<string>, locked: set<string>)
      ensures State() == World(Disk(files, locked, []), false, false)
    {
      this.files := files;
      this.locked := locked;
      this.log := [];
      this.abortScan := false;
      this.popupActive := false;
    }

    method SetDisk(d: Disk)
      requires d.locked == locked
      modifies this
      ensures State() == old(State()).(disk := d)
    {
      files, log := d.files, d.log;
    }

    /** `show_deletion_popup(path, original_path)`. */
    method ShowDeletionPopup(path: string, original: string)
      modifies this
      ensures State() == ShowPopup(old(State()), path, original)
    {
      if popupActive {
        return;
      }
      popupActive := true;
      log := log + [Prompted(path, original)];
    }

    /** `set_popup_inactive()`. */
    method SetPopupInactive()
      modifies this
      ensures State() == ClosePopup(old(State()))
    {
      popupActive := false;
    }

    /** `delete_action(path)`. */
    method DeleteAction(path: string)
      modifies this
      ensures State() == Delete(old(State()), path)
    {
      var d := Remove(State().disk, path);
      SetDisk(d);
      SetPopupInactive();
    }

    /** `skip_action()`. */
    method SkipAction()
      modifies this
      ensures State() == Skip(old(State()))
    {
      SetPopupInactive();
    }

    /** `abort_scan_process()`: the GUI's Abort button. */
    method AbortScanProcess()
      modifies this
      ensures State() == old(State()).(abort := true)
    {
      abortScan := true;
    }

    /** The scan thread's `if abort_scan:`, after the GUI had the chance to press Abort. */
    method PollAbort(pressed: bool) returns (aborted: bool)
      modifies this
      ensures State() == Poll(old(State()), pressed)
      ensures aborted == State().abort
    {
      if pressed {
        AbortScanProcess();
      }
      aborted := abortScan;
    }
  }
}

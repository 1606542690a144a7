/** Putting a downloaded copy in the place of the installed one by renames, any of which may
    fail, in a process that may stop between any two of them. */
module InstallSwap {
  import opened InstallPaths

  /** What lies at a path. A directory whose removal stopped half-way is no longer whole. */
  datatype Copy = Whole(content: nat) | Partial

  type Files = map<Path, Copy>

  datatype Removal = Removed | StoppedHalfway | Refused | ProbeFailed

  /** How each system call of one swap turns out. */
  datatype Faults = Faults(
    clearing: Removal,
    installedReadable: bool,
    setAside: bool,
    moveIn: bool,
    rollback: bool,
    cleanup: Removal)

  datatype SwapResult = Done | Failed(path: Path)

  /** Removing whatever is at `path`: the states passed through, and whether it reports success. */
  function Removing(files: Files, path: Path, removal: Removal): (seq<Files>, bool) {
    if removal.ProbeFailed? then ([], false)
    else if path !in files then ([], true)
    else
      match removal
      case Removed => ([files[path := Partial], files - {path}], true)
      case StoppedHalfway => ([files[path := Partial]], false)
      case Refused => ([], false)
  }

  /** A rename is atomic: it happens, or nothing does. */
  function Moved(files: Files, from: Path, to: Path): Files
    requires from in files
  {
    (files - {from})[to := files[from]]
  }

  function LastOf(states: seq<Files>, otherwise: Files): Files {
    if states == [] then otherwise else states[|states| - 1]
  }

  /** Every state the disk passes through, the first included, and the result. */
  function Swap(files: Files, staged: Path, installed: Path, displaced: Path, faults: Faults)
    : (seq<Files>, SwapResult)
  {
    var (clearing, cleared) := Removing(files, displaced, faults.clearing);
    var trace := [files] + clearing;
    var afterClearing := LastOf(clearing, files);
    var hadPrevious := installed in afterClearing && faults.installedReadable;
    if !cleared then (trace, Failed(displaced))
    else if hadPrevious && !faults.setAside then (trace, Failed(installed))
    else
      var aside := if hadPrevious then Moved(afterClearing, installed, displaced) else afterClearing;
      var traceAside := if hadPrevious then trace + [aside] else trace;
      if faults.moveIn && staged in aside then
        var swapped := Moved(aside, staged, installed);
        (traceAside + [swapped] + Removing(swapped, displaced, faults.cleanup).0, Done)
      else if hadPrevious && faults.rollback then
        (traceAside + [Moved(aside, displaced, installed)], Failed(staged))
      else (traceAside, Failed(staged))
  }

  /** The disk, with the fault pattern of one swap; `trace` remembers every state. */
  class Disk {
    var files: Files
    ghost var trace: seq<Files>

    constructor (files: Files)
      ensures this.files == files && trace == [files]
    {
      this.files := files;
      trace := [files];
    }

    method RemoveAny(path: Path, removal: Removal) returns (ok: bool)
      modifies this
      ensures var (states, success) := Removing(old(files), path, removal);
              trace == old(trace) + states && files == LastOf(states, old(files)) && ok == success
    {
      if removal.ProbeFailed? {
        return false;
      }
      if path !in files {
        return true;
      }
      if removal.Refused? {
        return false;
      }
      var before := files;
      files := before[path := Partial];
      trace := trace + [files];
      if removal.StoppedHalfway? {
        return false;
      }
      files := before - {path};
      trace := trace + [files];
      return true;
    }

    method Rename(from: Path, to: Path, succeeds: bool) returns (ok: bool)
      modifies this
      ensures ok == (succeeds && from in old(files))
      ensures ok ==> files == Moved(old(files), from, to) && trace == old(trace) + [files]
      ensures !ok ==> files == old(files) && trace == old(trace)
    {
      if !succeeds || from !in files {
        return false;
      }
      files := (files - {from})[to := files[from]];
      trace := trace + [files];
      return true;
    }

    method SwapInPlace(staged: Path, installed: Path, displaced: Path, faults: Faults) returns (result: SwapResult)
      requires trace == [files]
      requires staged != installed && installed != displaced && displaced != staged
      modifies this
      ensures (trace, result) == Swap(old(files), staged, installed, displaced, faults)
      ensures files == LastOf(trace, old(files))
    {
      var cleared := RemoveAny(displaced, faults.clearing);
      if !cleared {
        return Failed(displaced);
      }

      var hadPrevious := installed in files && faults.installedReadable;
      if hadPrevious {
        var aside := Rename(installed, displaced, faults.setAside);
        if !aside {
          return Failed(installed);
        }
      }

      var moved := Rename(staged, installed, faults.moveIn);
      if moved {
        var _ := RemoveAny(displaced, faults.cleanup);
        return Done;
      }
      if hadPrevious {
        var _ := Rename(displaced, installed, faults.rollback);
      }
      return Failed(staged);
    }
  }

  // ------------------------------------------------------- safety of one swap

  predicate Holds(files: Files, path: Path, copy: Copy) {
    path in files && files[path] == copy
  }

  ghost predicate Distinct(staged: Path, installed: Path, displaced: Path) {
    staged != installed && installed != displaced && displaced != staged
  }

  /** Wherever the process stops, the old copy is whole at `installed` or at `displaced`, or the
      new one is at `installed` already. */
  lemma OldCopySurvives(files: Files, staged: Path, installed: Path, displaced: Path, faults: Faults)
    requires Distinct(staged, installed, displaced) && installed in files
    ensures forall state :: state in Swap(files, staged, installed, displaced, faults).0 ==>
              || Holds(state, installed, files[installed])
              || Holds(state, displaced, files[installed])
              || (staged in files && Holds(state, installed, files[staged]))
  {
  }

  /** Success means the staged copy is installed, and nothing but these paths has changed. */
  lemma DoneMeansInstalled(files: Files, staged: Path, installed: Path, displaced: Path, faults: Faults)
    requires Distinct(staged, installed, displaced)
    requires Swap(files, staged, installed, displaced, faults).1 == Done
    ensures var after := LastOf(Swap(files, staged, installed, displaced, faults).0, files);
            && staged in files && Holds(after, installed, files[staged]) && staged !in after
            && forall path :: path != staged && path != installed && path != displaced ==>
                 (path in after <==> path in files) && (path in files ==> after[path] == files[path])
    ensures faults.cleanup.Removed? ==> displaced !in LastOf(Swap(files, staged, installed, displaced, faults).0, files)
  {
  }

  /** Failure leaves the installation as it was or, only when undoing the first rename failed
      too, whole at `displaced`. The download is never lost. */
  lemma FailedMeansUnchanged(files: Files, staged: Path, installed: Path, displaced: Path, faults: Faults)
    requires Distinct(staged, installed, displaced)
    requires Swap(files, staged, installed, displaced, faults).1 != Done
    ensures var after := LastOf(Swap(files, staged, installed, displaced, faults).0, files);
            && (staged in files ==> Holds(after, staged, files[staged]))
            && (installed !in files ==> installed !in after)
            && (installed in files && faults.rollback ==> Holds(after, installed, files[installed]))
            && (installed in files ==> Holds(after, installed, files[installed])
                                       || (installed !in after && Holds(after, displaced, files[installed])))
  {
  }

  /** A swap succeeds exactly when what is in the way can be cleared, the installed copy if it can be
      seen can be set aside, and there is a download that can be moved in; else it names the path
      that failed first. */
  lemma SwapSucceedsIff(files: Files, staged: Path, installed: Path, displaced: Path, faults: Faults)
    requires Distinct(staged, installed, displaced)
    ensures var result := Swap(files, staged, installed, displaced, faults).1;
            var cleared := faults.clearing.Removed? || (displaced !in files && !faults.clearing.ProbeFailed?);
            var aside := installed in files && faults.installedReadable ==> faults.setAside;
            && (result == Done <==> cleared && aside && faults.moveIn && staged in files)
            && (result == Failed(displaced) <==> !cleared)
            && (result == Failed(installed) <==> cleared && !aside)
  {
  }

  /** No rename ever goes onto an installed copy that could be seen: it is set aside first. */
  lemma SeenCopyIsSetAside(files: Files, staged: Path, installed: Path, displaced: Path, faults: Faults)
    requires Distinct(staged, installed, displaced) && installed in files && faults.installedReadable
    requires Swap(files, staged, installed, displaced, faults).1 == Done
    ensures exists state :: state in Swap(files, staged, installed, displaced, faults).0
                            && Holds(state, displaced, files[installed]) && installed !in state
  {
    var (clearing, _) := Removing(files, displaced, faults.clearing);
    var aside := Moved(LastOf(clearing, files), installed, displaced);
    var trace := Swap(files, staged, installed, displaced, faults).0;
    assert trace[|clearing| + 1] == aside;
    assert aside in trace && Holds(aside, displaced, files[installed]) && installed !in aside;
  }

  // ------------------------------------------------------- after an interrupted swap

  /** The copy of the application there is before a swap. */
  function LastCopy(files: Files, installed: Path, displaced: Path): Copy
    requires installed in files || displaced in files
  {
    if installed in files then files[installed] else files[displaced]
  }

  /** That copy, or the new one in its place. */
  predicate HasCopy(files: Files, staged: Path, installed: Path, displaced: Path, state: Files)
    requires installed in files || displaced in files
  {
    || Holds(state, installed, LastCopy(files, installed, displaced))
    || Holds(state, displaced, LastCopy(files, installed, displaced))
    || (staged in files && Holds(state, installed, files[staged]))
  }

  /** Some copy of the application is there in every state of the swap. */
  ghost predicate KeepsACopy(files: Files, staged: Path, installed: Path, displaced: Path, faults: Faults)
    requires installed in files || displaced in files
  {
    forall state :: state in Swap(files, staged, installed, displaced, faults).0 ==>
      HasCopy(files, staged, installed, displaced, state)
  }

  const UNLUCKY: Faults := Faults(Removed, true, true, false, true, Removed)

  /** The guarantee needs a copy at `installed` to start from. After a swap that stopped between
      its two renames the only copy is at `displaced`, which the next swap clears first. */
  lemma KeepsACopyIffInstalled(files: Files, staged: Path, installed: Path, displaced: Path)
    requires Distinct(staged, installed, displaced)
    requires installed in files || displaced in files
    ensures (forall faults :: KeepsACopy(files, staged, installed, displaced, faults)) <==> installed in files
  {
    if installed in files {
      forall faults ensures KeepsACopy(files, staged, installed, displaced, faults) {
        OldCopySurvives(files, staged, installed, displaced, faults);
      }
    } else {
      var trace := Swap(files, staged, installed, displaced, UNLUCKY).0;
      assert trace[2] == files - {displaced};
      assert !HasCopy(files, staged, installed, displaced, trace[2]);
      assert !KeepsACopy(files, staged, installed, displaced, UNLUCKY);
    }
  }

  /** Such a state is one any swap can stop in, and a second attempt whose last rename fails then
      leaves neither an installed nor a set-aside copy of the application, only the download. */
  lemma InterruptedSwapThenFailedRetry(files: Files, staged: Path, installed: Path, displaced: Path)
    returns (stopped: Files)
    requires Distinct(staged, installed, displaced)
    requires installed in files && staged in files && displaced !in files
    ensures stopped in Swap(files, staged, installed, displaced, UNLUCKY).0
    ensures Holds(stopped, displaced, files[installed])
    ensures var after := LastOf(Swap(stopped, staged, installed, displaced, UNLUCKY).0, stopped);
            installed !in after && displaced !in after && Holds(after, staged, files[staged])
  {
    stopped := Moved(files, installed, displaced);
    var trace := Swap(files, staged, installed, displaced, UNLUCKY).0;
    assert trace[1] == stopped;
  }
}

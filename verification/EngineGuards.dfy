/** One account, one engine, one database: the two guards taken when an engine opens, over every
    interleaving of threads and processes. */
module EngineGuards {
  import opened Options
  import opened Basics

  type Process = nat
  type Account = string
  type Directory = string
  type Id = nat

  /** How far an engine has come. `Abandoned` is a failed open that still holds its lease,
      `Ended` an engine whose store handle is gone, `Unleased` one that is left with its lock. */
  datatype Phase = Claimed | Locked | Live | Abandoned | Ended | Unleased

  /** An in-memory engine has no directory. */
  datatype Engine = Engine(process: Process, account: Account, directory: Option<Directory>, phase: Phase) {
    predicate HoldsLease() {
      !phase.Unleased?
    }

    predicate HoldsLock() {
      directory.Some? && phase !in {Claimed, Abandoned}
    }
  }

  /** A running store thread. Once some handle of the store has asked it to close, it is `leaving`,
      and no other close need wait for it. */
  datatype StoreThread = StoreThread(process: Process, account: Account, directory: Option<Directory>, leaving: bool)

  function ThreadOf(engine: Engine): StoreThread {
    StoreThread(engine.process, engine.account, engine.directory, false)
  }

  /** `registry` is each process's set of claimed accounts, `locks` who holds each lock file,
      `threads` the store threads that are running and the directory each works in. */
  datatype System = System(
    registry: set<(Process, Account)>,
    locks: map<Directory, Id>,
    engines: map<Id, Engine>,
    threads: map<Id, StoreThread>)

  const IDLE: System := System({}, map[], map[], map[])

  datatype Step =
    | Claim(id: Id, process: Process, account: Account, directory: Option<Directory>)
    | AcquireLock(id: Id)
    | FailBeforeLock(id: Id)
    | OpenStore(id: Id)
    | FailStore(id: Id)
    | DropAbandoned(id: Id)
    | CloseStore(id: Id)
    | CloseElsewhere(id: Id)
    | DropUnclosed(id: Id)
    | ReleaseLease(id: Id)
    | ReleaseLock(id: Id)
    | ThreadEnds(id: Id)
    | ProcessEnds(process: Process)

  predicate Enabled(s: System, step: Step) {
    match step
    case Claim(id, process, account, _) =>
      id !in s.engines && id !in s.threads && (process, account) !in s.registry
    case AcquireLock(id) =>
      id in s.engines && s.engines[id].phase.Claimed?
      && (s.engines[id].directory.Some? ==> s.engines[id].directory.value !in s.locks)
    case FailBeforeLock(id) => id in s.engines && s.engines[id].phase.Claimed?
    case OpenStore(id) => id in s.engines && s.engines[id].phase.Locked?
    case FailStore(id) => id in s.engines && s.engines[id].phase.Locked?
    case DropAbandoned(id) => id in s.engines && s.engines[id].phase.Abandoned?
    case CloseStore(id) => id in s.engines && s.engines[id].phase.Live?
    case CloseElsewhere(id) => id in s.threads
    case DropUnclosed(id) => id in s.engines && s.engines[id].phase.Live?
    case ReleaseLease(id) => id in s.engines && s.engines[id].phase.Ended?
    case ReleaseLock(id) => id in s.engines && s.engines[id].phase.Unleased?
    case ThreadEnds(id) =>
      id in s.threads && (s.threads[id].leaving || (id in s.engines ==> !s.engines[id].phase.Live?))
    case ProcessEnds(_) => true
  }

  function WithPhase(s: System, id: Id, phase: Phase): System
    requires id in s.engines
  {
    s.(engines := s.engines[id := s.engines[id].(phase := phase)])
  }

  function WithoutLease(s: System, id: Id): System
    requires id in s.engines
  {
    s.(registry := s.registry - {(s.engines[id].process, s.engines[id].account)})
  }

  function WithoutLock(s: System, id: Id): System
    requires id in s.engines
  {
    if s.engines[id].directory.None? then s else s.(locks := s.locks - {s.engines[id].directory.value})
  }

  /** A process that ends, however it does, takes all it has with it, and the system releases the
      locks it held. */
  function WithoutProcess(s: System, process: Process): System {
    System(set entry | entry in s.registry && entry.0 != process,
           map d | d in s.locks && (s.locks[d] in s.engines ==> s.engines[s.locks[d]].process != process) :: s.locks[d],
           map id | id in s.engines && s.engines[id].process != process :: s.engines[id],
           map id | id in s.threads && s.threads[id].process != process :: s.threads[id])
  }

  function Gone(s: System, id: Id): System {
    s.(engines := s.engines - {id})
  }

  /** A step that is not possible changes nothing: a claim or lock that is refused. */
  function Stepped(s: System, step: Step): System {
    if !Enabled(s, step) then s
    else
      match step
      case Claim(id, process, account, directory) =>
        s.(registry := s.registry + {(process, account)},
           engines := s.engines[id := Engine(process, account, directory, Claimed)])
      case AcquireLock(id) =>
        var engine := s.engines[id];
        WithPhase(if engine.directory.None? then s else s.(locks := s.locks[engine.directory.value := id]), id, Locked)
      case FailBeforeLock(id) => Gone(WithoutLease(s, id), id)
      case OpenStore(id) => WithPhase(s, id, Live).(threads := s.threads[id := ThreadOf(s.engines[id])])
      case FailStore(id) => WithPhase(WithoutLock(s, id), id, Abandoned)
      case DropAbandoned(id) => Gone(WithoutLease(s, id), id)
      case CloseStore(id) =>
        // After another handle's close this one may return at once; if it waits, the thread ends first.
        var awaited := id in s.threads && !s.threads[id].leaving;
        WithPhase(s, id, Ended).(threads := if awaited then s.threads - {id} else s.threads)
      case CloseElsewhere(id) => s.(threads := s.threads[id := s.threads[id].(leaving := true)])
      case DropUnclosed(id) => WithPhase(s, id, Ended)
      case ReleaseLease(id) => WithPhase(WithoutLease(s, id), id, Unleased)
      case ReleaseLock(id) => Gone(WithoutLock(s, id), id)
      case ThreadEnds(id) => s.(threads := s.threads - {id})
      case ProcessEnds(process) => WithoutProcess(s, process)
  }

  function Run(s: System, steps: seq<Step>): System {
    if steps == [] then s else Stepped(Run(s, steps[..|steps| - 1]), steps[|steps| - 1])
  }

  // ------------------------------------------------------- opening, one call

  datatype OpenResult = Opened | AlreadyOpenInProcess | OwnedByAnotherProcess | IoFailed | StoreFailed

  /** How each call that opening makes turns out. */
  datatype OpenCalls = OpenCalls(
    directoryCreated: bool,
    lockFileOpened: bool,
    lockCallWorked: bool,
    storeOpened: bool)

  /** The first thing in the way decides. A lock call that fails counts as a lock held elsewhere. */
  function Outcome(claimed: bool, onDisk: bool, locked: bool, calls: OpenCalls): OpenResult {
    if claimed then AlreadyOpenInProcess
    else if onDisk && !(calls.directoryCreated && calls.lockFileOpened) then IoFailed
    else if onDisk && (locked || !calls.lockCallWorked) then OwnedByAnotherProcess
    else if !calls.storeOpened then StoreFailed
    else Opened
  }

  /** One process's registry and the lock files it shares with the others. */
  class Guards {
    var registry: set<Account>
    var locks: map<Directory, Id>

    constructor (locks: map<Directory, Id>)
      ensures registry == {} && this.locks == locks
    {
      registry := {};
      this.locks := locks;
    }

    method ClaimLease(account: Account) returns (claimed: bool)
      modifies this`registry
      ensures claimed == (account !in old(registry)) && registry == old(registry) + {account}
    {
      claimed := account !in registry;
      registry := registry + {account};
    }

    method DropLease(account: Account)
      modifies this`registry
      ensures registry == old(registry) - {account}
    {
      registry := registry - {account};
    }

    method TryLock(directory: Directory, id: Id) returns (acquired: bool)
      modifies this`locks
      ensures acquired == (directory !in old(locks))
      ensures locks == if acquired then old(locks)[directory := id] else old(locks)
    {
      acquired := directory !in locks;
      if acquired {
        locks := locks[directory := id];
      }
    }

    method Unlock(directory: Directory)
      modifies this`locks
      ensures locks == old(locks) - {directory}
    {
      locks := locks - {directory};
    }

    /** Opens an engine. Whatever fails, the guards taken so far are given back, the lock before
        the lease; a refused claim takes nothing. */
    method Open(id: Id, account: Account, directory: Option<Directory>, calls: OpenCalls)
      returns (result: OpenResult)
      modifies this
      ensures result == Outcome(account in old(registry), directory.Some?,
                                directory.Some? && directory.value in old(locks), calls)
      ensures registry == if result.Opened? then old(registry) + {account} else old(registry)
      ensures locks == if result.Opened? && directory.Some? then old(locks)[directory.value := id] else old(locks)
    {
      var claimed := ClaimLease(account);
      if !claimed {
        assert registry == old(registry);
        return AlreadyOpenInProcess;
      }
      if directory.Some? {
        if !calls.directoryCreated || !calls.lockFileOpened {
          DropLease(account);
          return IoFailed;
        }
        var acquired := false;
        if calls.lockCallWorked {
          acquired := TryLock(directory.value, id);
        }
        if !acquired {
          DropLease(account);
          return OwnedByAnotherProcess;
        }
      }
      if !calls.storeOpened {
        if directory.Some? {
          Unlock(directory.value);
        }
        DropLease(account);
        return StoreFailed;
      }
      return Opened;
    }
  }

  // ------------------------------------------------------- the guards

  /** What each engine that has not been dropped has claimed. */
  function Claims(s: System): map<Id, (Process, Account)> {
    map id | id in s.engines && s.engines[id].HoldsLease() :: (s.engines[id].process, s.engines[id].account)
  }

  ghost predicate Injective<K, V>(m: map<K, V>) {
    forall a, b :: a in m && b in m && m[a] == m[b] ==> a == b
  }

  /** The registry is exactly the accounts with an open in progress or an engine that has not
      been dropped, one engine each. */
  ghost predicate LeaseInv(s: System) {
    s.registry == Claims(s).Values && Injective(Claims(s))
  }

  ghost predicate HoldersAreListed(s: System) {
    forall id :: id in s.engines && s.engines[id].HoldsLock() ==>
      s.engines[id].directory.value in s.locks && s.locks[s.engines[id].directory.value] == id
  }

  ghost predicate ListedAreHolders(s: System) {
    forall d :: d in s.locks ==>
      s.locks[d] in s.engines && s.engines[s.locks[d]].HoldsLock() && s.engines[s.locks[d]].directory == Some(d)
  }

  /** A lock file is held by exactly the engine the table says. */
  ghost predicate LockInv(s: System) {
    HoldersAreListed(s) && ListedAreHolders(s)
  }

  lemma StepKeepsHolders(s: System, step: Step)
    requires LockInv(s)
    ensures HoldersAreListed(Stepped(s, step))
  {
  }

  lemma EndIsStep(s: System, process: Process)
    ensures Stepped(s, ProcessEnds(process)) == WithoutProcess(s, process)
  {
  }

  lemma EndKeepsListed(s: System, process: Process)
    requires LockInv(s)
    ensures ListedAreHolders(WithoutProcess(s, process))
  {
  }

  lemma StepKeepsListed(s: System, step: Step)
    requires LockInv(s)
    ensures ListedAreHolders(Stepped(s, step))
  {
    if step.ProcessEnds? {
      EndIsStep(s, step.process);
      EndKeepsListed(s, step.process);
    } else {
      hide WithoutProcess;
    }
  }

  lemma StepKeepsLocks(s: System, step: Step)
    requires LockInv(s)
    ensures LockInv(Stepped(s, step))
  {
    hide Stepped, HoldersAreListed, ListedAreHolders;
    StepKeepsHolders(s, step);
    StepKeepsListed(s, step);
  }

  predicate DropsLease(step: Step) {
    step.FailBeforeLock? || step.DropAbandoned? || step.ReleaseLease?
  }

  lemma ClaimAdds(s: System, step: Step)
    requires Enabled(s, step) && step.Claim?
    ensures Claims(Stepped(s, step)) == Claims(s)[step.id := (step.process, step.account)]
    ensures Stepped(s, step).registry == s.registry + {(step.process, step.account)}
    ensures step.id !in Claims(s)
  {
  }

  lemma DropRemoves(s: System, step: Step)
    requires Enabled(s, step) && DropsLease(step)
    ensures step.id in Claims(s)
    ensures Claims(Stepped(s, step)) == Claims(s) - {step.id}
    ensures Stepped(s, step).registry == s.registry - {Claims(s)[step.id]}
  {
  }

  lemma OthersKeepClaims(s: System, step: Step)
    requires Enabled(s, step) && !step.Claim? && !DropsLease(step) && !step.ProcessEnds?
    ensures Claims(Stepped(s, step)) == Claims(s) && Stepped(s, step).registry == s.registry
  {
  }

  lemma EndKeepsLeases(s: System, process: Process)
    requires LeaseInv(s)
    ensures LeaseInv(WithoutProcess(s, process))
  {
    var after := WithoutProcess(s, process);
    forall entry | entry in after.registry ensures entry in Claims(after).Values {
      var id :| id in Claims(s) && Claims(s)[id] == entry;
      assert id in Claims(after) && Claims(after)[id] == entry;
    }
    forall entry | entry in Claims(after).Values ensures entry in after.registry {
      var id :| id in Claims(after) && Claims(after)[id] == entry;
      assert id in Claims(s) && Claims(s)[id] == entry;
    }
    forall a, b | a in Claims(after) && b in Claims(after) && Claims(after)[a] == Claims(after)[b] ensures a == b {
      assert a in Claims(s) && b in Claims(s) && Claims(s)[a] == Claims(s)[b];
    }
  }

  lemma ValuesWithout<K, V>(m: map<K, V>, k: K)
    requires k in m && Injective(m)
    ensures (m - {k}).Values == m.Values - {m[k]} && Injective(m - {k})
  {
    var rest := m - {k};
    forall v | v in m.Values && v != m[k] ensures v in rest.Values {
      var a :| a in m && m[a] == v;
      assert a in rest;
    }
  }

  lemma ValuesWith<K, V>(m: map<K, V>, k: K, v: V)
    requires k !in m && Injective(m) && v !in m.Values
    ensures m[k := v].Values == m.Values + {v} && Injective(m[k := v])
  {
    var more := m[k := v];
    assert k in more && more[k] == v;
    forall w | w in m.Values ensures w in more.Values {
      var a :| a in m && m[a] == w;
      assert a in more && more[a] == w;
    }
  }

  lemma StepKeepsLeases(s: System, step: Step)
    requires LeaseInv(s)
    ensures LeaseInv(Stepped(s, step))
  {
    if Enabled(s, step) {
      hide Stepped, Claims;
      if step.Claim? {
        ClaimAdds(s, step);
        ValuesWith(Claims(s), step.id, (step.process, step.account));
      } else if DropsLease(step) {
        DropRemoves(s, step);
        ValuesWithout(Claims(s), step.id);
      } else if step.ProcessEnds? {
        EndIsStep(s, step.process);
        EndKeepsLeases(s, step.process);
      } else {
        OthersKeepClaims(s, step);
      }
    }
  }

  lemma {:induction false} GuardsAlwaysHold(steps: seq<Step>)
    ensures LeaseInv(Run(IDLE, steps)) && LockInv(Run(IDLE, steps))
  {
    if steps != [] {
      GuardsAlwaysHold(steps[..|steps| - 1]);
      StepKeepsLeases(Run(IDLE, steps[..|steps| - 1]), steps[|steps| - 1]);
      StepKeepsLocks(Run(IDLE, steps[..|steps| - 1]), steps[|steps| - 1]);
    }
  }

  /** However opens, failures, closes and drops interleave, in however many processes, an account
      directory has at most one engine with a live store. */
  lemma OneEnginePerDirectory(steps: seq<Step>, a: Id, b: Id)
    requires var s := Run(IDLE, steps);
             && a in s.engines && b in s.engines
             && s.engines[a].phase.Live? && s.engines[b].phase.Live?
             && s.engines[a].directory.Some? && s.engines[a].directory == s.engines[b].directory
    ensures a == b
  {
    GuardsAlwaysHold(steps);
    var s := Run(IDLE, steps);
    assert s.engines[a].HoldsLock() && s.engines[b].HoldsLock();
  }

  /** No guard outlives its engine: with none left, nothing is claimed and nothing is locked. */
  lemma NothingLeaks(steps: seq<Step>)
    requires Run(IDLE, steps).engines == map[]
    ensures Run(IDLE, steps).registry == {} && Run(IDLE, steps).locks == map[]
  {
    GuardsAlwaysHold(steps);
    var s := Run(IDLE, steps);
    assert Claims(s) == map[];
    assert forall d :: d !in s.locks;
  }

  // ------------------------------------------------------- the store threads

  /** Two store threads work on one database. */
  ghost predicate Shared(s: System, a: Id, b: Id) {
    && a in s.threads && b in s.threads && a != b
    && s.threads[a].directory.Some? && s.threads[a].directory == s.threads[b].directory
  }

  /** A store thread on disk that no close need wait for: its engine is not open any more, or
      another handle has asked it to close. */
  ghost predicate Stray(s: System, id: Id) {
    && id in s.threads && s.threads[id].directory.Some?
    && (s.threads[id].leaving || !(id in s.engines && s.engines[id].phase.Live?))
  }

  ghost predicate NoStrays(s: System) {
    forall id :: !Stray(s, id)
  }

  /** A thread and its engine agree. */
  ghost predicate ThreadInv(s: System) {
    forall id :: id in s.threads && id in s.engines ==>
      s.engines[id].directory == s.threads[id].directory && s.engines[id].process == s.threads[id].process
  }

  lemma EndKeepsThreads(s: System, process: Process)
    requires ThreadInv(s)
    ensures ThreadInv(WithoutProcess(s, process))
  {
  }

  lemma StepKeepsThreads(s: System, step: Step)
    requires ThreadInv(s)
    ensures ThreadInv(Stepped(s, step))
  {
    if step.ProcessEnds? {
      EndIsStep(s, step.process);
      EndKeepsThreads(s, step.process);
    } else {
      hide WithoutProcess;
    }
  }

  lemma StepLeavesNoStray(s: System, step: Step)
    requires ThreadInv(s) && NoStrays(s) && !step.DropUnclosed? && !step.CloseElsewhere?
    ensures NoStrays(Stepped(s, step))
  {
    forall id ensures !Stray(Stepped(s, step), id) {
      assert !Stray(s, id);
    }
  }

  /** Stores are closed by their engines, and engines before they are dropped. */
  ghost predicate Orderly(steps: seq<Step>) {
    forall i :: 0 <= i < |steps| ==> !steps[i].DropUnclosed? && !steps[i].CloseElsewhere?
  }

  lemma {:induction false} RunKeepsInvariants(s: System, steps: seq<Step>)
    requires LockInv(s) && ThreadInv(s)
    ensures LockInv(Run(s, steps)) && ThreadInv(Run(s, steps))
    ensures NoStrays(s) && Orderly(steps) ==> NoStrays(Run(s, steps))
  {
    if steps != [] {
      var earlier := steps[..|steps| - 1];
      assert Orderly(steps) ==> Orderly(earlier);
      RunKeepsInvariants(s, earlier);
      hide LockInv, ThreadInv, NoStrays, Stepped;
      StepKeepsLocks(Run(s, earlier), steps[|steps| - 1]);
      StepKeepsThreads(Run(s, earlier), steps[|steps| - 1]);
      if NoStrays(s) && Orderly(steps) {
        StepLeavesNoStray(Run(s, earlier), steps[|steps| - 1]);
      }
    }
  }

  /** Threads of engines that are open are as far apart as the engines are. */
  lemma OnlyStraysShare(s: System, a: Id, b: Id)
    requires LockInv(s) && ThreadInv(s) && Shared(s, a, b)
    ensures Stray(s, a) || Stray(s, b)
  {
    if !Stray(s, a) && !Stray(s, b) {
      assert s.engines[a].HoldsLock() && s.engines[b].HoldsLock();
    }
  }

  /** When every engine is closed before it is dropped, and its store by nobody else, no two store
      threads ever share a database. */
  lemma ThreadsNeverShare(steps: seq<Step>, a: Id, b: Id)
    requires Orderly(steps)
    ensures !Shared(Run(IDLE, steps), a, b)
  {
    RunKeepsInvariants(IDLE, steps);
    if Shared(Run(IDLE, steps), a, b) {
      OnlyStraysShare(Run(IDLE, steps), a, b);
    }
  }

  function OpenSteps(id: Id, process: Process, account: Account, directory: Directory): seq<Step> {
    [Claim(id, process, account, Some(directory)), AcquireLock(id), OpenStore(id)]
  }

  lemma RunOfLonger(s: System, steps: seq<Step>, step: Step)
    ensures Run(s, steps + [step]) == Stepped(Run(s, steps), step)
  {
    assert (steps + [step])[..|steps|] == steps;
  }

  lemma RunOfOne(s: System, step: Step)
    ensures Run(s, [step]) == Stepped(s, step)
  {
    RunOfLonger(s, [], step);
    assert [] + [step] == [step];
  }

  lemma RunOfTwo(s: System, a: Step, b: Step)
    ensures Run(s, [a, b]) == Stepped(Stepped(s, a), b)
  {
    hide Stepped;
    RunOfOne(s, a);
    RunOfLonger(s, [a], b);
    assert [a] + [b] == [a, b];
  }

  lemma RunOfThree(s: System, a: Step, b: Step, c: Step)
    ensures Run(s, [a, b, c]) == Stepped(Stepped(Stepped(s, a), b), c)
  {
    hide Stepped;
    assert [a, b, c] == [] + [a] + [b] + [c];
    RunOfLonger(s, [], a);
    RunOfLonger(s, [] + [a], b);
    RunOfLonger(s, [] + [a] + [b], c);
  }

  lemma {:induction false} RunInParts(s: System, first: seq<Step>, second: seq<Step>)
    ensures Run(s, first + second) == Run(Run(s, first), second)
  {
    if second == [] {
      assert first + second == first;
    } else {
      var last := second[|second| - 1];
      assert first + second == (first + second[..|second| - 1]) + [last];
      RunOfLonger(s, first + second[..|second| - 1], last);
      RunInParts(s, first, second[..|second| - 1]);
    }
  }

  /** An account nobody holds in this process, in a directory nobody has locked, can be opened. */
  lemma OpenSucceeds(s: System, id: Id, process: Process, account: Account, directory: Directory)
    requires id !in s.engines && id !in s.threads
    requires (process, account) !in s.registry && directory !in s.locks
    ensures var after := Run(s, OpenSteps(id, process, account, directory));
            && after.engines == s.engines[id := Engine(process, account, Some(directory), Live)]
            && after.threads == s.threads[id := StoreThread(process, account, Some(directory), false)]
  {
    hide Run;
    RunOfThree(s, Claim(id, process, account, Some(directory)), AcquireLock(id), OpenStore(id));
  }

  /** The accounts one process has claimed. */
  function RegistryOf(s: System, process: Process): set<Account> {
    set entry | entry in s.registry && entry.0 == process :: entry.1
  }

  function OpenOutcome(s: System, process: Process, account: Account, directory: Option<Directory>, calls: OpenCalls)
    : OpenResult
  {
    Outcome(account in RegistryOf(s, process), directory.Some?, directory.Some? && directory.value in s.locks, calls)
  }

  /** The steps that make up one call, when nobody else moves in between. */
  function OpenTrace(s: System, id: Id, process: Process, account: Account, directory: Option<Directory>,
                     calls: OpenCalls): seq<Step>
  {
    [Claim(id, process, account, directory)] +
    match OpenOutcome(s, process, account, directory, calls)
    case AlreadyOpenInProcess => []
    case IoFailed => [FailBeforeLock(id)]
    case OwnedByAnotherProcess =>
      if calls.lockCallWorked then [AcquireLock(id), FailBeforeLock(id)] else [FailBeforeLock(id)]
    case StoreFailed => [AcquireLock(id), FailStore(id), DropAbandoned(id)]
    case Opened => [AcquireLock(id), OpenStore(id)]
  }

  lemma ClaimedIsListed(s: System, process: Process, account: Account)
    ensures account in RegistryOf(s, process) <==> (process, account) in s.registry
  {
    if (process, account) in s.registry {
      assert (process, account).1 in RegistryOf(s, process);
    }
  }

  /** In terms of the engines there are: an engine of this process that still has its lease for the
      account comes first, then the calls on the directory, then an engine anywhere that holds its
      lock, then the store. */
  lemma OpenFailsIff(s: System, process: Process, account: Account, directory: Option<Directory>, calls: OpenCalls)
    requires LeaseInv(s) && LockInv(s)
    ensures var result := OpenOutcome(s, process, account, directory, calls);
            && (result.AlreadyOpenInProcess? <==> Leased(s, process, account))
            && (result.IoFailed? <==>
                  !Leased(s, process, account) && directory.Some? && !(calls.directoryCreated && calls.lockFileOpened))
            && (result.OwnedByAnotherProcess? <==>
                  && !Leased(s, process, account) && directory.Some? && calls.directoryCreated && calls.lockFileOpened
                  && (!calls.lockCallWorked || LockedByEngine(s, directory.value)))
            && (result.Opened? ==> calls.storeOpened)
            && (result.StoreFailed? ==> !calls.storeOpened)
  {
    ClaimedIsListed(s, process, account);
    if (process, account) in s.registry {
      assert (process, account) in Claims(s).Values;
      var id :| id in Claims(s) && Claims(s)[id] == (process, account);
      assert Leased(s, process, account);
    }
    if Leased(s, process, account) {
      var id :| id in s.engines && s.engines[id].HoldsLease()
                && s.engines[id].process == process && s.engines[id].account == account;
      assert id in Claims(s) && Claims(s)[id] in Claims(s).Values;
    }
    if directory.Some? && directory.value in s.locks {
      assert LockedByEngine(s, directory.value);
    }
  }

  ghost predicate Leased(s: System, process: Process, account: Account) {
    exists id :: id in s.engines && s.engines[id].HoldsLease()
                 && s.engines[id].process == process && s.engines[id].account == account
  }

  ghost predicate LockedByEngine(s: System, directory: Directory) {
    exists id :: id in s.engines && s.engines[id].HoldsLock() && s.engines[id].directory == Some(directory)
  }

  lemma OpenRefused(s: System, id: Id, process: Process, account: Account, directory: Directory, tried: bool)
    requires id !in s.engines && (process, account) !in s.registry && id !in s.threads
    requires tried ==> directory in s.locks
    ensures var claim := Claim(id, process, account, Some(directory));
            Run(s, [claim] + if tried then [AcquireLock(id), FailBeforeLock(id)] else [FailBeforeLock(id)]) == s
  {
    var claim := Claim(id, process, account, Some(directory));
    var claimed := Stepped(s, claim);
    assert tried ==> Stepped(claimed, AcquireLock(id)) == claimed;
    assert Stepped(claimed, FailBeforeLock(id)) == s;
    hide Run, Stepped;
    RunOfThree(s, claim, AcquireLock(id), FailBeforeLock(id));
    RunOfTwo(s, claim, FailBeforeLock(id));
    assert [claim] + [AcquireLock(id), FailBeforeLock(id)] == [claim, AcquireLock(id), FailBeforeLock(id)];
    assert [claim] + [FailBeforeLock(id)] == [claim, FailBeforeLock(id)];
  }

  /** A new engine that has taken both guards. */
  function WithLocked(s: System, id: Id, process: Process, account: Account, directory: Option<Directory>): System {
    s.(registry := s.registry + {(process, account)},
       locks := if directory.Some? then s.locks[directory.value := id] else s.locks,
       engines := s.engines[id := Engine(process, account, directory, Locked)])
  }

  lemma GuardsAreTaken(s: System, id: Id, process: Process, account: Account, directory: Option<Directory>)
    requires id !in s.engines && (process, account) !in s.registry && id !in s.threads
    requires directory.Some? ==> directory.value !in s.locks
    ensures Run(s, [Claim(id, process, account, directory), AcquireLock(id)])
            == WithLocked(s, id, process, account, directory)
  {
    hide Run;
    RunOfTwo(s, Claim(id, process, account, directory), AcquireLock(id));
  }

  lemma GuardsAreGivenBack(s: System, id: Id, process: Process, account: Account, directory: Option<Directory>)
    requires id !in s.engines && (process, account) !in s.registry && id !in s.threads
    requires directory.Some? ==> directory.value !in s.locks
    ensures Run(WithLocked(s, id, process, account, directory), [FailStore(id), DropAbandoned(id)]) == s
  {
    hide Run;
    RunOfTwo(WithLocked(s, id, process, account, directory), FailStore(id), DropAbandoned(id));
  }

  /** A call to open is a run of the steps: the same result, the same claims and locks, an engine
      with its thread on success, and nothing at all left behind on failure. */
  lemma OpenIsARun(s: System, id: Id, process: Process, account: Account, directory: Option<Directory>,
                   calls: OpenCalls)
    requires id !in s.engines && id !in s.threads
    ensures var after := Run(s, OpenTrace(s, id, process, account, directory, calls));
            after == if OpenOutcome(s, process, account, directory, calls).Opened?
                     then Stepped(WithLocked(s, id, process, account, directory), OpenStore(id))
                     else s
  {
    ClaimedIsListed(s, process, account);
    var claim, lock := Claim(id, process, account, directory), AcquireLock(id);
    match OpenOutcome(s, process, account, directory, calls)
    case AlreadyOpenInProcess =>
      RunOfOne(s, claim);
      assert [claim] + [] == [claim];
    case IoFailed =>
      OpenRefused(s, id, process, account, directory.value, false);
    case OwnedByAnotherProcess =>
      OpenRefused(s, id, process, account, directory.value, calls.lockCallWorked);
    case StoreFailed =>
      hide Run;
      GuardsAreTaken(s, id, process, account, directory);
      GuardsAreGivenBack(s, id, process, account, directory);
      RunInParts(s, [claim, lock], [FailStore(id), DropAbandoned(id)]);
      assert [claim] + [lock, FailStore(id), DropAbandoned(id)] == [claim, lock] + [FailStore(id), DropAbandoned(id)];
    case Opened =>
      hide Run;
      GuardsAreTaken(s, id, process, account, directory);
      RunOfLonger(s, [claim, lock], OpenStore(id));
      assert [claim] + [lock, OpenStore(id)] == [claim, lock] + [OpenStore(id)];
  }

  /** One call moves the process's claims and the lock table as the method says. */
  lemma OpenedRegistry(s: System, id: Id, process: Process, account: Account, directory: Option<Directory>)
    requires id !in s.engines && id !in s.threads
    ensures var after := Stepped(WithLocked(s, id, process, account, directory), OpenStore(id));
            && RegistryOf(after, process) == RegistryOf(s, process) + {account}
            && after.locks == (if directory.Some? then s.locks[directory.value := id] else s.locks)
            && after.engines == s.engines[id := Engine(process, account, directory, Live)]
            && after.threads == s.threads[id := StoreThread(process, account, directory, false)]
  {
    var after := Stepped(WithLocked(s, id, process, account, directory), OpenStore(id));
    forall other ensures other in RegistryOf(after, process) <==> other in RegistryOf(s, process) + {account} {
      ClaimedIsListed(after, process, other);
      ClaimedIsListed(s, process, other);
    }
  }

  /** Closing and dropping an engine frees its account and directory for the next one. Its thread is
      gone too, unless another handle had asked it to close. */
  lemma ClosedCanBeReopened(s: System, id: Id)
    requires LeaseInv(s) && LockInv(s) && id in s.engines && s.engines[id].phase.Live? && s.engines[id].directory.Some?
    ensures var engine := s.engines[id];
            var after := Run(s, [CloseStore(id), ReleaseLease(id), ReleaseLock(id)]);
            && (engine.process, engine.account) !in after.registry
            && engine.directory.value !in after.locks
            && id !in after.engines
            && (id in after.threads <==> id in s.threads && s.threads[id].leaving)
  {
    hide Run;
    RunOfThree(s, CloseStore(id), ReleaseLease(id), ReleaseLock(id));
  }

  /** The engine just opened shares its database exactly with the threads there already. */
  lemma OpenedSharesIff(s: System, id: Id, process: Process, account: Account, directory: Directory)
    requires id !in s.engines && id !in s.threads
    requires (process, account) !in s.registry && directory !in s.locks
    ensures forall other :: Shared(Run(s, OpenSteps(id, process, account, directory)), id, other)
                            <==> other in s.threads && s.threads[other].directory == Some(directory)
  {
    OpenSucceeds(s, id, process, account, directory);
  }

  /** How the holder of a lock file gives it back. */
  function UnlockSteps(s: System, directory: Directory): seq<Step> {
    if directory !in s.locks || s.locks[directory] !in s.engines then []
    else
      var holder := s.locks[directory];
      match s.engines[holder].phase
      case Locked => [FailStore(holder)]
      case Live => [CloseStore(holder), ReleaseLease(holder), ReleaseLock(holder)]
      case Ended => [ReleaseLease(holder), ReleaseLock(holder)]
      case Unleased => [ReleaseLock(holder)]
      case _ => []
  }

  /** No thread goes but the holder's, and that only if it is not a stray. */
  ghost predicate StraysStay(s: System, after: System) {
    forall id :: Stray(s, id) ==> id in after.threads && after.threads[id] == s.threads[id]
  }

  lemma UnlockFrees(s: System, directory: Directory)
    requires LockInv(s)
    ensures var after := Run(s, UnlockSteps(s, directory));
            directory !in after.locks && StraysStay(s, after)
    ensures Orderly(UnlockSteps(s, directory))
  {
    if directory in s.locks {
      var holder := s.locks[directory];
      assert s.engines[holder].HoldsLock() && s.engines[holder].directory == Some(directory);
      hide Run, Stepped, StraysStay;
      match s.engines[holder].phase
      case Locked => FailFrees(s, holder);
      case Live => CloseFrees(s, holder);
      case _ => ReleaseFrees(s, holder);
    }
  }

  lemma FailFrees(s: System, id: Id)
    requires id in s.engines && s.engines[id].phase.Locked? && s.engines[id].directory.Some?
    ensures var after := Run(s, [FailStore(id)]);
            s.engines[id].directory.value !in after.locks && StraysStay(s, after)
  {
    hide Run;
    RunOfOne(s, FailStore(id));
  }

  lemma ReleaseFrees(s: System, id: Id)
    requires id in s.engines && s.engines[id].phase in {Ended, Unleased} && s.engines[id].directory.Some?
    ensures var steps := if s.engines[id].phase.Ended? then [ReleaseLease(id), ReleaseLock(id)] else [ReleaseLock(id)];
            s.engines[id].directory.value !in Run(s, steps).locks && StraysStay(s, Run(s, steps))
  {
    hide Run;
    RunOfOne(s, ReleaseLock(id));
    RunOfTwo(s, ReleaseLease(id), ReleaseLock(id));
  }

  lemma CloseFrees(s: System, id: Id)
    requires id in s.engines && s.engines[id].phase.Live? && s.engines[id].directory.Some?
    ensures var after := Run(s, [CloseStore(id), ReleaseLease(id), ReleaseLock(id)]);
            s.engines[id].directory.value !in after.locks && StraysStay(s, after)
  {
    hide Run;
    RunOfThree(s, CloseStore(id), ReleaseLease(id), ReleaseLock(id));
  }

  lemma {:induction false} SomethingIsAbove(ids: set<nat>) returns (unused: nat)
    ensures forall id :: id in ids ==> id < unused
  {
    if ids == {} {
      unused := 0;
    } else {
      var id :| id in ids;
      var rest := SomethingIsAbove(ids - {id});
      unused := Max(rest, id + 1);
      assert forall other :: other in ids ==> other == id || other in ids - {id};
    }
  }

  /** From `s` on two store threads can come to share a database, even if every engine is closed in
      order from then on. */
  ghost predicate CanShare(s: System) {
    exists steps, a, b :: Orderly(steps) && Shared(Run(s, steps), a, b)
  }

  /** A process that holds no lease can open the account of a stray thread again. */
  lemma StrayIsJoined(s: System, id: Id)
    requires LockInv(s) && Stray(s, id)
    ensures CanShare(s)
  {
    var (account, directory) := (s.threads[id].account, s.threads[id].directory.value);
    UnlockFrees(s, directory);
    var unlock := UnlockSteps(s, directory);
    var free := Run(s, unlock);
    var leasing := set entry | entry in free.registry :: entry.0;
    var process := SomethingIsAbove(leasing);
    assert (process, account) in free.registry ==> process in leasing;
    var next := SomethingIsAbove(free.engines.Keys + free.threads.Keys);
    assert next !in free.engines.Keys + free.threads.Keys;
    OpenedSharesIff(free, next, process, account, directory);
    var open := OpenSteps(next, process, account, directory);
    RunInParts(s, unlock, open);
    assert Orderly(unlock + open) && Shared(Run(s, unlock + open), next, id);
  }

  /** In every reachable state databases are safe from then on exactly when there is no store thread
      on disk that no close need wait for. */
  lemma SharingNeedsStrayIff(before: seq<Step>)
    ensures CanShare(Run(IDLE, before)) <==> exists id :: Stray(Run(IDLE, before), id)
  {
    RunKeepsInvariants(IDLE, before);
    var s := Run(IDLE, before);
    if id :| Stray(s, id) {
      StrayIsJoined(s, id);
    } else if CanShare(s) {
      var steps, a, b :| Orderly(steps) && Shared(Run(s, steps), a, b);
      RunKeepsInvariants(s, steps);
      OnlyStraysShare(Run(s, steps), a, b);
    }
  }

  lemma DropMakesStray(s: System, id: Id)
    requires ThreadInv(s)
    requires id in s.engines && s.engines[id].phase.Live? && s.engines[id].directory.Some?
    ensures forall other ::
              Stray(Stepped(s, DropUnclosed(id)), other) <==> Stray(s, other) || (other == id && id in s.threads)
  {
  }

  /** Dropping an open engine on disk without closing it is enough, if its thread is running. */
  lemma DropUnclosedCanShareIff(before: seq<Step>, id: Id)
    requires var s := Run(IDLE, before);
             id in s.engines && s.engines[id].phase.Live? && s.engines[id].directory.Some?
    ensures CanShare(Run(IDLE, before + [DropUnclosed(id)]))
            <==> CanShare(Run(IDLE, before)) || id in Run(IDLE, before).threads
  {
    RunKeepsInvariants(IDLE, before);
    hide CanShare, Run, Stepped, Stray;
    var s, after := Run(IDLE, before), Run(IDLE, before + [DropUnclosed(id)]);
    RunOfLonger(IDLE, before, DropUnclosed(id));
    SharingNeedsStrayIff(before);
    SharingNeedsStrayIff(before + [DropUnclosed(id)]);
    DropMakesStray(s, id);
    if other :| Stray(s, other) {
      assert Stray(after, other);
    }
    if id in s.threads {
      assert Stray(after, id);
    }
  }

  ghost predicate EnginesHaveThreads(s: System) {
    forall id :: id in s.engines && s.engines[id].phase.Live? ==> id in s.threads && !s.threads[id].leaving
  }

  /** And it is running as long as no other handle closes the store. */
  lemma {:induction false} OpenEnginesHaveThreads(steps: seq<Step>)
    requires forall i :: 0 <= i < |steps| ==> !steps[i].CloseElsewhere?
    ensures ThreadInv(Run(IDLE, steps)) && EnginesHaveThreads(Run(IDLE, steps))
  {
    if steps != [] {
      var earlier := steps[..|steps| - 1];
      assert forall i :: 0 <= i < |earlier| ==> earlier[i] == steps[i];
      OpenEnginesHaveThreads(earlier);
      hide ThreadInv, EnginesHaveThreads, Stepped;
      StepKeepsThreads(Run(IDLE, earlier), steps[|steps| - 1]);
      StepKeepsEnginesThreads(Run(IDLE, earlier), steps[|steps| - 1]);
    }
  }

  lemma EndKeepsEnginesThreads(s: System, process: Process)
    requires ThreadInv(s) && EnginesHaveThreads(s)
    ensures EnginesHaveThreads(WithoutProcess(s, process))
  {
  }

  lemma StepKeepsEnginesThreads(s: System, step: Step)
    requires ThreadInv(s) && EnginesHaveThreads(s) && !step.CloseElsewhere?
    ensures EnginesHaveThreads(Stepped(s, step))
  {
    if step.ProcessEnds? {
      EndIsStep(s, step.process);
      EndKeepsEnginesThreads(s, step.process);
    } else {
      hide WithoutProcess;
    }
  }

  /** So is closing its store through another handle, however properly the engine is closed
      afterwards. */
  lemma CloseElsewhereCanShare(before: seq<Step>, id: Id)
    requires id in Run(IDLE, before).threads && Run(IDLE, before).threads[id].directory.Some?
    ensures CanShare(Run(IDLE, before + [CloseElsewhere(id)]))
  {
    RunKeepsInvariants(IDLE, before);
    RunOfLonger(IDLE, before, CloseElsewhere(id));
    assert Stray(Run(IDLE, before + [CloseElsewhere(id)]), id);
    SharingNeedsStrayIff(before + [CloseElsewhere(id)]);
  }
}

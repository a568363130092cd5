/** What can become of an interrupted apply. */
module InterruptedApply {
  import opened Wrappers
  import opened DependencyApply

  /** The request at the path reads accepted, and its receipt exists. */
  predicate AcceptedWithReceipt(w: World, s: State, path: Path) {
    && path in s.slots && w.parse(s.slots[path].bytes).Some?
    && var q := w.parse(s.slots[path].bytes).value;
    q.status == Accepted && q.id in s.receipts
  }

  // ---------- what may happen ----------

  /** Anything but power losses and edits of the request, and where no others work in the repository no edits at all. */
  predicate Undisturbed(a: Action, path: Path, others: bool) {
    && !a.PowerLoss? && !(a.Edit? && a.path == path)
    && (!others ==> !a.Edit? && !a.EditLocks? && !a.MoveHead?)
  }

  /** A run from `s` whose last step flips the request at the path. */
  ghost predicate FlipRun(w: World, s: State, path: Path, others: bool, states: seq<State>, actions: seq<Action>) {
    && Run(w, states, actions) && states[0] == s && actions != []
    && (forall i | 0 <= i < |actions| :: Undisturbed(actions[i], path, others))
    && FlipsAt(states[|actions| - 1], actions[|actions| - 1], path)
  }

  predicate FlipsAt(s: State, a: Action, path: Path) {
    a.Replace? && a.pid in s.processes && s.processes[a.pid].path == path
  }

  predicate Unreceipted(s: State, p: Process) { p.request.status == Accepted && p.request.id !in s.receipts }

  predicate HeadFits(w: World, s: State, p: Process) { HeadIsCandidate(w, s, p.base, p.path, p.request.locks) }

  /**
   Edits of other requests and of root locks, and one commit, can make HEAD such a candidate: the receipts are
   those of the base, the request is not, every other request is or can be made so by hand, and the loaded
   request declares a root lock.
   */
  predicate Mendable(w: World, s: State, p: Process)
    requires p.path in s.slots
  {
    var base := w.tree(p.base);
    && ReceiptsOf(s) == base.receipts && p.request.locks != {}
    && base.requests.Keys - {p.path} == s.slots.Keys - {p.path}
    && (p.path in base.requests ==> base.requests[p.path] != s.slots[p.path].bytes)
    && forall x | x in s.slots && x in base.requests && x != p.path ::
         s.slots[x].bytes == base.requests[x] || ByHand(w, base.requests[x])
  }

  /** The guards that are still ahead of a process at its stage. */
  predicate CanFlip(w: World, s: State, pid: Pid, others: bool) {
    && pid in s.processes && s.processes[pid].path in s.slots
    && var p := s.processes[pid]; var now := w.sha(s.slots[p.path].bytes);
    match p.stage
    case Loading => false
    case Parsed =>
      && p.expected == now && p.confirm == p.request.id.request && Unreceipted(s, p)
      && if others then Mendable(w, s, p) else HeadFits(w, s, p)
    case Digested => now == p.digest && Unreceipted(s, p) && if others then Mendable(w, s, p) else HeadFits(w, s, p)
    case Locked => now == p.digest && Unreceipted(s, p) && HeadFits(w, s, p)
    case _ => Bound(p.stage)
  }

  /** No process at work on the file can flip it any more, whatever others do. */
  predicate Stuck(w: World, s: State, path: Path) {
    && AcceptedWithReceipt(w, s, path)
    && forall pid | pid in s.processes && s.processes[pid].path == path :: !CanFlip(w, s, pid, true)
  }

  // ---------- no step makes a flip possible ----------

  lemma InvProcess(w: World, s: State, pid: Pid)
    requires Inv(w, s)
    ensures pid in s.processes ==> ProcessOk(w, s, pid)
  {
  }

  /** Steps that do not flip the request leave its bytes, and receipts stay. */
  lemma SlotStays(w: World, s: State, a: Action, path: Path, others: bool)
    requires Enabled(w, s, a) && Undisturbed(a, path, others) && path in s.slots && !FlipsAt(s, a, path)
    ensures var t := Effect(w, s, a);
            path in t.slots && t.slots[path].bytes == s.slots[path].bytes && s.receipts.Keys <= t.receipts.Keys
  {
    hide CleanBut, CandidateOk, CasOk, BaseOk, LifecycleOk;
  }

  lemma AcceptedStays(w: World, s: State, a: Action, path: Path, others: bool)
    requires Enabled(w, s, a) && Undisturbed(a, path, others) && !FlipsAt(s, a, path)
    requires AcceptedWithReceipt(w, s, path)
    ensures AcceptedWithReceipt(w, Effect(w, s, a), path)
  {
    hide Enabled, Effect;
    SlotStays(w, s, a, path, others);
  }

  lemma FittingStays(w: World, s: State, t: State, p: Process, q: Process)
    requires SameFiles(s, t) && t.slots.Keys == s.slots.Keys && p.path in s.slots
    requires forall path | path in s.slots :: t.slots[path].bytes == s.slots[path].bytes
    requires q.path == p.path && q.base == p.base && q.request == p.request
    ensures HeadFits(w, t, q) == HeadFits(w, s, p) && Mendable(w, t, q) == Mendable(w, s, p)
  {
    hide ChangesOk, CleanBut, ByHand;
    CleanStays(w, s, t, {});
  }

  lemma FittingMends(w: World, s: State, p: Process)
    requires HeadFits(w, s, p) && p.path in s.slots
    ensures Mendable(w, s, p)
  {
    CleanIsTree(w, s);
    var base, committed := w.tree(p.base), w.tree(s.head);
    assert RequestsOf(s).Keys == s.slots.Keys;
    forall x | x in s.slots && x in base.requests && x != p.path ensures s.slots[x].bytes == base.requests[x] {
      assert (base.requests - {p.path})[x] == (committed.requests - {p.path})[x];
    }
    assert base.requests.Keys - {p.path} == (base.requests - {p.path}).Keys;
    assert committed.requests.Keys - {p.path} == (committed.requests - {p.path}).Keys;
  }

  /** The process that moves could flip already, unless it just parsed a request that has its receipt. */
  lemma MoverCould(w: World, s: State, a: Action, others: bool)
    requires Inv(w, s) && Enabled(w, s, a) && !a.PowerLoss? && !a.Edit? && !a.EditLocks? && !a.Flush? && !a.MoveHead?
    requires !a.Stop? && CanFlip(w, Effect(w, s, a), a.pid, others)
    requires a.Parse? ==> AcceptedWithReceipt(w, s, s.processes[a.pid].path)
    ensures CanFlip(w, s, a.pid, others)
  {
    hide Inv, ProcessOk, LifecycleOk, SealOf, BaseOk, HeadFits, Mendable, CasOk, CleanBut, CandidateOk;
    if a.TakeDigest? || a.Lock? {
      ReaderCould(w, s, a, others);
    } else if a.Check? {
      CheckerFits(w, s, a.pid);
    }
  }

  lemma ReaderCould(w: World, s: State, a: Action, others: bool)
    requires Enabled(w, s, a) && (a.TakeDigest? || a.Lock?) && CanFlip(w, Effect(w, s, a), a.pid, others)
    ensures CanFlip(w, s, a.pid, others)
  {
    hide HeadFits, Mendable, SealOf;
    var t, p := Effect(w, s, a), s.processes[a.pid];
    FilesStay(w, s, a);
    FittingStays(w, s, t, p, t.processes[a.pid]);
    if HeadFits(w, s, p) { FittingMends(w, s, p); }
  }

  lemma CheckerFits(w: World, s: State, pid: Pid)
    requires Enabled(w, s, Check(pid))
    ensures var p := s.processes[pid]; HeadFits(w, s, p) && w.sha(s.slots[p.path].bytes) == p.digest
  {
    hide ChangesOk;
    var p := s.processes[pid];
    assert RequestsOf(s)[p.path] == s.slots[p.path].bytes;
  }

  /** What is journaled is not in the base of any process at work, so none of them fits it any more. */
  lemma JournalUnfits(w: World, s: State, a: Action, base: CommitId)
    requires Core(w, s) && Enabled(w, s, a) && Journals(a) && BaseOk(w, s, base)
    ensures ReceiptsOf(Effect(w, s, a)) != w.tree(base).receipts
  {
    hide AllSealed, FlipsOk, Flipped, Fits, CleanBut, CasOk;
    assert ProcessOk(w, s, a.pid);
    var id := s.processes[a.pid].request.id;
    assert id in Effect(w, s, a).receipts && id !in w.tree(base).receipts;
    assert id in ReceiptsOf(Effect(w, s, a));
  }

  lemma NotFitting(w: World, s: State, p: Process)
    requires ReceiptsOf(s) != w.tree(p.base).receipts && p.path in s.slots
    ensures !HeadFits(w, s, p) && !Mendable(w, s, p)
  {
    if HeadFits(w, s, p) { FittingMends(w, s, p); }
  }

  /** A request that an edit brings in line with the base could be brought in line. */
  lemma MendedBefore(w: World, s: State, a: Action, p: Process)
    requires Enabled(w, s, a) && (a.Edit? || a.EditLocks? || a.MoveHead?) && p.path in s.slots
    requires !(a.Edit? && a.path == p.path) && Mendable(w, Effect(w, s, a), p)
    ensures Mendable(w, s, p)
  {
    var t := Effect(w, s, a);
    assert ReceiptsOf(t) == ReceiptsOf(s);
    assert forall x | x in s.slots && !(a.Edit? && x == a.path) :: t.slots[x] == s.slots[x];
  }

  /** The others could flip already: nothing they still need has come about. */
  lemma OtherCould(w: World, s: State, a: Action, pid: Pid, path: Path, others: bool)
    requires Inv(w, s) && Enabled(w, s, a) && Undisturbed(a, path, others) && !FlipsAt(s, a, path)
    requires pid in s.processes && pid in Effect(w, s, a).processes
    requires Effect(w, s, a).processes[pid] == s.processes[pid] && s.processes[pid].path == path
    requires CanFlip(w, Effect(w, s, a), pid, others)
    ensures CanFlip(w, s, pid, others)
  {
    hide Effect, Enabled, ProcessOk, Core, HeadFits, Mendable, BaseOk, Journals;
    var t, p := Effect(w, s, a), s.processes[pid];
    PathKnown(w, s, pid);
    SlotStays(w, s, a, path, others);
    if Journals(a) {
      JournalUnfits(w, s, a, p.base);
      NotFitting(w, t, p);
    } else if a.Edit? || a.EditLocks? || a.MoveHead? {
      if p.stage == Locked { NoneLocked(w, s, a, pid); }
      if Mendable(w, t, p) { MendedBefore(w, s, a, p); }
    } else {
      FilesStay(w, s, a);
      FittingStays(w, s, t, p, p);
    }
  }

  lemma PathKnown(w: World, s: State, pid: Pid)
    requires Inv(w, s) && pid in s.processes
    ensures s.processes[pid].path in s.slots
  {
    InvProcess(w, s, pid);
  }

  lemma NoneLocked(w: World, s: State, a: Action, pid: Pid)
    requires Inv(w, s) && Enabled(w, s, a) && (a.Edit? || a.EditLocks? || a.MoveHead?) && pid in s.processes
    ensures !Holding(s.processes[pid].stage)
  {
    InvProcess(w, s, pid);
  }

  lemma OthersStay(w: World, s: State, a: Action, pid: Pid)
    requires Enabled(w, s, a) && !a.PowerLoss? && pid in Effect(w, s, a).processes
    requires a.Edit? || a.EditLocks? || a.Flush? || a.MoveHead? || a.Stop? || a.pid != pid
    ensures pid in s.processes && Effect(w, s, a).processes[pid] == s.processes[pid]
  {
  }

  lemma PathStays(w: World, s: State, a: Action, pid: Pid)
    requires Enabled(w, s, a) && !a.PowerLoss? && pid in Effect(w, s, a).processes && pid in s.processes
    ensures Effect(w, s, a).processes[pid].path == s.processes[pid].path
  {
    hide CleanBut, CandidateOk, CasOk, BaseOk, LifecycleOk, SealOf;
  }

  lemma StarterCannot(w: World, s: State, a: Action, others: bool)
    requires Enabled(w, s, a) && a.Start?
    ensures !CanFlip(w, Effect(w, s, a), a.pid, others)
  {
  }

  /** No step makes it possible for a process to flip an accepted request that has its receipt. */
  lemma NeverNewly(w: World, s: State, a: Action, pid: Pid, path: Path, others: bool)
    requires Inv(w, s) && Enabled(w, s, a) && Undisturbed(a, path, others) && !FlipsAt(s, a, path)
    requires AcceptedWithReceipt(w, s, path)
    requires var t := Effect(w, s, a);
             pid in t.processes && t.processes[pid].path == path && CanFlip(w, t, pid, others)
    ensures pid in s.processes && s.processes[pid].path == path && CanFlip(w, s, pid, others)
  {
    hide Inv, Enabled, Effect, CanFlip, AcceptedWithReceipt;
    if a.Edit? || a.EditLocks? || a.Flush? || a.MoveHead? || a.Stop? || a.pid != pid {
      OthersStay(w, s, a, pid);
      OtherCould(w, s, a, pid, path, others);
    } else if a.Start? {
      StarterCannot(w, s, a, others);
    } else {
      MoverThere(w, s, a);
      PathStays(w, s, a, pid);
      MoverCould(w, s, a, others);
    }
  }

  lemma MoverThere(w: World, s: State, a: Action)
    requires Enabled(w, s, a)
    requires !a.Start? && !a.PowerLoss? && !a.Edit? && !a.EditLocks? && !a.Flush? && !a.MoveHead?
    ensures a.pid in s.processes
  {
  }

  lemma FlipperCould(w: World, s: State, a: Action, path: Path, others: bool)
    requires Enabled(w, s, a) && FlipsAt(s, a, path)
    ensures CanFlip(w, s, a.pid, others)
  {
  }

  lemma RunTail(w: World, states: seq<State>, actions: seq<Action>)
    requires Run(w, states, actions) && actions != []
    ensures Enabled(w, states[0], actions[0]) && states[1] == Effect(w, states[0], actions[0])
    ensures Run(w, states[1..], actions[1..])
  {
    hide Enabled, Effect;
    forall i | 0 <= i < |actions| - 1
      ensures Enabled(w, states[1..][i], actions[1..][i])
      ensures states[1..][i + 1] == Effect(w, states[1..][i], actions[1..][i])
    {
      assert Enabled(w, states[i + 1], actions[i + 1]);
    }
  }

  /** A run that flips the request starts with a process that can. */
  lemma {:induction false} FlipRunNeeds(w: World, s: State, path: Path, others: bool, states: seq<State>,
                                        actions: seq<Action>) returns (pid: Pid)
    requires Lawful(w) && Inv(w, s) && AcceptedWithReceipt(w, s, path)
    requires FlipRun(w, s, path, others, states, actions)
    ensures pid in s.processes && s.processes[pid].path == path && CanFlip(w, s, pid, others)
    decreases |actions|
  {
    hide Inv, Enabled, Effect, CanFlip, AcceptedWithReceipt, Run, Undisturbed;
    var a := actions[0];
    RunTail(w, states, actions);
    if FlipsAt(s, a, path) {
      FlipperCould(w, s, a, path, others);
      pid := a.pid;
    } else {
      StepKeeps(w, s, a);
      AcceptedStays(w, s, a, path, others);
      assert forall i | 0 <= i < |actions| - 1 :: actions[1..][i] == actions[i + 1];
      RunShape(w, states, actions);
      pid := FlipRunNeeds(w, Effect(w, s, a), path, others, states[1..], actions[1..]);
      NeverNewly(w, s, a, pid, path, others);
    }
  }

  lemma RunShape(w: World, states: seq<State>, actions: seq<Action>)
    requires Run(w, states, actions)
    ensures |states| == |actions| + 1
  {
  }

  // ---------- a process that can flip, flips ----------

  ghost predicate Ends(states: seq<State>, actions: seq<Action>, s: State) {
    |states| == |actions| + 1 && states[|actions|] == s
  }

  lemma NoStep(w: World, s: State)
    ensures Run(w, [s], [])
  {
  }

  lemma Then(w: World, states: seq<State>, actions: seq<Action>, s: State, a: Action)
    returns (states': seq<State>, actions': seq<Action>, t: State)
    requires Run(w, states, actions) && Ends(states, actions, s) && Enabled(w, s, a)
    ensures Run(w, states', actions') && Ends(states', actions', t) && t == Effect(w, s, a)
    ensures states' == states + [t] && actions' == actions + [a]
  {
    hide Enabled, Effect;
    t := Effect(w, s, a);
    states' := states + [t];
    actions' := actions + [a];
    forall i | 0 <= i < |actions'|
      ensures Enabled(w, states'[i], actions'[i]) && states'[i + 1] == Effect(w, states'[i], actions'[i])
    {
      if i < |actions| {
        assert Enabled(w, states[i], actions[i]) && states[i + 1] == Effect(w, states[i], actions[i]);
      }
    }
  }

  /** The other requests that are not as the base has them. */
  function Mismatched(w: World, s: State, p: Process): set<Path> {
    var base := w.tree(p.base).requests;
    set x | x in s.slots.Keys && x != p.path && !(x in base && s.slots[x].bytes == base[x])
  }

  predicate LocksReady(w: World, s: State, p: Process) {
    var base := w.tree(p.base);
    && base.locks.Keys <= s.locks.Keys && ChangedLocks(base, Worktree(s)) != {}
    && ChangedLocks(base, Worktree(s)) <= p.request.locks
  }

  predicate HeadReady(w: World, s: State, p: Process) {
    w.parent(s.head) == Some(p.base) && w.tree(s.head) == Worktree(s)
  }

  /** How far a process is from its flip. */
  function StepsLeft(w: World, s: State, pid: Pid): nat
    requires pid in s.processes && s.processes[pid].path in s.slots
  {
    var p := s.processes[pid];
    match p.stage
    case Parsed => 20 + 2 * |Mismatched(w, s, p)|
    case Digested =>
      9 + 2 * |Mismatched(w, s, p)| + (if s.holder.Some? then 1 else 0)
        + (if LocksReady(w, s, p) then 0 else 2) + (if HeadReady(w, s, p) then 0 else 1)
    case Locked => 8
    case Checked => 7
    case Ready => 6
    case Writing => if p.request.id in s.receipts && |s.receipts[p.request.id].bytes| < |SealOf(w, p)| then 5 else 4
    case ContentSynced => 3
    case Journaled => 2
    case _ => 1
  }

  /** The step may be taken; it is the flip, or it leaves the process nearer to it. */
  ghost predicate Nearer(w: World, s: State, pid: Pid, others: bool, a: Action)
    requires pid in s.processes && s.processes[pid].path in s.slots
  {
    && Enabled(w, s, a) && Undisturbed(a, s.processes[pid].path, others)
    && (a.Replace? ==> a.pid == pid)
    && (!a.Replace? ==>
          var t := Effect(w, s, a);
          && CanFlip(w, t, pid, others)
          && t.processes[pid].path == s.processes[pid].path && t.processes[pid].request == s.processes[pid].request
          && StepsLeft(w, t, pid) < StepsLeft(w, s, pid))
  }

  lemma DigestNearer(w: World, s: State, pid: Pid, others: bool)
    requires Inv(w, s) && CanFlip(w, s, pid, others) && s.processes[pid].stage == Parsed
    ensures Nearer(w, s, pid, others, TakeDigest(pid))
  {
    hide Inv, HeadFits, Mendable, BaseOk, LocksReady, HeadReady;
    var a := TakeDigest(pid);
    var t, p := Effect(w, s, a), s.processes[pid];
    FilesStay(w, s, a);
    FittingStays(w, s, t, p, t.processes[pid]);
    assert Mismatched(w, t, t.processes[pid]) == Mismatched(w, s, p);
  }

  lemma StopNearer(w: World, s: State, pid: Pid, others: bool)
    requires Inv(w, s) && CanFlip(w, s, pid, others) && s.processes[pid].stage == Digested && s.holder.Some?
    ensures Nearer(w, s, pid, others, Stop(s.holder.value))
  {
    hide HeadFits, Mendable, BaseOk, ProcessesOk, AllSealed, FlipsOk, Based;
    var a := Stop(s.holder.value);
    var t, p := Effect(w, s, a), s.processes[pid];
    FilesStay(w, s, a);
    FittingStays(w, s, t, p, p);
    assert Mismatched(w, t, p) == Mismatched(w, s, p) && Worktree(t) == Worktree(s);
  }

  lemma EditNearer(w: World, s: State, pid: Pid, x: Path)
    requires CanFlip(w, s, pid, true) && s.processes[pid].stage == Digested && s.holder.None?
    requires var p := s.processes[pid]; x in Mismatched(w, s, p)
    ensures var p := s.processes[pid];
            x in w.tree(p.base).requests && Nearer(w, s, pid, true, Edit(x, w.tree(p.base).requests[x]))
  {
    hide LocksReady, HeadReady;
    var p := s.processes[pid];
    var base := w.tree(p.base).requests;
    assert x in s.slots.Keys - {p.path} && x in base.Keys - {p.path};
    var a := Edit(x, base[x]);
    var t := Effect(w, s, a);
    assert ReceiptsOf(t) == ReceiptsOf(s);
    assert Mismatched(w, t, p) == Mismatched(w, s, p) - {x};
    SameLocks(w, s, t, p);
  }

  lemma SameLocks(w: World, s: State, t: State, p: Process)
    requires t.locks == s.locks
    ensures LocksReady(w, t, p) == LocksReady(w, s, p)
  {
    assert ChangedLocks(w.tree(p.base), Worktree(t)) == ChangedLocks(w.tree(p.base), Worktree(s));
  }

  /** The base's root locks with another content of one of them. */
  function OtherLock(base: map<RootLock, Bytes>, l: RootLock): map<RootLock, Bytes> {
    base[l := if l in base then base[l] + " " else ""]
  }

  lemma LocksNearer(w: World, s: State, pid: Pid) returns (a: Action)
    requires CanFlip(w, s, pid, true) && s.processes[pid].stage == Digested && s.holder.None?
    requires !LocksReady(w, s, s.processes[pid])
    ensures Nearer(w, s, pid, true, a)
  {
    hide HeadReady;
    var p := s.processes[pid];
    var l :| l in p.request.locks;
    var base := w.tree(p.base);
    a := EditLocks(OtherLock(base.locks, l));
    var t := Effect(w, s, a);
    assert l in base.locks ==> |t.locks[l]| == |base.locks[l]| + 1;
    assert ChangedLocks(base, Worktree(t)) == {l};
    assert ReceiptsOf(t) == ReceiptsOf(s) && Mismatched(w, t, p) == Mismatched(w, s, p);
  }

  lemma CommitNearer(w: World, s: State, pid: Pid)
    requires Lawful(w) && CanFlip(w, s, pid, true) && s.processes[pid].stage == Digested && s.holder.None?
    requires !HeadReady(w, s, s.processes[pid])
    ensures Nearer(w, s, pid, true, MoveHead(w.commitOf(s.processes[pid].base, Worktree(s))))
  {
    var p := s.processes[pid];
    var c := w.commitOf(p.base, Worktree(s));
    assert w.parent(c) == Some(p.base) && w.tree(c) == Worktree(s);
    var t := Effect(w, s, MoveHead(c));
    assert Worktree(t) == Worktree(s) && Mismatched(w, t, p) == Mismatched(w, s, p);
    SameLocks(w, s, t, p);
    hide LocksReady;
  }

  lemma ReadyFits(w: World, s: State, p: Process)
    requires p.path in s.slots && Mendable(w, s, p) && LocksReady(w, s, p) && HeadReady(w, s, p)
    requires Mismatched(w, s, p) == {}
    ensures HeadFits(w, s, p)
  {
    hide ChangedLocks;
    CleanIsTree(w, s);
    var base, tree := w.tree(p.base).requests, RequestsOf(s);
    assert tree.Keys == s.slots.Keys;
    forall x | x in s.slots && x != p.path ensures x in base && tree[x] == base[x] {
      assert x !in Mismatched(w, s, p);
    }
    assert (base - {p.path}).Keys == base.Keys - {p.path} && (tree - {p.path}).Keys == tree.Keys - {p.path};
    assert base - {p.path} == tree - {p.path};
  }

  lemma LockNearer(w: World, s: State, pid: Pid, others: bool)
    requires CanFlip(w, s, pid, others) && s.processes[pid].stage == Digested && s.holder.None?
    requires HeadFits(w, s, s.processes[pid])
    ensures Nearer(w, s, pid, others, Lock(pid))
  {
    hide HeadFits, Mendable, LocksReady, HeadReady;
    var t, p := Effect(w, s, Lock(pid)), s.processes[pid];
    FilesStay(w, s, Lock(pid));
    FittingStays(w, s, t, p, t.processes[pid]);
  }

  lemma DigestedNearer(w: World, s: State, pid: Pid, others: bool) returns (a: Action)
    requires Lawful(w) && Inv(w, s) && CanFlip(w, s, pid, others) && s.processes[pid].stage == Digested
    ensures Nearer(w, s, pid, others, a)
  {
    hide Inv, Lawful, Nearer, HeadFits, Mendable, LocksReady, HeadReady, Mismatched;
    var p := s.processes[pid];
    if s.holder.Some? {
      StopNearer(w, s, pid, others);
      a := Stop(s.holder.value);
    } else if !others || HeadFits(w, s, p) {
      LockNearer(w, s, pid, others);
      a := Lock(pid);
    } else if Mismatched(w, s, p) != {} {
      var x :| x in Mismatched(w, s, p);
      EditNearer(w, s, pid, x);
      a := Edit(x, w.tree(p.base).requests[x]);
    } else if !LocksReady(w, s, p) {
      a := LocksNearer(w, s, pid);
    } else {
      if HeadReady(w, s, p) { ReadyFits(w, s, p); }
      CommitNearer(w, s, pid);
      a := MoveHead(w.commitOf(p.base, Worktree(s)));
    }
  }

  lemma CheckNearer(w: World, s: State, pid: Pid, others: bool)
    requires Inv(w, s) && CanFlip(w, s, pid, others) && s.processes[pid].stage == Locked
    ensures Nearer(w, s, pid, others, Check(pid))
  {
    hide Inv, CleanBut, ChangesOk;
    var p := s.processes[pid];
    assert RequestsOf(s).Keys == s.slots.Keys && RequestsOf(s)[p.path] == s.slots[p.path].bytes;
    FitsRequests(w, s);
  }

  lemma FitsRequests(w: World, s: State)
    ensures forall ids | CleanBut(w, s, ids) :: RequestsOf(s) == w.tree(s.head).requests
  {
  }

  lemma BoundCas(w: World, s: State, p: Process)
    requires p.path in s.slots && Fits(w, s, p)
    ensures CasOk(w, s, p, if Wrote(p.stage) then {p.request.id} else {})
  {
    hide ChangesOk;
    assert RequestsOf(s).Keys == s.slots.Keys && RequestsOf(s)[p.path] == s.slots[p.path].bytes;
  }

  lemma GuardNearer(w: World, s: State, pid: Pid, others: bool, a: Action)
    requires Inv(w, s) && CanFlip(w, s, pid, others)
    requires match s.processes[pid].stage
             case Checked => a == FirstCas(pid)
             case Ready => a == Create(pid)
             case Journaled => a == SecondCas(pid)
             case _ => false
    ensures Nearer(w, s, pid, others, a)
  {
    hide AllSealed, FlipsOk, Flipped, Inv, CleanBut, CandidateOk, HeadFits, Mendable, LocksReady, HeadReady, CasOk;
    InvProcess(w, s, pid);
    BoundCas(w, s, s.processes[pid]);
  }

  lemma WriteNearer(w: World, s: State, pid: Pid, others: bool) returns (a: Action)
    requires Inv(w, s) && CanFlip(w, s, pid, others)
    requires var stage := s.processes[pid].stage; stage == Writing || stage == ContentSynced || stage == Rechecked
    ensures Nearer(w, s, pid, others, a)
  {
    hide AllSealed, FlipsOk, Flipped, Inv, Fits, HeadFits, Mendable, LocksReady, HeadReady, CasOk;
    InvProcess(w, s, pid);
    var p := s.processes[pid];
    var whole := SealOf(w, p);
    assert whole[..|whole|] == whole;
    if p.stage == Writing {
      a := if |s.receipts[p.request.id].bytes| < |whole| then Write(pid, |whole|) else SyncContent(pid);
    } else {
      a := if p.stage == ContentSynced then SyncEntry(pid) else Replace(pid);
    }
  }

  lemma JournalNearer(w: World, s: State, pid: Pid, others: bool) returns (a: Action)
    requires Inv(w, s) && CanFlip(w, s, pid, others) && Bound(s.processes[pid].stage)
    ensures Nearer(w, s, pid, others, a)
  {
    hide Inv, Nearer, HeadFits, Mendable;
    match s.processes[pid].stage
    case Checked => a := FirstCas(pid); GuardNearer(w, s, pid, others, a);
    case Ready => a := Create(pid); GuardNearer(w, s, pid, others, a);
    case Journaled => a := SecondCas(pid); GuardNearer(w, s, pid, others, a);
    case _ => a := WriteNearer(w, s, pid, others);
  }

  /** A process that can flip has a step that is its flip or brings it nearer. */
  lemma AlwaysAdvances(w: World, s: State, pid: Pid, others: bool) returns (a: Action)
    requires Lawful(w) && Inv(w, s) && CanFlip(w, s, pid, others)
    ensures Nearer(w, s, pid, others, a)
  {
    hide Inv, Lawful, Nearer, HeadFits, Mendable;
    var stage := s.processes[pid].stage;
    if stage == Parsed {
      DigestNearer(w, s, pid, others);
      a := TakeDigest(pid);
    } else if stage == Digested {
      a := DigestedNearer(w, s, pid, others);
    } else if stage == Locked {
      CheckNearer(w, s, pid, others);
      a := Check(pid);
    } else {
      a := JournalNearer(w, s, pid, others);
    }
  }

  /** Let alone, a process that can flip its request does; processes in its way stop. */
  lemma {:induction false} Finish(w: World, states: seq<State>, actions: seq<Action>, s: State, pid: Pid, others: bool)
    returns (states': seq<State>, actions': seq<Action>)
    requires Lawful(w) && Inv(w, s) && CanFlip(w, s, pid, others) && Run(w, states, actions)
             && Ends(states, actions, s)
    ensures Run(w, states', actions') && states <= states' && actions < actions'
    ensures var path := s.processes[pid].path;
            && (forall i | |actions| <= i < |actions'| :: Undisturbed(actions'[i], path, others))
            && actions'[|actions'| - 1] == Replace(pid) && |states'| == |actions'| + 1
            && FlipsAt(states'[|actions'| - 1], Replace(pid), path)
            && states'[|actions'| - 1].processes[pid].request == s.processes[pid].request
    decreases StepsLeft(w, s, pid)
  {
    hide Inv, Enabled, Effect, Run, StepsLeft, Undisturbed, HeadFits, Mendable, Lawful;
    var a := AlwaysAdvances(w, s, pid, others);
    var t: State;
    states', actions', t := Then(w, states, actions, s, a);
    if a.Replace? {
      ReplaceIs(a, pid);
    } else {
      StepKeeps(w, s, a);
      states', actions' := Finish(w, states', actions', t, pid, others);
    }
  }

  lemma ReplaceIs(a: Action, pid: Pid)
    requires a.Replace? && a.pid == pid
    ensures a == Replace(pid)
  {
  }

  /**
   Of an accepted request with a receipt: there is a run that flips it, while nobody edits it and the power
   stays, exactly when a process at work on it passes the guards still ahead of it.
   */
  lemma FlipIff(w: World, s: State, path: Path, others: bool)
    requires Lawful(w) && Inv(w, s) && AcceptedWithReceipt(w, s, path)
    ensures (exists states, actions :: FlipRun(w, s, path, others, states, actions)) <==>
            exists pid :: pid in s.processes && s.processes[pid].path == path && CanFlip(w, s, pid, others)
  {
    hide Inv, CanFlip, AcceptedWithReceipt, Run;
    if exists states, actions :: FlipRun(w, s, path, others, states, actions) {
      var states, actions :| FlipRun(w, s, path, others, states, actions);
      var pid := FlipRunNeeds(w, s, path, others, states, actions);
    }
    if exists pid :: pid in s.processes && s.processes[pid].path == path && CanFlip(w, s, pid, others) {
      var pid :| pid in s.processes && s.processes[pid].path == path && CanFlip(w, s, pid, others);
      NoStep(w, s);
      var states, actions := Finish(w, [s], [], s, pid, others);
      assert states[0] == s;
      assert FlipRun(w, s, path, others, states, actions);
    }
  }

  /** So the request is stuck exactly when no such run exists. */
  lemma StuckIff(w: World, s: State, path: Path)
    requires Lawful(w) && Inv(w, s) && AcceptedWithReceipt(w, s, path)
    ensures Stuck(w, s, path) <==> !exists states, actions :: FlipRun(w, s, path, true, states, actions)
  {
    hide Inv, CanFlip, AcceptedWithReceipt, FlipRun;
    FlipIff(w, s, path, true);
  }

  // ---------- stuck for good ----------

  /** The state survives a power loss. */
  predicate Firm(w: World, s: State, path: Path)
    requires AcceptedWithReceipt(w, s, path)
  {
    s.slots[path].durable == s.slots[path].bytes && Durable(s.receipts, w.parse(s.slots[path].bytes).value.id)
  }

  lemma StuckHasNoFlip(w: World, s: State, a: Action, path: Path)
    requires Enabled(w, s, a) && Stuck(w, s, path)
    ensures !FlipsAt(s, a, path)
  {
    if FlipsAt(s, a, path) { FlipperCould(w, s, a, path, true); }
  }

  /** No step of a process or a commit leaves it. */
  lemma StuckMoves(w: World, s: State, a: Action, path: Path)
    requires Inv(w, s) && Enabled(w, s, a) && Stuck(w, s, path) && Undisturbed(a, path, true)
    ensures Stuck(w, Effect(w, s, a), path) && Effect(w, s, a).slots[path].bytes == s.slots[path].bytes
  {
    hide Inv, Enabled, Effect, CanFlip;
    StuckHasNoFlip(w, s, a, path);
    SlotStays(w, s, a, path, true);
    AcceptedStays(w, s, a, path, true);
    var t := Effect(w, s, a);
    forall pid | pid in t.processes && t.processes[pid].path == path ensures !CanFlip(w, t, pid, true) {
      if CanFlip(w, t, pid, true) { NeverNewly(w, s, a, pid, path, true); }
    }
  }

  lemma FirmMoves(w: World, s: State, a: Action, path: Path)
    requires Inv(w, s) && Enabled(w, s, a) && Undisturbed(a, path, true) && !FlipsAt(s, a, path)
    requires AcceptedWithReceipt(w, s, path) && Firm(w, s, path) && AcceptedWithReceipt(w, Effect(w, s, a), path)
    ensures Firm(w, Effect(w, s, a), path)
  {
    hide AllSealed, FlipsOk, Inv;
    SlotStays(w, s, a, path, true);
    if a.Create? || a.Write? || a.SyncContent? || a.SyncEntry? { InvProcess(w, s, a.pid); }
  }

  /** Nor does a power loss once it is on disk. */
  lemma StuckStays(w: World, s: State, a: Action, path: Path)
    requires Inv(w, s) && Enabled(w, s, a) && Stuck(w, s, path)
    requires !(a.Edit? && a.path == path) && (a.PowerLoss? ==> Firm(w, s, path))
    ensures Stuck(w, Effect(w, s, a), path) && Effect(w, s, a).slots[path].bytes == s.slots[path].bytes
    ensures Firm(w, s, path) ==> Firm(w, Effect(w, s, a), path)
  {
    if a.PowerLoss? {
      assert Survivor(s, path, a.slots[path]);
    } else {
      hide Inv, Enabled, Effect, CanFlip, Firm, AcceptedWithReceipt;
      StuckMoves(w, s, a, path);
      StuckHasNoFlip(w, s, a, path);
      if Firm(w, s, path) { FirmMoves(w, s, a, path); }
    }
  }

  /** Whatever runs after it, while nobody edits the request, it stays accepted as it is. */
  lemma {:induction false} StuckForever(w: World, states: seq<State>, actions: seq<Action>, i: nat, k: nat, path: Path)
    requires Lawful(w) && Run(w, states, actions) && Init(w, states[0]) && i <= k < |states|
    requires Stuck(w, states[i], path)
    requires Firm(w, states[i], path) || forall n | i <= n < k :: !actions[n].PowerLoss?
    requires forall n | i <= n < k :: !(actions[n].Edit? && actions[n].path == path)
    ensures Stuck(w, states[k], path) && (Firm(w, states[i], path) ==> Firm(w, states[k], path))
    ensures states[k].slots[path].bytes == states[i].slots[path].bytes
  {
    hide Enabled, Effect, CanFlip, AcceptedWithReceipt, Firm, Inv;
    if k > i {
      StuckForever(w, states, actions, i, k - 1, path);
      Always(w, states, actions, k - 1);
      StuckStays(w, states[k - 1], actions[k - 1], path);
    }
  }

  /** No process parses the request, and those that have pass no check under the lock any more. */
  lemma StuckFails(w: World, s: State, a: Action, path: Path)
    requires Inv(w, s) && Stuck(w, s, path) && Enabled(w, s, a)
    ensures a.Parse? && s.processes[a.pid].path == path ==> !w.named(w.parse(s.slots[path].bytes).value.id)
    ensures !((a.Check? || a.FirstCas? || a.Create? || a.SecondCas? || a.Replace?) && s.processes[a.pid].path == path)
  {
  }

  // ---------- what a crash leaves ----------

  lemma DirtyIsOwn(w: World, s: State, id: Id, own: Id)
    requires CleanBut(w, s, {own}) && id in s.receipts && id !in w.tree(s.head).receipts
    ensures id == own
  {
    assert id in DirtyReceipts(w, s);
  }

  lemma CleanIsCommitted(w: World, s: State, id: Id)
    requires CleanBut(w, s, {}) && id in s.receipts
    ensures id in w.tree(s.head).receipts
  {
    assert id !in DirtyReceipts(w, s);
  }

  /** Where the receipt is not in the base of a process, it can flip nothing but as the one who writes it. */
  lemma OnlyItsMaker(w: World, s: State, pid: Pid, id: Id, others: bool)
    requires Inv(w, s) && CanFlip(w, s, pid, others)
    requires id in s.receipts && id !in w.tree(s.processes[pid].base).receipts
    ensures var p := s.processes[pid]; Wrote(p.stage) && p.request.id == id && s.holder == Some(pid)
  {
    hide AllSealed, FlipsOk, Journal, Flipped, Based, CleanBut, HeadFits, Mendable;
    InvProcess(w, s, pid);
    var p := s.processes[pid];
    if Mendable(w, s, p) || HeadFits(w, s, p) {
      FittingInBase(w, s, p, id);
    } else if Wrote(p.stage) {
      DirtyIsOwn(w, s, id, p.request.id);
    } else {
      CleanIsCommitted(w, s, id);
    }
  }

  lemma FittingInBase(w: World, s: State, p: Process, id: Id)
    requires p.path in s.slots && (Mendable(w, s, p) || HeadFits(w, s, p)) && id in s.receipts
    ensures id in w.tree(p.base).receipts
  {
    if HeadFits(w, s, p) { FittingMends(w, s, p); }
    assert id in ReceiptsOf(s);
  }

  /** The process that journals a receipt stops, or the machine loses power. */
  predicate Crash(s: State, a: Action, id: Id) {
    && Journaling(s) && s.processes[s.holder.value].request.id == id
    && (a == Stop(s.holder.value) || a.PowerLoss?)
  }

  /** An accepted request that a crash leaves with its receipt is stuck: no process then at work can flip it. */
  lemma CrashSticks(w: World, s: State, a: Action, path: Path)
    requires Lawful(w) && Inv(w, s) && Enabled(w, s, a) && AcceptedWithReceipt(w, Effect(w, s, a), path)
    requires Crash(s, a, w.parse(Effect(w, s, a).slots[path].bytes).value.id)
    ensures Stuck(w, Effect(w, s, a), path)
  {
    hide Core, CanFlip, BaseOk, CleanBut, CandidateOk, CasOk, LifecycleOk;
    var t := Effect(w, s, a);
    var id := w.parse(t.slots[path].bytes).value.id;
    StepKeeps(w, s, a);
    forall pid | pid in t.processes && t.processes[pid].path == path ensures !CanFlip(w, t, pid, true) {
      assert pid in s.processes && t.processes[pid] == s.processes[pid];
      NotInBase(w, s, s.processes[pid].base);
      if CanFlip(w, t, pid, true) { OnlyItsMaker(w, t, pid, id, true); }
    }
  }

  lemma NotInBase(w: World, s: State, base: CommitId)
    requires BaseOk(w, s, base) && Journaling(s)
    ensures s.processes[s.holder.value].request.id !in w.tree(base).receipts
  {
  }

  /** And so it stays, in every run, until somebody edits the request or a later power loss takes the receipt. */
  lemma CrashIsFinal(w: World, states: seq<State>, actions: seq<Action>, i: nat, k: nat, path: Path)
    requires Lawful(w) && Run(w, states, actions) && Init(w, states[0]) && i < k < |states|
    requires AcceptedWithReceipt(w, states[i + 1], path)
    requires Crash(states[i], actions[i], w.parse(states[i + 1].slots[path].bytes).value.id)
    requires Firm(w, states[i + 1], path) || forall n | i < n < k :: !actions[n].PowerLoss?
    requires forall n | i < n < k :: !(actions[n].Edit? && actions[n].path == path)
    ensures AcceptedWithReceipt(w, states[k], path)
    ensures states[k].slots[path].bytes == states[i + 1].slots[path].bytes
  {
    hide Enabled, Effect, CanFlip, AcceptedWithReceipt, Firm, Inv, Crash;
    Always(w, states, actions, i);
    CrashSticks(w, states[i], actions[i], path);
    StuckForever(w, states, actions, i + 1, k, path);
  }

  // ---------- reads before the lock ----------

  /** A committed request, committed receipts and root locks, and nobody at work. */
  function Quiet(path: Path, b: Bytes, receipts: map<Id, File>, locks: map<RootLock, Bytes>, head: CommitId): State {
    State(map[path := Slot(b, b)], receipts, locks, head, None, map[], [])
  }

  predicate Committed(w: World, s: State) { w.tree(s.head) == Worktree(s) }

  lemma QuietInv(w: World, s: State, path: Path, b: Bytes)
    requires s == Quiet(path, b, s.receipts, s.locks, s.head) && w.parse(b).Some? && w.parse(b).value.status == Accepted
    ensures Inv(w, s)
  {
  }

  /**
   A request edited between the second load and the digest: the process takes the digest of one request and
   applies another, and so leaves even an accepted request that has its receipt, if that was committed before.
   */
  lemma StaleParseEscapes(w: World, path: Path, first: Bytes, now: Bytes, f: File, locks: map<RootLock, Bytes>,
                          base: CommitId)
    returns (states: seq<State>, actions: seq<Action>)
    requires Lawful(w) && w.parse(first).Some? && w.parse(now).Some?
    requires var p, q := w.parse(first).value, w.parse(now).value;
             p.status == q.status == Accepted && p.id != q.id && p.locks != {} && w.schemaOk(path, p)
    requires Committed(w, Quiet(path, first, map[w.parse(now).value.id := f], locks, base))
    ensures Run(w, states, actions) && |states| == |actions| + 1 && |actions| > 3
    ensures states[0] == Quiet(path, first, map[w.parse(now).value.id := f], locks, base)
    ensures AcceptedWithReceipt(w, states[3], path) && states[3].slots[path] == Slot(now, first)
    ensures states[3].holder.None?
    ensures FlipsAt(states[|actions| - 1], actions[|actions| - 1], path)
  {
    hide Run, Inv, CanFlip, Lawful, Enabled, Effect, Committed, Durable;
    var p, q := w.parse(first).value, w.parse(now).value;
    var process := Process(path, first, p, w.sha(now), p.id.request, base, "", "", "", Parsed);
    var s := Edited(path, first, now, map[q.id := f], locks, base, process);
    states, actions := EditedRun(w, path, first, now, map[q.id := f], locks, base);
    EditedCanFlip(w, path, first, now, map[q.id := f], locks, base, process);
    states, actions := Finish(w, states, actions, s, 1, true);
    assert states[3] == s;
  }

  /** Loaded twice, and then edited. */
  lemma EditedRun(w: World, path: Path, first: Bytes, now: Bytes, receipts: map<Id, File>,
                  locks: map<RootLock, Bytes>, base: CommitId)
    returns (states: seq<State>, actions: seq<Action>)
    requires Lawful(w) && w.parse(first).Some? && w.parse(now).Some?
    requires var p, q := w.parse(first).value, w.parse(now).value;
             p.status == q.status == Accepted && w.schemaOk(path, p) && p.id !in receipts
    requires Committed(w, Quiet(path, first, receipts, locks, base))
    ensures var p := w.parse(first).value;
            var process := Process(path, first, p, w.sha(now), p.id.request, base, "", "", "", Parsed);
            var s := Edited(path, first, now, receipts, locks, base, process);
            Run(w, states, actions) && Ends(states, actions, s) && Inv(w, s)
    ensures |actions| == 3 && states[0] == Quiet(path, first, receipts, locks, base)
  {
    hide Run, Inv, CleanBut, CandidateOk, CasOk, SealOf;
    var p := w.parse(first).value;
    var s := Quiet(path, first, receipts, locks, base);
    assert ReceiptsOf(s).Keys == receipts.Keys;
    QuietInv(w, s, path, first);
    NoStep(w, s);
    states, actions, s := ThenInv(w, [s], [], s, Start(1, path, w.sha(now), p.id.request, base, ""));
    states, actions, s := ThenInv(w, states, actions, s, Parse(1));
    states, actions, s := ThenInv(w, states, actions, s, Edit(path, now));
  }

  /** The one process has loaded a request that was then edited. */
  function Edited(path: Path, first: Bytes, now: Bytes, receipts: map<Id, File>, locks: map<RootLock, Bytes>,
                  head: CommitId, p: Process): State
  {
    State(map[path := Slot(now, first)], receipts, locks, head, None, map[1 := p], [])
  }

  lemma EditedCanFlip(w: World, path: Path, first: Bytes, now: Bytes, receipts: map<Id, File>,
                      locks: map<RootLock, Bytes>, head: CommitId, p: Process)
    requires Committed(w, Quiet(path, first, receipts, locks, head)) && first != now
    requires p.path == path && p.base == head && p.stage == Parsed && p.request.locks != {}
    requires p.request.status == Accepted && p.request.id !in receipts
    requires p.expected == w.sha(now) && p.confirm == p.request.id.request
    ensures CanFlip(w, Edited(path, first, now, receipts, locks, head, p), 1, true)
  {
    hide HeadFits;
    var s := Edited(path, first, now, receipts, locks, head, p);
    assert ReceiptsOf(s) == ReceiptsOf(Quiet(path, first, receipts, locks, head));
    assert RequestsOf(Quiet(path, first, receipts, locks, head)) == map[path := first];
  }

  lemma ThenInv(w: World, states: seq<State>, actions: seq<Action>, s: State, a: Action)
    returns (states': seq<State>, actions': seq<Action>, t: State)
    requires Run(w, states, actions) && Ends(states, actions, s) && Enabled(w, s, a) && Lawful(w) && Inv(w, s)
    ensures Run(w, states', actions') && Ends(states', actions', t) && t == Effect(w, s, a) && Inv(w, t)
    ensures states' == states + [t] && actions' == actions + [a]
  {
    hide Run, Inv, Enabled, Effect, Ends;
    states', actions', t := Then(w, states, actions, s, a);
    StepKeeps(w, s, a);
  }

  /**
   A request edited between the two loads: the first is checked against the schema, the second is applied, so
   what a flip writes need not be a request that belongs at the path.
   */
  lemma UncheckedLoadIsApplied(w: World, path: Path, first: Bytes, now: Bytes, locks: map<RootLock, Bytes>,
                               base: CommitId)
    returns (states: seq<State>, actions: seq<Action>)
    requires Lawful(w) && w.parse(first).Some? && w.parse(now).Some?
    requires var p, q := w.parse(first).value, w.parse(now).value;
             p.status == q.status == Accepted && q.locks != {} && w.schemaOk(path, p) && !w.schemaOk(path, q)
    requires Committed(w, Quiet(path, first, map[], locks, base))
    ensures Run(w, states, actions) && |states| == |actions| + 1 && |actions| > 3
    ensures states[0] == Quiet(path, first, map[], locks, base)
    ensures var last := states[|actions| - 1];
            && FlipsAt(last, actions[|actions| - 1], path)
            && last.processes[actions[|actions| - 1].pid].request == w.parse(now).value
  {
    hide Run, Inv, CleanBut, CandidateOk, CasOk, SealOf, HeadFits, CanFlip;
    var q := w.parse(now).value;
    var s := Quiet(path, first, map[], locks, base);
    QuietInv(w, s, path, first);
    NoStep(w, s);
    states, actions, s := ThenInv(w, [s], [], s, Start(1, path, w.sha(now), q.id.request, base, ""));
    states, actions, s := ThenInv(w, states, actions, s, Edit(path, now));
    states, actions, s := ThenInv(w, states, actions, s, Parse(1));
    var process := Process(path, now, q, w.sha(now), q.id.request, base, "", "", "", Parsed);
    assert s == Edited(path, first, now, map[], locks, base, process);
    EditedCanFlip(w, path, first, now, map[], locks, base, process);
    states, actions := Finish(w, states, actions, s, 1, true);
  }
}

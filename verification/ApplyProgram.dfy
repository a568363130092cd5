/** apply_request of dependency_locks.py, run by one process. */
module ApplyProgram {
  import opened Wrappers
  import opened DependencyApply
  import opened ApplyLaws

  /** The repository as one apply process finds it, with the run that led there. */
  class Repository {
    const w: World
    var state: State
    ghost var states: seq<State>
    ghost var actions: seq<Action>

    ghost predicate Valid()
      reads this
    {
      Run(w, states, actions) && states[|states| - 1] == state
    }

    constructor (w: World, state: State)
      ensures this.w == w && this.state == state && Valid() && actions == []
    {
      this.w, this.state := w, state;
      states, actions := [state], [];
    }

    method Do(a: Action)
      requires Valid() && Enabled(w, state, a)
      modifies this
      ensures Valid() && state == Effect(w, old(state), a)
      ensures states == old(states) + [state] && actions == old(actions) + [a]
    {
      state := Effect(w, state, a);
      states := states + [state];
      actions := actions + [a];
      forall i | 0 <= i < |actions|
        ensures Enabled(w, states[i], actions[i]) && states[i + 1] == Effect(w, states[i], actions[i])
      {
        if i < |old(actions)| {
          assert states[i] == old(states)[i] && states[i + 1] == old(states)[i + 1] && actions[i] == old(actions)[i];
        }
      }
    }

    /** Whether the guards on the request, its receipt and HEAD let an apply that nobody disturbs through. */
    ghost predicate CanApply(path: Path, expected: Digest, confirm: string, base: CommitId)
      reads this
      requires path in state.slots
    {
      var slot := state.slots[path];
      && w.parse(slot.bytes).Some?
      && var q := w.parse(slot.bytes).value;
      && w.schemaOk(path, q) && q.status == Accepted && q.id !in state.receipts
      && expected == w.sha(slot.bytes) && confirm == q.id.request
      && Candidate(w, state, base, path, q.locks)
    }

    /** A base with receipts that are not on disk is not the parent of a clean HEAD that adds none. */
    lemma BaseNotOk(path: Path, base: CommitId, declared: set<RootLock>)
      requires state.holder.None? && !BaseOk(w, state, base)
      ensures !HeadIsCandidate(w, state, base, path, declared)
    {
      CleanIsTree(w, state);
      assert ReceiptsOf(state).Keys == state.receipts.Keys;
    }

    /** Both loads of the request; `BaseOk` is what is assumed of the base, and no check of the program. */
    method Load(pid: Pid, path: Path, expected: Digest, confirm: string, base: CommitId, detail: string)
      returns (ok: bool)
      requires Valid() && pid !in state.processes && state.holder.None? && path in state.slots && BaseOk(w, state, base)
      modifies this
      ensures Valid() && old(states) <= states
      ensures var s, b := old(state), old(state).slots[path].bytes;
              var q := w.parse(b);
              && ok == (q.Some? && w.schemaOk(path, q.value) && LifecycleOk(w, s.receipts, q.value))
              && state == if ok then s.(processes := s.processes[pid :=
                                          Process(path, b, q.value, expected, confirm, base, detail, "", "", Parsed)])
                          else s
    {
      hide Run, BaseOk, LifecycleOk, CandidateOk, CleanBut, CasOk, SealOf;
      ghost var s := state;
      var start := Start(pid, path, expected, confirm, base, detail);
      if !Enabled(w, state, start) { return false; }
      Do(start);
      if !Enabled(w, state, Parse(pid)) {
        Do(Stop(pid));
        assert state.processes == s.processes;
        return false;
      }
      Do(Parse(pid));
      return true;
    }

    /**
     Loads and digests the request, takes the lock and checks the candidate; `others` tells whether HEAD is on
     the main branch and the validations pass.
     */
    method Enter(pid: Pid, path: Path, expected: Digest, confirm: string, base: CommitId, detail: string, others: bool)
      returns (ok: bool)
      requires Valid() && pid !in state.processes && state.holder.None? && path in state.slots
      modifies this
      ensures Valid() && old(states) <= states && ok == (old(CanApply(path, expected, confirm, base)) && others)
      ensures state.slots == old(state.slots) && state.receipts == old(state.receipts)
      ensures state.locks == old(state.locks) && state.head == old(state.head) && state.flips == old(state.flips)
      ensures !ok ==> state == old(state)
      ensures ok ==>
                state.holder == Some(pid) && pid in state.processes && state.processes - {pid} == old(state.processes)
      ensures ok ==> var b := state.slots[path].bytes;
                     state.processes[pid] == Process(path, b, w.parse(b).value, expected, confirm, base, detail,
                                                     w.sha(b), state.head, Checked)
    {
      hide Run, HeadIsCandidate, CandidateOk, CleanBut, CasOk, BaseOk;
      hide Candidate;
      ghost var before := state;
      if w.parse(state.slots[path].bytes).Some? {
        CandidateIff(w, state, base, path, w.parse(state.slots[path].bytes).value.locks);
      }
      if !BaseOk(w, state, base) {
        if w.parse(state.slots[path].bytes).Some? {
          BaseNotOk(path, base, w.parse(state.slots[path].bytes).value.locks);
        }
        return false;
      }
      ok := Load(pid, path, expected, confirm, base, detail);
      if ok {
        assert state.processes - {pid} == before.processes;
        FitsAlike(before, state, base, path, state.processes[pid].request.locks);
        CandidateIff(w, state, base, path, state.processes[pid].request.locks);
        ok := Admit(pid, others);
      }
    }

    lemma FitsAlike(s: State, t: State, base: CommitId, path: Path, declared: set<RootLock>)
      requires SameFiles(s, t)
      ensures HeadIsCandidate(w, t, base, path, declared) == HeadIsCandidate(w, s, base, path, declared)
    {
      hide CleanBut, ChangesOk;
      CleanStays(w, s, t, {});
    }

    /** What the checks under the lock ask of HEAD is that it is a candidate with the digested request. */
    lemma CheckAsks(s: State, p: Process)
      requires p.path in s.slots && p.digest == w.sha(s.slots[p.path].bytes)
      ensures CleanBut(w, s, {}) && CandidateOk(w, s.head, p)
              <==> HeadIsCandidate(w, s, p.base, p.path, p.request.locks)
      ensures CleanBut(w, s, {}) ==> HoldsDigest(w, s.head, p)
    {
      hide ChangesOk;
      assert RequestsOf(s).Keys == s.slots.Keys && RequestsOf(s)[p.path] == s.slots[p.path].bytes;
    }

    /** Takes the digest, compares the arguments and takes the lock. */
    method Claim(pid: Pid) returns (ok: bool)
      requires Valid() && state.holder.None? && At(state, pid, Parsed)
      modifies this
      ensures Valid() && old(states) <= states
      ensures var s, p := old(state), old(state).processes[pid];
              var q := p.(digest := w.sha(s.slots[p.path].bytes), stage := Locked);
              && ok == (p.expected == q.digest && p.confirm == p.request.id.request)
              && state == if ok then s.(holder := Some(pid), processes := s.processes[pid := q]) else s
    {
      hide Run, LifecycleOk, SealOf, AppliedBytes, PowerLossLeaves, CandidateOk, CleanBut, CasOk, BaseOk;
      ghost var s := state;
      ghost var p := state.processes[pid];
      ok := Enabled(w, state, TakeDigest(pid));
      if ok {
        Do(TakeDigest(pid));
        Do(Lock(pid));
        ghost var q := p.(digest := w.sha(s.slots[p.path].bytes), stage := Locked);
        assert state.processes == s.processes[pid := q];
      }
    }

    /** From the digest to the checks under the lock. */
    method Admit(pid: Pid, others: bool) returns (ok: bool)
      requires Valid() && state.holder.None? && At(state, pid, Parsed)
      modifies this
      ensures Valid() && old(states) <= states
      ensures var s, p := old(state), old(state).processes[pid];
              var q := p.(digest := w.sha(s.slots[p.path].bytes));
              && ok == (p.expected == q.digest && p.confirm == p.request.id.request && p.request.status == Accepted
                        && Candidate(w, s, p.base, p.path, p.request.locks) && p.request.id !in s.receipts
                        && others)
              && state == if ok then s.(holder := Some(pid),
                                        processes := s.processes[pid := q.(candidate := s.head, stage := Checked)])
                          else s.(processes := s.processes - {pid})
    {
      hide Run, LifecycleOk, SealOf, AppliedBytes, PowerLossLeaves;
      hide HeadIsCandidate, CandidateOk, CleanBut, CasOk, BaseOk, Candidate;
      ghost var s := state;
      ghost var p := state.processes[pid];
      ok := Claim(pid);
      if ok {
        CandidateIff(w, s, p.base, p.path, p.request.locks);
        CheckAsks(state, state.processes[pid]);
        FitsAlike(s, state, p.base, p.path, p.request.locks);
        ok := Enabled(w, state, Check(pid)) && others;
        if ok {
          Do(Check(pid));
          ghost var q := p.(digest := w.sha(s.slots[p.path].bytes), candidate := s.head, stage := Checked);
          assert state.processes == s.processes[pid := q];
          return;
        }
      }
      Do(Stop(pid));
      assert state.processes == s.processes - {pid};
    }

    /** Creates the receipt and makes it durable. */
    method WriteExclusive(pid: Pid)
      requires Valid() && At(state, pid, Ready) && state.processes[pid].request.id !in state.receipts
      modifies this
      ensures Valid() && old(states) <= states
      ensures state == Advance(WithReceipt(old(state), old(state).processes[pid].request.id,
                                           File(SealOf(w, old(state).processes[pid]), true, true)), pid, Journaled)
    {
      hide Run;
      ghost var s := state;
      ghost var p := state.processes[pid];
      var whole := SealOf(w, state.processes[pid]);
      assert whole[..|whole|] == whole;
      Do(Create(pid));
      Do(Write(pid, |whole|));
      Do(SyncContent(pid));
      Do(SyncEntry(pid));
      assert state.receipts == s.receipts[p.request.id := File(whole, true, true)];
      assert state.processes == s.processes[pid := p.(stage := Journaled)];
    }

    /** The two comparisons around the journal of the receipt. */
    method Seal(pid: Pid)
      requires Valid() && At(state, pid, Checked) && state.processes[pid].request.id !in state.receipts
      requires CasOk(w, state, state.processes[pid], {})
      requires state.processes[pid].request.id !in w.tree(state.head).receipts
      modifies this
      ensures Valid() && old(states) <= states
      ensures state == Advance(WithReceipt(old(state), old(state).processes[pid].request.id,
                                           File(SealOf(w, old(state).processes[pid]), true, true)), pid, Rechecked)
    {
      hide Run, CandidateOk, CleanBut, BaseOk, LifecycleOk;
      ghost var s := state;
      ghost var id := state.processes[pid].request.id;
      Do(FirstCas(pid));
      CleanStays(w, s, state, {});
      ghost var before := state;
      WriteExclusive(pid);
      DirtyPut(w, before, state, id, state.receipts[id]);
      Do(SecondCas(pid));
    }

    /** Flips the request and makes that durable. */
    method AtomicReplace(pid: Pid)
      requires Valid() && At(state, pid, Rechecked)
      modifies this
      ensures Valid() && old(states) <= states
      ensures var s, p := old(state), old(state).processes[pid];
              var applied := AppliedBytes(w, p.request);
              state == Advance(s, pid, Finished).(
                slots := s.slots[p.path := Slot(applied, applied)],
                flips := s.flips + [(pid, p.request.id)])
    {
      hide Run;
      ghost var s := state;
      ghost var p := state.processes[pid];
      Do(Replace(pid));
      Do(SyncRequest(pid));
      ghost var applied := AppliedBytes(w, p.request);
      assert state.slots == s.slots[p.path := Slot(applied, applied)];
      assert state.processes == s.processes[pid := p.(stage := Finished)];
    }

    lemma JournalDirty(s: State, t: State, id: Id, declared: set<RootLock>, base: CommitId, path: Path)
      requires HeadIsCandidate(w, s, base, path, declared) && SameFiles(s, t) && id !in s.receipts
      ensures id !in w.tree(t.head).receipts && CleanBut(w, t, {})
    {
      CleanIsTree(w, s);
      CleanStays(w, s, t, {});
      assert ReceiptsOf(s).Keys == s.receipts.Keys;
    }

    /**
     apply_request, undisturbed: it goes through exactly when its guards pass, and then leaves both writes
     durable.
     */
    method ApplyRequest(pid: Pid, path: Path, expected: Digest, confirm: string, base: CommitId, detail: string,
                        others: bool)
      returns (ok: bool)
      requires Valid() && pid !in state.processes && state.holder.None? && path in state.slots
      modifies this
      ensures Valid() && old(states) <= states && ok == (old(CanApply(path, expected, confirm, base)) && others)
      ensures !ok ==> state == old(state)
      ensures ok ==> var slot := old(state).slots[path]; var q := w.parse(slot.bytes).value;
                     var applied := AppliedBytes(w, q);
                     && state.slots == old(state).slots[path := Slot(applied, applied)]
                     && state.receipts == old(state).receipts[q.id :=
                          File(w.seal(Receipt(q.id, w.sha(slot.bytes), w.sha(applied), detail)), true, true)]
                     && state.locks == old(state).locks && state.head == old(state).head
                     && state.holder.None? && state.processes == old(state).processes
    {
      hide Run, HeadIsCandidate, CandidateOk, CleanBut, BaseOk, Candidate;
      ghost var s := state;
      ok := Enter(pid, path, expected, confirm, base, detail, others);
      if !ok { return; }
      ghost var p := state.processes[pid];
      CandidateIff(w, s, base, path, p.request.locks);
      FitsAlike(s, state, base, path, p.request.locks);
      CheckAsks(state, p);
      JournalDirty(s, state, p.request.id, p.request.locks, base, path);
      Seal(pid);
      AtomicReplace(pid);
      Do(Stop(pid));
      assert state.processes == old(state).processes;
    }
  }
}

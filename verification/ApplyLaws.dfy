/** What the checks of an apply ask for, file by file, and what holds at every flip. */
module ApplyLaws {
  import opened Wrappers
  import opened DependencyApply

  /** A file is in both trees with the same contents, or in none. */
  ghost predicate Same<K, V>(a: map<K, V>, b: map<K, V>, k: K) {
    (k in a <==> k in b) && (k in a && k in b ==> a[k] == b[k])
  }

  /**
   From the base to the candidate: no receipt and no other request differs, the request is there and differs,
   at least one root lock differs, each one that does is declared, and none is deleted.
   */
  ghost predicate ChangesAsDeclared(base: Tree, candidate: Tree, path: Path, declared: set<RootLock>) {
    && (forall id :: Same(base.receipts, candidate.receipts, id))
    && (forall x | x != path :: Same(base.requests, candidate.requests, x))
    && path in candidate.requests && !Same(base.requests, candidate.requests, path)
    && (exists l :: !Same(base.locks, candidate.locks, l))
    && (forall l | !Same(base.locks, candidate.locks, l) :: l in declared && l in candidate.locks)
  }

  lemma ChangesIff(base: Tree, candidate: Tree, path: Path, declared: set<RootLock>)
    ensures ChangesOk(base, candidate, path, declared) <==> ChangesAsDeclared(base, candidate, path, declared)
  {
    if ChangesOk(base, candidate, path, declared) {
      ChangesMean(base, candidate, path, declared);
    }
    if ChangesAsDeclared(base, candidate, path, declared) {
      ChangesSuffice(base, candidate, path, declared);
    }
  }

  lemma ChangesMean(base: Tree, candidate: Tree, path: Path, declared: set<RootLock>)
    requires ChangesOk(base, candidate, path, declared)
    ensures ChangesAsDeclared(base, candidate, path, declared)
  {
    forall x | x != path ensures Same(base.requests, candidate.requests, x) {
      assert x in base.requests <==> x in base.requests - {path};
      assert x in candidate.requests <==> x in candidate.requests - {path};
      if x in base.requests { assert (base.requests - {path})[x] == (candidate.requests - {path})[x]; }
    }
    var l :| l in ChangedLocks(base, candidate);
    assert !Same(base.locks, candidate.locks, l);
    forall k | !Same(base.locks, candidate.locks, k) ensures k in declared && k in candidate.locks {
      assert k in ChangedLocks(base, candidate);
    }
  }

  lemma ChangesSuffice(base: Tree, candidate: Tree, path: Path, declared: set<RootLock>)
    requires ChangesAsDeclared(base, candidate, path, declared)
    ensures ChangesOk(base, candidate, path, declared)
  {
    SameMap(base.receipts, candidate.receipts);
    var a, b := base.requests - {path}, candidate.requests - {path};
    forall x ensures Same(a, b, x) {
      if x != path { assert Same(base.requests, candidate.requests, x); }
    }
    SameMap(a, b);
    forall l | l in base.locks ensures l in candidate.locks {
      assert Same(base.locks, candidate.locks, l) || l in candidate.locks;
    }
    var l :| !Same(base.locks, candidate.locks, l);
    assert l in ChangedLocks(base, candidate);
    forall k | k in ChangedLocks(base, candidate) ensures k in declared {
      assert !Same(base.locks, candidate.locks, k);
    }
  }

  lemma SameMap<K, V>(a: map<K, V>, b: map<K, V>)
    requires forall k :: Same(a, b, k)
    ensures a == b
  {
    forall k ensures k in a <==> k in b { assert Same(a, b, k); }
    forall k | k in a ensures a[k] == b[k] { assert Same(a, b, k); }
  }

  /** The worktree has what HEAD has of requests and root locks, and of all receipts but these. */
  ghost predicate CleanApartFrom(w: World, s: State, ids: set<Id>) {
    var committed := w.tree(s.head);
    && (forall x :: Same(RequestsOf(s), committed.requests, x)) && (forall l :: Same(s.locks, committed.locks, l))
    && (forall id :: Same(ReceiptsOf(s), committed.receipts, id) <==> id !in ids)
  }

  lemma CleanIff(w: World, s: State, ids: set<Id>)
    ensures CleanBut(w, s, ids) <==> CleanApartFrom(w, s, ids)
  {
    var committed := w.tree(s.head);
    assert ReceiptsOf(s).Keys == s.receipts.Keys;
    forall id ensures id in DirtyReceipts(w, s) <==> !Same(ReceiptsOf(s), committed.receipts, id) {
    }
    if CleanApartFrom(w, s, ids) {
      SameMap(RequestsOf(s), committed.requests);
      SameMap(s.locks, committed.locks);
      assert forall id :: id in DirtyReceipts(w, s) <==> id in ids;
    }
  }

  /** The clean HEAD is a child of the base that changes what it may. */
  ghost predicate Candidate(w: World, s: State, base: CommitId, path: Path, declared: set<RootLock>) {
    && CleanApartFrom(w, s, {}) && w.parent(s.head) == Some(base)
    && ChangesAsDeclared(w.tree(base), w.tree(s.head), path, declared)
  }

  lemma CandidateIff(w: World, s: State, base: CommitId, path: Path, declared: set<RootLock>)
    ensures HeadIsCandidate(w, s, base, path, declared) <==> Candidate(w, s, base, path, declared)
  {
    hide CleanBut, ChangesOk, CleanApartFrom, ChangesAsDeclared;
    CleanIff(w, s, {});
    ChangesIff(w.tree(base), w.tree(s.head), path, declared);
  }

  /**
   What a flip rests on: the process was asked to flip the bytes that are there and the request that it writes,
   which is accepted; HEAD is the base's child and changes what it may; the worktree is HEAD's but for the
   process's receipt, which is complete, durable and names the bytes before and after.
   */
  ghost predicate Audited(w: World, s: State, p: Process) {
    && p.path in s.slots && p.request.id in s.receipts
    && var now := s.slots[p.path].bytes;
    && p.expected == w.sha(now) && p.confirm == p.request.id.request && p.request.status == Accepted
    && w.parent(s.head) == Some(p.base)
    && ChangesAsDeclared(w.tree(p.base), w.tree(s.head), p.path, p.request.locks)
    && CleanApartFrom(w, s, {p.request.id}) && p.request.id !in w.tree(s.head).receipts
    && var applied := w.render(p.request.(status := Applied));
       s.receipts[p.request.id] == File(w.seal(Receipt(p.request.id, w.sha(now), w.sha(applied), p.detail)), true, true)
  }

  /** So it is at every flip of every run. */
  lemma FlipsAreAudited(w: World, states: seq<State>, actions: seq<Action>, k: nat)
    requires Lawful(w) && Run(w, states, actions) && Init(w, states[0]) && k < |actions| && actions[k].Replace?
    ensures actions[k].pid in states[k].processes && Audited(w, states[k], states[k].processes[actions[k].pid])
  {
    hide Enabled, Effect;
    Always(w, states, actions, k);
    FlipEnabled(w, states, actions, k);
    HolderAudited(w, states[k], actions[k].pid);
  }

  lemma FlipEnabled(w: World, states: seq<State>, actions: seq<Action>, k: nat)
    requires Run(w, states, actions) && k < |actions| && actions[k].Replace?
    ensures actions[k].pid in states[k].processes && Enabled(w, states[k], Replace(actions[k].pid))
  {
  }

  lemma HolderAudited(w: World, s: State, pid: Pid)
    requires Inv(w, s) && Enabled(w, s, Replace(pid))
    ensures Audited(w, s, s.processes[pid])
  {
    hide AllSealed, FlipsOk, Flipped, Based, CleanBut, ChangesOk, CleanApartFrom, ChangesAsDeclared;
    var p := s.processes[pid];
    assert ProcessOk(w, s, pid);
    CleanIff(w, s, {p.request.id});
    ChangesIff(w.tree(p.base), w.tree(s.head), p.path, p.request.locks);
    CommittedRequest(w, s, p.path);
  }

  lemma CommittedRequest(w: World, s: State, path: Path)
    requires path in s.slots && exists ids :: CleanBut(w, s, ids)
    ensures path in w.tree(s.head).requests && w.tree(s.head).requests[path] == s.slots[path].bytes
  {
    assert path in RequestsOf(s);
  }

  /** A receipt is missing under an applied request, or is there under another one of the lifecycle. */
  lemma LifecycleFails(w: World, receipts: map<Id, File>, q: Request)
    ensures !LifecycleOk(w, receipts, q) <==>
            && w.named(q.id)
            && (|| (q.status == Applied && q.id !in receipts)
                || (q.status in {Proposed, Accepted, Rejected} && q.id in receipts))
  {
  }

  /** What is compared before the journal and after it: HEAD, the worktree, and the request in both. */
  lemma CasIff(w: World, s: State, p: Process, ids: set<Id>)
    requires p.path in s.slots
    ensures CasOk(w, s, p, ids) <==>
            && p.candidate == s.head && CleanApartFrom(w, s, ids)
            && p.digest == w.sha(s.slots[p.path].bytes)
            && exists committed ::
                 p.path in w.tree(p.candidate).requests && w.tree(p.candidate).requests[p.path] == committed
                 && p.digest == w.sha(committed)
  {
    hide CleanBut, CleanApartFrom;
    CleanIff(w, s, ids);
  }

  /** The three steps that check under the lock, by the files that they read. */
  lemma GuardsIff(w: World, s: State, pid: Pid)
    requires pid in s.processes && s.processes[pid].path in s.slots
    ensures var p := s.processes[pid]; var id := p.request.id;
            && (Enabled(w, s, Check(pid)) <==>
                  p.stage == Locked && p.request.status == Accepted && CandidateOk(w, s.head, p)
                  && CleanApartFrom(w, s, {}) && id !in s.receipts)
            && (Enabled(w, s, FirstCas(pid)) <==> p.stage == Checked && CasOk(w, s, p, {}) && id !in s.receipts)
            && (Enabled(w, s, SecondCas(pid)) <==>
                  p.stage == Journaled && CasOk(w, s, p, {id}) && id in s.receipts
                  && w.sha(s.receipts[id].bytes) == w.sha(SealOf(w, p)))
  {
    hide CleanBut, CleanApartFrom, CandidateOk, CasOk;
    CleanIff(w, s, {});
  }
}

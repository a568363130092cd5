/** The serialized apply of dependency_locks.py, as a state machine over its steps. */
module DependencyApply {
  import opened Wrappers

  type Pid = int
  type Path = string
  type Bytes = string
  type Digest = string

  /** Packet and request id, which name the receipt's file. */
  datatype Id = Id(packet: string, request: string)

  /** LOCK_PATHS */
  datatype RootLock = ToolVersions | GoMod | GoSum | Mise | PackageJson | PnpmLock | ToolManifest | WebPackageJson

  datatype Status = Proposed | Accepted | Rejected | Applied | Unlisted
  datatype Request = Request(id: Id, status: Status, locks: set<RootLock>, body: string)
  datatype Receipt = Receipt(id: Id, accepted: Digest, applied: Digest, detail: string)

  type CommitId = string

  /** What a commit or the worktree holds of requests, receipts and root locks. */
  datatype Tree = Tree(requests: map<Path, Bytes>, receipts: map<Id, Bytes>, locks: map<RootLock, Bytes>)

  /**
   json.loads, the schema checks of a request at a path, the patterns of packet and request ids,
   `_canonical_bytes` of a request and of a receipt, SHA-256, and git: the tree and the only parent that a
   commit has for ever, and the commit of a tree on another one.
   */
  datatype World = World(
    parse: Bytes -> Option<Request>, schemaOk: (Path, Request) -> bool, named: Id -> bool,
    render: Request -> Bytes, seal: Receipt -> Bytes, sha: Bytes -> Digest,
    tree: CommitId -> Tree, parent: CommitId -> Option<CommitId>, commitOf: (CommitId, Tree) -> CommitId)

  /** What is rendered parses back, and any tree can be committed on any commit. */
  ghost predicate Lawful(w: World) {
    && (forall q :: w.parse(w.render(q)) == Some(q))
    && forall c, t :: w.parent(w.commitOf(c, t)) == Some(c) && w.tree(w.commitOf(c, t)) == t
  }

  /** A request file: what processes see, and what survives a power loss. */
  datatype Slot = Slot(bytes: Bytes, durable: Bytes)

  /** A receipt file, and whether its contents and its directory entry were synced. */
  datatype File = File(bytes: Bytes, contentSynced: bool, entrySynced: bool)

  datatype Stage =
    | Loading | Parsed | Digested | Locked | Checked | Ready
    | Writing | ContentSynced | Journaled | Rechecked | Replaced | Finished

  /**
   An apply process: its arguments, the request it loaded last, the digest it took afterwards, and the commit
   that it checked.
   */
  datatype Process = Process(
    path: Path, parsed: Bytes, request: Request, expected: Digest, confirm: string, base: CommitId,
    detail: string, digest: Digest, candidate: CommitId, stage: Stage)

  datatype State = State(
    slots: map<Path, Slot>, receipts: map<Id, File>, locks: map<RootLock, Bytes>, head: CommitId,
    holder: Option<Pid>, processes: map<Pid, Process>, flips: seq<(Pid, Id)>)

  /**
   Cooperating processes load the request twice, check the first copy and keep the second, and digest the
   file, all before they take the lock; then they check the candidate commit, journal a receipt and flip the
   request to applied. They may stop at any step, the machine may lose power, and while no lock is held people
   edit requests and root locks and move HEAD to any commit.
   */
  datatype Action =
    | Start(pid: Pid, path: Path, expected: Digest, confirm: string, base: CommitId, detail: string)
    | Parse(pid: Pid)
    | TakeDigest(pid: Pid)
    | Lock(pid: Pid)
    | Check(pid: Pid)
    | FirstCas(pid: Pid)
    | Create(pid: Pid)
    | Write(pid: Pid, length: nat)
    | SyncContent(pid: Pid)
    | SyncEntry(pid: Pid)
    | SecondCas(pid: Pid)
    | Replace(pid: Pid)
    | SyncRequest(pid: Pid)
    | Stop(pid: Pid)
    | PowerLoss(slots: map<Path, Slot>, receipts: map<Id, File>, locks: map<RootLock, Bytes>, head: CommitId)
    | Edit(path: Path, bytes: Bytes)
    | EditLocks(locks: map<RootLock, Bytes>)
    | Flush(path: Path)
    | MoveHead(commit: CommitId)

  // ---------- requests and receipts ----------

  function AppliedRequest(q: Request): Request { q.(status := Applied) }

  function AppliedBytes(w: World, q: Request): Bytes { w.render(AppliedRequest(q)) }

  function ReceiptOf(w: World, p: Process): Receipt {
    Receipt(p.request.id, p.digest, w.sha(AppliedBytes(w, p.request)), p.detail)
  }

  function SealOf(w: World, p: Process): Bytes { w.seal(ReceiptOf(w, p)) }

  /**
   _request_lifecycle_errors: an applied request needs its receipt (whose contents are checked too, but an
   applied request goes no further than `Check`), the others of the lifecycle must have none.
   */
  predicate LifecycleOk(w: World, receipts: map<Id, File>, q: Request) {
    w.named(q.id) && q.status != Unlisted ==> (q.status == Applied <==> q.id in receipts)
  }

  /** A complete, synced receipt that binds the request bytes. */
  ghost predicate Sealed(w: World, receipts: map<Id, File>, b: Bytes, id: Id) {
    id in receipts && exists r :: SealedBy(w, receipts[id], b, id, r)
  }

  ghost predicate SealedBy(w: World, f: File, b: Bytes, id: Id, r: Receipt) {
    f == File(w.seal(r), true, true) && r.id == id && r.applied == w.sha(b)
  }

  // ---------- the worktree and the commits ----------

  function RequestsOf(s: State): map<Path, Bytes> { map path | path in s.slots :: s.slots[path].bytes }

  function ReceiptsOf(s: State): map<Id, Bytes> { map id | id in s.receipts :: s.receipts[id].bytes }

  function Worktree(s: State): Tree { Tree(RequestsOf(s), ReceiptsOf(s), s.locks) }

  /** The receipts that `git status` lists: changed, missing or not committed. */
  function DirtyReceipts(w: World, s: State): set<Id> {
    var committed := w.tree(s.head).receipts;
    set id | id in s.receipts.Keys + committed.Keys &&
             !(id in s.receipts && id in committed && s.receipts[id].bytes == committed[id])
  }

  /** The worktree is as HEAD has it, but for exactly these receipts. */
  predicate CleanBut(w: World, s: State, ids: set<Id>) {
    var committed := w.tree(s.head);
    RequestsOf(s) == committed.requests && s.locks == committed.locks && DirtyReceipts(w, s) == ids
  }

  function ChangedLocks(base: Tree, candidate: Tree): set<RootLock> {
    set l | l in candidate.locks && !(l in base.locks && base.locks[l] == candidate.locks[l])
  }

  /** From the base the candidate adds or changes the request and declared root locks, and nothing else. */
  predicate ChangesOk(base: Tree, candidate: Tree, path: Path, declared: set<RootLock>) {
    && base.receipts == candidate.receipts && base.requests - {path} == candidate.requests - {path}
    && path in candidate.requests && (path in base.requests ==> base.requests[path] != candidate.requests[path])
    && base.locks.Keys <= candidate.locks.Keys
    && ChangedLocks(base, candidate) != {} && ChangedLocks(base, candidate) <= declared
  }

  predicate HoldsDigest(w: World, commit: CommitId, p: Process) {
    p.path in w.tree(commit).requests && w.sha(w.tree(commit).requests[p.path]) == p.digest
  }

  /** The commit is the base's child and changes what the request may change. */
  predicate CandidateOk(w: World, commit: CommitId, p: Process) {
    && HoldsDigest(w, commit, p) && w.parent(commit) == Some(p.base)
    && ChangesOk(w.tree(p.base), w.tree(commit), p.path, p.request.locks)
  }

  /** HEAD is a candidate on the base, and the worktree is as it has it. */
  predicate HeadIsCandidate(w: World, s: State, base: CommitId, path: Path, declared: set<RootLock>) {
    CleanBut(w, s, {}) && w.parent(s.head) == Some(base) && ChangesOk(w.tree(base), w.tree(s.head), path, declared)
  }

  /** _final_apply_cas, but for the receipt. */
  predicate CasOk(w: World, s: State, p: Process, ids: set<Id>)
    requires p.path in s.slots
  {
    && s.head == p.candidate && CleanBut(w, s, ids)
    && w.sha(s.slots[p.path].bytes) == p.digest && HoldsDigest(w, p.candidate, p)
  }

  /** The holder of the lock writes a receipt, or has written it and not yet flipped the request. */
  predicate Journaling(s: State) {
    s.holder.Some? && s.holder.value in s.processes && Wrote(s.processes[s.holder.value].stage)
  }

  /** Commits are made while no lock is held, of receipts that are on disk. */
  predicate BaseOk(w: World, s: State, base: CommitId) {
    && w.tree(base).receipts.Keys <= s.receipts.Keys
    && (Journaling(s) ==> s.processes[s.holder.value].request.id !in w.tree(base).receipts)
  }

  // ---------- the steps ----------

  function Advance(s: State, pid: Pid, stage: Stage): State
    requires pid in s.processes
  {
    s.(processes := s.processes[pid := s.processes[pid].(stage := stage)])
  }

  predicate At(s: State, pid: Pid, stage: Stage) {
    pid in s.processes && s.processes[pid].stage == stage && s.processes[pid].path in s.slots
  }

  predicate Survivor(s: State, path: Path, slot: Slot)
    requires path in s.slots
  {
    var before := s.slots[path];
    && (slot.bytes == before.bytes || slot.bytes == before.durable)
    && slot.durable == slot.bytes
  }

  /** Synced receipts stay; the others may be gone or hold anything. */
  predicate PowerLossLeaves(s: State, slots: map<Path, Slot>, receipts: map<Id, File>) {
    && slots.Keys == s.slots.Keys && (forall path | path in slots :: Survivor(s, path, slots[path]))
    && receipts.Keys <= s.receipts.Keys
    && (forall id | id in receipts :: receipts[id].contentSynced && receipts[id].entrySynced)
    && forall id | id in s.receipts && s.receipts[id].contentSynced && s.receipts[id].entrySynced ::
         id in receipts && receipts[id] == s.receipts[id]
  }

  /** Nobody but an apply process writes the status applied. */
  predicate ByHand(w: World, bytes: Bytes) { w.parse(bytes).Some? ==> w.parse(bytes).value.status != Applied }

  predicate Enabled(w: World, s: State, a: Action) {
    match a
    case Start(pid, path, _, _, base, _) =>
      && pid !in s.processes && path in s.slots && BaseOk(w, s, base)
      && w.parse(s.slots[path].bytes).Some? && w.schemaOk(path, w.parse(s.slots[path].bytes).value)
    case Parse(pid) =>
      && At(s, pid, Loading)
      && var b := s.slots[s.processes[pid].path].bytes;
      w.parse(b).Some? && LifecycleOk(w, s.receipts, w.parse(b).value)
    case TakeDigest(pid) =>
      && At(s, pid, Parsed)
      && var p := s.processes[pid];
      p.expected == w.sha(s.slots[p.path].bytes) && p.confirm == p.request.id.request
    case Lock(pid) => At(s, pid, Digested) && s.holder.None?
    case Check(pid) =>
      && At(s, pid, Locked)
      && var p := s.processes[pid];
      && p.request.status == Accepted && CleanBut(w, s, {}) && CandidateOk(w, s.head, p)
      && p.request.id !in s.receipts
    case FirstCas(pid) =>
      && At(s, pid, Checked)
      && var p := s.processes[pid];
      CasOk(w, s, p, {}) && p.request.id !in s.receipts
    case Create(pid) => At(s, pid, Ready) && s.processes[pid].request.id !in s.receipts
    case Write(pid, length) =>
      && At(s, pid, Writing) && s.processes[pid].request.id in s.receipts
      && |s.receipts[s.processes[pid].request.id].bytes| <= length <= |SealOf(w, s.processes[pid])|
    case SyncContent(pid) =>
      && At(s, pid, Writing) && s.processes[pid].request.id in s.receipts
      && |s.receipts[s.processes[pid].request.id].bytes| == |SealOf(w, s.processes[pid])|
    case SyncEntry(pid) => At(s, pid, ContentSynced) && s.processes[pid].request.id in s.receipts
    case SecondCas(pid) =>
      && At(s, pid, Journaled)
      && var p := s.processes[pid];
      && CasOk(w, s, p, {p.request.id})
      && p.request.id in s.receipts && w.sha(s.receipts[p.request.id].bytes) == w.sha(SealOf(w, p))
    case Replace(pid) => At(s, pid, Rechecked)
    case SyncRequest(pid) => At(s, pid, Replaced)
    case Stop(pid) => pid in s.processes
    case PowerLoss(slots, receipts, _, _) => PowerLossLeaves(s, slots, receipts)
    case Edit(path, bytes) =>
      s.holder.None? && path in s.slots && ByHand(w, bytes)
    case EditLocks(_) => s.holder.None?
    case Flush(path) => path in s.slots
    case MoveHead(_) => s.holder.None?
  }

  function WithReceipt(s: State, id: Id, f: File): State { s.(receipts := s.receipts[id := f]) }

  function Effect(w: World, s: State, a: Action): State
    requires Enabled(w, s, a)
  {
    match a
    case Start(pid, path, expected, confirm, base, detail) =>
      var b := s.slots[path].bytes;
      var p := Process(path, b, w.parse(b).value, expected, confirm, base, detail, "", "", Loading);
      s.(processes := s.processes[pid := p])
    case Parse(pid) =>
      var p := s.processes[pid];
      var b := s.slots[p.path].bytes;
      s.(processes := s.processes[pid := p.(parsed := b, request := w.parse(b).value, stage := Parsed)])
    case TakeDigest(pid) =>
      var p := s.processes[pid];
      s.(processes := s.processes[pid := p.(digest := w.sha(s.slots[p.path].bytes), stage := Digested)])
    case Lock(pid) => Advance(s, pid, Locked).(holder := Some(pid))
    case Check(pid) => s.(processes := s.processes[pid := s.processes[pid].(candidate := s.head, stage := Checked)])
    case FirstCas(pid) => Advance(s, pid, Ready)
    case Create(pid) => Advance(WithReceipt(s, s.processes[pid].request.id, File("", false, false)), pid, Writing)
    case Write(pid, length) =>
      WithReceipt(s, s.processes[pid].request.id, File(SealOf(w, s.processes[pid])[..length], false, false))
    case SyncContent(pid) =>
      var id := s.processes[pid].request.id;
      Advance(WithReceipt(s, id, s.receipts[id].(contentSynced := true)), pid, ContentSynced)
    case SyncEntry(pid) =>
      var id := s.processes[pid].request.id;
      Advance(WithReceipt(s, id, s.receipts[id].(entrySynced := true)), pid, Journaled)
    case SecondCas(pid) => Advance(s, pid, Rechecked)
    case Replace(pid) =>
      var p := s.processes[pid];
      Advance(s, pid, Replaced).(
        slots := s.slots[p.path := s.slots[p.path].(bytes := AppliedBytes(w, p.request))],
        flips := s.flips + [(pid, p.request.id)])
    case SyncRequest(pid) =>
      var path := s.processes[pid].path;
      Advance(s, pid, Finished).(slots := s.slots[path := s.slots[path].(durable := s.slots[path].bytes)])
    case Stop(pid) =>
      s.(processes := s.processes - {pid}, holder := if s.holder == Some(pid) then None else s.holder)
    case PowerLoss(slots, receipts, locks, head) =>
      s.(slots := slots, receipts := receipts, locks := locks, head := head, holder := None, processes := map[])
    case Edit(path, bytes) => s.(slots := s.slots[path := s.slots[path].(bytes := bytes)])
    case Flush(path) => s.(slots := s.slots[path := s.slots[path].(durable := s.slots[path].bytes)])
    case EditLocks(locks) => s.(locks := locks)
    case MoveHead(commit) => s.(head := commit)
  }

  // ---------- runs ----------

  ghost predicate Run(w: World, states: seq<State>, actions: seq<Action>) {
    && |states| == |actions| + 1
    && forall i | 0 <= i < |actions| ::
         Enabled(w, states[i], actions[i]) && states[i + 1] == Effect(w, states[i], actions[i])
  }

  /** No process yet, and requests that are applied already carry their receipts. */
  ghost predicate Init(w: World, s: State) {
    s.processes == map[] && s.holder.None? && s.flips == [] && AllSealed(w, s.slots, s.receipts)
  }

  /** An applied request, on disk or after a power loss, has its complete and durable receipt. */
  ghost predicate AllSealed(w: World, slots: map<Path, Slot>, receipts: map<Id, File>) {
    forall path | path in slots ::
      SealedIfApplied(w, receipts, slots[path].bytes) && SealedIfApplied(w, receipts, slots[path].durable)
  }

  ghost predicate SealedIfApplied(w: World, receipts: map<Id, File>, b: Bytes) {
    w.parse(b).Some? && w.parse(b).value.status == Applied ==> Sealed(w, receipts, b, w.parse(b).value.id)
  }

  predicate Holding(stage: Stage) { stage != Loading && stage != Parsed && stage != Digested }

  predicate Passed(stage: Stage) { Holding(stage) && stage != Locked }

  /** Between the checks and the flip. */
  predicate Bound(stage: Stage) { Passed(stage) && stage != Replaced && stage != Finished }

  predicate Wrote(stage: Stage) {
    stage == Writing || stage == ContentSynced || stage == Journaled || stage == Rechecked
  }

  /** What a process has on disk at its stage. */
  ghost predicate Journal(w: World, receipts: map<Id, File>, p: Process) {
    Wrote(p.stage) ==>
      && p.request.id in receipts
      && var f := receipts[p.request.id];
      match p.stage
      case Writing => |f.bytes| <= |SealOf(w, p)| && f == File(SealOf(w, p)[..|f.bytes|], false, false)
      case ContentSynced => f == File(SealOf(w, p), true, false)
      case _ => f == File(SealOf(w, p), true, true)
  }

  ghost predicate Flipped(flips: seq<(Pid, Id)>, id: Id) { exists i :: 0 <= i < |flips| && flips[i].1 == id }

  /** HEAD is the checked candidate, and the worktree is as it has it, but for the process's own receipt. */
  predicate Fits(w: World, s: State, p: Process) {
    && p.candidate == s.head && CandidateOk(w, s.head, p) && p.request.id !in w.tree(s.head).receipts
    && (if Wrote(p.stage) then CleanBut(w, s, {p.request.id})
        else CleanBut(w, s, {}) && p.request.id !in s.receipts)
  }

  ghost predicate ProcessOk(w: World, s: State, pid: Pid)
    requires pid in s.processes
  {
    var p := s.processes[pid];
    && p.path in s.slots && w.parse(p.parsed) == Some(p.request)
    && (Holding(p.stage) ==> s.holder == Some(pid))
    && (p.stage != Loading && p.stage != Parsed ==> p.digest == p.expected && p.confirm == p.request.id.request)
    && (Passed(p.stage) ==> p.request.status == Accepted)
    && Journal(w, s.receipts, p)
    && (Wrote(p.stage) ==> !Flipped(s.flips, p.request.id))
    && (Bound(p.stage) ==> Fits(w, s, p))
  }

  /** No request is flipped twice, and flipped requests have durable receipts. */
  ghost predicate FlipsOk(flips: seq<(Pid, Id)>, receipts: map<Id, File>) {
    && (forall i, j | 0 <= i < j < |flips| :: flips[i].1 != flips[j].1)
    && forall i | 0 <= i < |flips| :: Durable(receipts, flips[i].1)
  }

  predicate Durable(receipts: map<Id, File>, id: Id) {
    id in receipts && receipts[id].contentSynced && receipts[id].entrySynced
  }

  ghost predicate ProcessesOk(w: World, s: State) { forall pid | pid in s.processes :: ProcessOk(w, s, pid) }

  predicate HolderLives(s: State) {
    s.holder.Some? ==> s.holder.value in s.processes && Holding(s.processes[s.holder.value].stage)
  }

  /** What locks, journals, flips and seals have to do with each other. */
  ghost predicate Core(w: World, s: State) {
    AllSealed(w, s.slots, s.receipts) && FlipsOk(s.flips, s.receipts) && ProcessesOk(w, s) && HolderLives(s)
  }

  /** No base commit has a receipt that is still to be made. */
  predicate Based(w: World, s: State) {
    forall pid | pid in s.processes :: BaseOk(w, s, s.processes[pid].base)
  }

  ghost predicate Inv(w: World, s: State) { Core(w, s) && Based(w, s) }

  // ---------- steps that touch no file ----------

  lemma NoJournal(w: World, receipts: map<Id, File>, p: Process)
    requires !Wrote(p.stage)
    ensures Journal(w, receipts, p)
  {
  }

  /** Nothing that `git status` or git itself looks at. */
  predicate SameFiles(s: State, t: State) {
    RequestsOf(t) == RequestsOf(s) && ReceiptsOf(t) == ReceiptsOf(s) && t.locks == s.locks && t.head == s.head
  }

  lemma CleanStays(w: World, s: State, t: State, ids: set<Id>)
    requires SameFiles(s, t)
    ensures CleanBut(w, t, ids) == CleanBut(w, s, ids)
  {
    assert t.receipts.Keys == ReceiptsOf(t).Keys == s.receipts.Keys;
    assert forall id | id in s.receipts :: ReceiptsOf(t)[id] == ReceiptsOf(s)[id];
  }

  lemma CleanIsTree(w: World, s: State)
    ensures CleanBut(w, s, {}) <==> Worktree(s) == w.tree(s.head)
  {
    var committed := w.tree(s.head).receipts;
    assert ReceiptsOf(s).Keys == s.receipts.Keys;
    forall id | id in s.receipts.Keys + committed.Keys
      ensures id in DirtyReceipts(w, s) <==>
                !(id in s.receipts && id in committed && ReceiptsOf(s)[id] == committed[id])
    {
    }
    assert DirtyReceipts(w, s) == {} <==> ReceiptsOf(s) == committed by {
      if DirtyReceipts(w, s) == {} {
        assert forall id | id in s.receipts.Keys + committed.Keys :: id !in DirtyReceipts(w, s);
      }
    }
  }

  lemma FitsStays(w: World, s: State, t: State, p: Process, q: Process)
    requires SameFiles(s, t) && Fits(w, s, p) && q == p.(stage := q.stage) && Wrote(q.stage) == Wrote(p.stage)
    ensures Fits(w, t, q)
  {
    hide CleanBut, Wrote, ChangesOk;
    CleanStays(w, s, t, {});
    CleanStays(w, s, t, {p.request.id});
    assert t.receipts.Keys == ReceiptsOf(t).Keys == ReceiptsOf(s).Keys;
  }

  /** A receipt that is not committed is dirty, whatever it holds. */
  lemma DirtyPut(w: World, s: State, t: State, id: Id, f: File)
    requires t.slots == s.slots && t.locks == s.locks && t.head == s.head && t.receipts == s.receipts[id := f]
    requires id !in w.tree(s.head).receipts && (CleanBut(w, s, {}) || CleanBut(w, s, {id}))
    ensures CleanBut(w, t, {id})
  {
    var dirty := DirtyReceipts(w, t);
    assert forall x :: x in dirty <==> x in DirtyReceipts(w, s) || x == id;
  }

  lemma FitsPut(w: World, s: State, t: State, p: Process, q: Process, f: File)
    requires Fits(w, s, p) && q == p.(stage := q.stage) && Wrote(q.stage)
    requires t.slots == s.slots && t.locks == s.locks && t.head == s.head
    requires t.receipts == s.receipts[p.request.id := f]
    ensures Fits(w, t, q)
  {
    hide CleanBut, ChangesOk, Wrote;
    DirtyPut(w, s, t, p.request.id, f);
  }

  /** One process moves on, without the lock or with it; the others stay. */
  lemma OneMoves(w: World, s: State, t: State, pid: Pid)
    requires Core(w, s) && t.slots == s.slots && t.receipts == s.receipts && t.flips == s.flips
    requires t.locks == s.locks && t.head == s.head
    requires pid in t.processes && t.processes - {pid} == s.processes - {pid} && ProcessOk(w, t, pid)
    requires t.holder == s.holder || (s.holder.None? && t.holder == Some(pid))
    requires t.holder == Some(pid) ==> Holding(t.processes[pid].stage)
    ensures Core(w, t)
  {
    hide AllSealed, FlipsOk, Journal, Flipped, Holding, Wrote, Bound, Fits;
    if t.holder.Some? && t.holder.value != pid {
      var h := t.holder.value;
      assert h in s.processes - {pid} && h in t.processes - {pid} && t.processes[h] == s.processes[h];
    }
    forall other | other in t.processes ensures ProcessOk(w, t, other) {
      if other != pid {
        assert other in t.processes - {pid} && other in s.processes - {pid};
        assert ProcessOk(w, s, other);
        var p := s.processes[other];
        if Bound(p.stage) { FitsStays(w, s, t, p, p); }
      }
    }
  }

  lemma QuietMove(w: World, s: State, a: Action)
    requires Core(w, s) && Enabled(w, s, a)
    requires a.Start? || a.Parse? || a.TakeDigest? || a.Lock? || a.Check? || a.FirstCas? || a.SecondCas?
    ensures Core(w, Effect(w, s, a))
  {
    hide AllSealed, FlipsOk, Flipped, Enabled, Effect, Holding, Fits;
    QuietEffect(w, s, a);
    MoverOk(w, s, a);
    OneMoves(w, s, Effect(w, s, a), a.pid);
  }

  lemma QuietEffect(w: World, s: State, a: Action)
    requires Enabled(w, s, a)
    requires a.Start? || a.Parse? || a.TakeDigest? || a.Lock? || a.Check? || a.FirstCas? || a.SecondCas?
    ensures var t := Effect(w, s, a);
            && t.slots == s.slots && t.receipts == s.receipts && t.flips == s.flips
            && t.locks == s.locks && t.head == s.head
            && a.pid in t.processes && t.processes - {a.pid} == s.processes - {a.pid}
            && (a.Start? || a.pid in s.processes)
            && (t.holder == s.holder || (s.holder.None? && t.holder == Some(a.pid)))
  {
    hide CleanBut, CandidateOk, CasOk, BaseOk, LifecycleOk, SealOf;
    assert Effect(w, s, a).processes - {a.pid} == s.processes - {a.pid};
  }

  /** Steps that write a receipt or a request; only the holder of the lock takes them. */
  predicate Journals(a: Action) { a.Create? || a.Write? || a.SyncContent? || a.SyncEntry? || a.Replace? }

  lemma FilesStay(w: World, s: State, a: Action)
    requires Enabled(w, s, a) && !Journals(a) && !a.PowerLoss? && !a.Edit? && !a.EditLocks? && !a.MoveHead?
    ensures SameFiles(s, Effect(w, s, a)) && Effect(w, s, a).slots.Keys == s.slots.Keys
    ensures forall path | path in s.slots :: Effect(w, s, a).slots[path].bytes == s.slots[path].bytes
  {
    if a.SyncRequest? || a.Flush? || a.Stop? {
      hide CleanBut, CandidateOk, CasOk, BaseOk, LifecycleOk, SealOf;
      assert RequestsOf(Effect(w, s, a)) == RequestsOf(s);
    } else {
      hide Enabled, Effect;
      QuietEffect(w, s, a);
    }
  }

  lemma MoverOk(w: World, s: State, a: Action)
    requires Core(w, s) && Enabled(w, s, a)
    requires a.Start? || a.Parse? || a.TakeDigest? || a.Lock? || a.Check? || a.FirstCas? || a.SecondCas?
    ensures a.pid in Effect(w, s, a).processes && ProcessOk(w, Effect(w, s, a), a.pid)
    ensures Effect(w, s, a).holder == Some(a.pid) ==> Holding(Effect(w, s, a).processes[a.pid].stage)
  {
    hide Core, Enabled, Effect, ProcessOk, Holding;
    if a.Start? || a.Parse? || a.TakeDigest? {
      ReaderOk(w, s, a);
    } else {
      CheckerOk(w, s, a);
    }
  }

  lemma ReaderOk(w: World, s: State, a: Action)
    requires Core(w, s) && Enabled(w, s, a) && (a.Start? || a.Parse? || a.TakeDigest?)
    ensures var t := Effect(w, s, a);
            a.pid in t.processes && ProcessOk(w, t, a.pid) && t.holder != Some(a.pid)
  {
    hide AllSealed, FlipsOk, Journal, Flipped, LifecycleOk, HolderLives, Fits, BaseOk;
    var t := Effect(w, s, a);
    if !a.Start? { assert ProcessOk(w, s, a.pid); }
    NotHolder(s, a.pid);
    NoJournal(w, t.receipts, t.processes[a.pid]);
  }

  lemma CheckerOk(w: World, s: State, a: Action)
    requires Core(w, s) && Enabled(w, s, a) && (a.Lock? || a.Check? || a.FirstCas? || a.SecondCas?)
    ensures var t := Effect(w, s, a);
            && a.pid in t.processes && ProcessOk(w, t, a.pid) && Holding(t.processes[a.pid].stage)
  {
    hide AllSealed, FlipsOk, Journal, Flipped, HolderLives, Fits, CleanBut, CandidateOk, CasOk, SealOf, LifecycleOk;
    var t := Effect(w, s, a);
    assert ProcessOk(w, s, a.pid);
    if a.Check? {
      CheckFits(w, s, a.pid);
    } else if a.FirstCas? || a.SecondCas? {
      FitsStays(w, s, t, s.processes[a.pid], t.processes[a.pid]);
    }
    if !a.SecondCas? {
      NoJournal(w, t.receipts, t.processes[a.pid]);
    } else {
      StaysJournaled(w, s.receipts, s.processes[a.pid]);
    }
  }

  lemma CheckFits(w: World, s: State, pid: Pid)
    requires Enabled(w, s, Check(pid))
    ensures var t := Effect(w, s, Check(pid)); Fits(w, t, t.processes[pid])
  {
    hide ChangesOk;
    var t := Effect(w, s, Check(pid));
    CleanStays(w, s, t, {});
    var id := s.processes[pid].request.id;
    assert id in w.tree(s.head).receipts ==> id in DirtyReceipts(w, s);
  }

  lemma NotHolder(s: State, pid: Pid)
    requires HolderLives(s) && (pid in s.processes ==> !Holding(s.processes[pid].stage))
    ensures s.holder != Some(pid)
  {
  }

  lemma StaysJournaled(w: World, receipts: map<Id, File>, p: Process)
    requires p.stage == Journaled && Journal(w, receipts, p)
    ensures Journal(w, receipts, p.(stage := Rechecked))
  {
  }

  lemma StopKeeps(w: World, s: State, a: Action)
    requires Core(w, s) && Enabled(w, s, a) && a.Stop?
    ensures Core(w, Effect(w, s, a))
  {
    hide AllSealed, FlipsOk, Journal, Flipped, Fits;
    var t := Effect(w, s, a);
    forall other | other in s.processes && other != a.pid ensures ProcessOk(w, t, other) {
      assert ProcessOk(w, s, other);
      var p := s.processes[other];
      if Bound(p.stage) { FitsStays(w, s, t, p, p); }
    }
  }

  // ---------- steps that write the receipt ----------

  /** Durable receipts stay as they are. */
  predicate Keeps(before: map<Id, File>, after: map<Id, File>) {
    forall id | id in before && Durable(before, id) :: id in after && after[id] == before[id]
  }

  lemma SealsStay(w: World, before: map<Id, File>, after: map<Id, File>, b: Bytes)
    requires Keeps(before, after) && SealedIfApplied(w, before, b)
    ensures SealedIfApplied(w, after, b)
  {
    if w.parse(b).Some? && w.parse(b).value.status == Applied {
      var id := w.parse(b).value.id;
      var r :| SealedBy(w, before[id], b, id, r);
      assert Durable(before, id) && SealedBy(w, after[id], b, id, r);
    }
  }

  lemma AllSealsStay(w: World, slots: map<Path, Slot>, before: map<Id, File>, after: map<Id, File>)
    requires Keeps(before, after) && AllSealed(w, slots, before)
    ensures AllSealed(w, slots, after)
  {
    hide SealedIfApplied;
    forall path | path in slots
      ensures SealedIfApplied(w, after, slots[path].bytes) && SealedIfApplied(w, after, slots[path].durable)
    {
      SealsStay(w, before, after, slots[path].bytes);
      SealsStay(w, before, after, slots[path].durable);
    }
  }

  lemma FlipsStay(flips: seq<(Pid, Id)>, before: map<Id, File>, after: map<Id, File>)
    requires Keeps(before, after) && FlipsOk(flips, before)
    ensures FlipsOk(flips, after)
  {
  }

  /** Only the holder of the lock has anything on disk. */
  lemma OthersIdle(w: World, s: State, pid: Pid, other: Pid)
    requires ProcessesOk(w, s) && s.holder == Some(pid) && other in s.processes && other != pid
    ensures var stage := s.processes[other].stage; !Holding(stage) && !Wrote(stage) && !Bound(stage)
  {
    hide Journal, Flipped;
    assert ProcessOk(w, s, other);
  }

  /** The holder writes its own receipt, which is not durable yet. */
  lemma ReceiptMoves(w: World, s: State, t: State, pid: Pid, id: Id)
    requires Core(w, s) && s.holder == Some(pid) && t.holder == s.holder && t.slots == s.slots && t.flips == s.flips
    requires !Durable(s.receipts, id) && id in t.receipts && t.receipts == s.receipts[id := t.receipts[id]]
    requires pid in t.processes && t.processes - {pid} == s.processes - {pid} && ProcessOk(w, t, pid)
    requires Holding(t.processes[pid].stage)
    ensures Core(w, t)
  {
    hide AllSealed, FlipsOk, Journal, Flipped, Holding, Wrote, Bound, Fits;
    AllSealsStay(w, s.slots, s.receipts, t.receipts);
    FlipsStay(s.flips, s.receipts, t.receipts);
    forall other | other in t.processes ensures ProcessOk(w, t, other) {
      if other != pid {
        assert other in t.processes - {pid} && other in s.processes - {pid};
        assert ProcessOk(w, s, other);
        OthersIdle(w, s, pid, other);
        NoJournal(w, t.receipts, t.processes[other]);
      }
    }
  }

  lemma CreateKeeps(w: World, s: State, a: Action)
    requires Core(w, s) && Enabled(w, s, a) && a.Create?
    ensures Core(w, Effect(w, s, a))
  {
    hide AllSealed, Fits;
    var t := Effect(w, s, a);
    var id := s.processes[a.pid].request.id;
    assert ProcessOk(w, s, a.pid);
    FitsPut(w, s, t, s.processes[a.pid], t.processes[a.pid], File("", false, false));
    assert t.processes - {a.pid} == s.processes - {a.pid};
    assert !Flipped(s.flips, id);
    assert "" == SealOf(w, t.processes[a.pid])[..0];
    ReceiptMoves(w, s, t, a.pid, id);
  }

  lemma WriteKeeps(w: World, s: State, a: Action)
    requires Core(w, s) && Enabled(w, s, a) && (a.Write? || a.SyncContent? || a.SyncEntry?)
    ensures Core(w, Effect(w, s, a))
  {
    hide AllSealed, FlipsOk, Flipped, Fits;
    var t := Effect(w, s, a);
    var p := s.processes[a.pid];
    assert ProcessOk(w, s, a.pid);
    FitsPut(w, s, t, p, t.processes[a.pid], t.receipts[p.request.id]);
    assert t.processes - {a.pid} == s.processes - {a.pid};
    assert SealOf(w, t.processes[a.pid]) == SealOf(w, p);
    var whole := SealOf(w, p);
    assert whole[..|whole|] == whole;
    ReceiptMoves(w, s, t, a.pid, p.request.id);
  }

  // ---------- steps that write the request ----------

  /** The flip: the applied bytes are bound by the receipt, which is durable. */
  lemma ReplaceKeeps(w: World, s: State, a: Action)
    requires Lawful(w) && Core(w, s) && Enabled(w, s, a) && a.Replace?
    ensures Core(w, Effect(w, s, a))
  {
    hide Fits;
    var t := Effect(w, s, a);
    var p := s.processes[a.pid];
    assert ProcessOk(w, s, a.pid);
    assert SealedBy(w, s.receipts[p.request.id], AppliedBytes(w, p.request), p.request.id, ReceiptOf(w, p));
    assert SealedIfApplied(w, s.receipts, AppliedBytes(w, p.request));
    SlotMoves(w, s, t, p.path);
    FlipGrows(s.flips, s.receipts, a.pid, p.request.id);
    HolderMoves(w, s, t, a.pid);
  }

  lemma FlipGrows(flips: seq<(Pid, Id)>, receipts: map<Id, File>, pid: Pid, id: Id)
    requires FlipsOk(flips, receipts) && !Flipped(flips, id) && Durable(receipts, id)
    ensures FlipsOk(flips + [(pid, id)], receipts)
  {
  }

  lemma SlotMoves(w: World, s: State, t: State, path: Path)
    requires AllSealed(w, s.slots, s.receipts) && t.receipts == s.receipts
    requires path in t.slots && path in s.slots && t.slots == s.slots[path := t.slots[path]]
    requires SealedIfApplied(w, s.receipts, t.slots[path].bytes)
             && SealedIfApplied(w, s.receipts, t.slots[path].durable)
    ensures AllSealed(w, t.slots, t.receipts)
  {
    hide SealedIfApplied;
  }

  lemma WroteIsBound(stage: Stage)
    ensures Wrote(stage) ==> Bound(stage)
  {
  }

  /** The holder has left its journal; the others hold nothing. */
  lemma HolderMoves(w: World, s: State, t: State, pid: Pid)
    requires ProcessesOk(w, s) && s.holder == Some(pid) == t.holder && t.slots.Keys == s.slots.Keys
    requires pid in s.processes && pid in t.processes && t.processes - {pid} == s.processes - {pid}
    requires var p := t.processes[pid]; Holding(p.stage) && !Bound(p.stage) && p == s.processes[pid].(stage := p.stage)
    requires var p := s.processes[pid];
             p.request.status == Accepted && p.digest == p.expected && p.confirm == p.request.id.request
    ensures ProcessesOk(w, t) && HolderLives(t)
  {
    hide Journal, Flipped, Holding, Wrote, Bound, Fits;
    WroteIsBound(t.processes[pid].stage);
    assert ProcessOk(w, s, pid);
    forall other | other in t.processes ensures ProcessOk(w, t, other) {
      if other != pid {
        assert other in t.processes - {pid} && other in s.processes - {pid};
        assert ProcessOk(w, s, other);
        OthersIdle(w, s, pid, other);
      }
      NoJournal(w, t.receipts, t.processes[other]);
    }
  }

  lemma SyncRequestKeeps(w: World, s: State, a: Action)
    requires Core(w, s) && Enabled(w, s, a) && a.SyncRequest?
    ensures Core(w, Effect(w, s, a))
  {
    hide FlipsOk, SealedIfApplied, Fits;
    var t := Effect(w, s, a);
    assert ProcessOk(w, s, a.pid);
    SlotMoves(w, s, t, s.processes[a.pid].path);
    HolderMoves(w, s, t, a.pid);
  }

  // ---------- the surroundings ----------

  lemma EditKeeps(w: World, s: State, a: Action)
    requires Core(w, s) && Enabled(w, s, a) && (a.Edit? || a.Flush?)
    ensures Core(w, Effect(w, s, a))
  {
    hide FlipsOk, Sealed, Journal, Flipped, Fits;
    var t := Effect(w, s, a);
    assert a.Edit? ==> SealedIfApplied(w, s.receipts, a.bytes);
    SlotMoves(w, s, t, a.path);
    forall pid | pid in t.processes ensures ProcessOk(w, t, pid) {
      assert ProcessOk(w, s, pid);
      var p := s.processes[pid];
      if a.Flush? && Bound(p.stage) { FitsStays(w, s, t, p, p); }
    }
  }

  /** Locks and HEAD change while nobody holds the lock. */
  lemma GitKeeps(w: World, s: State, a: Action)
    requires Core(w, s) && Enabled(w, s, a) && (a.EditLocks? || a.MoveHead?)
    ensures Core(w, Effect(w, s, a))
  {
    hide AllSealed, FlipsOk, Journal, Flipped, Fits;
    forall pid | pid in s.processes ensures ProcessOk(w, Effect(w, s, a), pid) {
      assert ProcessOk(w, s, pid);
    }
  }

  lemma PowerLossKeeps(w: World, s: State, a: Action)
    requires Core(w, s) && Enabled(w, s, a) && a.PowerLoss?
    ensures Core(w, Effect(w, s, a))
  {
    hide SealedIfApplied;
    AllSealsStay(w, s.slots, s.receipts, a.receipts);
    FlipsStay(s.flips, s.receipts, a.receipts);
    forall path | path in a.slots
      ensures SealedIfApplied(w, a.receipts, a.slots[path].bytes)
              && SealedIfApplied(w, a.receipts, a.slots[path].durable)
    {
      assert Survivor(s, path, a.slots[path]);
    }
  }

  lemma CoreKeeps(w: World, s: State, a: Action)
    requires Lawful(w) && Core(w, s) && Enabled(w, s, a)
    ensures Core(w, Effect(w, s, a))
  {
    hide Core, Enabled, Effect;
    match a
    case Create(_) => CreateKeeps(w, s, a);
    case Write(_, _) => WriteKeeps(w, s, a);
    case SyncContent(_) => WriteKeeps(w, s, a);
    case SyncEntry(_) => WriteKeeps(w, s, a);
    case Replace(_) => ReplaceKeeps(w, s, a);
    case SyncRequest(_) => SyncRequestKeeps(w, s, a);
    case Stop(_) => StopKeeps(w, s, a);
    case PowerLoss(_, _, _, _) => PowerLossKeeps(w, s, a);
    case Edit(_, _) => EditKeeps(w, s, a);
    case Flush(_) => EditKeeps(w, s, a);
    case EditLocks(_) => GitKeeps(w, s, a);
    case MoveHead(_) => GitKeeps(w, s, a);
    case _ => QuietMove(w, s, a);
  }

  // ---------- bases ----------

  /** A receipt is made only where there was none, so no base commit has it. */
  lemma BasedKeeps(w: World, s: State, a: Action)
    requires Core(w, s) && Based(w, s) && Enabled(w, s, a)
    ensures Based(w, Effect(w, s, a))
  {
    hide Core, Enabled, Effect, BaseOk;
    var t := Effect(w, s, a);
    if a.PowerLoss? {
      NoneLeft(w, s, a);
    } else {
      forall pid | pid in t.processes ensures BaseOk(w, t, t.processes[pid].base) {
        BaseStays(w, s, a, pid);
        BaseOkStays(w, s, a, t.processes[pid].base);
      }
    }
  }

  lemma NoneLeft(w: World, s: State, a: Action)
    requires Enabled(w, s, a) && a.PowerLoss?
    ensures Effect(w, s, a).processes == map[]
  {
  }

  lemma BaseStays(w: World, s: State, a: Action, pid: Pid)
    requires Based(w, s) && Enabled(w, s, a) && !a.PowerLoss? && pid in Effect(w, s, a).processes
    ensures BaseOk(w, s, Effect(w, s, a).processes[pid].base)
  {
    hide BaseOk, CleanBut, CandidateOk, CasOk, LifecycleOk;
  }

  lemma BaseOkStays(w: World, s: State, a: Action, base: CommitId)
    requires Core(w, s) && Enabled(w, s, a) && !a.PowerLoss? && BaseOk(w, s, base)
    ensures BaseOk(w, Effect(w, s, a), base)
  {
    hide Core, Enabled, Effect, Wrote, BaseOk;
    JournalGrows(w, s, a);
    GrownBaseOk(w, s, Effect(w, s, a), base);
  }

  /** Receipts stay, and one that is being written now was being written or is new. */
  lemma JournalGrows(w: World, s: State, a: Action)
    requires Core(w, s) && Enabled(w, s, a) && !a.PowerLoss?
    ensures Grows(s, Effect(w, s, a))
  {
    hide Core, ProcessOk, Enabled, Effect, Wrote;
    if a.Create? || a.Write? || a.SyncContent? || a.SyncEntry? {
      WriterGrows(w, s, a);
    } else if a.Start? || a.Edit? || a.EditLocks? || a.Flush? || a.MoveHead? || a.Stop? {
      BystanderGrows(w, s, a);
    } else {
      CheckerGrows(w, s, a);
    }
  }

  lemma WriterGrows(w: World, s: State, a: Action)
    requires Core(w, s) && Enabled(w, s, a) && (a.Create? || a.Write? || a.SyncContent? || a.SyncEntry?)
    ensures Grows(s, Effect(w, s, a))
  {
    hide AllSealed, FlipsOk, Journal, Flipped, Fits, SealOf;
    assert ProcessOk(w, s, a.pid);
  }

  lemma BystanderGrows(w: World, s: State, a: Action)
    requires Core(w, s) && Enabled(w, s, a)
    requires a.Start? || a.Edit? || a.EditLocks? || a.Flush? || a.MoveHead? || a.Stop?
    ensures Grows(s, Effect(w, s, a))
  {
    hide AllSealed, FlipsOk, ProcessesOk, BaseOk, SealedIfApplied;
  }

  lemma CheckerGrows(w: World, s: State, a: Action)
    requires Core(w, s) && Enabled(w, s, a)
    requires a.Parse? || a.TakeDigest? || a.Lock? || a.Check? || a.FirstCas? || a.SecondCas? || a.Replace?
             || a.SyncRequest?
    ensures Grows(s, Effect(w, s, a))
  {
    hide AllSealed, FlipsOk, Journal, Flipped, Fits, CleanBut, CandidateOk, CasOk, LifecycleOk;
    assert ProcessOk(w, s, a.pid);
  }

  predicate Grows(s: State, t: State) {
    && s.receipts.Keys <= t.receipts.Keys
    && (Journaling(t) ==>
          var id := t.processes[t.holder.value].request.id;
          id !in s.receipts || (Journaling(s) && s.processes[s.holder.value].request.id == id))
  }

  lemma GrownBaseOk(w: World, s: State, t: State, base: CommitId)
    requires Grows(s, t) && BaseOk(w, s, base)
    ensures BaseOk(w, t, base)
  {
    hide Wrote;
  }

  lemma StepKeeps(w: World, s: State, a: Action)
    requires Lawful(w) && Inv(w, s) && Enabled(w, s, a)
    ensures Inv(w, Effect(w, s, a))
  {
    hide Core, Based, Enabled, Effect;
    CoreKeeps(w, s, a);
    BasedKeeps(w, s, a);
  }

  // ---------- over whole runs ----------

  lemma {:induction false} Always(w: World, states: seq<State>, actions: seq<Action>, k: nat)
    requires Lawful(w) && Run(w, states, actions) && Init(w, states[0]) && k < |states|
    ensures Inv(w, states[k])
  {
    hide Enabled, Effect;
    if k > 0 {
      Always(w, states, actions, k - 1);
      StepKeeps(w, states[k - 1], actions[k - 1]);
    }
  }

  /**
   At every moment of every run, a request that reads applied, now or after losing power, has a complete
   durable receipt under its id that binds exactly these bytes.
   */
  lemma AppliedIsSealed(w: World, states: seq<State>, actions: seq<Action>, k: nat, path: Path, b: Bytes)
    requires Lawful(w) && Run(w, states, actions) && Init(w, states[0]) && k < |states|
    requires path in states[k].slots && (b == states[k].slots[path].bytes || b == states[k].slots[path].durable)
    requires w.parse(b).Some? && w.parse(b).value.status == Applied
    ensures Sealed(w, states[k].receipts, b, w.parse(b).value.id)
  {
    hide Run;
    Always(w, states, actions, k);
  }

  lemma FlippedStays(w: World, s: State, a: Action, id: Id)
    requires Enabled(w, s, a) && Flipped(s.flips, id)
    ensures Flipped(Effect(w, s, a).flips, id)
  {
    var i :| 0 <= i < |s.flips| && s.flips[i].1 == id;
    assert Effect(w, s, a).flips[i].1 == id;
  }

  lemma {:induction false} FlippedForever(w: World, states: seq<State>, actions: seq<Action>, i: nat, k: nat, id: Id)
    requires Run(w, states, actions) && i <= k < |states| && Flipped(states[i].flips, id)
    ensures Flipped(states[k].flips, id)
  {
    hide Enabled, Effect, Flipped;
    if k > i {
      FlippedForever(w, states, actions, i, k - 1, id);
      FlippedStays(w, states[k - 1], actions[k - 1], id);
    }
  }

  /** In no run are there two flips of one request, by whatever processes. */
  lemma OneFlip(w: World, states: seq<State>, actions: seq<Action>, i: nat, j: nat)
    requires Lawful(w) && Run(w, states, actions) && Init(w, states[0])
    requires i < j < |actions| && actions[i].Replace? && actions[j].Replace?
    ensures actions[i].pid in states[i].processes && actions[j].pid in states[j].processes
    ensures states[i].processes[actions[i].pid].request.id != states[j].processes[actions[j].pid].request.id
  {
    assert Enabled(w, states[i], actions[i]) && states[i + 1] == Effect(w, states[i], actions[i]);
    assert Enabled(w, states[j], actions[j]);
    var id := states[i].processes[actions[i].pid].request.id;
    assert states[i + 1].flips[|states[i].flips|].1 == id;
    FlippedForever(w, states, actions, i + 1, j, id);
    Always(w, states, actions, j);
    assert ProcessOk(w, states[j], actions[j].pid);
  }

  /**
   What a flip writes is the request on disk with its status flipped, unless the file was edited between
   the parse and the digest, or the hash collides on the two.
   */
  lemma FlipKeepsRequest(w: World, s: State, a: Action)
    requires Inv(w, s) && Enabled(w, s, a) && a.Replace?
    ensures var p := s.processes[a.pid]; var now := s.slots[p.path].bytes;
            && p.request.status == Accepted
            && Effect(w, s, a).slots[p.path].bytes == w.render(p.request.(status := Applied))
            && (if p.parsed == now then w.parse(now) == Some(p.request)
                else w.sha(p.parsed) != p.digest || w.sha(p.parsed) == w.sha(now))
  {
    hide AllSealed, FlipsOk, Journal, Flipped;
    assert ProcessOk(w, s, a.pid);
  }
}

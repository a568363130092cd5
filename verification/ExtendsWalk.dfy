/** The recursive walk over TypeScript `extends` graphs in architecture_check.py. */
module ExtendsWalk {
  type Path = string

  /** One entry of `extends`, after its target was resolved against the file system. */
  datatype Extends = Dynamic | Package | Escapes(target: Path) | Missing(target: Path) | Edge(target: Path)

  /** The field `extends`: a string, an array of strings, or something else. */
  datatype Field = Absent | One(entry: Extends) | Many(entries: seq<Extends>) | Malformed

  /** A config file: `other` stands for what its remaining fields are reported for. */
  datatype Config = Unparsable | Parsed(parents: Field, other: seq<string>)

  /** The entry stands in the field of the config. */
  predicate Stands(config: Config, entry: Extends) {
    config.Parsed? && (config.parents == One(entry) || (config.parents.Many? && entry in config.parents.entries))
  }

  datatype Violation =
    | ExtendsCycle(path: Path)
    | InvalidJsonc(path: Path)
    | InvalidExtends(path: Path)
    | DynamicExtends(path: Path)
    | EscapesWeb(path: Path, target: Path)
    | NoSuchFile(path: Path, target: Path)
    | Other(path: Path, what: string)

  type Files = map<Path, Config>

  /** Edges lead to existing files. */
  ghost predicate Resolved(files: Files) { forall p, t | HasEdge(files, p, t) :: t in files }

  /** A config has an edge to another file where one of its entries resolves to it. */
  predicate HasEdge(files: Files, p: Path, t: Path) { p in files && Stands(files[p], Edge(t)) }

  /** The extends entries that are followed; none when the field is malformed. */
  function Followed(field: Field): seq<Extends> {
    match field
    case One(entry) => [entry]
    case Many(entries) => entries
    case _ => []
  }

  /** All that stand there are followed, and no others. */
  lemma FollowedIff(config: Config, entry: Extends)
    requires config.Parsed?
    ensures entry in Followed(config.parents) <==> Stands(config, entry)
  {
  }

  ghost predicate Walk(files: Files, w: seq<Path>) {
    w != [] && forall i | 0 <= i < |w| - 1 :: HasEdge(files, w[i], w[i + 1])
  }

  predicate NoRepeats(w: seq<Path>) { forall i, j | 0 <= i < j < |w| :: w[i] != w[j] }

  /** Following edges from some root can come around to a config passed before. */
  ghost predicate CycleFrom(files: Files, roots: set<Path>) {
    exists w :: Walk(files, w) && w[0] in roots && !NoRepeats(w)
  }

  ghost predicate Reachable(files: Files, roots: set<Path>, p: Path) {
    exists w :: Walk(files, w) && w[0] in roots && w[|w| - 1] == p
  }

  /** What the body of one config is reported for, cycles aside. */
  predicate Reports(path: Path, config: Config, v: Violation) {
    v.path == path &&
    match v
    case ExtendsCycle(_) => false
    case InvalidJsonc(_) => config.Unparsable?
    case InvalidExtends(_) => config.Parsed? && config.parents.Malformed?
    case DynamicExtends(_) => Stands(config, Dynamic)
    case EscapesWeb(_, target) => Stands(config, Escapes(target))
    case NoSuchFile(_, target) => Stands(config, Missing(target))
    case Other(_, what) => config.Parsed? && what in config.other
  }

  predicate Records(vs: seq<Violation>) { exists i | 0 <= i < |vs| :: vs[i].ExtendsCycle? }

  function Names(s: seq<Path>): set<Path> { set p | p in s }

  predicate Listed(s: seq<Path>, names: set<Path>) {
    NoRepeats(s) && (forall p | p in names :: p in s) && forall i | 0 <= i < |s| :: s[i] in names
  }

  /** Every edge of a finished config leads to one that finished before it. */
  ghost predicate Postorder(files: Files, finished: seq<Path>) {
    forall i, t | 0 <= i < |finished| && HasEdge(files, finished[i], t) :: t in finished[..i]
  }

  /** Walks from a finished config go to ever earlier finished ones and never come around. */
  lemma {:induction false} FinishedDescends(files: Files, finished: seq<Path>, w: seq<Path>, k: nat)
    requires Postorder(files, finished) && NoRepeats(finished) && Walk(files, w)
    requires k < |finished| && finished[k] == w[0]
    ensures NoRepeats(w) && forall i | 0 < i < |w| :: w[i] in finished[..k]
  {
    if |w| > 1 {
      assert HasEdge(files, w[0], w[0 + 1]);
      assert w[1] in finished[..k];
      var m :| 0 <= m < k && finished[m] == w[1];
      var rest := w[1..];
      assert forall i | 0 <= i < |rest| :: rest[i] == w[i + 1];
      assert Walk(files, rest) by {
        forall i | 0 <= i < |rest| - 1 ensures HasEdge(files, rest[i], rest[i + 1]) {
          assert HasEdge(files, w[i + 1], w[i + 1 + 1]);
        }
      }
      FinishedDescends(files, finished, rest, m);
      forall i | 0 < i < |w| ensures w[i] in finished[..k] {
        if i > 1 {
          assert w[i] == rest[i - 1] && rest[i - 1] in finished[..m];
        }
      }
      assert finished[k] !in finished[..k];
    }
  }

  /** The two colours: `active` while a config's body is being processed, `validated` once it has been. */
  class Checker {
    const files: Files
    const roots: set<Path>
    var violations: seq<Violation>
    var validated: set<Path>
    var active: set<Path>
    ghost var stack: seq<Path>
    ghost var finished: seq<Path>
    ghost var entered: seq<Path>

    /**
     `active` is the current path of the depth-first walk and shares nothing with `validated`; each
     config that was opened was opened once; and a recorded cycle is a real one.
     */
    ghost predicate Valid()
      reads this
    {
      && Resolved(files) && active <= files.Keys && validated <= files.Keys
      && active !! validated
      && Listed(stack, active) && Listed(finished, validated) && Listed(entered, active + validated)
      && (stack != [] ==> Walk(files, stack) && stack[0] in roots)
      && (Records(violations) ==> CycleFrom(files, roots))
      && (!Records(violations) ==> Postorder(files, finished))
      && (forall p | p in active + validated :: Reachable(files, roots, p))
      && (forall p, t | p in validated && HasEdge(files, p, t) :: t in active + validated)
      && Findings()
    }

    /** Every finding is due to a config that was opened, and those of a validated config are all there. */
    ghost predicate Findings()
      requires active <= files.Keys && validated <= files.Keys
      reads this
    {
      && (forall v | v in violations && !v.ExtendsCycle? ::
            v.path in active + validated && Reports(v.path, files[v.path], v))
      && (forall p, v | p in validated && Reports(p, files[p], v) :: v in violations)
    }

    constructor (files: Files, roots: set<Path>)
      requires Resolved(files)
      ensures this.files == files && this.roots == roots
      ensures Valid() && violations == [] && validated == {} && active == {}
    {
      this.files, this.roots := files, roots;
      violations, validated, active := [], {}, {};
      stack, finished, entered := [], [], [];
    }

    method Record(v: Violation)
      requires Valid() && (v.ExtendsCycle? ==> CycleFrom(files, roots))
      requires v.ExtendsCycle? || (v.path in active && Reports(v.path, files[v.path], v))
      modifies this`violations
      ensures Valid() && violations == old(violations) + [v]
    {
      violations := violations + [v];
      assert forall i | 0 <= i < |old(violations)| :: violations[i] == old(violations)[i];
    }

    /** Opens a config's body: it joins the current path. */
    method Open(path: Path)
      requires Valid() && path in files && path !in active && path !in validated
      requires if stack == [] then path in roots else HasEdge(files, stack[|stack| - 1], path)
      modifies this`active, this`stack, this`entered
      ensures Valid() && active == old(active) + {path} && stack == old(stack) + [path]
    {
      hide Reports, HasEdge, Walk, CycleFrom, Records, Resolved, Listed, NoRepeats, Postorder;
      ListedGrows(stack, active, path);
      ListedGrows(entered, active + validated, path);
      assert active + {path} + validated == active + validated + {path};
      WalkGrows(files, stack, path);
      assert (stack + [path])[0] in roots && Reachable(files, roots, path);
      active := active + {path};
      stack := stack + [path];
      entered := entered + [path];
    }

    lemma TopIsActive()
      requires Valid() && stack != []
      ensures stack[|stack| - 1] in active && stack[|stack| - 1] !in validated
    {
    }

    /** Closes the config at the end of the current path. */
    method Close(path: Path)
      requires Valid() && stack != [] && stack[|stack| - 1] == path
      requires Records(violations) || forall t | HasEdge(files, path, t) :: t in validated
      requires forall t | HasEdge(files, path, t) :: t in active + validated
      requires forall v | Reports(path, files[path], v) :: v in violations
      modifies this`active, this`validated, this`stack, this`finished
      ensures Valid() && stack == old(stack)[..|old(stack)| - 1]
      ensures active == old(active) - {path} && validated == old(validated) + {path}
    {
      hide Reports, HasEdge, Walk, Reachable, CycleFrom, Records, Resolved, Listed, NoRepeats, Postorder;
      TopIsActive();
      StackPops(files, stack, active);
      ListedGrows(finished, validated, path);
      if !Records(violations) {
        PostorderGrows(files, finished, path, validated);
      }
      active := active - {path};
      validated := validated + {path};
      stack := stack[..|stack| - 1];
      finished := finished + [path];
      assert active + validated == old(active + validated);
    }

    /** `validate`: the config ends up validated, unless it is being processed already: then that is a cycle. */
    method Validate(path: Path)
      requires Valid() && path in files
      requires if stack == [] then path in roots else HasEdge(files, stack[|stack| - 1], path)
      modifies this
      ensures Valid() && active == old(active) && stack == old(stack)
      ensures old(validated) <= validated && old(violations) <= violations
      ensures path in active + validated && (path in validated || Records(violations))
      decreases files.Keys - active, 1
    {
      hide Reports, HasEdge, Walk, Reachable, CycleFrom, Resolved, Listed, NoRepeats, Postorder;
      if path in validated { return; }
      if path in active {
        ComesAround(files, roots, stack, active, path);
        Record(ExtendsCycle(path));
        assert violations[|violations| - 1].ExtendsCycle?;
        return;
      }
      Open(path);
      var config := files[path];
      if config.Unparsable? {
        RecordInvalid(path);
        Close(path);
        return;
      }
      ValidateParents(path);
      ValidateOther(path);
      Close(path);
    }

    method RecordInvalid(path: Path)
      requires Valid() && path in active && files[path].Unparsable?
      modifies this`violations
      ensures Valid() && old(violations) <= violations
      ensures forall v | Reports(path, files[path], v) :: v in violations
      ensures forall t :: !HasEdge(files, path, t)
    {
      Record(InvalidJsonc(path));
      assert violations[|violations| - 1] == InvalidJsonc(path);
    }

    /** The remaining fields, after the `extends` entries. */
    method ValidateOther(path: Path)
      requires Valid() && path in active && files[path].Parsed?
      modifies this`violations
      ensures Valid() && old(violations) <= violations
      ensures forall v | Reports(path, files[path], v) && v.Other? :: v in violations
    {
      hide HasEdge, Walk, Reachable, CycleFrom, Records, Resolved, Listed, NoRepeats, Postorder;
      var other := files[path].other;
      var index := 0;
      while index < |other|
        invariant 0 <= index <= |other| && Valid() && old(violations) <= violations
        invariant forall i | 0 <= i < index :: Other(path, other[i]) in violations
      {
        Record(Other(path, other[index]));
        assert violations[|violations| - 1] == Other(path, other[index]);
        index := index + 1;
      }
    }

    /** The loop over `extends`. */
    method ValidateParents(path: Path)
      requires Valid() && path in files && stack != [] && stack[|stack| - 1] == path && files[path].Parsed?
      modifies this
      ensures Valid() && active == old(active) && stack == old(stack)
      ensures old(validated) <= validated && old(violations) <= violations
      ensures Records(violations) || forall t | HasEdge(files, path, t) :: t in validated
      ensures forall t | HasEdge(files, path, t) :: t in active + validated
      ensures forall v | Reports(path, files[path], v) && !v.Other? :: v in violations
      decreases files.Keys - active, 2
    {
      hide HasEdge, Walk, Reachable, CycleFrom, Records, Resolved, Listed, NoRepeats, Postorder, Reports;
      hide Followed, Stands;
      var config := files[path];
      TopIsActive();
      if config.parents.Malformed? {
        RecordInvalidExtends(path);
      }
      var entries := Followed(config.parents);
      var index := 0;
      while index < |entries|
        invariant 0 <= index <= |entries|
        invariant Valid() && active == old(active) && stack == old(stack)
        invariant old(validated) <= validated && old(violations) <= violations
        invariant config.parents.Malformed? ==> InvalidExtends(path) in violations
        invariant forall i | 0 <= i < index :: Handled(path, entries[i])
        decreases |entries| - index
      {
        ghost var before := violations;
        FollowedIff(config, entries[index]);
        ValidateEntry(path, entries[index]);
        Extended(before, violations);
        index := index + 1;
      }
      AllHandled(path);
    }

    method RecordInvalidExtends(path: Path)
      requires Valid() && path in active && files[path].Parsed? && files[path].parents.Malformed?
      modifies this`violations
      ensures Valid() && old(violations) <= violations && InvalidExtends(path) in violations
    {
      Record(InvalidExtends(path));
      assert violations[|violations| - 1] == InvalidExtends(path);
    }

    lemma AllHandled(path: Path)
      requires path in files && files[path].Parsed?
      requires files[path].parents.Malformed? ==> InvalidExtends(path) in violations
      requires forall i | 0 <= i < |Followed(files[path].parents)| :: Handled(path, Followed(files[path].parents)[i])
      ensures forall t | HasEdge(files, path, t) :: t in active + validated && (Records(violations) || t in validated)
      ensures forall v | Reports(path, files[path], v) && !v.Other? :: v in violations
    {
      forall entry | Stands(files[path], entry) ensures Handled(path, entry) {
        FollowedIff(files[path], entry);
      }
      forall t | HasEdge(files, path, t)
        ensures t in active + validated && (Records(violations) || t in validated)
      {
        assert Handled(path, Edge(t));
      }
      forall v | Reports(path, files[path], v) && !v.Other? ensures v in violations {
        match v
        case DynamicExtends(_) => assert Handled(path, Dynamic);
        case EscapesWeb(_, target) => assert Handled(path, Escapes(target));
        case NoSuchFile(_, target) => assert Handled(path, Missing(target));
        case _ =>
      }
    }

    /** One entry is dealt with: followed or reported. */
    ghost predicate Handled(path: Path, entry: Extends)
      reads this
    {
      match entry
      case Dynamic => DynamicExtends(path) in violations
      case Package => true
      case Escapes(target) => EscapesWeb(path, target) in violations
      case Missing(target) => NoSuchFile(path, target) in violations
      case Edge(target) => target in active + validated && (Records(violations) || target in validated)
    }

    method ValidateEntry(path: Path, entry: Extends)
      requires Valid() && path in files && stack != [] && stack[|stack| - 1] == path
      requires Stands(files[path], entry)
      modifies this
      ensures Valid() && active == old(active) && stack == old(stack)
      ensures old(validated) <= validated && old(violations) <= violations
      ensures Handled(path, entry)
      decreases files.Keys - active, 2, 0
    {
      hide Walk, Reachable, CycleFrom, Records, Listed, NoRepeats, Postorder;
      TopIsActive();
      match entry
      case Dynamic =>
        Record(DynamicExtends(path));
        assert violations[|violations| - 1] == DynamicExtends(path);
      case Package =>
      case Escapes(target) =>
        Record(EscapesWeb(path, target));
        assert violations[|violations| - 1] == EscapesWeb(path, target);
      case Missing(target) =>
        Record(NoSuchFile(path, target));
        assert violations[|violations| - 1] == NoSuchFile(path, target);
      case Edge(target) =>
        assert HasEdge(files, path, target);
        Validate(target);
    }
  }

  lemma Extended(before: seq<Violation>, after: seq<Violation>)
    requires before <= after
    ensures Records(before) ==> Records(after)
    ensures forall v | v in before :: v in after
  {
    assert forall i | 0 <= i < |before| :: after[i] == before[i];
  }

  lemma WalkGrows(files: Files, stack: seq<Path>, path: Path)
    requires stack != [] ==> Walk(files, stack) && HasEdge(files, stack[|stack| - 1], path)
    ensures Walk(files, stack + [path])
  {
    var w := stack + [path];
    forall i | 0 <= i < |w| - 1 ensures HasEdge(files, w[i], w[i + 1]) {
      if i < |stack| - 1 {
        assert HasEdge(files, stack[i], stack[i + 1]);
      }
    }
  }

  lemma ComesAround(files: Files, roots: set<Path>, stack: seq<Path>, active: set<Path>, path: Path)
    requires Listed(stack, active) && path in active
    requires stack != [] ==> Walk(files, stack) && stack[0] in roots && HasEdge(files, stack[|stack| - 1], path)
    ensures CycleFrom(files, roots)
  {
    var w := stack + [path];
    WalkGrows(files, stack, path);
    var k :| 0 <= k < |stack| && stack[k] == path;
    assert w[k] == w[|stack|] && w[0] == stack[0];
  }

  lemma StackPops(files: Files, stack: seq<Path>, active: set<Path>)
    requires stack != [] && Listed(stack, active) && Walk(files, stack)
    ensures var rest := stack[..|stack| - 1];
            Listed(rest, active - {stack[|stack| - 1]}) && (rest != [] ==> Walk(files, rest) && rest[0] == stack[0])
  {
    var rest := stack[..|stack| - 1];
    forall i | 0 <= i < |rest| - 1 ensures HasEdge(files, rest[i], rest[i + 1]) {
      assert HasEdge(files, stack[i], stack[i + 1]);
    }
    assert stack == rest + [stack[|stack| - 1]];
  }

  lemma ListedGrows(s: seq<Path>, names: set<Path>, p: Path)
    requires Listed(s, names) && p !in names
    ensures Listed(s + [p], names + {p})
  {
  }

  lemma PostorderGrows(files: Files, finished: seq<Path>, path: Path, validated: set<Path>)
    requires Postorder(files, finished) && Listed(finished, validated)
    requires forall t | HasEdge(files, path, t) :: t in validated
    ensures Postorder(files, finished + [path])
  {
    var more := finished + [path];
    forall i, t | 0 <= i < |more| && HasEdge(files, more[i], t) ensures t in more[..i] {
      if i < |finished| {
        assert more[..i] == finished[..i];
      } else {
        assert more[..i] == finished;
      }
    }
  }

  // ---------- the loop over the config files ----------

  /**
   A cycle is recorded exactly when the edges reachable from the roots have one; the validated configs
   are exactly the reachable ones, each body was processed once, and the remaining findings are exactly
   those of the reachable configs.
   */
  method CheckConfigs(files: Files, roots: seq<Path>) returns (checker: Checker)
    requires Resolved(files) && forall r | r in roots :: r in files
    ensures checker.Valid() && checker.files == files && checker.active == {}
    ensures Records(checker.violations) <==> CycleFrom(files, Names(roots))
    ensures forall p :: p in checker.validated <==> Reachable(files, Names(roots), p)
    ensures NoRepeats(checker.entered) && Listed(checker.entered, checker.validated)
    ensures forall v: Violation | !v.ExtendsCycle? ::
              v in checker.violations <==>
              v.path in files && Reachable(files, Names(roots), v.path) && Reports(v.path, files[v.path], v)
  {
    hide Reports, HasEdge, Walk, Reachable, CycleFrom, Postorder, NoRepeats, Records;
    checker := new Checker(files, Names(roots));
    var index := 0;
    while index < |roots|
      invariant 0 <= index <= |roots| && fresh(checker)
      invariant checker.files == files && checker.roots == Names(roots)
      invariant checker.Valid() && checker.active == {} && checker.stack == []
      invariant forall i | 0 <= i < index :: roots[i] in checker.validated
    {
      checker.Validate(roots[index]);
      index := index + 1;
    }
    if !Records(checker.violations) {
      NoCycleFrom(files, checker.roots, checker.finished, checker.validated);
    }
    assert checker.active + checker.validated == checker.validated;
    ReachableInside(files, checker.roots, checker.validated);
  }

  lemma ReachableInside(files: Files, roots: set<Path>, inside: set<Path>)
    requires roots <= inside && forall p, t | p in inside && HasEdge(files, p, t) :: t in inside
    ensures forall p | Reachable(files, roots, p) :: p in inside
  {
    forall p | Reachable(files, roots, p) ensures p in inside {
      var w :| Walk(files, w) && w[0] in roots && w[|w| - 1] == p;
      StaysInside(files, inside, w, |w| - 1);
    }
  }

  lemma {:induction false} StaysInside(files: Files, inside: set<Path>, w: seq<Path>, k: nat)
    requires Walk(files, w) && w[0] in inside && k < |w|
    requires forall p, t | p in inside && HasEdge(files, p, t) :: t in inside
    ensures w[k] in inside
  {
    if k > 0 {
      StaysInside(files, inside, w, k - 1);
      assert HasEdge(files, w[k - 1], w[k - 1 + 1]);
    }
  }

  lemma NoCycleFrom(files: Files, roots: set<Path>, finished: seq<Path>, validated: set<Path>)
    requires Postorder(files, finished) && Listed(finished, validated) && roots <= validated
    ensures !CycleFrom(files, roots)
  {
    forall w | Walk(files, w) && w[0] in roots ensures NoRepeats(w) {
      assert w[0] in finished;
      var k :| 0 <= k < |finished| && finished[k] == w[0];
      FinishedDescends(files, finished, w, k);
    }
  }
}

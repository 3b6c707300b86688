/** The resolution engine of AbstractModuleRegistry, stated as functions over the
    registry's three tables. The class Registry.ModuleRegistry runs the same steps
    imperatively and is proved to compute exactly these functions; the lemmas here
    state what a resolution does to the tables and what it returns. */
module Resolution {
  import opened Wrappers
  import opened Metadata

  /** The registry's tables: theModules (descriptor to instance),
      theForwardRuntimeDependencies (instance to one slot per requirement, None for
      null), theRuntimeUses (instance to the instances using it; the stored array
      itself may be null) and the allocation counter that gives new modules their identity. */
  datatype Tables = Tables(
    modules: map<Meta, Module>,
    forward: map<Module, seq<Option<Module>>>,
    uses: map<Module, Option<seq<Module>>>,
    nextId: nat)

  /** The outcome of trying the candidates for one requirement: a module, no candidate
      worked (with the failure to chain, if one was recorded), or an exception that the
      candidate loop does not catch. */
  datatype Attempt = Found(dep: Module) | Exhausted(chained: Option<Failure>) | Aborted(failure: Failure)

  // ---------------------------------------------------------------------------
  // resolve( meta, recursive )
  // ---------------------------------------------------------------------------

  /** resolve(meta, recursive): the new tables and the module or the exception. */
  ghost function Resolve(env: Env, t: Tables, meta: Option<Meta>, recursive: bool): (Tables, Result<Module, Failure>)
    requires Ranked(env)
  {
    if meta.None? then (t, Failure(NullMeta)) else ResolveMeta(env, t, meta.value, recursive)
  }

  /** resolve for a non-null descriptor: the cached module if there is one; otherwise
      resolve the requirements (when recursive), then create and register the module. */
  ghost function ResolveMeta(env: Env, t: Tables, m: Meta, recursive: bool): (Tables, Result<Module, Failure>)
    requires Ranked(env)
    decreases env.depth(m), 2, 0
  {
    if m in t.modules then (t, Success(t.modules[m]))
    else
      var (t1, deps) := if recursive then ResolveReqs(env, t, m, 0, []) else (t, Success([]));
      if deps.Failure? then (t1, Failure(deps.error))
      else Create(env, t1, m, recursive, deps.value)
  }

  /** The loop over the requirements from index i on; `acc` holds the slots of the
      requirements before i. */
  ghost function ResolveReqs(env: Env, t: Tables, m: Meta, i: nat, acc: seq<Option<Module>>): (Tables, Result<seq<Option<Module>>, Failure>)
    requires Ranked(env) && i <= |m.reqs|
    decreases env.depth(m), 1, |m.reqs| - i
  {
    if i == |m.reqs| then (t, Success(acc))
    else
      var (t1, a) := TryCandidates(env, t, m, i, 0, None);
      match a
      case Found(d) => ResolveReqs(env, t1, m, i + 1, acc + [Some(d)])
      case Exhausted(chained) =>
        if m.reqs[i].optional then ResolveReqs(env, t1, m, i + 1, acc + [None])
        else (t1, Failure(Unresolved(m, m.reqs[i], chained)))
      case Aborted(f) => (t1, Failure(f))
  }

  /** The loop over the candidates of requirement i from index j on: the first candidate
      whose recursive resolution succeeds wins; a caught failure is remembered (for a
      non-optional requirement) and the next candidate is tried. */
  ghost function TryCandidates(env: Env, t: Tables, m: Meta, i: nat, j: nat, chained: Option<Failure>): (Tables, Attempt)
    requires Ranked(env) && i < |m.reqs| && j <= |env.candidates(m.reqs[i])|
    decreases env.depth(m), 0, |env.candidates(m.reqs[i])| - j
  {
    var cands := env.candidates(m.reqs[i]);
    if j == |cands| then (t, Exhausted(chained))
    else
      var (t1, r) := ResolveMeta(env, t, cands[j], true);
      match r
      case Success(d) => (t1, Found(d))
      case Failure(f) =>
        if Caught(f) then TryCandidates(env, t1, m, i, j + 1, if m.reqs[i].optional then chained else Some(f))
        else (t1, Aborted(f))
  }

  /** createModule, then registration: theModules, and for a recursive resolve the
      forward slots and the uses of every non-null dependency (AddUses). */
  ghost function Create(env: Env, t: Tables, m: Meta, recursive: bool, deps: seq<Option<Module>>): (Tables, Result<Module, Failure>)
  {
    match env.create(m)
    case NullInstance => (t, Failure(NullModule(m)))
    case NotFoundError => (t, Failure(NotFound(m)))
    case RuntimeError => (t, Failure(CreateCrashed(m)))
    case Instance =>
      var ret := Module(t.nextId, m);
      var modules := t.modules[m := ret];
      if recursive then (Tables(modules, t.forward[ret := deps], AddUses(t.uses, deps, ret), t.nextId + 1), Success(ret))
      else (Tables(modules, t.forward, t.uses, t.nextId + 1), Success(ret))
  }

  // ---------------------------------------------------------------------------
  // The uses table
  // ---------------------------------------------------------------------------

  /** theRuntimeUses.get(d): null both for a missing key and for a stored null. */
  function LookupUses(uses: map<Module, Option<seq<Module>>>, d: Module): Option<seq<Module>> {
    if d in uses then uses[d] else None
  }

  /** The array the source stores for a dependency whose uses were `old`: a fresh
      one-element array when there was none, the earlier entries followed by `ret` when
      `ret` is not among them, and null (newUses is never assigned) when it is. */
  function NewUses(before: Option<seq<Module>>, ret: Module): Option<seq<Module>> {
    match before
    case None => Some([ret])
    case Some(list) => if ret in list then None else Some(list + [ret])
  }

  /** The update loop over the dependency slots, left to right; null slots are skipped. */
  function AddUses(uses: map<Module, Option<seq<Module>>>, deps: seq<Option<Module>>, ret: Module): map<Module, Option<seq<Module>>>
    decreases |deps|
  {
    if deps == [] then uses
    else
      var next := if deps[0].Some? then uses[deps[0].value := NewUses(LookupUses(uses, deps[0].value), ret)] else uses;
      AddUses(next, deps[1..], ret)
  }

  /** How many slots hold module d. */
  function Occurrences(deps: seq<Option<Module>>, d: Module): nat {
    if deps == [] then 0 else (if deps[0] == Some(d) then 1 else 0) + Occurrences(deps[1..], d)
  }

  /** The effect of the uses update on one module d, when `ret` was not among d's
      users before: d's entry is untouched when d is no dependency; it gains `ret` at the
      end when d fills an odd number of slots; and it is null when d fills an even,
      non-zero number of slots, because the second occurrence stores null. */
  lemma {:induction false} AddUsesEffect(uses: map<Module, Option<seq<Module>>>, deps: seq<Option<Module>>, ret: Module, d: Module)
    requires LookupUses(uses, d).Some? ==> ret !in LookupUses(uses, d).value
    ensures var after := AddUses(uses, deps, ret);
      && (Occurrences(deps, d) == 0 ==> LookupUses(after, d) == LookupUses(uses, d) && (d in after <==> d in uses))
      && (Occurrences(deps, d) % 2 == 1 ==> d in after && after[d].Some? && ret in after[d].value)
      && (Occurrences(deps, d) == 1 ==> after[d] == Some(if d in uses && uses[d].Some? then uses[d].value + [ret] else [ret]))
      && (Occurrences(deps, d) > 0 && Occurrences(deps, d) % 2 == 0 ==> d in after && after[d] == None)
    decreases |deps|
  {
    if deps != [] {
      var next := if deps[0].Some? then uses[deps[0].value := NewUses(LookupUses(uses, deps[0].value), ret)] else uses;
      assert AddUses(uses, deps, ret) == AddUses(next, deps[1..], ret);
      if deps[0] == Some(d) {
        // this occurrence appends ret; from here on each occurrence flips between null and a list with ret
        assert next[d] == Some(if d in uses && uses[d].Some? then uses[d].value + [ret] else [ret]);
        AddUsesAfterPresent(next, deps[1..], ret, d);
      } else {
        assert LookupUses(next, d) == LookupUses(uses, d) && (d in next <==> d in uses);
        AddUsesEffect(next, deps[1..], ret, d);
      }
    }
  }

  /** The other half of the parity argument: once `ret` is among d's users, an even
      number of further occurrences of d keeps it there and an odd number leaves null. */
  lemma {:induction false} AddUsesAfterPresent(uses: map<Module, Option<seq<Module>>>, deps: seq<Option<Module>>, ret: Module, d: Module)
    requires d in uses && uses[d].Some? && ret in uses[d].value
    ensures var after := AddUses(uses, deps, ret);
      && d in after
      && (Occurrences(deps, d) % 2 == 0 ==> after[d].Some? && ret in after[d].value)
      && (Occurrences(deps, d) == 0 ==> after[d] == uses[d])
      && (Occurrences(deps, d) % 2 == 1 ==> after[d] == None)
    decreases |deps|
  {
    if deps != [] {
      var next := if deps[0].Some? then uses[deps[0].value := NewUses(LookupUses(uses, deps[0].value), ret)] else uses;
      assert AddUses(uses, deps, ret) == AddUses(next, deps[1..], ret);
      if deps[0] == Some(d) {
        assert next[d] == None;
        AddUsesEffect(next, deps[1..], ret, d);
      } else {
        assert next[d] == uses[d];
        AddUsesAfterPresent(next, deps[1..], ret, d);
      }
    }
  }

  // ---------------------------------------------------------------------------
  // Well-formed tables, and what a resolution does to them
  // ---------------------------------------------------------------------------

  /** d is the module registered for its own descriptor. */
  ghost predicate Registered(t: Tables, d: Module) {
    d.meta in t.modules && t.modules[d.meta] == d
  }

  /** A forward slot for requirement r: null only for an optional requirement, else a
      registered module created from one of r's candidates. */
  ghost predicate SlotOk(env: Env, t: Tables, r: Requirement, s: Option<Module>) {
    match s
    case None => r.optional
    case Some(d) => Registered(t, d) && d.meta in env.candidates(r)
  }

  /** The uses array of a module: null, or registered users only. */
  ghost predicate UsersOk(t: Tables, users: Option<seq<Module>>) {
    users.Some? ==> forall u :: u in users.value ==> Registered(t, u)
  }

  /** Every module is registered under its own descriptor and was allocated before nextId. */
  ghost predicate ModulesOk(t: Tables) {
    forall m :: m in t.modules ==> t.modules[m].meta == m && t.modules[m].id < t.nextId
  }

  /** Every forward array belongs to a registered module and is aligned with its
      requirement list, slot by slot. */
  ghost predicate ForwardOk(env: Env, t: Tables) {
    forall x :: x in t.forward ==> Registered(t, x) && AlignedSlots(env, t, x.meta.reqs, t.forward[x])
  }

  ghost predicate AlignedSlots(env: Env, t: Tables, reqs: seq<Requirement>, slots: seq<Option<Module>>) {
    |slots| == |reqs| && forall k :: 0 <= k < |reqs| ==> SlotOk(env, t, reqs[k], slots[k])
  }

  /** The uses table speaks only of registered modules. */
  ghost predicate UsesOk(t: Tables) {
    forall x :: x in t.uses ==> Registered(t, x) && UsersOk(t, t.uses[x])
  }

  /** The invariant of the three tables. */
  ghost predicate WellFormed(env: Env, t: Tables) {
    ModulesOk(t) && ForwardOk(env, t) && UsesOk(t)
  }

  /** t' keeps every registration and every forward array of t, keeps an entry (possibly
      null by now) for every module t has a uses entry for, and allocates on from t's
      counter. */
  ghost predicate Extends(t: Tables, t': Tables) {
    && t.nextId <= t'.nextId
    && (forall m :: m in t.modules ==> m in t'.modules && t'.modules[m] == t.modules[m])
    && (forall x :: x in t.forward ==> x in t'.forward && t'.forward[x] == t.forward[x])
    && (forall x :: x in t.uses ==> x in t'.uses)
  }

  /** Every descriptor registered in t' but not in t ranks below `bound`. */
  ghost predicate NewBelow(env: Env, t: Tables, t': Tables, bound: nat) {
    forall k :: k in t'.modules && k !in t.modules ==> env.depth(k) < bound
  }

  /** A failure the candidate loops catch, thrown by resolving descriptor c: createModule's
      ModuleNotFoundException for c, or a ModuleResolutionException naming c and one of its
      non-optional requirements, whose cause is null when that requirement has no
      candidate and otherwise, all the way down, such a failure of its last candidate. */
  ghost predicate CaughtChain(env: Env, c: Meta, f: Failure)
    decreases f
  {
    match f
    case NotFound(x) => x == c && env.create(c) == NotFoundError
    case Unresolved(x, req, cause) =>
      && x == c && req in c.reqs && !req.optional
      && (cause.None? <==> |env.candidates(req)| == 0)
      && (cause.Some? ==> |env.candidates(req)| > 0 && CaughtChain(env, env.candidates(req)[|env.candidates(req)| - 1], cause.value))
    case _ => false
  }

  /** The failure that a non-optional requirement with candidates `cands` chains, once
      j candidates have been tried: nothing before the first try, and afterwards a
      failure of candidate j-1, the last one tried. */
  ghost predicate ChainedSoFar(env: Env, cands: seq<Meta>, j: nat, chained: Option<Failure>) {
    j <= |cands| &&
    (chained.None? <==> j == 0) &&
    (chained.Some? ==> CaughtChain(env, cands[j - 1], chained.value))
  }

  /** An exhausted non-optional requirement chains a failure of its LAST candidate,
      and null exactly when it had no candidate at all. */
  ghost predicate LastCandidateCause(env: Env, cands: seq<Meta>, cause: Option<Failure>) {
    ChainedSoFar(env, cands, |cands|, cause)
  }

  lemma RegisteredKept(t: Tables, t': Tables)
    requires Extends(t, t')
    ensures forall d :: Registered(t, d) ==> Registered(t', d)
  {
  }

  lemma {:induction false} ExtendsTransitive(t: Tables, t': Tables, t'': Tables)
    requires Extends(t, t') && Extends(t', t'')
    ensures Extends(t, t'')
  {
  }

  /** The uses update only writes entries for the non-null dependencies, and writes registered users. */
  lemma {:induction false} AddUsesWellFormed(t: Tables, deps: seq<Option<Module>>, ret: Module, uses: map<Module, Option<seq<Module>>>)
    requires Registered(t, ret)
    requires forall k :: 0 <= k < |deps| && deps[k].Some? ==> Registered(t, deps[k].value)
    requires forall x :: x in uses ==> Registered(t, x) && UsersOk(t, uses[x])
    ensures var after := AddUses(uses, deps, ret);
      forall x :: x in after ==> Registered(t, x) && UsersOk(t, after[x])
    decreases |deps|
  {
    if deps != [] {
      var next := if deps[0].Some? then uses[deps[0].value := NewUses(LookupUses(uses, deps[0].value), ret)] else uses;
      assert forall x :: x in next ==> Registered(t, x) && UsersOk(t, next[x]);
      AddUsesWellFormed(t, deps[1..], ret, next);
    }
  }

  /** The uses update never drops a key, though it may store null under one. */
  lemma {:induction false} AddUsesKeepsKeys(uses: map<Module, Option<seq<Module>>>, deps: seq<Option<Module>>, ret: Module)
    ensures forall x :: x in uses ==> x in AddUses(uses, deps, ret)
    decreases |deps|
  {
    if deps != [] {
      var next := if deps[0].Some? then uses[deps[0].value := NewUses(LookupUses(uses, deps[0].value), ret)] else uses;
      AddUsesKeepsKeys(next, deps[1..], ret);
    }
  }

  /** Aligned slots stay aligned when the tables grow. */
  lemma AlignedKept(env: Env, t: Tables, t': Tables, reqs: seq<Requirement>, slots: seq<Option<Module>>)
    requires Extends(t, t') && AlignedSlots(env, t, reqs, slots)
    ensures AlignedSlots(env, t', reqs, slots)
  {
    forall k | 0 <= k < |reqs| ensures SlotOk(env, t', reqs[k], slots[k]) {
      assert SlotOk(env, t, reqs[k], slots[k]);
    }
  }

  /** Registering a new module for m keeps the tables well-formed. */
  lemma RegisterFacts(env: Env, t: Tables, m: Meta, recursive: bool, deps: seq<Option<Module>>)
    requires WellFormed(env, t) && m !in t.modules && env.create(m).Instance?
    requires recursive ==> AlignedSlots(env, t, m.reqs, deps)
    ensures var (t', r) := Create(env, t, m, recursive, deps);
      && WellFormed(env, t') && Extends(t, t') && t'.modules == t.modules[m := Module(t.nextId, m)]
  {
    var ret := Module(t.nextId, m);
    var (t', r) := Create(env, t, m, recursive, deps);
    assert t'.modules == t.modules[m := ret];
    assert ModulesOk(t');
    assert ret !in t.forward;
    if recursive {
      AddUsesKeepsKeys(t.uses, deps, ret);
    }
    assert Extends(t, t');
    RegisteredKept(t, t');
    assert ForwardOk(env, t') by {
      forall x | x in t'.forward ensures Registered(t', x) && AlignedSlots(env, t', x.meta.reqs, t'.forward[x]) {
        if x == ret {
          AlignedKept(env, t, t', m.reqs, deps);
        } else {
          AlignedKept(env, t, t', x.meta.reqs, t.forward[x]);
        }
      }
    }
    assert UsesOk(t') by {
      if recursive {
        forall k | 0 <= k < |deps| && deps[k].Some? ensures Registered(t', deps[k].value) {
          assert SlotOk(env, t, m.reqs[k], deps[k]);
        }
        AddUsesWellFormed(t', deps, ret, t.uses);
      }
    }
  }

  /** Registration after createModule: the tables stay well-formed and grow by the new
      module only; a failure registers nothing and is caught only when it is
      createModule's ModuleNotFoundException. */
  lemma CreateFacts(env: Env, t: Tables, m: Meta, recursive: bool, deps: seq<Option<Module>>)
    requires WellFormed(env, t) && m !in t.modules
    requires recursive ==> AlignedSlots(env, t, m.reqs, deps)
    ensures var (t', r) := Create(env, t, m, recursive, deps);
      && WellFormed(env, t') && Extends(t, t') && NewBelow(env, t, t', env.depth(m) + 1)
      && (r.Success? ==> (r.value == Module(t.nextId, m) && Registered(t', r.value)
            && (recursive ==> r.value in t'.forward && t'.forward[r.value] == deps)))
      && (r.Failure? ==> t' == t && (!Caught(r.error) || (r.error == NotFound(m) && CaughtChain(env, m, r.error))))
  {
    if env.create(m).Instance? {
      RegisterFacts(env, t, m, recursive, deps);
    }
  }

  /** The slots filled so far for the first |acc| requirements. */
  ghost predicate PrefixSlots(env: Env, t: Tables, reqs: seq<Requirement>, acc: seq<Option<Module>>) {
    |acc| <= |reqs| && forall k :: 0 <= k < |acc| ==> SlotOk(env, t, reqs[k], acc[k])
  }

  lemma PrefixKept(env: Env, t: Tables, t': Tables, reqs: seq<Requirement>, acc: seq<Option<Module>>)
    requires Extends(t, t') && PrefixSlots(env, t, reqs, acc)
    ensures PrefixSlots(env, t', reqs, acc)
  {
    forall k | 0 <= k < |acc| ensures SlotOk(env, t', reqs[k], acc[k]) {
      assert SlotOk(env, t, reqs[k], acc[k]);
    }
  }

  /** The ModuleResolutionException that resolving m throws: it names m and one of m's
      non-optional requirements, and chains the failure of that requirement's last
      candidate (null when the requirement had no candidate). */
  ghost predicate WellChained(env: Env, m: Meta, f: Failure) {
    f.Unresolved? && CaughtChain(env, m, f)
  }

  /** What resolve(m, recursive) does, for every descriptor graph without cycles:
      - the tables stay well-formed, keep every registration and forward array, and
        gain only descriptors that rank no higher than m;
      - a descriptor already registered returns its module and changes no table;
      - a success returns the module registered for m; a new one is fresh and, when the
        resolve was recursive, has its forward array;
      - a failure leaves m unregistered but keeps the dependencies it registered on the
        way, all ranked below m; a failure the candidate loops would catch is well
        chained (`CaughtChain`) all the way down from m. */
  lemma {:induction false} ResolveMetaFacts(env: Env, t: Tables, m: Meta, recursive: bool)
    requires Ranked(env) && WellFormed(env, t)
    ensures var (t', r) := ResolveMeta(env, t, m, recursive);
      && WellFormed(env, t') && Extends(t, t') && NewBelow(env, t, t', env.depth(m) + 1)
      && (m in t.modules ==> t' == t && r == Success(t.modules[m]))
      && (r.Success? ==> r.value.meta == m && Registered(t', r.value))
      && (r.Success? && m !in t.modules ==> r.value.id >= t.nextId && (recursive ==> r.value in t'.forward))
      && (r.Failure? ==> m !in t'.modules && NewBelow(env, t, t', env.depth(m)))
      && (r.Failure? && Caught(r.error) ==> CaughtChain(env, m, r.error))
    decreases env.depth(m), 2, 0
  {
    if m !in t.modules {
      if recursive {
        ResolveReqsFacts(env, t, m, 0, []);
        var (t1, deps) := ResolveReqs(env, t, m, 0, []);
        if deps.Success? {
          CreateFacts(env, t1, m, true, deps.value);
          var (t2, r) := Create(env, t1, m, true, deps.value);
          ExtendsTransitive(t, t1, t2);
        }
      } else {
        CreateFacts(env, t, m, false, []);
      }
    }
  }

  /** The requirement loop: well-formed growth below m's rank, a full aligned forward
      array on success; on a failure the modules found for the earlier requirements stay
      registered, and a caught failure is a well-chained ModuleResolutionException. */
  lemma {:induction false} ResolveReqsFacts(env: Env, t: Tables, m: Meta, i: nat, acc: seq<Option<Module>>)
    requires Ranked(env) && WellFormed(env, t) && i <= |m.reqs|
    requires |acc| == i && PrefixSlots(env, t, m.reqs, acc)
    ensures var (t', r) := ResolveReqs(env, t, m, i, acc);
      && WellFormed(env, t') && Extends(t, t') && NewBelow(env, t, t', env.depth(m))
      && (r.Success? ==> AlignedSlots(env, t', m.reqs, r.value) && r.value[..i] == acc)
      && (r.Failure? ==> forall k :: 0 <= k < |acc| && acc[k].Some? ==> Registered(t', acc[k].value))
      && (r.Failure? && Caught(r.error) ==> WellChained(env, m, r.error))
    decreases env.depth(m), 1, |m.reqs| - i
  {
    if i < |m.reqs| {
      TryCandidatesFacts(env, t, m, i, 0, None);
      var (t1, a) := TryCandidates(env, t, m, i, 0, None);
      PrefixKept(env, t, t1, m.reqs, acc);
      match a
      case Found(d) =>
        ResolveReqsFacts(env, t1, m, i + 1, acc + [Some(d)]);
        var (t2, r) := ResolveReqs(env, t1, m, i + 1, acc + [Some(d)]);
        ExtendsTransitive(t, t1, t2);
        assert (acc + [Some(d)])[..i] == acc;
      case Exhausted(chained) =>
        if m.reqs[i].optional {
          ResolveReqsFacts(env, t1, m, i + 1, acc + [None]);
          var (t2, r) := ResolveReqs(env, t1, m, i + 1, acc + [None]);
          ExtendsTransitive(t, t1, t2);
          assert (acc + [None])[..i] == acc;
        } else {
          TryCandidatesChain(env, t, m, i, 0, None);
        }
      case Aborted(f) =>
    }
  }

  /** The candidate loop: the tables stay well-formed and grow below m's rank; the
      module found was created from one of the requirement's candidates; an abort is
      never a caught exception. */
  lemma {:induction false} TryCandidatesFacts(env: Env, t: Tables, m: Meta, i: nat, j: nat, chained: Option<Failure>)
    requires Ranked(env) && WellFormed(env, t) && i < |m.reqs| && j <= |env.candidates(m.reqs[i])|
    ensures var (t', a) := TryCandidates(env, t, m, i, j, chained);
      && WellFormed(env, t') && Extends(t, t') && NewBelow(env, t, t', env.depth(m))
      && (a.Found? ==> Registered(t', a.dep) && a.dep.meta in env.candidates(m.reqs[i])[j..])
      && (a.Aborted? ==> !Caught(a.failure))
    decreases env.depth(m), 0, |env.candidates(m.reqs[i])| - j
  {
    var cands := env.candidates(m.reqs[i]);
    if j < |cands| {
      var c := cands[j];
      assert env.depth(c) < env.depth(m);
      ResolveMetaFacts(env, t, c, true);
      var (t1, r) := ResolveMeta(env, t, c, true);
      assert NewBelow(env, t, t1, env.depth(m));
      assert WellFormed(env, t1);
      if r.Success? {
        assert TryCandidates(env, t, m, i, j, chained) == (t1, Found(r.value));
        assert cands[j..][0] == c;
      } else if !Caught(r.error) {
        assert TryCandidates(env, t, m, i, j, chained) == (t1, Aborted(r.error));
      } else {
        var next := if m.reqs[i].optional then chained else Some(r.error);
        TryCandidatesFacts(env, t1, m, i, j + 1, next);
        var (t2, a) := TryCandidates(env, t1, m, i, j + 1, next);
        assert TryCandidates(env, t, m, i, j, chained) == (t2, a);
        assert WellFormed(env, t2);
        ExtendsTransitive(t, t1, t2);
        assert NewBelow(env, t, t2, env.depth(m));
        if a.Found? {
          assert cands[j..] == [c] + cands[j + 1..];
        }
      }
    }
  }

  /** The candidate loop chains the failure of the last candidate tried, a failure
      that is itself well chained, when the requirement is exhausted and not optional;
      an optional requirement chains nothing. */
  lemma {:induction false} TryCandidatesChain(env: Env, t: Tables, m: Meta, i: nat, j: nat, chained: Option<Failure>)
    requires Ranked(env) && WellFormed(env, t) && i < |m.reqs| && j <= |env.candidates(m.reqs[i])|
    requires if m.reqs[i].optional then chained.None? else ChainedSoFar(env, env.candidates(m.reqs[i]), j, chained)
    ensures var a := TryCandidates(env, t, m, i, j, chained).1;
      a.Exhausted? ==> if m.reqs[i].optional then a.chained.None? else LastCandidateCause(env, env.candidates(m.reqs[i]), a.chained)
    decreases env.depth(m), 0, |env.candidates(m.reqs[i])| - j
  {
    var cands := env.candidates(m.reqs[i]);
    if j < |cands| {
      var c := cands[j];
      assert env.depth(c) < env.depth(m);
      ResolveMetaFacts(env, t, c, true);
      var (t1, r) := ResolveMeta(env, t, c, true);
      if r.Failure? && Caught(r.error) {
        var next := if m.reqs[i].optional then chained else Some(r.error);
        assert TryCandidates(env, t, m, i, j, chained) == TryCandidates(env, t1, m, i, j + 1, next);
        TryCandidatesChain(env, t1, m, i, j + 1, next);
      }
    }
  }

  /** resolve(meta, recursive) at the entry point: a null descriptor throws and changes
      nothing; otherwise the facts of ResolveMetaFacts hold. */
  lemma ResolveFacts(env: Env, t: Tables, meta: Option<Meta>, recursive: bool)
    requires Ranked(env) && WellFormed(env, t)
    ensures var (t', r) := Resolve(env, t, meta, recursive);
      && WellFormed(env, t') && Extends(t, t')
      && (meta.None? ==> t' == t && r == Failure(NullMeta))
      && (meta.Some? && meta.value in t.modules ==> t' == t && r == Success(t.modules[meta.value]))
      && (meta.Some? && r.Success? ==> r.value.meta == meta.value && Registered(t', r.value))
      && (meta.Some? && r.Failure? ==> meta.value !in t'.modules)
  {
    if meta.Some? {
      ResolveMetaFacts(env, t, meta.value, recursive);
    }
  }

  /** A non-recursive resolve of a new descriptor registers the module and nothing else:
      no forward array and no uses are recorded. */
  lemma NonRecursiveResolve(env: Env, t: Tables, m: Meta)
    requires Ranked(env) && m !in t.modules
    ensures var (t', r) := ResolveMeta(env, t, m, false);
      && t'.forward == t.forward && t'.uses == t.uses
      && (r.Success? <==> env.create(m).Instance?)
      && (r.Success? ==> t'.modules == t.modules[m := r.value] && r.value.meta == m)
      && (r.Failure? ==> t' == t)
  {
  }

  /** When createModule returns null, resolve throws NullPointerException (unless a
      requirement failed first) and m is not registered; since that exception is not one
      the candidate loops catch, it also ends every resolution that reached m. */
  lemma NullCreationFails(env: Env, t: Tables, m: Meta, recursive: bool)
    requires Ranked(env) && WellFormed(env, t) && m !in t.modules && env.create(m) == NullInstance
    ensures var (t', r) := ResolveMeta(env, t, m, recursive);
      && r.Failure? && m !in t'.modules
      && (!recursive ==> t' == t && r.error == NullModule(m))
      && (r.error == NullModule(m) ==> !Caught(r.error))
  {
    ResolveMetaFacts(env, t, m, recursive);
  }

  // ---------------------------------------------------------------------------
  // The candidate loop tries candidates in order and keeps the first success
  // ---------------------------------------------------------------------------

  /** The candidates of requirement i that the loop resolves, from index j on, each with
      the result of its resolution: up to and including the first success or the first
      exception the loop does not catch. */
  ghost function Tried(env: Env, t: Tables, m: Meta, i: nat, j: nat): seq<(Meta, Result<Module, Failure>)>
    requires Ranked(env) && i < |m.reqs| && j <= |env.candidates(m.reqs[i])|
    decreases |env.candidates(m.reqs[i])| - j
  {
    var cands := env.candidates(m.reqs[i]);
    if j == |cands| then []
    else
      var (t1, r) := ResolveMeta(env, t, cands[j], true);
      if r.Success? || !Caught(r.error) then [(cands[j], r)]
      else [(cands[j], r)] + Tried(env, t1, m, i, j + 1)
  }

  /** First success wins: the candidates are tried in order; every one tried before the
      last failed with a caught exception; the slot gets the module of the last one tried
      exactly when that one succeeded; the requirement is exhausted exactly when every
      candidate was tried and failed with a caught exception, and then a non-optional
      requirement chains the very failure of the last candidate tried. */
  lemma {:induction false} FirstSuccessWins(env: Env, t: Tables, m: Meta, i: nat, j: nat, chained: Option<Failure>)
    requires Ranked(env) && i < |m.reqs| && j <= |env.candidates(m.reqs[i])|
    ensures var cands := env.candidates(m.reqs[i]);
      var tried := Tried(env, t, m, i, j);
      var (t', a) := TryCandidates(env, t, m, i, j, chained);
      && |tried| <= |cands| - j
      && (forall k :: 0 <= k < |tried| ==> tried[k].0 == cands[j + k])
      && (forall k :: 0 <= k < |tried| - 1 ==> tried[k].1.Failure? && Caught(tried[k].1.error))
      && (a.Found? <==> |tried| > 0 && tried[|tried| - 1].1.Success?)
      && (a.Found? ==> a.dep == tried[|tried| - 1].1.value)
      && (a.Aborted? ==> |tried| > 0 && tried[|tried| - 1].1 == Failure(a.failure) && !Caught(a.failure))
      && (a.Exhausted? <==> |tried| == |cands| - j && forall k :: 0 <= k < |tried| ==> tried[k].1.Failure? && Caught(tried[k].1.error))
      && (a.Exhausted? ==> a.chained == if m.reqs[i].optional || |tried| == 0 then chained else Some(tried[|tried| - 1].1.error))
    decreases |env.candidates(m.reqs[i])| - j
  {
    var cands := env.candidates(m.reqs[i]);
    if j < |cands| {
      var (t1, r) := ResolveMeta(env, t, cands[j], true);
      if r.Failure? && Caught(r.error) {
        var next := if m.reqs[i].optional then chained else Some(r.error);
        FirstSuccessWins(env, t1, m, i, j + 1, next);
        var rest := Tried(env, t1, m, i, j + 1);
        assert Tried(env, t, m, i, j) == [(cands[j], r)] + rest;
      }
    }
  }

  /** A descriptor a with two requirements that both resolve to the module of b: after
      resolving a, a's forward array holds b twice and the engine stores null as b's
      uses, so determineRuntimeUses(b) no longer reports a and the uses table is not
      the inverse of the forward arrays. The corrected update would list a. */
  lemma DuplicateDependencyLosesUse()
    ensures var b := Meta("b", None, "g", "b.jar", []);
      var req := Requirement("b", None, None, false);
      var a := Meta("a", None, "g", "a.jar", [req, req]);
      var env := Env((r: Requirement) => [b], (x: Meta) => Instance, (x: Meta) => |x.reqs|);
      var t := Tables(map[], map[], map[], 0);
      var (t', r) := ResolveMeta(env, t, a, true);
      && Ranked(env) && WellFormed(env, t) && InverseOk(t) && !DisjointCandidates(env)
      && r == Success(Module(1, a))
      && t'.forward[Module(1, a)] == [Some(Module(0, b)), Some(Module(0, b))]
      && t'.uses == map[Module(0, b) := None]
      && !InverseOk(t')
      && AddUsesIntended(t.uses, t'.forward[Module(1, a)], Module(1, a)) == map[Module(0, b) := Some([Module(1, a)])]
  {
    var b := Meta("b", None, "g", "b.jar", []);
    var req := Requirement("b", None, None, false);
    var a := Meta("a", None, "g", "a.jar", [req, req]);
    var env := Env((r: Requirement) => [b], (x: Meta) => Instance, (x: Meta) => |x.reqs|);
    var t := Tables(map[], map[], map[], 0);
    assert Ranked(env);
    assert b in env.candidates(a.reqs[0]) && b in env.candidates(a.reqs[1]);
    var mb := Module(0, b);
    var ma := Module(1, a);
    var deps := [Some(mb), Some(mb)];
    DuplicateDependencyRun();
    var t' := ResolveMeta(env, t, a, true).0;
    assert t'.forward[ma][0] == Some(mb) && LookupUses(t'.uses, mb).None?;
    var u1 := map[mb := Some([ma])];
    assert AddUsesIntended(map[], deps, ma) == AddUsesIntended(u1, deps[1..], ma);
    assert AddUsesIntended(u1, deps[1..], ma) == AddUsesIntended(u1, [], ma);
  }

  /** The run behind DuplicateDependencyLosesUse, step by step. */
  lemma DuplicateDependencyRun()
    ensures var b := Meta("b", None, "g", "b.jar", []);
      var req := Requirement("b", None, None, false);
      var a := Meta("a", None, "g", "a.jar", [req, req]);
      var env := Env((r: Requirement) => [b], (x: Meta) => Instance, (x: Meta) => |x.reqs|);
      var mb := Module(0, b);
      var ma := Module(1, a);
      ResolveMeta(env, Tables(map[], map[], map[], 0), a, true)
        == (Tables(map[b := mb, a := ma], map[mb := [], ma := [Some(mb), Some(mb)]], map[mb := None], 2), Success(ma))
  {
    var b := Meta("b", None, "g", "b.jar", []);
    var req := Requirement("b", None, None, false);
    var a := Meta("a", None, "g", "a.jar", [req, req]);
    var env := Env((r: Requirement) => [b], (x: Meta) => Instance, (x: Meta) => |x.reqs|);
    var t := Tables(map[], map[], map[], 0);
    var mb := Module(0, b);
    var ma := Module(1, a);
    var t1 := Tables(map[b := mb], map[mb := []], map[], 1);
    assert ResolveReqs(env, t, b, 0, []) == (t, Success([]));
    assert ResolveMeta(env, t, b, true) == (t1, Success(mb));
    assert TryCandidates(env, t, a, 0, 0, None) == (t1, Found(mb));
    assert ResolveMeta(env, t1, b, true) == (t1, Success(mb));
    assert TryCandidates(env, t1, a, 1, 0, None) == (t1, Found(mb));
    var deps := [Some(mb), Some(mb)];
    assert ResolveReqs(env, t1, a, 2, deps) == (t1, Success(deps));
    assert [Some(mb)] + [Some(mb)] == deps;
    assert ResolveReqs(env, t1, a, 1, [Some(mb)]) == (t1, Success(deps));
    assert [] + [Some(mb)] == [Some(mb)];
    assert ResolveReqs(env, t, a, 0, []) == (t1, Success(deps));
    var u1 := map[mb := Some([ma])];
    assert AddUses(map[], deps, ma) == AddUses(u1, deps[1..], ma);
    assert AddUses(u1, deps[1..], ma) == AddUses(map[mb := None], [], ma);
  }

  /** A descriptor a requiring b and then c, where b resolves and c has no candidate: the
      resolve of a fails with a ModuleResolutionException for c, and b stays registered
      with its forward array; nothing is rolled back. */
  lemma FailedResolveKeepsDependencies()
    ensures var b := Meta("b", None, "g", "b.jar", []);
      var rb := Requirement("b", None, None, false);
      var rc := Requirement("c", None, None, false);
      var a := Meta("a", None, "g", "a.jar", [rb, rc]);
      var env := Env((r: Requirement) => if r == rb then [b] else [], (x: Meta) => Instance, (x: Meta) => |x.reqs|);
      var t := Tables(map[], map[], map[], 0);
      var (t', r) := ResolveMeta(env, t, a, true);
      && Ranked(env)
      && r == Failure(Unresolved(a, rc, None))
      && t'.modules == map[b := Module(0, b)]
      && t'.forward == map[Module(0, b) := []]
  {
    var b := Meta("b", None, "g", "b.jar", []);
    var rb := Requirement("b", None, None, false);
    var rc := Requirement("c", None, None, false);
    var a := Meta("a", None, "g", "a.jar", [rb, rc]);
    var env := Env((r: Requirement) => if r == rb then [b] else [], (x: Meta) => Instance, (x: Meta) => |x.reqs|);
    var t := Tables(map[], map[], map[], 0);
    assert Ranked(env);
    var mb := Module(0, b);
    var t1 := Tables(map[b := mb], map[mb := []], map[], 1);
    assert ResolveReqs(env, t, b, 0, []) == (t, Success([]));
    assert ResolveMeta(env, t, b, true) == (t1, Success(mb));
    assert TryCandidates(env, t, a, 0, 0, None) == (t1, Found(mb));
    assert TryCandidates(env, t1, a, 1, 0, None) == (t1, Exhausted(None));
    assert ResolveReqs(env, t1, a, 1, [Some(mb)]) == (t1, Failure(Unresolved(a, rc, None)));
    assert [] + [Some(mb)] == [Some(mb)];
    assert ResolveReqs(env, t, a, 0, []) == (t1, Failure(Unresolved(a, rc, None)));
  }

  // ---------------------------------------------------------------------------
  // When the uses table is the inverse of the forward arrays
  // ---------------------------------------------------------------------------

  /** The uses table is the inverse of the forward arrays: every module a forward array
      depends on lists the depending module among its users. */
  ghost predicate InverseOk(t: Tables) {
    forall x, k :: x in t.forward && 0 <= k < |t.forward[x]| && t.forward[x][k].Some? ==>
      LookupUses(t.uses, t.forward[x][k].value).Some? && x in LookupUses(t.uses, t.forward[x][k].value).value
  }

  /** No descriptor is a candidate of two different requirements of one descriptor, so
      no module can fill two slots of one forward array. */
  ghost predicate DisjointCandidates(env: Env) {
    forall m: Meta, i, j, c :: 0 <= i < j < |m.reqs| && c in env.candidates(m.reqs[i]) ==> c !in env.candidates(m.reqs[j])
  }

  lemma {:induction false} OccurrencesPositive(deps: seq<Option<Module>>, d: Module, k: nat)
    requires k < |deps| && deps[k] == Some(d)
    ensures Occurrences(deps, d) >= 1
    decreases k
  {
    if k > 0 {
      assert deps[1..][k - 1] == deps[k];
      OccurrencesPositive(deps[1..], d, k - 1);
    }
  }

  lemma {:induction false} OccurrencesAbsent(deps: seq<Option<Module>>, d: Module)
    requires Some(d) !in deps
    ensures Occurrences(deps, d) == 0
    decreases |deps|
  {
    if deps != [] {
      assert deps == [deps[0]] + deps[1..];
      OccurrencesAbsent(deps[1..], d);
    }
  }

  /** A module that fills no two slots occurs at most once. */
  lemma {:induction false} OccurrencesAtMostOnce(deps: seq<Option<Module>>, d: Module)
    requires forall k, l :: 0 <= k < l < |deps| && deps[k] == Some(d) ==> deps[l] != Some(d)
    ensures Occurrences(deps, d) <= 1
    decreases |deps|
  {
    if deps != [] {
      var rest := deps[1..];
      if deps[0] == Some(d) {
        assert forall l :: 0 <= l < |rest| ==> rest[l] == deps[l + 1];
        OccurrencesAbsent(rest, d);
      } else {
        assert forall k, l :: 0 <= k < l < |rest| ==> rest[k] == deps[k + 1] && rest[l] == deps[l + 1];
        OccurrencesAtMostOnce(rest, d);
      }
    }
  }

  /** Under DisjointCandidates an aligned forward array holds every module at most once. */
  lemma SlotsDistinct(env: Env, t: Tables, m: Meta, deps: seq<Option<Module>>, d: Module)
    requires DisjointCandidates(env) && AlignedSlots(env, t, m.reqs, deps)
    ensures Occurrences(deps, d) <= 1
  {
    forall k, l | 0 <= k < l < |deps| && deps[k] == Some(d) ensures deps[l] != Some(d) {
      assert SlotOk(env, t, m.reqs[k], deps[k]);
      assert SlotOk(env, t, m.reqs[l], deps[l]);
    }
    OccurrencesAtMostOnce(deps, d);
  }

  /** Registering a module whose slots hold distinct modules keeps the uses table the
      inverse of the forward arrays: each dependency gains the new module at the end of
      its users. */
  lemma InverseCreate(env: Env, t: Tables, m: Meta, deps: seq<Option<Module>>)
    requires WellFormed(env, t) && InverseOk(t) && DisjointCandidates(env)
    requires m !in t.modules && AlignedSlots(env, t, m.reqs, deps)
    ensures InverseOk(Create(env, t, m, true, deps).0)
  {
    if env.create(m).Instance? {
      var ret := Module(t.nextId, m);
      var t' := Create(env, t, m, true, deps).0;
      assert t'.forward == t.forward[ret := deps] && t'.uses == AddUses(t.uses, deps, ret);
      forall d
        ensures Occurrences(deps, d) <= 1
        ensures Occurrences(deps, d) == 0 ==> LookupUses(t'.uses, d) == LookupUses(t.uses, d)
        ensures Occurrences(deps, d) == 1 ==> d in t'.uses && t'.uses[d] == Some(if d in t.uses && t.uses[d].Some? then t.uses[d].value + [ret] else [ret])
      {
        SlotsDistinct(env, t, m, deps, d);
        assert LookupUses(t.uses, d).Some? ==> ret !in LookupUses(t.uses, d).value by {
          if LookupUses(t.uses, d).Some? {
            assert UsersOk(t, t.uses[d]);
            assert forall u :: u in t.uses[d].value ==> u.id < t.nextId;
          }
        }
        AddUsesEffect(t.uses, deps, ret, d);
      }
      forall x, k | x in t'.forward && 0 <= k < |t'.forward[x]| && t'.forward[x][k].Some?
        ensures LookupUses(t'.uses, t'.forward[x][k].value).Some? && x in LookupUses(t'.uses, t'.forward[x][k].value).value
      {
        var d := t'.forward[x][k].value;
        assert Occurrences(deps, d) <= 1;
        if x == ret {
          OccurrencesPositive(deps, d, k);
          assert t'.uses[d].value[|t'.uses[d].value| - 1] == ret;
        } else {
          assert t.forward[x][k] == Some(d);
          assert LookupUses(t.uses, d).Some? && x in LookupUses(t.uses, d).value;
          if Occurrences(deps, d) == 1 {
            assert t'.uses[d] == Some(t.uses[d].value + [ret]);
          }
        }
      }
    }
  }

  /** resolve keeps the uses table the inverse of the forward arrays as long as no
      module can fill two slots of one forward array; DuplicateDependencyLosesUse shows
      that without this condition it does not. */
  lemma ResolveKeepsInverse(env: Env, t: Tables, meta: Option<Meta>, recursive: bool)
    requires Ranked(env) && WellFormed(env, t) && InverseOk(t) && DisjointCandidates(env)
    ensures InverseOk(Resolve(env, t, meta, recursive).0)
  {
    if meta.Some? {
      InverseMeta(env, t, meta.value, recursive);
    }
  }

  lemma {:induction false} InverseMeta(env: Env, t: Tables, m: Meta, recursive: bool)
    requires Ranked(env) && WellFormed(env, t) && InverseOk(t) && DisjointCandidates(env)
    ensures InverseOk(ResolveMeta(env, t, m, recursive).0)
    decreases env.depth(m), 2, 0
  {
    if m !in t.modules && recursive {
      ResolveReqsFacts(env, t, m, 0, []);
      InverseReqs(env, t, m, 0, []);
      var (t1, deps) := ResolveReqs(env, t, m, 0, []);
      if deps.Success? {
        InverseCreate(env, t1, m, deps.value);
      }
    }
  }

  lemma {:induction false} InverseReqs(env: Env, t: Tables, m: Meta, i: nat, acc: seq<Option<Module>>)
    requires Ranked(env) && WellFormed(env, t) && InverseOk(t) && DisjointCandidates(env) && i <= |m.reqs|
    ensures InverseOk(ResolveReqs(env, t, m, i, acc).0)
    decreases env.depth(m), 1, |m.reqs| - i
  {
    if i < |m.reqs| {
      TryCandidatesFacts(env, t, m, i, 0, None);
      InverseTry(env, t, m, i, 0, None);
      var (t1, a) := TryCandidates(env, t, m, i, 0, None);
      match a
      case Found(d) =>
        InverseReqs(env, t1, m, i + 1, acc + [Some(d)]);
      case Exhausted(chained) =>
        if m.reqs[i].optional {
          InverseReqs(env, t1, m, i + 1, acc + [None]);
        }
      case Aborted(f) =>
    }
  }

  lemma {:induction false} InverseTry(env: Env, t: Tables, m: Meta, i: nat, j: nat, chained: Option<Failure>)
    requires Ranked(env) && WellFormed(env, t) && InverseOk(t) && DisjointCandidates(env)
    requires i < |m.reqs| && j <= |env.candidates(m.reqs[i])|
    ensures InverseOk(TryCandidates(env, t, m, i, j, chained).0)
    decreases env.depth(m), 0, |env.candidates(m.reqs[i])| - j
  {
    var cands := env.candidates(m.reqs[i]);
    if j < |cands| {
      var c := cands[j];
      assert env.depth(c) < env.depth(m);
      ResolveMetaFacts(env, t, c, true);
      InverseMeta(env, t, c, true);
      var (t1, r) := ResolveMeta(env, t, c, true);
      if r.Failure? && Caught(r.error) {
        InverseTry(env, t1, m, i, j + 1, if m.reqs[i].optional then chained else Some(r.error));
      }
    }
  }

  // ---------------------------------------------------------------------------
  // The update the source's comment describes
  // ---------------------------------------------------------------------------

  /** The update the source evidently intends: a module already among the users leaves
      the array as it is. */
  function NewUsesIntended(before: Option<seq<Module>>, ret: Module): Option<seq<Module>> {
    match before
    case None => Some([ret])
    case Some(list) => if ret in list then Some(list) else Some(list + [ret])
  }

  function AddUsesIntended(uses: map<Module, Option<seq<Module>>>, deps: seq<Option<Module>>, ret: Module): map<Module, Option<seq<Module>>>
    decreases |deps|
  {
    if deps == [] then uses
    else
      var next := if deps[0].Some? then uses[deps[0].value := NewUsesIntended(LookupUses(uses, deps[0].value), ret)] else uses;
      AddUsesIntended(next, deps[1..], ret)
  }

  /** With the intended update the uses table is the inverse of the forward array: every
      non-null dependency lists the new module, keeps its earlier users in order, and no
      other entry changes. */
  lemma {:induction false} AddUsesIntendedInverse(uses: map<Module, Option<seq<Module>>>, deps: seq<Option<Module>>, ret: Module)
    ensures var after := AddUsesIntended(uses, deps, ret);
      && (forall k :: 0 <= k < |deps| && deps[k].Some? ==>
            deps[k].value in after && after[deps[k].value].Some? && ret in after[deps[k].value].value)
      && (forall d :: LookupUses(uses, d).Some? ==> LookupUses(after, d).Some? && LookupUses(uses, d).value <= LookupUses(after, d).value)
      && (forall d :: Some(d) !in deps ==> LookupUses(after, d) == LookupUses(uses, d))
    decreases |deps|
  {
    if deps != [] {
      var next := if deps[0].Some? then uses[deps[0].value := NewUsesIntended(LookupUses(uses, deps[0].value), ret)] else uses;
      AddUsesIntendedInverse(next, deps[1..], ret);
      var after := AddUsesIntended(uses, deps, ret);
      assert after == AddUsesIntended(next, deps[1..], ret);
      if deps[0].Some? {
        var d0 := deps[0].value;
        assert next[d0].Some? && ret in next[d0].value;
        assert LookupUses(after, d0).Some? && LookupUses(next, d0).value <= LookupUses(after, d0).value;
      }
      forall k | 0 <= k < |deps| && deps[k].Some?
        ensures deps[k].value in after && after[deps[k].value].Some? && ret in after[deps[k].value].value
      {
        if k > 0 {
          assert deps[1..][k - 1] == deps[k];
        }
      }
      forall d | LookupUses(uses, d).Some?
        ensures LookupUses(after, d).Some? && LookupUses(uses, d).value <= LookupUses(after, d).value
      {
        assert LookupUses(next, d).Some? && LookupUses(uses, d).value <= LookupUses(next, d).value;
      }
      forall d | Some(d) !in deps ensures LookupUses(after, d) == LookupUses(uses, d) {
        assert Some(d) !in deps[1..] by {
          assert deps == [deps[0]] + deps[1..];
        }
      }
    }
  }
}

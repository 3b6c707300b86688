/** AbstractModuleRegistry: the three resolution tables and the listener list, updated
    in place by the registry's methods. */
module Registry {
  import opened Wrappers
  import opened Metadata
  import opened Resolution
  import Text

  // ---------------------------------------------------------------------------
  // Listeners
  // ---------------------------------------------------------------------------

  /** A ModuleRegistryListener; listeners are compared with equals, here value equality. */
  datatype Listener = Listener(id: nat)

  /** One change a listener makes to the listener list from inside newModuleAvailable. */
  datatype Change = Subscribe(added: Listener) | Unsubscribe(removed: Listener)

  /** What a listener does when notified: the changes it makes, in order, and whether
      newModuleAvailable then throws. */
  datatype Reaction = Reaction(changes: seq<Change>, throws: bool)

  /** removeModuleRegistryListener on a registry whose list was never created throws
      NullPointerException. */
  datatype ListenerError = NullList

  /** ArrayList.remove(o): drop the first element equal to o, if any. */
  function RemoveFirst(s: seq<Listener>, x: Listener): seq<Listener>
    decreases |s|
  {
    if s == [] then [] else if s[0] == x then s[1..] else [s[0]] + RemoveFirst(s[1..], x)
  }

  /** remove leaves the list alone when the listener is not in it. */
  lemma {:induction false} RemoveFirstAbsent(s: seq<Listener>, x: Listener)
    requires x !in s
    ensures RemoveFirst(s, x) == s
    decreases |s|
  {
    if s != [] {
      RemoveFirstAbsent(s[1..], x);
      assert s == [s[0]] + s[1..];
    }
  }

  /** remove deletes exactly the first occurrence of the listener. */
  lemma {:induction false} RemoveFirstPresent(s: seq<Listener>, x: Listener, k: nat)
    requires k < |s| && s[k] == x && x !in s[..k]
    ensures RemoveFirst(s, x) == s[..k] + s[k + 1..]
    decreases k
  {
    if k > 0 {
      assert s[0] in s[..k];
      assert s[1..][..k - 1] == s[1..k];
      RemoveFirstPresent(s[1..], x, k - 1);
      assert s[..k] == [s[0]] + s[1..k];
      assert s[k + 1..] == s[1..][k..];
    }
  }

  /** remove takes exactly one copy of the listener out of the multiset of listeners. */
  lemma {:induction false} RemoveFirstCount(s: seq<Listener>, x: Listener)
    ensures multiset(RemoveFirst(s, x)) == multiset(s) - multiset{x}
    decreases |s|
  {
    if s != [] {
      assert s == [s[0]] + s[1..];
      if s[0] != x {
        RemoveFirstCount(s[1..], x);
      }
    }
  }

  /** The listener list after one change. */
  function ApplyChange(list: seq<Listener>, c: Change): seq<Listener> {
    match c
    case Subscribe(l) => list + [l]
    case Unsubscribe(l) => RemoveFirst(list, l)
  }

  /** The listener list after a sequence of changes, applied in order. */
  function ApplyAll(list: seq<Listener>, changes: seq<Change>): seq<Listener>
    decreases |changes|
  {
    if changes == [] then list
    else ApplyChange(ApplyAll(list, changes[..|changes| - 1]), changes[|changes| - 1])
  }

  /** The listener list after notifying `notified`, in order, each reacting at once. */
  function Notify(list: seq<Listener>, notified: seq<Listener>, event: Module, react: (Listener, Module) -> Reaction): seq<Listener>
    decreases |notified|
  {
    if notified == [] then list
    else ApplyAll(Notify(list, notified[..|notified| - 1], event, react), react(notified[|notified| - 1], event).changes)
  }

  /** The listeners of `list` that are notified: all of them up to and including the
      first that throws, since the exception ends the delivery loop. */
  function Delivered(list: seq<Listener>, event: Module, react: (Listener, Module) -> Reaction): (r: seq<Listener>)
    ensures r <= list
    ensures forall k :: 0 <= k < |r| - 1 ==> !react(r[k], event).throws
    ensures |r| < |list| ==> |r| > 0 && react(r[|r| - 1], event).throws
    decreases |list|
  {
    if list == [] then []
    else if react(list[0], event).throws then [list[0]]
    else [list[0]] + Delivered(list[1..], event, react)
  }

  /** The three facts of Delivered's contract determine it: any prefix of the list that
      stops exactly at the first listener that throws is the delivered one. */
  lemma DeliveredUnique(list: seq<Listener>, event: Module, react: (Listener, Module) -> Reaction, p: seq<Listener>)
    requires p <= list
    requires forall k :: 0 <= k < |p| - 1 ==> !react(p[k], event).throws
    requires |p| < |list| ==> |p| > 0 && react(p[|p| - 1], event).throws
    ensures p == Delivered(list, event, react)
  {
    var r := Delivered(list, event, react);
    assert p == list[..|p|] && r == list[..|r|];
  }

  /** Listeners that each unsubscribe themselves while being notified leave an empty
      list behind, and every one of them is still notified, because delivery runs over
      a copy of the list. */
  lemma {:induction false} SelfRemovingListeners(list: seq<Listener>, event: Module, k: nat)
    requires k <= |list|
    ensures Notify(list, list[..k], event, (l: Listener, e: Module) => Reaction([Unsubscribe(l)], false)) == list[k..]
    decreases k
  {
    if k > 0 {
      SelfRemovingListeners(list, event, k - 1);
      var before := list[k - 1..];
      assert ApplyAll(before, [Unsubscribe(list[k - 1])]) == RemoveFirst(before, list[k - 1]);
      assert list[..k][..k - 1] == list[..k - 1];
      assert list[k - 1..] == [list[k - 1]] + list[k..];
    }
  }

  /** The textual form of a registry: its class name and how many module names it knows. */
  function Description(className: string, knownNames: nat): string {
    className + "(" + Text.Decimal(knownNames) + " known modules)"
  }

  /** The description splits back into the class name, the decimal count (which
      reads back as the number of known names) and the fixed suffix. */
  lemma DescriptionCount(className: string, knownNames: nat)
    ensures |Description(className, knownNames)| > |className| + 1 + |" known modules)"|
    ensures Description(className, knownNames)[..|className| + 1] == className + "("
    ensures Description(className, knownNames)[|className| + 1..|Description(className, knownNames)| - |" known modules)"|] == Text.Decimal(knownNames)
    ensures Description(className, knownNames)[|Description(className, knownNames)| - |" known modules)"|..] == " known modules)"
  {
  }

  // ---------------------------------------------------------------------------
  // The registry
  // ---------------------------------------------------------------------------

  class ModuleRegistry {
    /** determineResolutionCandidates and createModule, and the rank of the descriptor graph. */
    const env: Env
    /** theModules */
    var modules: map<Meta, Module>
    /** theForwardRuntimeDependencies */
    var forward: map<Module, seq<Option<Module>>>
    /** theRuntimeUses */
    var uses: map<Module, Option<seq<Module>>>
    /** identities handed out so far */
    var nextId: nat
    /** theModuleRegistryListeners: null until the first listener is added */
    var listeners: Option<seq<Listener>>

    function Tables(): Tables
      reads this
    {
      Resolution.Tables(modules, forward, uses, nextId)
    }

    ghost predicate Valid()
      reads this
    {
      Ranked(env) && WellFormed(env, Tables())
    }

    constructor (env: Env)
      requires Ranked(env)
      ensures Valid() && this.env == env
      ensures Tables() == Resolution.Tables(map[], map[], map[], 0) && listeners == None
    {
      this.env := env;
      modules, forward, uses, nextId := map[], map[], map[], 0;
      listeners := None;
    }

    /** determineSingleResolutionCandidate: no candidate is an error; otherwise the first
        (most preferred) candidate, provided all candidates share its groupId. */
    method DetermineSingleResolutionCandidate(req: Requirement) returns (r: Result<Meta, CandidateError>)
      ensures var found := env.candidates(req);
        && (|found| == 0 ==> r == Failure(NoCandidate(req)))
        && (|found| > 0 && (forall k :: 0 <= k < |found| ==> found[k].groupId == found[0].groupId) ==> r == Success(found[0]))
        && (|found| > 0 && (exists k :: 0 <= k < |found| && found[k].groupId != found[0].groupId) ==> r == Failure(CandidateNotUnique(req, found)))
    {
      var found := env.candidates(req);
      if |found| == 0 {
        return Failure(NoCandidate(req));
      }
      if |found| == 1 {
        return Success(found[0]);
      }
      var groupId := found[0].groupId;
      var i := 1;
      while i < |found|
        invariant 1 <= i <= |found|
        invariant forall k :: 0 <= k < i ==> found[k].groupId == groupId
      {
        if groupId != found[i].groupId {
          return Failure(CandidateNotUnique(req, found));
        }
        i := i + 1;
      }
      return Success(found[0]);
    }

    /** resolve(meta): a recursive resolve. */
    method ResolveRecursively(meta: Option<Meta>) returns (r: Result<Module, Failure>)
      requires Valid()
      modifies this
      ensures Valid() && listeners == old(listeners)
      ensures (Tables(), r) == Resolution.Resolve(env, old(Tables()), meta, true)
      ensures InverseOk(old(Tables())) && DisjointCandidates(env) ==> InverseOk(Tables())
    {
      if InverseOk(Tables()) && DisjointCandidates(env) {
        ResolveKeepsInverse(env, Tables(), meta, true);
      }
      r := Resolve(meta, true);
    }

    /** resolve(meta, recursive), proved to compute Resolution.Resolve; the lemmas of
        module Resolution state what that does. */
    method Resolve(meta: Option<Meta>, recursive: bool) returns (r: Result<Module, Failure>)
      requires Valid()
      modifies this
      ensures Valid() && listeners == old(listeners)
      ensures (Tables(), r) == Resolution.Resolve(env, old(Tables()), meta, recursive)
      ensures r.Success? ==> GetResolutionOf(r.value.meta) == Some(r.value)
      decreases if meta.Some? then env.depth(meta.value) else 0, 2
    {
      ResolveFacts(env, Tables(), meta, recursive);
      if meta.None? {
        return Failure(NullMeta);
      }
      var m := meta.value;
      if m in modules {
        return Success(modules[m]);
      }
      var deps: seq<Option<Module>> := [];
      if recursive {
        var resolved := ResolveRequirements(m);
        if resolved.Failure? {
          return Failure(resolved.error);
        }
        deps := resolved.value;
      }
      r := CreateModule(m, recursive, deps);
    }

    /** Creates the module for m through the factory and, when it succeeds, registers it
        (and, for a recursive resolve, its forward array and the uses of its
        dependencies); a failing factory leaves every table as it was. */
    method CreateModule(m: Meta, recursive: bool, deps: seq<Option<Module>>) returns (r: Result<Module, Failure>)
      requires Valid() && m !in modules
      requires recursive ==> AlignedSlots(env, Tables(), m.reqs, deps)
      modifies this
      ensures Valid() && listeners == old(listeners)
      ensures (Tables(), r) == Create(env, old(Tables()), m, recursive, deps)
    {
      CreateFacts(env, Tables(), m, recursive, deps);
      match env.create(m)
      case NullInstance => return Failure(NullModule(m));
      case NotFoundError => return Failure(NotFound(m));
      case RuntimeError => return Failure(CreateCrashed(m));
      case Instance =>
        var ret := Module(nextId, m);
        nextId := nextId + 1;
        modules := modules[m := ret];
        if recursive {
          forward := forward[ret := deps];
          RecordUses(deps, ret);
        }
        return Success(ret);
    }

    /** The requirement loop of a recursive resolve of m: one slot per requirement, from
        the candidate loop; an exhausted non-optional requirement throws a
        ModuleResolutionException chaining the candidate loop's failure. */
    method ResolveRequirements(m: Meta) returns (r: Result<seq<Option<Module>>, Failure>)
      requires Valid() && m !in modules
      modifies this
      ensures Valid() && listeners == old(listeners) && m !in modules
      ensures (Tables(), r) == ResolveReqs(env, old(Tables()), m, 0, [])
      ensures r.Success? ==> AlignedSlots(env, Tables(), m.reqs, r.value)
      decreases env.depth(m), 1
    {
      ghost var t0 := Tables();
      ResolveReqsFacts(env, t0, m, 0, []);
      var reqs := m.reqs;
      var deps: seq<Option<Module>> := [];
      var i := 0;
      while i < |reqs|
        invariant Valid() && listeners == old(listeners)
        invariant 0 <= i <= |reqs| && |deps| == i
        invariant ResolveReqs(env, t0, m, 0, []) == ResolveReqs(env, Tables(), m, i, deps)
      {
        var attempt := ResolveCandidates(m, i);
        match attempt {
          case Found(d) =>
            deps := deps + [Some(d)];
          case Exhausted(chained) =>
            if !reqs[i].optional {
              return Failure(Unresolved(m, reqs[i], chained));
            }
            deps := deps + [None];
          case Aborted(f) =>
            return Failure(f);
        }
        i := i + 1;
      }
      return Success(deps);
    }

    /** The candidate loop of resolve for requirement i of m: the first candidate that
        resolves wins; a caught failure moves on to the next candidate, keeping it as
        the cause unless the requirement is optional; any other failure propagates. */
    method ResolveCandidates(m: Meta, i: nat) returns (a: Attempt)
      requires Valid() && i < |m.reqs|
      modifies this
      ensures Valid() && listeners == old(listeners)
      ensures (Tables(), a) == TryCandidates(env, old(Tables()), m, i, 0, None)
      decreases env.depth(m), 0
    {
      ghost var t0 := Tables();
      var req := m.reqs[i];
      var dependAds := env.candidates(req);
      var chained: Option<Failure> := None;
      var j := 0;
      while j < |dependAds|
        invariant Valid() && listeners == old(listeners)
        invariant 0 <= j <= |dependAds|
        invariant TryCandidates(env, t0, m, i, 0, None) == TryCandidates(env, Tables(), m, i, j, chained)
      {
        var res := Resolve(Some(dependAds[j]), true);
        if res.Success? {
          return Found(res.value);
        }
        if !Caught(res.error) {
          return Aborted(res.error);
        }
        if !req.optional {
          chained := Some(res.error);
        }
        j := j + 1;
      }
      return Exhausted(chained);
    }

    /** The uses update of resolve: every non-null dependency gets ret appended to its
        uses list, a fresh list when it has none, and null when ret is listed already
        (Resolution.AddUses; see README, Findings). */
    method RecordUses(deps: seq<Option<Module>>, ret: Module)
      modifies this`uses
      ensures uses == AddUses(old(uses), deps, ret)
    {
      var k := 0;
      while k < |deps|
        invariant 0 <= k <= |deps|
        invariant AddUses(old(uses), deps, ret) == AddUses(uses, deps[k..], ret)
      {
        var usesOfDep := if deps[k].Some? then LookupUses(uses, deps[k].value) else None;
        var newUses: Option<seq<Module>> := None;
        if usesOfDep.None? {
          newUses := Some([ret]);
        } else {
          // a longer array is built only when the search does not find ret
          var list := usesOfDep.value;
          var found := false;
          var j := 0;
          while j < |list|
            invariant 0 <= j <= |list|
            invariant !found && ret !in list[..j]
          {
            if ret == list[j] {
              found := true;
              break;
            }
            j := j + 1;
          }
          assert found <==> ret in list by {
            if !found { assert list[..j] == list; }
          }
          if !found {
            newUses := Some(list + [ret]);
          }
        }
        assert deps[k..] == [deps[k]] + deps[k + 1..];
        if deps[k].Some? {
          uses := uses[deps[k].value := newUses];
        }
        k := k + 1;
      }
    }

    /** getResolutionOf: the module registered for the descriptor, if any. */
    function GetResolutionOf(meta: Meta): (r: Option<Module>)
      reads this
      ensures r.Some? <==> meta in modules
      ensures Valid() && r.Some? ==> r.value.meta == meta && r.value.id < nextId
    {
      if meta in modules then Some(modules[meta]) else None
    }

    /** determineRuntimeDependencies: the forward array of a module (null when the module
        was not resolved recursively); in a valid registry it is aligned with the module's
        requirements and holds registered modules created from the requirements' candidates. */
    function DetermineRuntimeDependencies(mod: Module): (r: Option<seq<Option<Module>>>)
      reads this
      ensures Valid() && r.Some? ==> |r.value| == |mod.meta.reqs| && GetResolutionOf(mod.meta) == Some(mod)
      ensures Valid() && r.Some? ==> forall k :: 0 <= k < |r.value| && r.value[k].Some? ==>
        GetResolutionOf(r.value[k].value.meta) == r.value[k] && r.value[k].value.meta in env.candidates(mod.meta.reqs[k])
      ensures Valid() && r.Some? ==> forall k :: 0 <= k < |r.value| && r.value[k].None? ==> mod.meta.reqs[k].optional
    {
      if mod in forward then
        assert Valid() ==> forall k :: 0 <= k < |forward[mod]| ==> SlotOk(env, Tables(), mod.meta.reqs[k], forward[mod][k]);
        Some(forward[mod])
      else None
    }

    /** determineRuntimeUses: the uses array of a module, null when there is none or a
        null was stored; in a valid registry it lists registered modules only. */
    function DetermineRuntimeUses(mod: Module): (r: Option<seq<Module>>)
      reads this
      ensures r.Some? ==> mod in uses
      ensures Valid() && r.Some? ==> GetResolutionOf(mod.meta) == Some(mod)
      ensures Valid() && r.Some? ==> forall u :: u in r.value ==> GetResolutionOf(u.meta) == Some(u)
    {
      LookupUses(uses, mod)
    }

    /** addModuleRegistryListener: appends, creating the list on first use; duplicates are kept. */
    method AddModuleRegistryListener(newListener: Listener)
      modifies this`listeners
      ensures listeners == Some((if old(listeners).Some? then old(listeners).value else []) + [newListener])
    {
      if listeners.None? {
        listeners := Some([]);
      }
      listeners := Some(listeners.value + [newListener]);
    }

    /** removeModuleRegistryListener: removes the first equal listener; before any
        listener was added the list is null and the call throws NullPointerException. */
    method RemoveModuleRegistryListener(oldListener: Listener) returns (r: Result<(), ListenerError>)
      modifies this`listeners
      ensures old(listeners).None? ==> r.Failure? && listeners == None
      ensures old(listeners).Some? ==> r.Success? && listeners == Some(RemoveFirst(old(listeners).value, oldListener))
    {
      if listeners.None? {
        return Failure(NullList);
      }
      listeners := Some(RemoveFirst(listeners.value, oldListener));
      return Success(());
    }

    /** The calls a listener makes to addModuleRegistryListener and
        removeModuleRegistryListener while it is being notified, in order. */
    method ApplyChanges(changes: seq<Change>)
      requires listeners.Some?
      modifies this`listeners
      ensures listeners == Some(ApplyAll(old(listeners).value, changes))
    {
      var i := 0;
      while i < |changes|
        invariant 0 <= i <= |changes|
        invariant listeners == Some(ApplyAll(old(listeners).value, changes[..i]))
      {
        assert changes[..i + 1][..i] == changes[..i];
        match changes[i] {
          case Subscribe(l) =>
            AddModuleRegistryListener(l);
          case Unsubscribe(l) =>
            var _ := RemoveModuleRegistryListener(l);
        }
        i := i + 1;
      }
      assert changes[..i] == changes;
    }

    /** fireModuleAddedEvent: nothing when there are no listeners; otherwise the
        listeners of a copy of the list are notified in order until one throws, which
        ends the delivery and propagates. The changes listeners make while being notified
        apply to the list but not to this delivery. */
    method FireModuleAddedEvent(event: Module, react: (Listener, Module) -> Reaction) returns (delivered: seq<Listener>, threw: bool)
      modifies this`listeners
      ensures delivered == if old(listeners).Some? then Delivered(old(listeners).value, event, react) else []
      ensures threw <==> |delivered| > 0 && react(delivered[|delivered| - 1], event).throws
      ensures listeners == if old(listeners).None? then None else Some(Notify(old(listeners).value, delivered, event, react))
    {
      if listeners.None? || listeners.value == [] {
        return [], false;
      }
      var snapshot := listeners.value;
      delivered, threw := [], false;
      var k := 0;
      while k < |snapshot| && !threw
        invariant 0 <= k <= |snapshot| && delivered == snapshot[..k]
        invariant threw <==> k > 0 && react(snapshot[k - 1], event).throws
        invariant forall i :: 0 <= i < k - 1 ==> !react(snapshot[i], event).throws
        invariant listeners == Some(Notify(snapshot, snapshot[..k], event, react))
      {
        var current := snapshot[k];
        assert snapshot[..k + 1][..k] == snapshot[..k];
        delivered := delivered + [current];
        var reaction := react(current, event);
        ApplyChanges(reaction.changes);
        assert listeners == Some(Notify(snapshot, snapshot[..k + 1], event, react));
        threw := reaction.throws;
        k := k + 1;
      }
      DeliveredUnique(snapshot, event, react, delivered);
    }
  }
}

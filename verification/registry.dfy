/** What both generations of the library share: loaded modules and load
    outcomes, the effects a consumer can observe (its callbacks being invoked,
    a module's `cleanupModule` hook being run), and the process-wide
    `activeModules` map with the cleanup operation that empties an entry. */
module Registry {
  import opened Paths

  datatype Option<+T> = None | Some(value: T)

  /** An object whose `cleanupModule` property gets probed: a module namespace,
      or the value of its `default` export. */
  datatype Exports = Exports(id: nat, hasCleanupFunction: bool)

  /** A loaded module. `defaultExport` is None when the module has no `default`
      export or a falsy one. */
  datatype Module = Module(namespace: Exports, defaultExport: Option<Exports>)

  /** `existing.default || existing`: where the cleanup hook is looked up. */
  function CleanupTarget(m: Module): Exports
  {
    if m.defaultExport.Some? then m.defaultExport.value else m.namespace
  }

  /** What a dynamic `import` of a path produced: the module, or what it threw. */
  datatype Outcome = Loaded(handle: Module) | Failed(error: nat)

  /** The identity of a consumer function handed to a setter. A callback field
      holds None while it is the built-in no-op (TypeScript) or null (JavaScript). */
  type CallbackId = nat

  datatype Args =
    | PathArg(path: Path)       // onChange / onAdd / onDelete (path)
    | ModuleArg(handle: Module) // onReload (module, no error)
    | ErrorArg(error: nat)      // onReload (null, error)

  /** An effect visible outside the library. */
  datatype Event =
    | Called(callback: CallbackId, args: Args)
    | Teardown(path: Path, target: Exports)

  /** Invoking a callback field: nothing happens while it is unset. */
  function Call(cb: Option<CallbackId>, args: Args): seq<Event>
  {
    if cb.Some? then [Called(cb.value, args)] else []
  }

  /** The `onReload` notification that follows one load attempt. */
  function ReloadNotice(onReload: Option<CallbackId>, outcome: Outcome): seq<Event>
  {
    match outcome
    case Loaded(m) => Call(onReload, ModuleArg(m))
    case Failed(err) => Call(onReload, ErrorArg(err))
  }

  predicate NoTeardown(events: seq<Event>)
  {
    forall i :: 0 <= i < |events| ==> !events[i].Teardown?
  }

  /** Callback invocations run no teardown hook. */
  lemma NoticesRunNoHook(cb: Option<CallbackId>, args: Args, onReload: Option<CallbackId>, outcome: Outcome)
    ensures NoTeardown(Call(cb, args) + ReloadNotice(onReload, outcome))
  {
  }

  /** The registry together with everything observed so far. */
  datatype RegistryState = RegistryState(active: map<Path, Module>, trace: seq<Event>)

  /** The hook `handleModuleCleanup(p)` runs in `active`: the entry's
      `cleanupModule`, when the entry exists and its target has one. */
  function HookOf(active: map<Path, Module>, p: Path): seq<Event>
  {
    if p in active && CleanupTarget(active[p]).hasCleanupFunction then [Teardown(p, CleanupTarget(active[p]))] else []
  }

  /** `handleModuleCleanup(p)` on a registry value. */
  function CleanupStep(s: RegistryState, p: Path): (r: RegistryState)
    ensures p !in r.active
    ensures r.active == s.active - {p}
    ensures p !in s.active ==> r == s
    ensures r.trace == s.trace + HookOf(s.active, p)
    ensures |s.trace| <= |r.trace| <= |s.trace| + 1 && r.trace[..|s.trace|] == s.trace
    ensures |r.trace| == |s.trace| + 1 <==> p in s.active && CleanupTarget(s.active[p]).hasCleanupFunction
    ensures |r.trace| == |s.trace| + 1 ==> r.trace[|s.trace|] == Teardown(p, CleanupTarget(s.active[p]))
  {
    if p !in s.active then s
    else
      RegistryState(s.active - {p}, s.trace + HookOf(s.active, p))
  }

  /** Cleaning up a path twice is cleaning it up once. */
  lemma CleanupIdempotent(s: RegistryState, p: Path)
    ensures CleanupStep(CleanupStep(s, p), p) == CleanupStep(s, p)
  {
  }

  /** Cleanups of two different paths commute. */
  lemma {:induction false} CleanupCommutes(s: RegistryState, p: Path, q: Path)
    requires p != q
    ensures CleanupStep(CleanupStep(s, p), q).active == CleanupStep(CleanupStep(s, q), p).active
  {
  }

  function Elems(keys: seq<Path>): set<Path>
  {
    set k | k in keys
  }

  predicate Distinct(keys: seq<Path>)
  {
    forall i, j :: 0 <= i < j < |keys| ==> keys[i] != keys[j]
  }

  lemma ElemsAppend(keys: seq<Path>, x: Path)
    ensures Elems(keys + [x]) == Elems(keys) + {x}
    ensures Distinct(keys) && x !in Elems(keys) ==> Distinct(keys + [x])
  {
    var ks := keys + [x];
    assert forall k :: k in ks <==> k in keys || k == x;
    if Distinct(keys) && x !in Elems(keys) {
      forall i, j | 0 <= i < j < |ks| ensures ks[i] != ks[j] {
        if j == |keys| {
          assert ks[i] == keys[i] && keys[i] in Elems(keys);
        }
      }
    }
  }

  /** Cleaning up every path of `keys`, in order. */
  function CleanupAll(s: RegistryState, keys: seq<Path>): (r: RegistryState)
    ensures r.active == s.active - Elems(keys)
    ensures |s.trace| <= |r.trace| <= |s.trace| + |keys| && r.trace[..|s.trace|] == s.trace
    ensures forall i :: |s.trace| <= i < |r.trace| ==>
              r.trace[i].Teardown? && r.trace[i].path in keys && r.trace[i].path in s.active
    decreases |keys|
  {
    if keys == [] then s
    else
      var prefix := keys[..|keys| - 1];
      assert Elems(keys) == Elems(prefix) + {keys[|keys| - 1]};
      CleanupStep(CleanupAll(s, prefix), keys[|keys| - 1])
  }

  /** The hooks run by cleaning up `keys` one after the other in `active`. */
  function Hooks(active: map<Path, Module>, keys: seq<Path>): seq<Event>
    decreases |keys|
  {
    if keys == [] then []
    else Hooks(active, keys[..|keys| - 1]) + HookOf(active, keys[|keys| - 1])
  }

  /** With no path repeated, cleaning up a list of paths runs, in list order,
      the hook of each path's module as it was before the first cleanup. */
  lemma {:induction false} CleanupAllHooks(s: RegistryState, keys: seq<Path>)
    requires Distinct(keys)
    ensures CleanupAll(s, keys) == RegistryState(s.active - Elems(keys), s.trace + Hooks(s.active, keys))
    decreases |keys|
  {
    if keys != [] {
      var prefix := keys[..|keys| - 1];
      var k := keys[|keys| - 1];
      DistinctPrefix(keys);
      CleanupAllHooks(s, prefix);
      LastCleanup(s, CleanupAll(s, prefix), prefix, k);
      UnfoldLast(s, keys);
    }
  }

  /** The last path of a non-empty list is its last cleanup and its last hook. */
  lemma UnfoldLast(s: RegistryState, keys: seq<Path>)
    requires keys != []
    ensures var prefix, k := keys[..|keys| - 1], keys[|keys| - 1];
      && CleanupAll(s, keys) == CleanupStep(CleanupAll(s, prefix), k)
      && Hooks(s.active, keys) == Hooks(s.active, prefix) + HookOf(s.active, k)
      && Elems(keys) == Elems(prefix) + {k}
  {
    var prefix, k := keys[..|keys| - 1], keys[|keys| - 1];
    ElemsAppend(prefix, k);
    assert keys == prefix + [k];
  }

  /** The paths before the last one of a list with no repetition hold no
      repetition and do not include the last one. */
  lemma DistinctPrefix(keys: seq<Path>)
    requires Distinct(keys) && keys != []
    ensures Distinct(keys[..|keys| - 1]) && keys[|keys| - 1] !in Elems(keys[..|keys| - 1])
  {
    var prefix := keys[..|keys| - 1];
    forall i | 0 <= i < |prefix| ensures prefix[i] != keys[|keys| - 1] {
      assert prefix[i] == keys[i];
    }
  }

  /** One more cleanup after those of `prefix`, of a path `prefix` lacks. */
  lemma LastCleanup(s: RegistryState, mid: RegistryState, prefix: seq<Path>, k: Path)
    requires k !in Elems(prefix)
    requires mid == RegistryState(s.active - Elems(prefix), s.trace + Hooks(s.active, prefix))
    ensures CleanupStep(mid, k) == RegistryState(s.active - (Elems(prefix) + {k}), s.trace + (Hooks(s.active, prefix) + HookOf(s.active, k)))
  {
    assert HookOf(mid.active, k) == HookOf(s.active, k);
    assert s.trace + Hooks(s.active, prefix) + HookOf(s.active, k) == s.trace + (Hooks(s.active, prefix) + HookOf(s.active, k));
  }

  /** The state shared by every session of one generation: its `activeModules`
      map, and the record of what consumers have observed. */
  class Runtime {
    var activeModules: map<Path, Module>
    var trace: seq<Event>

    function View(): RegistryState
      reads this
    {
      RegistryState(activeModules, trace)
    }

    constructor ()
      ensures activeModules == map[] && trace == []
    {
      activeModules := map[];
      trace := [];
    }

    /** `activeModules.set(p, m)`. */
    method Install(p: Path, m: Module)
      modifies this
      ensures activeModules == old(activeModules)[p := m] && trace == old(trace)
    {
      activeModules := activeModules[p := m];
    }

    /** Invokes consumer callbacks. */
    method Emit(events: seq<Event>)
      modifies this
      ensures trace == old(trace) + events && activeModules == old(activeModules)
    {
      trace := trace + events;
    }

    /** `handleModuleCleanup(p)`: when `p` has an entry, runs the entry's
        `cleanupModule` hook if its target has one, then deletes the entry. */
    method HandleModuleCleanup(p: Path)
      modifies this
      ensures View() == CleanupStep(old(View()), p)
    {
      if p in activeModules {
        var target := CleanupTarget(activeModules[p]);
        if target.hasCleanupFunction {
          trace := trace + [Teardown(p, target)];
        }
        activeModules := activeModules - {p};
      }
    }
  }
}

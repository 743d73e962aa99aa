/** The TypeScript generation's folder session. The directory watcher reports
    `add`, `change` and `unlink` per path (existing files included, since the
    watcher is started without `ignoreInitial`); module files among them are
    reloaded into the session's own `modules` map and into `activeModules`. */
module WatchFolderTs {
  import opened Paths
  import opened Registry
  import ModuleTs

  /** The argument of `setCallbacks`: each callback may be absent. */
  datatype FolderCallbacks = FolderCallbacks(
    onAdd: Option<CallbackId>,
    onChange: Option<CallbackId>,
    onDelete: Option<CallbackId>,
    onReload: Option<CallbackId>)

  /** `isAbsolute(pathStr) ? pathStr : resolve(base, pathStr)`, where `resolved`
      is what `path.resolve` returned: the constructor resolves the folder
      against the entry script's directory, the handlers resolve an event
      path against the folder. An absolute path is kept as given, and since
      `path.resolve` always answers with an absolute path, so is the result. */
  function ResolvePath(pathStr: Path, resolved: Path): (r: Path)
    ensures IsAbsolute(pathStr) ==> r == pathStr
    ensures IsAbsolute(resolved) ==> IsAbsolute(r)
    ensures r == pathStr || r == resolved
  {
    if IsAbsolute(pathStr) then pathStr else resolved
  }

  /** `keys` with every occurrence of `x` removed, order kept. */
  function Without(keys: seq<Path>, x: Path): (r: seq<Path>)
    ensures Elems(r) == Elems(keys) - {x}
    ensures Distinct(keys) ==> Distinct(r)
    ensures |r| <= |keys|
    decreases |keys|
  {
    if keys == [] then []
    else
      var prefix := Without(keys[..|keys| - 1], x);
      var last := keys[|keys| - 1];
      assert Elems(keys) == Elems(keys[..|keys| - 1]) + {last};
      if last == x then prefix
      else
        assert Distinct(keys) ==> last !in Elems(keys[..|keys| - 1]);
        ElemsAppend(prefix, last);
        prefix + [last]
  }

  class WatchFolder {
    const folderPath: Path
    const rt: Runtime
    var onAdd: Option<CallbackId>
    var onChange: Option<CallbackId>
    var onDelete: Option<CallbackId>
    var onReload: Option<CallbackId>
    /** The public `modules` map, and its keys in insertion order (the order in
        which `cleanup` visits them). */
    var modules: map<Path, Module>
    var keyOrder: seq<Path>
    var watching: bool

    /** `keyOrder` lists the keys of `modules` once each. */
    ghost predicate Valid()
      reads this
    {
      Distinct(keyOrder) && Elems(keyOrder) == modules.Keys
    }

    /** `folderPath` is used as given when absolute, otherwise as resolved
        (by `path.resolve`) against the directory of the entry script, or,
        when there is none, against the parent of the working directory. */
    constructor (folderPath: Path, resolved: Path, rt: Runtime)
      ensures Valid()
      ensures this.folderPath == ResolvePath(folderPath, resolved) && this.rt == rt
      ensures onAdd.None? && onChange.None? && onDelete.None? && onReload.None?
      ensures modules == map[] && keyOrder == [] && watching
    {
      this.folderPath := ResolvePath(folderPath, resolved);
      this.rt := rt;
      onAdd, onChange, onDelete, onReload := None, None, None, None;
      modules, keyOrder := map[], [];
      watching := true;
    }

    method SetOnAdd(cb: CallbackId)
      modifies this`onAdd
      ensures onAdd == Some(cb)
    {
      onAdd := Some(cb);
    }

    method SetOnChange(cb: CallbackId)
      modifies this`onChange
      ensures onChange == Some(cb)
    {
      onChange := Some(cb);
    }

    method SetOnDelete(cb: CallbackId)
      modifies this`onDelete
      ensures onDelete == Some(cb)
    {
      onDelete := Some(cb);
    }

    method SetOnReload(cb: CallbackId)
      modifies this`onReload
      ensures onReload == Some(cb)
    {
      onReload := Some(cb);
    }

    /** Replaces the callbacks present in `cbs`; the others keep their value. */
    method SetCallbacks(cbs: FolderCallbacks)
      modifies this`onAdd, this`onChange, this`onDelete, this`onReload
      ensures onAdd == if cbs.onAdd.Some? then cbs.onAdd else old(onAdd)
      ensures onChange == if cbs.onChange.Some? then cbs.onChange else old(onChange)
      ensures onDelete == if cbs.onDelete.Some? then cbs.onDelete else old(onDelete)
      ensures onReload == if cbs.onReload.Some? then cbs.onReload else old(onReload)
    {
      if cbs.onAdd.Some? { onAdd := cbs.onAdd; }
      if cbs.onChange.Some? { onChange := cbs.onChange; }
      if cbs.onDelete.Some? { onDelete := cbs.onDelete; }
      if cbs.onReload.Some? { onReload := cbs.onReload; }
    }

    /** Closes the watcher, cleans up every key of `modules` in insertion order,
        and empties `modules`. */
    method Cleanup()
      requires Valid()
      modifies this`modules, this`keyOrder, this`watching, rt
      ensures Valid() && modules == map[] && !watching
      ensures rt.View() == CleanupAll(old(rt.View()), old(keyOrder))
      ensures rt.activeModules == old(rt.activeModules) - old(modules.Keys)
    {
      watching := false;
      var keys := keyOrder;
      for i := 0 to |keys|
        modifies rt
        invariant rt.View() == CleanupAll(old(rt.View()), keys[..i])
      {
        rt.HandleModuleCleanup(keys[i]);
        assert keys[..i + 1][..i] == keys[..i];
      }
      assert keys[..|keys|] == keys;
      modules, keyOrder := map[], [];
    }

    /** `modules.set(p, m)`: a new key goes to the end of the insertion order. */
    method Store(p: Path, m: Module)
      requires Valid()
      modifies this`modules, this`keyOrder
      ensures Valid() && modules == old(modules)[p := m]
      ensures keyOrder == if p in old(modules) then old(keyOrder) else old(keyOrder) + [p]
    {
      if p !in modules {
        ElemsAppend(keyOrder, p);
        keyOrder := keyOrder + [p];
      }
      modules := modules[p := m];
    }

    /** Reloads `p` with the current `onReload` and stores a non-null result in
        `modules`; a failed load leaves `modules` as it was. */
    method ReloadAndStore(p: Path, outcome: Outcome)
      requires Valid()
      modifies this`modules, this`keyOrder, rt
      ensures Valid()
      ensures modules == if outcome.Loaded? then old(modules)[p := outcome.handle] else old(modules)
      ensures keyOrder == if outcome.Loaded? && p !in old(modules) then old(keyOrder) + [p] else old(keyOrder)
      ensures rt.activeModules ==
                if outcome.Loaded? then old(rt.activeModules)[p := outcome.handle] else old(rt.activeModules)
      ensures rt.trace == old(rt.trace) + ReloadNotice(onReload, outcome)
    {
      var r := ModuleTs.ReloadModule(rt, p, onReload, outcome);
      if r.Some? {
        Store(p, r.value);
      }
    }

    /** An `add` event: for a module file, `onAdd(p)` and then a reload stored in
        `modules`; any other path changes nothing. */
    method HandleAdd(pathStr: Path, resolved: Path, outcome: Outcome)
      requires Valid()
      modifies this`modules, this`keyOrder, rt
      ensures Valid()
      ensures var p := ResolvePath(pathStr, resolved);
        if !ModuleTs.IsModuleFile(p) then
          rt.View() == old(rt.View()) && modules == old(modules) && keyOrder == old(keyOrder)
        else
          && rt.trace == old(rt.trace) + Call(onAdd, PathArg(p)) + ReloadNotice(onReload, outcome)
          && rt.activeModules == (if outcome.Loaded? then old(rt.activeModules)[p := outcome.handle] else old(rt.activeModules))
          && modules == (if outcome.Loaded? then old(modules)[p := outcome.handle] else old(modules))
          && keyOrder == (if outcome.Loaded? && p !in old(modules) then old(keyOrder) + [p] else old(keyOrder))
    {
      var p := ResolvePath(pathStr, resolved);
      if !ModuleTs.IsModuleFile(p) {
        return;
      }
      rt.Emit(Call(onAdd, PathArg(p)));
      ReloadAndStore(p, outcome);
    }

    /** A `change` event: for a module file, `onChange(p)` and then a reload
        stored in `modules`; any other path changes nothing. */
    method HandleChange(pathStr: Path, resolved: Path, outcome: Outcome)
      requires Valid()
      modifies this`modules, this`keyOrder, rt
      ensures Valid()
      ensures var p := ResolvePath(pathStr, resolved);
        if !ModuleTs.IsModuleFile(p) then
          rt.View() == old(rt.View()) && modules == old(modules) && keyOrder == old(keyOrder)
        else
          && rt.trace == old(rt.trace) + Call(onChange, PathArg(p)) + ReloadNotice(onReload, outcome)
          && rt.activeModules == (if outcome.Loaded? then old(rt.activeModules)[p := outcome.handle] else old(rt.activeModules))
          && modules == (if outcome.Loaded? then old(modules)[p := outcome.handle] else old(modules))
          && keyOrder == (if outcome.Loaded? && p !in old(modules) then old(keyOrder) + [p] else old(keyOrder))
    {
      var p := ResolvePath(pathStr, resolved);
      if !ModuleTs.IsModuleFile(p) {
        return;
      }
      rt.Emit(Call(onChange, PathArg(p)));
      ReloadAndStore(p, outcome);
    }

    /** An `unlink` event: for a module file, `onDelete(p)`, then registry
        cleanup of `p`, then removal of `p` from `modules`; other keys stay. */
    method HandleDelete(pathStr: Path, resolved: Path)
      requires Valid()
      modifies this`modules, this`keyOrder, rt
      ensures Valid()
      ensures var p := ResolvePath(pathStr, resolved);
        if !ModuleTs.IsModuleFile(p) then
          rt.View() == old(rt.View()) && modules == old(modules) && keyOrder == old(keyOrder)
        else
          && rt.View() == CleanupStep(old(rt.View()).(trace := old(rt.trace) + Call(onDelete, PathArg(p))), p)
          && modules == old(modules) - {p}
          && keyOrder == Without(old(keyOrder), p)
    {
      var p := ResolvePath(pathStr, resolved);
      if !ModuleTs.IsModuleFile(p) {
        return;
      }
      rt.Emit(Call(onDelete, PathArg(p)));
      rt.HandleModuleCleanup(p);
      Forget(p);
    }

    /** `modules.delete(p)`. */
    method Forget(p: Path)
      requires Valid()
      modifies this`modules, this`keyOrder
      ensures Valid() && modules == old(modules) - {p} && keyOrder == Without(old(keyOrder), p)
    {
      modules := modules - {p};
      keyOrder := Without(keyOrder, p);
    }
  }
}

/** The JavaScript generation's folder session. The folder is listed once;
    each module file in the listing is recorded in `existingFiles`, gets a
    status poller of its own and is loaded into `activeModules` and into the
    caller's `collection` under its extension-less name. The folder watcher's
    `rename` events add or remove a module file, depending on whether it
    exists; a poller reloads its file when the modification marker differs
    and removes it when no link is left. */
module WatchFolderJs {
  import opened Paths
  import opened Registry
  import ModuleJs

  /** The paths of the module files among the first `n` listed entries, in
      listing order. */
  function ModuleEntries(folder: Path, files: seq<string>, n: nat): (r: seq<Path>)
    requires n <= |files|
    ensures |r| <= n
  {
    if n == 0 then []
    else
      var fp := Join(folder, files[n - 1]);
      ModuleEntries(folder, files, n - 1) + if ModuleJs.IsModuleFile(fp) then [fp] else []
  }

  /** Each module entry comes from a listed name. */
  lemma {:induction false} EntryOrigin(folder: Path, files: seq<string>, n: nat, i: nat) returns (j: nat)
    requires n <= |files| && i < |ModuleEntries(folder, files, n)|
    ensures j < n && ModuleEntries(folder, files, n)[i] == Join(folder, files[j])
  {
    if i < |ModuleEntries(folder, files, n - 1)| {
      j := EntryOrigin(folder, files, n - 1, i);
    } else {
      j := n - 1;
    }
  }

  /** Each module entry is a module file. */
  lemma {:induction false} EntryIsModuleFile(folder: Path, files: seq<string>, n: nat, i: nat)
    requires n <= |files| && i < |ModuleEntries(folder, files, n)|
    ensures ModuleJs.IsModuleFile(ModuleEntries(folder, files, n)[i])
  {
    if i < |ModuleEntries(folder, files, n - 1)| {
      EntryIsModuleFile(folder, files, n - 1, i);
    }
  }

  /** Each listed name that makes a module file path gives a module entry. */
  lemma {:induction false} ListedEntry(folder: Path, files: seq<string>, n: nat, j: nat)
    requires n <= |files| && j < n && ModuleJs.IsModuleFile(Join(folder, files[j]))
    ensures Join(folder, files[j]) in ModuleEntries(folder, files, n)
  {
    if j < n - 1 {
      ListedEntry(folder, files, n - 1, j);
    }
  }

  /** The registry side of the load `watchFileInFolder(fp)` starts, once it
      completes: reported to `onReload`, and a loaded module installed
      without running any hook. */
  function LoadedRegistry(s: RegistryState, fp: Path, onReload: Option<CallbackId>, outcome: Outcome): RegistryState
  {
    RegistryState(if outcome.Loaded? then s.active[fp := outcome.handle] else s.active,
          s.trace + ReloadNotice(onReload, outcome))
  }

  /** The collection side of the same load: a loaded module is stored under
      the path's key. */
  function LoadedCollection(c: map<string, Module>, fp: Path, outcome: Outcome): map<string, Module>
  {
    if outcome.Loaded? then c[ModuleJs.CollectionKey(fp) := outcome.handle] else c
  }

  /** The registry after the loads of `entries`, one after the other, where
      `outcomeOf(p)` is what importing `p` produces. */
  function LoadAll(s: RegistryState, entries: seq<Path>, onReload: Option<CallbackId>, outcomeOf: Path -> Outcome): RegistryState
    decreases |entries|
  {
    if entries == [] then s
    else
      var n := |entries| - 1;
      LoadedRegistry(LoadAll(s, entries[..n], onReload, outcomeOf), entries[n], onReload, outcomeOf(entries[n]))
  }

  /** The collection after the same loads. */
  function CollectAll(c: map<string, Module>, entries: seq<Path>, outcomeOf: Path -> Outcome): map<string, Module>
    decreases |entries|
  {
    if entries == [] then c
    else
      var n := |entries| - 1;
      LoadedCollection(CollectAll(c, entries[..n], outcomeOf), entries[n], outcomeOf(entries[n]))
  }

  /** The listing's loads run no teardown hook: they only append reports to
      `onReload`, one per entry at most. */
  lemma {:induction false} LoadAllRunsNoHook(s: RegistryState, entries: seq<Path>, onReload: Option<CallbackId>, outcomeOf: Path -> Outcome)
    returns (added: seq<Event>)
    ensures LoadAll(s, entries, onReload, outcomeOf).trace == s.trace + added
    ensures |added| <= |entries| && NoTeardown(added)
    decreases |entries|
  {
    if entries == [] {
      added := [];
    } else {
      var n := |entries| - 1;
      var before := LoadAllRunsNoHook(s, entries[..n], onReload, outcomeOf);
      var notice := ReloadNotice(onReload, outcomeOf(entries[n]));
      added := before + notice;
      assert s.trace + before + notice == s.trace + added;
      NoTeardownConcat(before, notice);
    }
  }

  lemma NoTeardownConcat(a: seq<Event>, b: seq<Event>)
    requires NoTeardown(a) && NoTeardown(b)
    ensures NoTeardown(a + b)
  {
    forall i | 0 <= i < |a + b| ensures !(a + b)[i].Teardown? {
      if i >= |a| {
        assert (a + b)[i] == b[i - |a|];
      }
    }
  }

  /** The listing's loads change registry entries only at the loaded paths,
      and each loaded path ends up holding its module when the import succeeds. */
  lemma {:induction false} LoadAllTouchesOnlyEntries(
    s: RegistryState, entries: seq<Path>, onReload: Option<CallbackId>, outcomeOf: Path -> Outcome, p: Path)
    ensures var r := LoadAll(s, entries, onReload, outcomeOf);
      && (p !in entries ==> (p in r.active <==> p in s.active) && (p in s.active ==> r.active[p] == s.active[p]))
      && (p in entries && outcomeOf(p).Loaded? ==> p in r.active && r.active[p] == outcomeOf(p).handle)
    decreases |entries|
  {
    if entries != [] {
      var n := |entries| - 1;
      assert p in entries <==> p in entries[..n] || p == entries[n];
      LoadAllTouchesOnlyEntries(s, entries[..n], onReload, outcomeOf, p);
    }
  }

  /** The listing's loads never remove a collection entry. */
  lemma {:induction false} CollectAllKeepsKeys(c: map<string, Module>, entries: seq<Path>, outcomeOf: Path -> Outcome)
    ensures c.Keys <= CollectAll(c, entries, outcomeOf).Keys
    decreases |entries|
  {
    if entries != [] {
      CollectAllKeepsKeys(c, entries[..|entries| - 1], outcomeOf);
    }
  }

  /** Loading `a` then `b` is loading `a + b`. */
  lemma {:induction false} LoadAppend(s: RegistryState, c: map<string, Module>, a: seq<Path>, b: seq<Path>,
                                      onReload: Option<CallbackId>, outcomeOf: Path -> Outcome)
    ensures LoadAll(s, a + b, onReload, outcomeOf) == LoadAll(LoadAll(s, a, onReload, outcomeOf), b, onReload, outcomeOf)
    ensures CollectAll(c, a + b, outcomeOf) == CollectAll(CollectAll(c, a, outcomeOf), b, outcomeOf)
    decreases |b|
  {
    if b == [] {
      assert a + b == a;
    } else {
      var n := |b| - 1;
      LoadAppend(s, c, a, b[..n], onReload, outcomeOf);
      assert (a + b)[..|a| + n] == a + b[..n];
      assert (a + b)[|a| + n] == b[n];
    }
  }

  /** What a listing changes: the registry, the collection, the recorded
      files and the pollers. */
  datatype Snapshot = Snapshot(registry: RegistryState, collection: map<string, Module>, files: set<Path>, pollers: multiset<Path>)

  /** One module entry of the listing handled: recorded, polled and loaded. */
  function HandleEntry(st: Snapshot, fp: Path, onReload: Option<CallbackId>, outcome: Outcome): Snapshot
  {
    Snapshot(LoadedRegistry(st.registry, fp, onReload, outcome), LoadedCollection(st.collection, fp, outcome),
             st.files + {fp}, st.pollers + multiset{fp})
  }

  /** All of `entries` handled, one after the other: each recorded, one
      poller added per occurrence, and loaded as `LoadAll` and `CollectAll`
      say. */
  function HandleAll(st: Snapshot, entries: seq<Path>, onReload: Option<CallbackId>, outcomeOf: Path -> Outcome): Snapshot
  {
    Snapshot(LoadAll(st.registry, entries, onReload, outcomeOf), CollectAll(st.collection, entries, outcomeOf),
             st.files + Elems(entries), st.pollers + multiset(entries))
  }

  /** Handling one more entry is one more `HandleEntry`. */
  lemma HandleSnoc(st: Snapshot, entries: seq<Path>, fp: Path, onReload: Option<CallbackId>, outcomeOf: Path -> Outcome)
    ensures HandleAll(st, entries + [fp], onReload, outcomeOf)
      == HandleEntry(HandleAll(st, entries, onReload, outcomeOf), fp, onReload, outcomeOf(fp))
  {
    assert (entries + [fp])[..|entries|] == entries;
    ElemsAppend(entries, fp);
  }

  /** Entry `i` of a listing adds to what the first `i` entries did exactly
      when it names a module file. */
  lemma ListingStep(start: Snapshot, folder: Path, files: seq<string>, i: nat,
                    onReload: Option<CallbackId>, outcomeOf: Path -> Outcome, before: Snapshot)
    requires i < |files| && before == HandleAll(start, ModuleEntries(folder, files, i), onReload, outcomeOf)
    ensures var fp := Join(folder, files[i]);
      HandleAll(start, ModuleEntries(folder, files, i + 1), onReload, outcomeOf)
        == if ModuleJs.IsModuleFile(fp) then HandleEntry(before, fp, onReload, outcomeOf(fp)) else before
  {
    var fp := Join(folder, files[i]);
    var entries := ModuleEntries(folder, files, i);
    if ModuleJs.IsModuleFile(fp) {
      assert ModuleEntries(folder, files, i + 1) == entries + [fp];
      HandleSnoc(start, entries, fp, onReload, outcomeOf);
    } else {
      assert ModuleEntries(folder, files, i + 1) == entries;
    }
  }

  class WatchFolder {
    const folderPath: Path
    const rt: Runtime
    /** Consumer callbacks; None is null. */
    var onAdd: Option<CallbackId>
    var onReload: Option<CallbackId>
    var onChange: Option<CallbackId>
    var onDelete: Option<CallbackId>
    /** The caller's collection, keyed by extension-less file name. */
    var collection: map<string, Module>
    var existingFiles: set<Path>
    /** The status pollers registered, one occurrence per registration. */
    var listeners: multiset<Path>
    /** Whether the folder watcher is registered. */
    var folderWatching: bool

    /** Every polled file is recorded in `existingFiles`. The code never reads
        `existingFiles`, so no handler depends on this: it is a fact about the
        session's state that every handler is proved to keep. */
    ghost predicate Valid()
      reads this
    {
      forall p :: p in listeners ==> p in existingFiles
    }

    /** Sets the callbacks to null and registers the folder watcher; the
        listing `init` asks for arrives later, in `ListingArrived`. */
    constructor (folderPath: Path, collection: map<string, Module>, rt: Runtime)
      ensures Valid()
      ensures this.folderPath == folderPath && this.rt == rt && this.collection == collection
      ensures onAdd.None? && onReload.None? && onChange.None? && onDelete.None?
      ensures existingFiles == {} && listeners == multiset{} && folderWatching
    {
      this.folderPath := folderPath;
      this.rt := rt;
      this.collection := collection;
      onAdd, onReload, onChange, onDelete := None, None, None, None;
      existingFiles, listeners := {}, multiset{};
      folderWatching := true;
    }

    method SetOnAdd(cb: Option<CallbackId>)
      modifies this`onAdd
      ensures onAdd == cb
    {
      onAdd := cb;
    }

    method SetOnReload(cb: Option<CallbackId>)
      modifies this`onReload
      ensures onReload == cb
    {
      onReload := cb;
    }

    method SetOnChange(cb: Option<CallbackId>)
      modifies this`onChange
      ensures onChange == cb
    {
      onChange := cb;
    }

    method SetOnDelete(cb: Option<CallbackId>)
      modifies this`onDelete
      ensures onDelete == cb
    {
      onDelete := cb;
    }

    /** The session's part of the state a listing changes. */
    ghost function Snap(): Snapshot
      reads this, rt
    {
      Snapshot(rt.View(), collection, existingFiles, listeners)
    }

    /** The folder listing arrives, `outcomeOf(p)` being what importing `p`
        produces: every module file among `files` is recorded, polled and
        loaded, in listing order, with the current `onReload`. */
    method ListingArrived(files: seq<string>, outcomeOf: Path -> Outcome)
      requires Valid()
      modifies this`existingFiles, this`listeners, this`collection, rt
      ensures Valid()
      ensures var entries := ModuleEntries(folderPath, files, |files|);
        && existingFiles == old(existingFiles) + Elems(entries)
        && listeners == old(listeners) + multiset(entries)
        && rt.View() == LoadAll(old(rt.View()), entries, onReload, outcomeOf)
        && collection == CollectAll(old(collection), entries, outcomeOf)
    {
      ghost var start := Snap();
      for i := 0 to |files|
        modifies this`existingFiles, this`listeners, this`collection, rt
        invariant Valid()
        invariant Snap() == HandleAll(start, ModuleEntries(folderPath, files, i), onReload, outcomeOf)
      {
        ListEntry(files, i, outcomeOf, start);
      }
    }

    /** Entry `i` of the listing: when it names a module file, the file is
        recorded, polled and loaded. */
    method ListEntry(files: seq<string>, i: nat, outcomeOf: Path -> Outcome, ghost start: Snapshot)
      requires i < |files| && Valid()
      requires Snap() == HandleAll(start, ModuleEntries(folderPath, files, i), onReload, outcomeOf)
      modifies this`existingFiles, this`listeners, this`collection, rt
      ensures Valid()
      ensures Snap() == HandleAll(start, ModuleEntries(folderPath, files, i + 1), onReload, outcomeOf)
    {
      var fp := Join(folderPath, files[i]);
      var outcome := outcomeOf(fp);
      ListingStep(start, folderPath, files, i, onReload, outcomeOf, Snap());
      if ModuleJs.IsModuleFile(fp) {
        AddListed(fp, outcome);
      }
    }

    /** A module file of the listing is recorded, polled and loaded. */
    method AddListed(fp: Path, outcome: Outcome)
      requires Valid()
      modifies this`existingFiles, this`listeners, this`collection, rt
      ensures Valid()
      ensures Snap() == HandleEntry(old(Snap()), fp, onReload, outcome)
    {
      existingFiles := existingFiles + {fp};
      listeners := listeners + multiset{fp};
      InitialLoad(fp, outcome);
    }

    /** The load started by `watchFileInFolder(fp)` completes. */
    method InitialLoad(fp: Path, outcome: Outcome)
      modifies this`collection, rt
      ensures rt.View() == LoadedRegistry(old(rt.View()), fp, onReload, outcome)
      ensures collection == LoadedCollection(old(collection), fp, outcome)
    {
      var loaded := ModuleJs.ReloadModule(rt, fp, onReload, outcome);
      if loaded.Some? {
        rt.Install(fp, loaded.value);
        collection := collection[ModuleJs.CollectionKey(fp) := loaded.value];
      }
    }

    /** The status poller of `fp` fires. When the modification marker differs:
        a reload reported to `onReload`, then `onChange(fp)`, then, if the
        reload succeeded, the previous entry's hook and its replacement in
        `activeModules` and in the collection. Otherwise, when no link is left,
        the file is forgotten (see `Forget`) but stays in `existingFiles`.
        Otherwise nothing. */
    method FileChanged(fp: Path, markerDiffers: bool, nlink: nat, outcome: Outcome)
      requires Valid() && fp in listeners
      modifies this`collection, this`listeners, rt
      ensures Valid()
      ensures markerDiffers ==>
        && rt.trace == old(rt.trace) + ReloadNotice(onReload, outcome) + Call(onChange, PathArg(fp))
                       + (if outcome.Loaded? then HookOf(old(rt.activeModules), fp) else [])
        && rt.activeModules == (if outcome.Loaded? then old(rt.activeModules)[fp := outcome.handle] else old(rt.activeModules))
        && collection == (if outcome.Loaded? then old(collection)[ModuleJs.CollectionKey(fp) := outcome.handle] else old(collection))
        && listeners == old(listeners)
      ensures !markerDiffers && nlink == 0 ==>
        && rt.trace == old(rt.trace) + HookOf(old(rt.activeModules), fp) + Call(onDelete, PathArg(fp))
        && rt.activeModules == old(rt.activeModules) - {fp}
        && collection == old(collection) - {ModuleJs.CollectionKey(fp)}
        && listeners == old(listeners)[fp := 0]
      ensures !markerDiffers && nlink != 0 ==>
        rt.View() == old(rt.View()) && collection == old(collection) && listeners == old(listeners)
    {
      if markerDiffers {
        Reload(fp, outcome);
      } else if nlink == 0 {
        Forget(fp);
      }
    }

    /** Lines shared by a poller's reload: `reloadModule(fp, onReload)`,
        `onChange(fp)`, and on success the previous entry's hook and the
        new module stored in `activeModules` and the collection. */
    method Reload(fp: Path, outcome: Outcome)
      modifies this`collection, rt
      ensures rt.trace == old(rt.trace) + ReloadNotice(onReload, outcome) + Call(onChange, PathArg(fp))
                          + (if outcome.Loaded? then HookOf(old(rt.activeModules), fp) else [])
      ensures rt.activeModules == (if outcome.Loaded? then old(rt.activeModules)[fp := outcome.handle] else old(rt.activeModules))
      ensures collection == (if outcome.Loaded? then old(collection)[ModuleJs.CollectionKey(fp) := outcome.handle] else old(collection))
    {
      var loaded := ModuleJs.ReloadModule(rt, fp, onReload, outcome);
      rt.Emit(Call(onChange, PathArg(fp)));
      if loaded.Some? {
        rt.HandleModuleCleanup(fp);
        rt.Install(fp, loaded.value);
        assert rt.activeModules == old(rt.activeModules)[fp := outcome.handle];
        collection := collection[ModuleJs.CollectionKey(fp) := loaded.value];
      }
    }

    /** What a vanished file goes through, from its poller or from the folder
        watcher: the entry's hook and removal, its key removed from the
        collection, `onDelete(fp)`, and every poller of `fp` unregistered. */
    method Forget(fp: Path)
      modifies this`collection, this`listeners, rt
      ensures rt.trace == old(rt.trace) + HookOf(old(rt.activeModules), fp) + Call(onDelete, PathArg(fp))
      ensures rt.activeModules == old(rt.activeModules) - {fp}
      ensures collection == old(collection) - {ModuleJs.CollectionKey(fp)}
      ensures listeners == old(listeners)[fp := 0]
    {
      rt.HandleModuleCleanup(fp);
      collection := collection - {ModuleJs.CollectionKey(fp)};
      rt.Emit(Call(onDelete, PathArg(fp)));
      listeners := listeners[fp := 0];
    }

    /** A folder watcher event is acted on only when it names a file, is a
        `rename`, and the named path is a module file. */
    predicate ActsOn(eventType: string, filename: Option<string>)
    {
      && filename.Some? && filename.value != []
      && eventType == "rename"
      && ModuleJs.IsModuleFile(Join(folderPath, filename.value))
    }

    /** A folder watcher event, with `present` what the existence check of the
        named path found. A vanished module file is forgotten: dropped from
        `existingFiles`, its entry's hook run and the entry removed, its key
        removed from the collection, `onDelete(fp)`, its pollers unregistered.
        A present one is recorded and polled, `onAdd(fp)` fires, and its load
        then completes as in the listing. */
    method FolderChanged(eventType: string, filename: Option<string>, present: bool, outcome: Outcome)
      requires Valid()
      modifies this`existingFiles, this`listeners, this`collection, rt
      ensures Valid()
      ensures !ActsOn(eventType, filename) ==>
        && rt.View() == old(rt.View()) && collection == old(collection)
        && existingFiles == old(existingFiles) && listeners == old(listeners)
      ensures ActsOn(eventType, filename) && !present ==>
        var fp := Join(folderPath, filename.value);
        && existingFiles == old(existingFiles) - {fp}
        && listeners == old(listeners)[fp := 0]
        && collection == old(collection) - {ModuleJs.CollectionKey(fp)}
        && rt.activeModules == old(rt.activeModules) - {fp}
        && rt.trace == old(rt.trace) + HookOf(old(rt.activeModules), fp) + Call(onDelete, PathArg(fp))
      ensures ActsOn(eventType, filename) && present ==>
        var fp := Join(folderPath, filename.value);
        && existingFiles == old(existingFiles) + {fp}
        && listeners == old(listeners) + multiset{fp}
        && collection == (if outcome.Loaded? then old(collection)[ModuleJs.CollectionKey(fp) := outcome.handle] else old(collection))
        && rt.activeModules == (if outcome.Loaded? then old(rt.activeModules)[fp := outcome.handle] else old(rt.activeModules))
        && rt.trace == old(rt.trace) + Call(onAdd, PathArg(fp)) + ReloadNotice(onReload, outcome)
    {
      if !ActsOn(eventType, filename) {
        return;
      }
      var fp := Join(folderPath, filename.value);
      if !present {
        existingFiles := existingFiles - {fp};
        Forget(fp);
      } else {
        existingFiles := existingFiles + {fp};
        listeners := listeners + multiset{fp};
        rt.Emit(Call(onAdd, PathArg(fp)));
        InitialLoad(fp, outcome);
      }
    }
  }
}

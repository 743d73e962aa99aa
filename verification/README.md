# Module-Monitor: registry and watch sessions in Dafny

Module-Monitor hot-reloads JavaScript/TypeScript modules. A process-wide
`activeModules` map records the loaded module of each path. File and folder
watch sessions turn filesystem notifications into reloads, registry
installs and cleanups, and calls to the consumer's callbacks. The library
ships in two generations, and both are modelled here:

- the TypeScript one (`src/utils/module.ts`, `src/watcher/WatchFile.ts`,
  `src/watcher/WatchFolder.ts`), built on chokidar events;
- the JavaScript one (`utils/module.js`, `watcher/WatchFile.js`,
  `watcher/WatchFolder.js`), built on `fs.watchFile` status polling and
  `fs.watch` rename events.

Everything a consumer can observe is recorded in one ordered trace of
`Event`s: a callback called with its arguments, or a module's
`cleanupModule` hook run on its target. The trace and the registry map are
the fields of the `Runtime` class (one per generation). Every handler states
its effect on both. Loads, filesystem answers and path resolution are
inputs:

- a dynamic `import` is an `Outcome` (`Loaded(module)` or `Failed(error)`);
  a listing's loads use `outcomeOf: Path -> Outcome`;
- a status poll is `markerDiffers: bool` and `nlink: nat`;
- `fs.access` is `present: bool`;
- `path.resolve` is the value it returned.

Files:

- `paths.dfy` (`Paths`): the parts of `path.extname`, `path.basename`,
  `path.join` and `toLowerCase` the filters use, for POSIX paths.
- `registry.dfy` (`Registry`): modules, callbacks, events, the registry
  value `RegistryState` with `CleanupStep` (`handleModuleCleanup` on a value), and
  the class `Runtime`.
- `module_ts.dfy` (`ModuleTs`), `module_js.dfy` (`ModuleJs`): the extension
  allow-lists and `reloadModule`. `ModuleJs` also holds the folder
  session's collection key.
- `watch_file_ts.dfy`, `watch_folder_ts.dfy`, `watch_file_js.dfy`,
  `watch_folder_js.dfy`: the session classes.

Where the library's own description and its code differ, the model follows
the code:

- No session has an in-flight flag or any coalescing. Every notification
  runs its own reload.
- The TypeScript `reloadModule` installs the new module over the old entry
  without running the old module's hook (`src/utils/module.ts:18`). So a
  TypeScript change never tears the previous module down. The JavaScript
  generation cleans up before it installs only when a poller sees a change
  (`watcher/WatchFile.js:38-41`, `watcher/WatchFolder.js:50-54`). Its other
  loads install over an existing entry without running its hook: the
  single-file initial load (`watcher/WatchFile.js:29`), and the folder
  listing's and a rename's load (`watcher/WatchFolder.js:63-66`, reached
  from line 86).
- Callback order is the code's:
  - TypeScript change: `onChange`, then the reload (whose `onReload` follows
    the install).
  - JavaScript change: the reload's `onReload`, then `onChange`, then
    cleanup and install.
  - TypeScript unlink: `onDelete` comes before the cleanup.
- `onReload` receives `(module, error)`. The path is not passed.
- The JavaScript single-file session hands `reloadModule` its `onReload`
  while that is still null (`watcher/WatchFile.js:12,27`). Its initial load
  therefore reports to `onReload` once, at line 30, not twice.
- The TypeScript folder watcher starts without `ignoreInitial`, so existing
  files arrive as `add` events and fire `onAdd`. The JavaScript listing
  loads existing files without `onAdd`.
- A JavaScript `rename` for a present module file always counts as an
  addition: `onAdd` fires and one more poller is registered, whatever
  `existingFiles` holds. Nothing ever reads `existingFiles`.
- The filters are fixed lists, not configurable. The TypeScript folder
  session resolves a relative folder against the directory of the entry
  script. When there is no entry script, it resolves against the parent of
  the working directory, since `path.dirname` is applied to the working
  directory itself (`src/watcher/WatchFolder.ts:36-37`). The JavaScript
  sessions use paths as given.
- The JavaScript pollers compare the two status objects' modification
  times with `!==` (`watcher/WatchFile.js:35`, `watcher/WatchFolder.js:47`).
  These are two distinct `Date` objects, so in practice they always differ.
  The `nlink === 0` branch is then never reached, and a deleted file shows
  up as a failed reload followed by `onChange`. The model keeps the
  comparison's result as the input `markerDiffers`, so both branches stay
  modelled.

## Model

| member | source | states |
|---|---|---|
| Registry.CleanupStep | src/utils/module.ts:30-39 | The path loses its entry, and every other entry is unchanged. With no entry, nothing changes. At most one hook runs, exactly when the entry exists and its target (the `default` export if present, else the module) has `cleanupModule`; that hook is the one recorded |
| Registry.CleanupIdempotent | src/utils/module.ts:31-32 | Cleaning a path up twice is the same as cleaning it up once |
| Registry.CleanupCommutes | utils/module.js:24-35 | Cleanups of two different paths leave the same registry in either order |
| Registry.Runtime.HandleModuleCleanup | utils/module.js:24-35 | The registry and trace after the call are `CleanupStep` of those before; the TypeScript text at src/utils/module.ts:30-39 is the same |
| Registry.Runtime.Install | src/utils/module.ts:18 | `activeModules.set(p, m)` (also at watcher/WatchFile.js:29,40 and watcher/WatchFolder.js:52,65): the entry of `p` becomes `m`, and nothing else changes |
| Registry.CleanupAll | src/watcher/WatchFolder.ts:88-94 | Cleaning up a list of paths removes exactly those paths; the trace only grows, by at most one teardown per path, each of a path that had an entry |
| Registry.CleanupAllHooks | src/watcher/WatchFolder.ts:90-92 | With no path repeated, the hooks run in list order, each on the module the path held before the first cleanup |
| Paths.ExtName | utils/module.js:38 | `path.extname(p)` is empty, or else a suffix of the path (trailing separators dropped) with a non-separator of its last segment before it |
| Paths.SegmentExtOf | src/utils/module.ts:45 | The extension of the last segment is empty, or ends the path inside that segment |
| Paths.ExtNameMatches | utils/module.js:38 | `ExtName(p)`, the model of `path.extname(p)`, is the extension `e` exactly when `p`, trailing separators dropped, ends in `e` with a non-separator of the same segment before it |
| Paths.LowerExtNameMatches | src/utils/module.ts:45 | The lower-cased extension is `e` exactly when the lower-cased path ends in `e` that way |
| ModuleTs.AllowListByExtName | src/utils/module.ts:44-47 | `ModuleTs.IsModuleFile(p)`, the model of `isModuleFile(p)`, holds exactly when the lower-cased `extname(p)` is one of `.js .mjs .cjs .ts .mts .cts .json` |
| ModuleTs.IsModuleFileIgnoresCase | src/utils/module.ts:45 | Paths equal up to ASCII letter case get the same answer |
| ModuleTs.UpperCaseExample | src/utils/module.ts:44-47 | `X.JS` is a module file |
| ModuleTs.TextFileExample | src/utils/module.ts:44-47 | `notes.txt` is not a module file |
| ModuleTs.DotFileExample | src/utils/module.ts:44-47 | `/src/.js` has no extension, so it is not a module file |
| ModuleTs.ReloadModule | src/utils/module.ts:11-25 | On success the entry is set to the module, `onReload(module)` is called once, and the module is returned. On failure the registry is unchanged, `onReload(null, error)` is called once, and null is returned |
| ModuleJs.AllowListByExtName | utils/module.js:37-40 | `ModuleJs.IsModuleFile(p)`, the model of `isModuleFile(p)`, holds exactly when `extname(p)` is `.js` or `.mjs`, compared case-sensitively |
| ModuleJs.CaseSensitive | utils/module.js:38-39 | `X.JS` is refused here, though the TypeScript filter accepts it |
| ModuleJs.NarrowerThanTs | utils/module.js:37-40 | Every file this filter accepts, the TypeScript filter accepts |
| ModuleJs.ReloadModule | utils/module.js:6-22 | The registry is left alone on both branches. A set `onReload` is called once, with the module or the error; an unset one is not called. Null is returned exactly when the import failed |
| ModuleJs.KeyAndExtName | watcher/WatchFolder.js:45 | `CollectionKey(p)`, the model of `path.basename(p, path.extname(p))` (also at line 79), followed by `extname` spells the base name, so the key is the base name without its extension |
| ModuleJs.KeyIsStem | watcher/WatchFolder.js:45 | The key of `dir/stem + ext` is `stem` |
| ModuleJs.SharedKey | watcher/WatchFolder.js:45 | `a.js` and `a.mjs` in one folder share the key `a` |
| WatchFileTs.WatchFile.constructor | src/watcher/WatchFile.ts:37-47 | The session starts watching with every callback a no-op. It loads nothing and calls nothing |
| WatchFileTs.WatchFile.SetOnReload | src/watcher/WatchFile.ts:52-54 | Replaces `onReload` only |
| WatchFileTs.WatchFile.SetOnChange | src/watcher/WatchFile.ts:59-61 | Replaces `onChange` only |
| WatchFileTs.WatchFile.SetOnDelete | src/watcher/WatchFile.ts:66-68 | Replaces `onDelete` only |
| WatchFileTs.WatchFile.OnChangeEvent | src/watcher/WatchFile.ts:39-42 | Handled only while the watcher is open. `onChange(path)` comes before the reload's `onReload`. No hook runs. A successful load overwrites the entry of `filePath`; a failed one leaves the registry alone |
| WatchFileTs.WatchFile.OnUnlinkEvent | src/watcher/WatchFile.ts:43-46 | Handled only while the watcher is open. `onDelete(path)` first, then the cleanup of `filePath` and the watcher closed |
| WatchFileTs.WatchFile.Cleanup | src/watcher/WatchFile.ts:73-76 | Closes the watcher and cleans up `filePath`; every other entry is unchanged |
| WatchFileTs.WatchFile.HandleReload | src/watcher/WatchFile.ts:78-80 | Returns `reloadModule(filePath, onReload)`'s result, with its effects, using the current `onReload` |
| WatchFolderTs.ResolvePath | src/watcher/WatchFolder.ts:38-40 | `isAbsolute(x) ? x : path.resolve(base, x)`, also at lines 103-105, 112-114 and 121-123: an absolute path is kept as given, the result is either the path or the resolution, and it is absolute whenever the resolution is (which `path.resolve` always makes it) |
| WatchFolderTs.WatchFolder.constructor | src/watcher/WatchFolder.ts:35-43 | The folder path is `ResolvePath` of the argument against the entry script's directory: kept as given when absolute, otherwise replaced by its resolution. Callbacks are no-ops and `modules` is empty |
| WatchFolderTs.WatchFolder.SetOnAdd | src/watcher/WatchFolder.ts:49-51 | Replaces `onAdd` only |
| WatchFolderTs.WatchFolder.SetOnChange | src/watcher/WatchFolder.ts:57-59 | Replaces `onChange` only |
| WatchFolderTs.WatchFolder.SetOnDelete | src/watcher/WatchFolder.ts:65-67 | Replaces `onDelete` only |
| WatchFolderTs.WatchFolder.SetOnReload | src/watcher/WatchFolder.ts:73-75 | Replaces `onReload` only |
| WatchFolderTs.WatchFolder.SetCallbacks | src/watcher/WatchFolder.ts:81-86 | Each callback present in the argument replaces the field; each absent one keeps its value |
| WatchFolderTs.WatchFolder.Cleanup | src/watcher/WatchFolder.ts:88-94 | Every key of `modules` is cleaned up, in insertion order (`CleanupAll`). Exactly those entries leave the registry, `modules` ends empty, and the watcher is closed |
| WatchFolderTs.WatchFolder.Store | src/watcher/WatchFolder.ts:133 | `modules.set`: the entry is set, and a new key goes to the end of the insertion order |
| WatchFolderTs.WatchFolder.ReloadAndStore | src/watcher/WatchFolder.ts:130-135 | `modules` gets the module only on success and is unchanged on failure; a new key goes to the end of the insertion order, and on failure the order is unchanged; the registry and trace change as `reloadModule` says |
| WatchFolderTs.WatchFolder.HandleAdd | src/watcher/WatchFolder.ts:102-109 | The event path is first resolved against the folder by `ResolvePath`, and `p` is the result. A non-module path changes nothing and calls nothing, and the insertion order stays. Otherwise `onAdd(p)` comes before the reload's `onReload`, and a successful load lands in the registry and in `modules`. A new key goes to the end of the insertion order, and a failed load leaves the order alone |
| WatchFolderTs.WatchFolder.HandleChange | src/watcher/WatchFolder.ts:111-118 | The same as `HandleAdd`, with `onChange(p)`: the event path is resolved against the folder, and for a module file `onChange(p)` comes before the reload |
| WatchFolderTs.WatchFolder.HandleDelete | src/watcher/WatchFolder.ts:120-128 | The event path is first resolved against the folder by `ResolvePath`, and `p` is the result. A non-module path changes nothing, including the insertion order. Otherwise `onDelete(p)`, then the cleanup of `p`, then `p` leaves `modules`; other keys keep their place in the insertion order |
| WatchFolderTs.WatchFolder.Forget | src/watcher/WatchFolder.ts:127 | `modules.delete(p)`: only `p` leaves, and the order of the rest is kept |
| WatchFileJs.NewWatchFile | watcher/WatchFile.js:10-23 | A TypeError naming the path is thrown exactly when the path is not a module file, before anything is watched or loaded. Otherwise the session has null callbacks and is polling |
| WatchFileJs.WatchFile.constructor | watcher/WatchFile.js:10-23 | The callbacks are null and the status poller is registered |
| WatchFileJs.WatchFile.SetOnReload | watcher/WatchFile.js:49-51 | Sets `onReload` |
| WatchFileJs.WatchFile.SetOnChange | watcher/WatchFile.js:53-55 | Sets `onChange` |
| WatchFileJs.WatchFile.SetOnDelete | watcher/WatchFile.js:57-59 | Sets `onDelete` |
| WatchFileJs.WatchFile.InitLoaded | watcher/WatchFile.js:25-32 | A successful initial load sets the entry and reports once to the current `onReload`. A failed one changes nothing |
| WatchFileJs.WatchFile.HandleChange | watcher/WatchFile.js:34-47 | Fires only while the poller is registered. Marker differs: the reload's `onReload`, then `onChange(filePath)`; on success the old entry's hook runs before the new module is installed, and on failure the entry is kept. No marker change and no link left: hook and removal, then `onDelete`, then the poller is unregistered. Otherwise nothing changes |
| WatchFolderJs.EntryIsModuleFile | watcher/WatchFolder.js:32-38 | Every path the listing takes is a module file |
| WatchFolderJs.ListedEntry | watcher/WatchFolder.js:32-38 | Every listed name whose joined path is a module file is taken |
| WatchFolderJs.EntryOrigin | watcher/WatchFolder.js:33 | Every path taken is the folder joined with a listed name |
| WatchFolderJs.ListingStep | watcher/WatchFolder.js:32-38 | Entry `i` of the listing changes the state exactly when it names a module file, by recording, polling and loading it |
| WatchFolderJs.LoadAllRunsNoHook | watcher/WatchFolder.js:63-67 | The listing's loads run no hook; they only append reports to `onReload`, at most one per file |
| WatchFolderJs.LoadAllTouchesOnlyEntries | watcher/WatchFolder.js:63-67 | The listing's loads change registry entries only at listed module paths; each one whose import succeeds ends up holding its module |
| WatchFolderJs.CollectAllKeepsKeys | watcher/WatchFolder.js:66 | The listing's loads never remove a collection key |
| WatchFolderJs.LoadAppend | watcher/WatchFolder.js:32-38 | Loading one list and then another equals loading their concatenation |
| WatchFolderJs.WatchFolder.constructor | watcher/WatchFolder.js:11-20 | The callbacks are null, `existingFiles` is empty, the caller's collection is kept, and the folder watcher is registered |
| WatchFolderJs.WatchFolder.SetOnAdd | watcher/WatchFolder.js:94-96 | Sets `onAdd` |
| WatchFolderJs.WatchFolder.SetOnReload | watcher/WatchFolder.js:98-100 | Sets `onReload` |
| WatchFolderJs.WatchFolder.SetOnChange | watcher/WatchFolder.js:102-104 | Sets `onChange` |
| WatchFolderJs.WatchFolder.SetOnDelete | watcher/WatchFolder.js:106-108 | Sets `onDelete` |
| WatchFolderJs.WatchFolder.ListingArrived | watcher/WatchFolder.js:22-42 | `existingFiles` gains exactly the module files of the listing, each gets one poller, and their loads, started in listing order, are modelled as completing in that order, with no `onAdd`. Every polled file stays recorded |
| WatchFolderJs.WatchFolder.ListEntry | watcher/WatchFolder.js:33-37 | One listed name: a module file is recorded, polled and loaded; any other name changes nothing |
| WatchFolderJs.WatchFolder.AddListed | watcher/WatchFolder.js:35-36 | Records and polls a module file and completes its load |
| WatchFolderJs.WatchFolder.InitialLoad | watcher/WatchFolder.js:63-67 | The load reports to `onReload`. On success the module is installed without a hook and stored under the file's key |
| WatchFolderJs.WatchFolder.FileChanged | watcher/WatchFolder.js:46-61 | Marker differs: the reload's `onReload`, then `onChange(fp)`; on success the old entry's hook runs, then the module replaces it in the registry and under the key. No marker change and no link left: hook and removal, key deleted, `onDelete(fp)`, every poller of `fp` gone, `existingFiles` kept. Otherwise nothing changes |
| WatchFolderJs.WatchFolder.Reload | watcher/WatchFolder.js:47-54 | The reload branch of a poller, as in `FileChanged` |
| WatchFolderJs.WatchFolder.Forget | watcher/WatchFolder.js:56-59 | Hook and removal, key deleted, `onDelete(fp)`, pollers of `fp` unregistered |
| WatchFolderJs.WatchFolder.FolderChanged | watcher/WatchFolder.js:70-92 | No name, a non-`rename` event or a non-module path changes nothing. A vanished path leaves `existingFiles` and is forgotten as in `Forget`. A present path joins `existingFiles` whatever it held and gets one more poller; `onAdd(fp)` comes before the load's report, and the load, not awaited in the code, is modelled as completing in the same step and is installed and stored as in `InitialLoad` |

## Left out

- The watchers themselves (chokidar, `fs.watch`, `fs.watchFile`, `fs.unwatchFile`, `fs.readdir`, `fs.access`) and closing them: their results are inputs, and closing is a boolean field.
- Dynamic `import`, its cache-busting query and `pathToFileURL`: a load is an `Outcome` input, and a module is an identity plus whether its hook target has `cleanupModule`.
- `path.resolve`, `path.dirname` and `process.argv`: the resolved path is an input, and only "absolute paths pass through unchanged" is stated.
- `path.join` is modelled for a normalised folder and a plain entry name only (no `.`/`..` segments, no separator normalisation), and `path.extname`/`path.basename` for POSIX separators only.
- `toLowerCase` is modelled for ASCII letters only. No other character lower-cases to a character of the allow-lists.
- WatchFolderJs.WatchFolder.ListingArrived: the listing's loads are started together and none is awaited (`watcher/WatchFolder.js:36`), so in the code each one completes whenever its own import resolves. The model completes them one by one in listing order. That fixes the order of the `onReload` reports and which file wins a shared collection key (of `a.js` and `a.mjs`, the one listed later), and other completion orders are not modelled.
- WatchFolderJs.WatchFolder.FolderChanged: a rename's load is not awaited either (`watcher/WatchFolder.js:86`). The model completes it inside the same step, after `onAdd`, so no other event can come between the start and the end of that load.
- Asynchronous interleaving: every handler, and every load it awaits, is one atomic step. A load binds the `onReload` current when the handler runs. The code has no lock, so interleaved reloads of one path are not modelled.
- A callback or hook that throws, and a hook that returns a promise: callbacks and hooks only record an event.
- The listing error path (`watcher/WatchFolder.js:24-30`): it throws from a callback and names an undefined variable.
- `fs.unwatchFile(fp)` without a listener removes all of `fp`'s pollers. It is modelled as the poller count dropping to zero. The pollers' own closures are not modelled.
- The collection object is a map owned by the session. Aliasing with the caller's object is not modelled.
- The collection is a plain object. A file named `__proto__.js` would replace the object's prototype instead of storing an entry (`watcher/WatchFolder.js:53,66`), and the `delete` at lines 57 and 81 would then do nothing. The model stores and deletes the key `__proto__` like any other.
- `dev/fix-import.js`: a build script that rewrites import extensions in files; it is not part of this model.

/** The JavaScript generation's single-file session. Construction refuses a
    non-module path with a TypeError; otherwise it polls the file's status
    and loads it once. A status whose modification marker differs reloads the
    file and replaces the registry entry after running the previous module's
    hook; a status with no links left cleans up and stops polling. */
module WatchFileJs {
  import opened Paths
  import opened Registry
  import ModuleJs

  /** What `new WatchFile(filePath)` yields: a session, or the TypeError
      thrown before anything is watched or loaded. */
  datatype Created = Session(session: WatchFile) | TypeError(message: string)

  /** The constructor's guard: a non-module path is refused with a TypeError
      naming it, leaving the registry alone; a module path gets a session
      with no callbacks that is polling the file. */
  method NewWatchFile(filePath: Path, rt: Runtime) returns (r: Created)
    ensures r.TypeError? <==> !ModuleJs.IsModuleFile(filePath)
    ensures r.TypeError? ==> r.message == "Cannot watch non-module file: " + filePath
    ensures r.Session? ==> fresh(r.session) && r.session.filePath == filePath && r.session.rt == rt
    ensures r.Session? ==> r.session.Unconfigured() && r.session.watching
  {
    if !ModuleJs.IsModuleFile(filePath) {
      return TypeError("Cannot watch non-module file: " + filePath);
    }
    var w := new WatchFile(filePath, rt);
    r := Session(w);
  }

  class WatchFile {
    const filePath: Path
    const rt: Runtime
    /** Consumer callbacks; None is null. */
    var onReload: Option<CallbackId>
    var onChange: Option<CallbackId>
    var onDelete: Option<CallbackId>
    /** Whether the status poller registered by `init` is still registered. */
    var watching: bool

    predicate Unconfigured()
      reads this
    {
      onReload.None? && onChange.None? && onDelete.None?
    }

    /** Sets the callbacks to null and registers the status poller; the load
        `init` starts completes later, in `InitLoaded`. Only module paths get
        this far (see `NewWatchFile`). */
    constructor (filePath: Path, rt: Runtime)
      requires ModuleJs.IsModuleFile(filePath)
      ensures this.filePath == filePath && this.rt == rt
      ensures Unconfigured() && watching
    {
      this.filePath := filePath;
      this.rt := rt;
      onReload, onChange, onDelete := None, None, None;
      watching := true;
    }

    method SetOnReload(cb: Option<CallbackId>)
      modifies this`onReload
      ensures onReload == cb
    {
      onReload := cb;
    }

    method SetOnChange(cb: Option<CallbackId>)
      modifies this`onChange
      ensures onChange == cb
    {
      onChange := cb;
    }

    method SetOnDelete(cb: Option<CallbackId>)
      modifies this`onDelete
      ensures onDelete == cb
    {
      onDelete := cb;
    }

    /** The initial load completes. `reloadModule` was handed `onReload` while
        it was still null, so it notifies nobody; a loaded module is then
        installed, overwriting without a hook, and reported to whatever
        `onReload` is now. A failed initial load is silent and changes
        nothing. */
    method InitLoaded(outcome: Outcome)
      modifies rt
      ensures rt.activeModules ==
                if outcome.Loaded? then old(rt.activeModules)[filePath := outcome.handle] else old(rt.activeModules)
      ensures rt.trace ==
                old(rt.trace) + if outcome.Loaded? then Call(onReload, ModuleArg(outcome.handle)) else []
    {
      var loaded := ModuleJs.ReloadModule(rt, filePath, None, outcome);
      if loaded.Some? {
        rt.Install(filePath, loaded.value);
        rt.Emit(Call(onReload, ModuleArg(loaded.value)));
      }
    }

    /** The status poller fires. When the modification marker differs: a reload
        reported to `onReload`, then `onChange(filePath)`, then, if the reload
        succeeded, the previous entry's hook and its replacement by the new
        module; a failed reload keeps the previous entry. Otherwise, when no
        link is left: the entry's hook and removal, `onDelete(filePath)`, and
        the poller unregistered. Otherwise nothing. An unregistered poller
        never fires, hence `watching`. */
    method HandleChange(markerDiffers: bool, nlink: nat, outcome: Outcome)
      requires watching
      modifies rt, this`watching
      ensures markerDiffers ==>
        && rt.trace == old(rt.trace) + ReloadNotice(onReload, outcome) + Call(onChange, PathArg(filePath))
                       + (if outcome.Loaded? then HookOf(old(rt.activeModules), filePath) else [])
        && rt.activeModules == (if outcome.Loaded? then old(rt.activeModules)[filePath := outcome.handle] else old(rt.activeModules))
        && watching == old(watching)
      ensures !markerDiffers && nlink == 0 ==>
        && rt.trace == old(rt.trace) + HookOf(old(rt.activeModules), filePath) + Call(onDelete, PathArg(filePath))
        && rt.activeModules == old(rt.activeModules) - {filePath}
        && !watching
      ensures !markerDiffers && nlink != 0 ==> rt.View() == old(rt.View()) && watching == old(watching)
    {
      if markerDiffers {
        var loaded := ModuleJs.ReloadModule(rt, filePath, onReload, outcome);
        rt.Emit(Call(onChange, PathArg(filePath)));
        if loaded.Some? {
          rt.HandleModuleCleanup(filePath);
          rt.Install(filePath, loaded.value);
          assert rt.activeModules == old(rt.activeModules)[filePath := outcome.handle];
        }
      } else if nlink == 0 {
        rt.HandleModuleCleanup(filePath);
        rt.Emit(Call(onDelete, PathArg(filePath)));
        watching := false;
      }
    }
  }
}

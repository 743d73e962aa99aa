/** The TypeScript generation's single-file session. The file watcher is
    started with `ignoreInitial`, so nothing is loaded until the file changes;
    a change reloads through `ReloadModule`, which overwrites the registry
    entry without running the previous module's hook; an unlink cleans up. */
module WatchFileTs {
  import opened Paths
  import opened Registry
  import ModuleTs

  class WatchFile {
    const filePath: Path
    const rt: Runtime
    /** Consumer callbacks; None is the built-in `() => {}`. */
    var onReload: Option<CallbackId>
    var onChange: Option<CallbackId>
    var onDelete: Option<CallbackId>
    /** Whether the file watcher is still open. */
    var watching: bool

    /** Starts watching; performs no load and invokes nothing. */
    constructor (filePath: Path, rt: Runtime)
      ensures this.filePath == filePath && this.rt == rt
      ensures onReload.None? && onChange.None? && onDelete.None? && watching
    {
      this.filePath := filePath;
      this.rt := rt;
      onReload, onChange, onDelete := None, None, None;
      watching := true;
    }

    method SetOnReload(cb: CallbackId)
      modifies this
      ensures onReload == Some(cb) && onChange == old(onChange) && onDelete == old(onDelete)
      ensures watching == old(watching)
    {
      onReload := Some(cb);
    }

    method SetOnChange(cb: CallbackId)
      modifies this
      ensures onChange == Some(cb) && onReload == old(onReload) && onDelete == old(onDelete)
      ensures watching == old(watching)
    {
      onChange := Some(cb);
    }

    method SetOnDelete(cb: CallbackId)
      modifies this
      ensures onDelete == Some(cb) && onReload == old(onReload) && onChange == old(onChange)
      ensures watching == old(watching)
    {
      onDelete := Some(cb);
    }

    /** A `change` event for `eventPath`: `onChange(eventPath)` first, then a
        reload of `filePath` whose result is dropped. No teardown hook runs.
        Events arrive only while the watcher is open. */
    method OnChangeEvent(eventPath: Path, outcome: Outcome)
      requires watching
      modifies rt
      ensures rt.trace == old(rt.trace) + Call(onChange, PathArg(eventPath)) + ReloadNotice(onReload, outcome)
      ensures NoTeardown(rt.trace[|old(rt.trace)|..])
      ensures rt.activeModules ==
                if outcome.Loaded? then old(rt.activeModules)[filePath := outcome.handle] else old(rt.activeModules)
    {
      rt.Emit(Call(onChange, PathArg(eventPath)));
      var _ := HandleReload(outcome);
      ghost var added := Call(onChange, PathArg(eventPath)) + ReloadNotice(onReload, outcome);
      assert rt.trace == old(rt.trace) + added;
      assert rt.trace[|old(rt.trace)|..] == added;
      NoticesRunNoHook(onChange, PathArg(eventPath), onReload, outcome);
    }

    /** An `unlink` event for `eventPath`, while the watcher is open:
        `onDelete(eventPath)`, then `Cleanup`. */
    method OnUnlinkEvent(eventPath: Path)
      requires watching
      modifies this, rt
      ensures rt.View() == CleanupStep(old(rt.View()).(trace := old(rt.trace) + Call(onDelete, PathArg(eventPath))), filePath)
      ensures !watching
      ensures onReload == old(onReload) && onChange == old(onChange) && onDelete == old(onDelete)
    {
      rt.Emit(Call(onDelete, PathArg(eventPath)));
      Cleanup();
    }

    /** Closes the watcher and cleans up `filePath`, and only `filePath`. */
    method Cleanup()
      modifies this, rt
      ensures rt.View() == CleanupStep(old(rt.View()), filePath)
      ensures !watching
      ensures onReload == old(onReload) && onChange == old(onChange) && onDelete == old(onDelete)
    {
      watching := false;
      rt.HandleModuleCleanup(filePath);
    }

    /** `reloadModule(filePath, onReload)` with the current callback. */
    method HandleReload(outcome: Outcome) returns (r: Option<Module>)
      modifies rt
      ensures r == (if outcome.Loaded? then Some(outcome.handle) else None)
      ensures rt.activeModules ==
                if outcome.Loaded? then old(rt.activeModules)[filePath := outcome.handle] else old(rt.activeModules)
      ensures rt.trace == old(rt.trace) + ReloadNotice(onReload, outcome)
    {
      r := ModuleTs.ReloadModule(rt, filePath, onReload, outcome);
    }
  }
}

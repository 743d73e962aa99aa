/** The TypeScript generation's module utilities: the extension allow-list and
    a reload that installs what it loads into `activeModules`. */
module ModuleTs {
  import opened Paths
  import opened Registry

  const ModuleExtensions: seq<string> := [".js", ".mjs", ".cjs", ".ts", ".mts", ".cts", ".json"]

  lemma ModuleExtensionsAreLowerCase()
    ensures forall i :: 0 <= i < |ModuleExtensions| ==>
              IsExtension(ModuleExtensions[i]) && Lower(ModuleExtensions[i]) == ModuleExtensions[i]
  {
    forall i | 0 <= i < |ModuleExtensions|
      ensures IsExtension(ModuleExtensions[i]) && Lower(ModuleExtensions[i]) == ModuleExtensions[i]
    {
      var e := ModuleExtensions[i];
      assert Lower(e) == e by {
        forall k | 0 <= k < |e| ensures LowerChar(e[k]) == e[k] { }
      }
    }
  }

  /** `t` ends in one of the allow-listed extensions, with at least one
      character of the same segment before it. */
  predicate HasModuleExtension(t: string)
  {
    exists i :: 0 <= i < |ModuleExtensions| && EndsWithExtension(t, ModuleExtensions[i])
  }

  /** `isModuleFile(p)`: the lower-cased path, trailing separators dropped,
      ends in one of the seven extensions with at least one character of the
      same segment before it. `AllowListByExtName` shows this is the source's
      test, the lower-cased `path.extname` being on the allow-list. */
  predicate IsModuleFile(p: Path)
  {
    HasModuleExtension(Lower(TrimTrailingSlashes(p)))
  }

  /** A path is a module file exactly when its lower-cased extension is one of
      the allow-listed ones. */
  lemma AllowListByExtName(p: Path)
    ensures IsModuleFile(p) <==> Lower(ExtName(p)) in ModuleExtensions
  {
    if IsModuleFile(p) {
      ModuleFileExtName(p);
    }
    if Lower(ExtName(p)) in ModuleExtensions {
      ListedExtNameModuleFile(p);
    }
  }

  lemma ModuleFileExtName(p: Path)
    requires IsModuleFile(p)
    ensures Lower(ExtName(p)) in ModuleExtensions
  {
    var t := Lower(TrimTrailingSlashes(p));
    var i :| 0 <= i < |ModuleExtensions| && EndsWithExtension(t, ModuleExtensions[i]);
    ExtNameIsEntry(p, i);
  }

  lemma ListedExtNameModuleFile(p: Path)
    requires Lower(ExtName(p)) in ModuleExtensions
    ensures IsModuleFile(p)
  {
    var i := IndexOfExtension(Lower(ExtName(p)));
    ExtNameIsEntry(p, i);
  }

  lemma IndexOfExtension(x: string) returns (i: nat)
    requires x in ModuleExtensions
    ensures i < |ModuleExtensions| && ModuleExtensions[i] == x
  {
    i := 0;
    while ModuleExtensions[i] != x
      invariant i < |ModuleExtensions| && x in ModuleExtensions[i..]
      decreases |ModuleExtensions| - i
    {
      assert ModuleExtensions[i..] == [ModuleExtensions[i]] + ModuleExtensions[i + 1..];
      i := i + 1;
    }
  }

  lemma ExtNameIsEntry(p: Path, i: int)
    requires 0 <= i < |ModuleExtensions|
    ensures Lower(ExtName(p)) == ModuleExtensions[i] <==>
              EndsWithExtension(Lower(TrimTrailingSlashes(p)), ModuleExtensions[i])
  {
    ModuleExtensionsAreLowerCase();
    LowerExtNameMatches(p, ModuleExtensions[i]);
  }

  /** Paths that differ only in letter case get the same answer. */
  lemma {:induction false} IsModuleFileIgnoresCase(p: Path, q: Path)
    requires Lower(p) == Lower(q)
    ensures IsModuleFile(p) == IsModuleFile(q)
  {
    LowerTrimAgree(p, q);
  }

  lemma LowerTrimAgree(p: Path, q: Path)
    requires Lower(p) == Lower(q)
    ensures Lower(TrimTrailingSlashes(p)) == Lower(TrimTrailingSlashes(q))
  {
    LowerTrimCommute(p);
    LowerTrimCommute(q);
  }

  /** Lower-casing and dropping trailing separators commute. */
  lemma LowerTrimCommute(p: Path)
    ensures Lower(TrimTrailingSlashes(p)) == TrimTrailingSlashes(Lower(p))
  {
    var a := TrimmedLength(p, |p|);
    var b := TrimmedLength(Lower(p), |p|);
    forall i | 0 <= i < |p| ensures Lower(p)[i] == '/' <==> p[i] == '/' {
      LowerCharKeepsSeparators(p[i]);
    }
    TrimmedOnlySeparators(p, |p|);
    TrimmedOnlySeparators(Lower(p), |p|);
    assert a == b;
    assert Lower(p[..a]) == Lower(p)[..a];
  }

  lemma UpperCaseExample()
    ensures IsModuleFile("X.JS")
  {
    var t := "X.JS";
    assert TrimTrailingSlashes(t) == t;
    assert Lower(t) == "x.js" by {
      assert LowerChar('X') == 'x' && LowerChar('J') == 'j' && LowerChar('S') == 's';
    }
    assert ModuleExtensions[0] == ".js";
    assert EndsWithExtension("x.js", ".js");
    assert HasModuleExtension("x.js");
  }

  /** A text file is not a module file. */
  lemma TextFileExample()
    ensures !IsModuleFile("notes.txt")
  {
    var t := "notes.txt";
    assert TrimTrailingSlashes(t) == t;
    assert Lower(t) == t;
    assert forall i :: 0 <= i < |ModuleExtensions| ==> !EndsWithExtension(t, ModuleExtensions[i]);
  }

  /** A dotfile named like an extension has no extension, so it is not a
      module file. */
  lemma DotFileExample()
    ensures ExtName("/src/.js") == [] && !IsModuleFile("/src/.js")
  {
    var t := "/src/.js";
    assert TrimTrailingSlashes(t) == t;
    LastIndexUnique(t, '/', 4);
    assert LastSegment(t) == ".js";
    LastIndexUnique(".js", '.', 0);
    assert Lower(t) == t;
    assert forall i :: 0 <= i < |ModuleExtensions| ==> !EndsWithExtension(t, ModuleExtensions[i]);
  }

  /** `reloadModule(filePath, onReload)`: on a successful import installs the
      module under `filePath`, overwriting any previous entry without running
      its hook, calls `onReload(mod, undefined)` and returns the module; on a
      failed import leaves `activeModules` alone, calls `onReload(null, err)`
      and returns null. */
  method ReloadModule(rt: Runtime, filePath: Path, onReload: Option<CallbackId>, outcome: Outcome)
    returns (r: Option<Module>)
    modifies rt
    ensures outcome.Loaded? ==> r == Some(outcome.handle)
    ensures outcome.Failed? ==> r == None
    ensures rt.activeModules ==
              if outcome.Loaded? then old(rt.activeModules)[filePath := outcome.handle] else old(rt.activeModules)
    ensures rt.trace == old(rt.trace) + ReloadNotice(onReload, outcome)
  {
    match outcome
    case Loaded(m) =>
      rt.Install(filePath, m);
      rt.Emit(Call(onReload, ModuleArg(m)));
      r := Some(m);
    case Failed(err) =>
      rt.Emit(Call(onReload, ErrorArg(err)));
      r := None;
  }
}

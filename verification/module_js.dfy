/** The JavaScript generation's module utilities: a case-sensitive allow-list
    of `.js` and `.mjs`, and a reload that only reports and returns. */
module ModuleJs {
  import opened Paths
  import opened Registry
  import ModuleTs

  /** `isModuleFile(p)`: the path, trailing separators dropped, ends in `.js`
      or `.mjs` with at least one character of the same segment before it.
      `AllowListByExtName` shows this is the source's test, `path.extname`
      being exactly `.js` or `.mjs`. */
  predicate IsModuleFile(p: Path)
  {
    EndsWithExtension(TrimTrailingSlashes(p), ".js") || EndsWithExtension(TrimTrailingSlashes(p), ".mjs")
  }

  /** A path is a module file exactly when its extension, compared without
      lower-casing, is `.js` or `.mjs`. */
  lemma AllowListByExtName(p: Path)
    ensures IsModuleFile(p) <==> ExtName(p) == ".js" || ExtName(p) == ".mjs"
  {
    ExtensionsAreWellFormed();
    ExtNameMatches(p, ".js");
    ExtNameMatches(p, ".mjs");
  }

  lemma ExtensionsAreWellFormed()
    ensures IsExtension(".js") && IsExtension(".mjs")
  {
    ModuleTs.ModuleExtensionsAreLowerCase();
    assert ModuleTs.ModuleExtensions[0] == ".js" && ModuleTs.ModuleExtensions[1] == ".mjs";
  }

  /** Every file this generation accepts, the TypeScript generation accepts too. */
  lemma {:induction false} NarrowerThanTs(p: Path)
    ensures IsModuleFile(p) ==> ModuleTs.IsModuleFile(p)
  {
    var t := TrimTrailingSlashes(p);
    ModuleTs.ModuleExtensionsAreLowerCase();
    if EndsWithExtension(t, ".js") {
      LowerKeepsExtension(t, ".js");
      assert ModuleTs.ModuleExtensions[0] == ".js" && ModuleTs.HasModuleExtension(Lower(t));
    } else if EndsWithExtension(t, ".mjs") {
      LowerKeepsExtension(t, ".mjs");
      assert ModuleTs.ModuleExtensions[1] == ".mjs" && ModuleTs.HasModuleExtension(Lower(t));
    }
  }

  /** The comparison is case-sensitive: an upper-case extension is refused here
      although the TypeScript generation accepts it. */
  lemma CaseSensitive()
    ensures !IsModuleFile("X.JS") && ModuleTs.IsModuleFile("X.JS")
  {
    assert TrimTrailingSlashes("X.JS") == "X.JS";
    ModuleTs.UpperCaseExample();
  }

  /** `reloadModule(filePath, onReload)`: never touches `activeModules`; when
      `onReload` is set, calls it once with `(module, null)` or `(null, error)`;
      returns the module, or null exactly when the import failed. */
  method ReloadModule(rt: Runtime, filePath: Path, onReload: Option<CallbackId>, outcome: Outcome)
    returns (r: Option<Module>)
    modifies rt`trace
    ensures r.None? <==> outcome.Failed?
    ensures outcome.Loaded? ==> r == Some(outcome.handle)
    ensures rt.trace == old(rt.trace) + ReloadNotice(onReload, outcome)
    ensures rt.activeModules == old(rt.activeModules)
  {
    match outcome
    case Loaded(m) =>
      rt.trace := rt.trace + Call(onReload, ModuleArg(m));
      r := Some(m);
    case Failed(err) =>
      rt.trace := rt.trace + Call(onReload, ErrorArg(err));
      r := None;
  }

  /** `path.basename(p, path.extname(p))`: the key of the caller's collection,
      the last segment with its extension removed. `KeyAndExtName` shows
      that the key followed by the extension is the last segment. */
  function CollectionKey(p: Path): string
  {
    var t := TrimTrailingSlashes(p);
    var s := LastIndexOf(t, '/') + 1;
    var d := LastIndexOf(t, '.');
    if d <= s || (|t| - s == 2 && t[s] == '.' && t[s + 1] == '.') then t[s..] else t[s..d]
  }

  /** The key, then the extension, spell the last segment of the path. */
  lemma KeyAndExtName(p: Path)
    ensures CollectionKey(p) + ExtName(p) == LastSegment(TrimTrailingSlashes(p))
  {
    var t := TrimTrailingSlashes(p);
    var s := LastIndexOf(t, '/') + 1;
    var b := LastSegment(t);
    var d := LastIndexOf(t, '.');
    assert ExtName(p) == SegmentExt(b);
    assert CollectionKey(p) == if d <= s || (|t| - s == 2 && t[s] == '.' && t[s + 1] == '.') then t[s..] else t[s..d];
    SegmentKeyAndExt(t, s, d, b);
  }

  /** The same, for a path without trailing separators whose last segment
      `b` starts at `s` and whose last dot is at `d`. */
  lemma SegmentKeyAndExt(t: string, s: nat, d: int, b: string)
    requires s <= |t| && b == t[s..] && d == LastIndexOf(t, '.')
    ensures (if d <= s || (|t| - s == 2 && t[s] == '.' && t[s + 1] == '.') then t[s..] else t[s..d]) + SegmentExt(b) == b
  {
    LastIndexInSuffix(t, s, '.');
    if !(d <= s || (|t| - s == 2 && t[s] == '.' && t[s + 1] == '.')) {
      assert SegmentExt(b) == t[d..];
      assert t[s..d] + t[d..] == t[s..];
    }
  }

  /** The last `c` of a suffix `t[s..]` is the last `c` of `t`, shifted, when
      that one lies in the suffix. */
  lemma LastIndexInSuffix(t: string, s: nat, c: char)
    requires s <= |t|
    ensures var d := LastIndexOf(t, c);
      LastIndexOf(t[s..], c) == if d >= s then d - s else -1
  {
    var d := LastIndexOf(t, c);
    var u := t[s..];
    var r := if d >= s then d - s else -1;
    NoneAfter(t, c, |t|);
    assert forall i :: r < i < |u| ==> u[i] == t[s + i] && s + i > d;
    LastIndexUnique(u, c, r);
  }

  /** The key of a directory entry is its name with the extension removed. */
  lemma {:induction false} KeyIsStem(dir: Path, stem: string, e: string)
    requires IsExtension(e) && stem != []
    requires forall i :: 0 <= i < |stem| ==> stem[i] != '/'
    ensures CollectionKey(Join(dir, stem + e)) == stem
  {
    var name := stem + e;
    NameHasNoSeparator(stem, e);
    EntrySegment(dir, name);
    SegmentExtAt(name, e);
    StemOfSegment(Join(dir, name), name, stem, e);
  }

  /** A directory entry's path ends in no separator and its last segment is the
      entry name. */
  lemma EntrySegment(dir: Path, name: string)
    requires name != [] && forall i :: 0 <= i < |name| ==> name[i] != '/'
    ensures TrimTrailingSlashes(Join(dir, name)) == Join(dir, name)
    ensures LastSegment(Join(dir, name)) == name
  {
    var pre := JoinSplit(dir, name);
    LastSegmentAfterSeparator(pre, name);
  }

  /** The key of a path whose last segment is `stem + e`, with `e` its extension. */
  lemma StemOfSegment(p: Path, name: string, stem: string, e: string)
    requires TrimTrailingSlashes(p) == p && LastSegment(p) == name
    requires forall i :: 0 <= i < |name| ==> name[i] != '/'
    requires SegmentExt(name) == e && name == stem + e
    ensures CollectionKey(p) == stem
  {
    KeyAndExtName(p);
    assert ExtName(p) == e by {
      assert ExtName(p) == SegmentExt(LastSegment(p));
    }
    DropCommonSuffix(CollectionKey(p), stem, e);
  }

  lemma DropCommonSuffix(a: string, b: string, e: string)
    requires a + e == b + e
    ensures a == b
  {
    assert a == (a + e)[..|a|] && b == (b + e)[..|b|];
  }

  /** Joining a directory and a name not ending in a separator appends the name
      to a prefix that is empty or ends in a separator. */
  lemma JoinSplit(dir: Path, name: string) returns (pre: Path)
    requires name != [] && name[|name| - 1] != '/'
    ensures Join(dir, name) == pre + name && (pre == [] || pre[|pre| - 1] == '/')
    ensures TrimTrailingSlashes(Join(dir, name)) == Join(dir, name)
  {
    pre := if dir == [] then [] else if dir[|dir| - 1] == '/' then dir else dir + "/";
    var p := Join(dir, name);
    assert p == pre + name;
    assert p[|p| - 1] == name[|name| - 1];
  }

  lemma NameHasNoSeparator(stem: string, e: string)
    requires IsExtension(e)
    requires forall i :: 0 <= i < |stem| ==> stem[i] != '/'
    ensures forall i :: 0 <= i < |stem + e| ==> (stem + e)[i] != '/'
  {
    forall i | 0 <= i < |stem + e| ensures (stem + e)[i] != '/' {
      if i == |stem| {
        assert (stem + e)[i] == e[0];
      } else if i > |stem| {
        assert (stem + e)[i] == e[i - |stem|];
      } else {
        assert (stem + e)[i] == stem[i];
      }
    }
  }

  /** `a.js` and `a.mjs` in one folder share a collection key. */
  lemma SharedKey(dir: Path)
    ensures CollectionKey(Join(dir, "a.js")) == CollectionKey(Join(dir, "a.mjs")) == "a"
  {
    ExtensionsAreWellFormed();
    assert "a" + ".js" == "a.js" && "a" + ".mjs" == "a.mjs";
    KeyIsStem(dir, "a", ".js");
    KeyIsStem(dir, "a", ".mjs");
  }
}

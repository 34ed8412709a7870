/** The compiler's pipeline up to code emission: resolve the configured
    fallbacks, load the locale files, append the file-only locales, and
    unify the interface. */
module Compiler {
  import opened Wrappers
  import opened Seqs
  import opened Strings
  import opened Entries
  import opened Flatten
  import opened OrderedDict
  import opened Resolver
  import opened Unify
  import opened Binding

  /** A locale file: its name without the `.json` extension and the
      properties of its top-level object. */
  datatype LangFile = LangFile(name: string, props: seq<(string, Node)>)

  /** The file-name filter `^[a-z]{2}(-[a-z]{2})?$`. */
  predicate IsLocaleIcon(s: string) {
    && (|s| == 2 || (|s| == 5 && s[2] == '-'))
    && IsLowerLetter(s[0]) && IsLowerLetter(s[1])
    && (|s| == 5 ==> IsLowerLetter(s[3]) && IsLowerLetter(s[4]))
  }

  /** The locale a file defines, if its lower-cased name passes the filter. */
  function IconOf(f: LangFile): (icon: Option<string>)
    ensures icon.Some? ==> IsLocaleIcon(icon.value) && icon.value == ToLower(f.name)
    ensures icon.None? ==> !IsLocaleIcon(ToLower(f.name))
  {
    var icon := ToLower(f.name);
    if IsLocaleIcon(icon) then Some(icon) else None
  }

  /** The parsed entries of a file: every flattened key with its value. */
  function EntriesOfFile(f: LangFile): (e: map<string, Entry>)
    ensures e.Keys == Flatten.Flatten(Obj(f.props)).Keys
    ensures forall k :: k in e ==> e[k] == FromRawValue(Some(Flatten.Flatten(Obj(f.props))[k]))
    ensures forall k :: k in e ==> e[k].Raw() == Some(Flatten.Flatten(Obj(f.props))[k])
  {
    var flat := Flatten.Flatten(Obj(f.props));
    map k | k in flat :: FromRawValue(Some(flat[k]))
  }

  /** The locales of the accepted files, in file order. */
  function Icons(files: seq<LangFile>): (icons: seq<string>)
    ensures forall i :: 0 <= i < |icons| ==> IsLocaleIcon(icons[i])
    ensures forall x :: x in icons <==> exists i :: 0 <= i < |files| && IconOf(files[i]) == Some(x)
  {
    if |files| == 0 then []
    else
      var n := |files| - 1;
      var front := Icons(files[..n]);
      var icon := IconOf(files[n]);
      assert forall i :: 0 <= i < n ==> files[..n][i] == files[i];
      if icon.Some? then front + [icon.value] else front
  }

  /** The last file in `files` that defines `icon` is `files[i]`. */
  ghost predicate LastFileFor(files: seq<LangFile>, i: int, icon: string) {
    0 <= i < |files| && IconOf(files[i]) == Some(icon)
    && forall j :: i < j < |files| ==> IconOf(files[j]) != Some(icon)
  }

  /** `LanguagesDict` after the file loop: a later file with the same
      lower-cased name replaces an earlier one. */
  function LoadLanguages(files: seq<LangFile>): (langs: map<string, map<string, Entry>>)
    ensures forall x :: x in langs <==> x in Icons(files)
    ensures forall i, x :: LastFileFor(files, i, x) ==> x in langs && langs[x] == EntriesOfFile(files[i])
  {
    if |files| == 0 then map[]
    else
      var n := |files| - 1;
      var prev := LoadLanguages(files[..n]);
      var r := if IconOf(files[n]).Some? then prev[IconOf(files[n]).value := EntriesOfFile(files[n])] else prev;
      LoadStep(files, EntriesOfFile, prev, r);
      r
  }

  /** The contract of `LoadLanguages` carries over one more file, for any
      way `load` of reading a file. */
  lemma LoadStep<V>(files: seq<LangFile>, load: LangFile -> V, prev: map<string, V>, r: map<string, V>)
    requires |files| > 0
    requires var n := |files| - 1;
             && (forall x :: x in prev <==> x in Icons(files[..n]))
             && (forall i, x :: LastFileFor(files[..n], i, x) ==> x in prev && prev[x] == load(files[..n][i]))
             && r == if IconOf(files[n]).Some? then prev[IconOf(files[n]).value := load(files[n])] else prev
    ensures forall x :: x in r <==> x in Icons(files)
    ensures forall i, x :: LastFileFor(files, i, x) ==> x in r && r[x] == load(files[i])
  {
    var n := |files| - 1;
    assert Icons(files) == Icons(files[..n]) + (if IconOf(files[n]).Some? then [IconOf(files[n]).value] else []);
    forall i, x | LastFileFor(files, i, x) ensures x in r && r[x] == load(files[i]) {
      LoadValueStep(files, load, prev, r, i, x);
    }
  }

  lemma LoadValueStep<V>(files: seq<LangFile>, load: LangFile -> V, prev: map<string, V>, r: map<string, V>, i: int, x: string)
    requires |files| > 0 && LastFileFor(files, i, x)
    requires var n := |files| - 1;
             && (forall i, x :: LastFileFor(files[..n], i, x) ==> x in prev && prev[x] == load(files[..n][i]))
             && r == if IconOf(files[n]).Some? then prev[IconOf(files[n]).value := load(files[n])] else prev
    ensures x in r && r[x] == load(files[i])
  {
    var n := |files| - 1;
    if i < n {
      var front := files[..n];
      assert IconOf(files[n]) != Some(x);
      assert forall j :: 0 <= j < n ==> front[j] == files[j];
      assert LastFileFor(front, i, x);
    }
  }

  /** A file whose name does not pass the filter contributes nothing. */
  lemma SkippedFileIgnored(files: seq<LangFile>, f: LangFile)
    requires IconOf(f).None?
    ensures LoadLanguages(files + [f]) == LoadLanguages(files)
  {
    assert (files + [f])[..|files|] == files;
  }

  /** The shape of the final order: the first `configured` locales are
      exactly the root and the configured ones, sorted by the pass that
      schedules them; after them come the file-only locales, in order of
      first appearance in the file listing. */
  ghost predicate Layout(root: string, cfg: map<string, string>, icons: seq<string>, order: seq<string>, configured: nat) {
    && 0 < configured <= |order|
    && (forall x :: x in order <==> x == root || x in cfg.Keys || x in cfg.Values || x in icons)
    && (forall x :: x in order[..configured] <==> x == root || x in cfg.Keys || x in cfg.Values)
    && FirstSeenOrder(icons, order[..configured], order)
    && PassOrdered(cfg, root, order[..configured])
  }

  /** The configured fallbacks resolved, then the file-only locales appended
      behind them. */
  method ResolveAll(root: string, config: Dict, icons: seq<string>)
    returns (order: seq<string>, defaults: map<string, Option<string>>, configured: nat)
    requires Valid(config)
    ensures WellResolved(root, order, defaults)
    ensures Layout(root, config.m, icons, order, configured)
    ensures forall x :: x in defaults ==> defaults[x] == ExpectedDefault(config.m, root, x)
  {
    var order0, defaults0 := ResolveConfigured(root, config);
    order, defaults := AddFileLocales(root, order0, defaults0, icons);
    configured := |order0|;
    FileDefaults(config.m, root, order0, defaults0, order, defaults);
    FileLayout(config.m, root, order0, icons, order);
  }

  /** The configured order followed by the file-only locales has the layout
      `Layout` describes. */
  lemma FileLayout(cfg: map<string, string>, root: string, order0: seq<string>, icons: seq<string>, order: seq<string>)
    requires Elems(order0) == {root} + cfg.Keys + cfg.Values
    requires order0 <= order && Elems(order) == Elems(order0) + Elems(icons)
    requires FirstSeenOrder(icons, order0, order)
    requires PassOrdered(cfg, root, order0)
    ensures Layout(root, cfg, icons, order, |order0|)
  {
    AllLocales(cfg, root, order0, icons, order);
    assert order[..|order0|] == order0;
    assert root in Elems(order0);
    forall x ensures x in order0 <==> x == root || x in cfg.Keys || x in cfg.Values {
      assert x in order0 <==> x in Elems(order0);
    }
  }

  /** The resolver, the file loop and the unifier together. */
  method Compile(configuredRoot: Option<string>, config: Dict, files: seq<LangFile>)
    returns (b: Build, kinds: map<string, Kind>, icons: seq<string>, configured: nat)
    requires Valid(config)
    ensures Resolved(b) && b.root == RootLocale(configuredRoot)
    ensures Layout(b.root, config.m, icons, b.order, configured)
    ensures forall x :: x in b.defaults ==> b.defaults[x] == ExpectedDefault(config.m, b.root, x)
    ensures InterfaceKeys(kinds, b.langs)
    ensures KindsByFirstDefiner(b.order, b.langs, kinds)
    ensures icons == Icons(files)
    ensures b.langs == LoadLanguages(files)
  {
    var root := RootLocale(configuredRoot);
    icons := Icons(files);
    var order, defaults;
    order, defaults, configured := ResolveAll(root, config, icons);
    LoadedAreResolved(root, config.m, files, order, configured);
    var langs := LoadLanguages(files);
    kinds := Interface(order, langs);
    b := Build(root, order, defaults, langs);
  }

  /** Every loaded file's locale has a place in the resolved order. */
  lemma LoadedAreResolved(root: string, cfg: map<string, string>, files: seq<LangFile>, order: seq<string>, configured: nat)
    requires Layout(root, cfg, Icons(files), order, configured)
    ensures forall x :: x in LoadLanguages(files) ==> x in order
  {
  }

  /** Each key's kind is the kind of its entry in the first locale, in
      resolution order, that defines it. */
  ghost predicate KindsByFirstDefiner(order: seq<string>, langs: map<string, map<string, Entry>>, kinds: map<string, Kind>) {
    forall k, i :: FirstDefiner(order, langs, i, k) ==> k in kinds && kinds[k] == KindOf(langs[order[i]][k])
  }

  /** The key set of the generated interface and the kind of each key. */
  function Interface(order: seq<string>, langs: map<string, map<string, Entry>>): (kinds: map<string, Kind>)
    requires forall x :: x in langs ==> x in order
    ensures InterfaceKeys(kinds, langs)
    ensures KindsByFirstDefiner(order, langs, kinds)
  {
    var r := Unified(order, langs);
    FileKeysUnified(order, langs, r);
    r
  }

  /** The file locales keep the resolved defaults and fall back to the root. */
  lemma FileDefaults(cfg: map<string, string>, root: string, order0: seq<string>,
                     defaults0: map<string, Option<string>>, order: seq<string>, defaults: map<string, Option<string>>)
    requires root in order0 && defaults0.Keys == Elems(order0)
    requires forall x :: x in defaults0 ==> defaults0[x] == ExpectedDefault(cfg, root, x)
    requires cfg.Keys + cfg.Values <= Elems(order0)
    requires forall x :: x in defaults0 ==> x in defaults && defaults[x] == defaults0[x]
    requires forall x :: x in defaults && x !in defaults0 ==> defaults[x] == Some(root)
    ensures forall x :: x in defaults ==> defaults[x] == ExpectedDefault(cfg, root, x)
  {
    forall x | x in defaults ensures defaults[x] == ExpectedDefault(cfg, root, x) {
      if x !in defaults0 {
        assert x !in Elems(order0);
      }
    }
  }

  /** The final order, one locale at a time. */
  lemma AllLocales(cfg: map<string, string>, root: string, order0: seq<string>, icons: seq<string>, order: seq<string>)
    requires Elems(order0) == {root} + cfg.Keys + cfg.Values
    requires Elems(order) == Elems(order0) + Elems(icons)
    ensures forall x :: x in order <==> x == root || x in cfg.Keys || x in cfg.Values || x in icons
  {
    forall x ensures x in order <==> x == root || x in cfg.Keys || x in cfg.Values || x in icons {
      assert x in order <==> x in Elems(order);
      assert x in order0 <==> x in Elems(order0);
      assert x in icons <==> x in Elems(icons);
    }
  }

  /** The interface keys are exactly the keys some loaded file defines. */
  ghost predicate InterfaceKeys(kinds: map<string, Kind>, langs: map<string, map<string, Entry>>) {
    forall k :: k in kinds <==> exists lang :: lang in langs && k in langs[lang]
  }

  /** Every key of every loaded file is an interface key. */
  lemma FileKeysUnified(order: seq<string>, langs: map<string, map<string, Entry>>, kinds: map<string, Kind>)
    requires forall x :: x in langs ==> x in order
    requires forall k :: k in kinds <==> exists i :: 0 <= i < |order| && Defines(langs, order[i], k)
    ensures InterfaceKeys(kinds, langs)
  {
    forall k | exists lang :: lang in langs && k in langs[lang]
      ensures k in kinds
    {
      var lang :| lang in langs && k in langs[lang];
      var i := Seqs.IndexOf(order, lang);
      assert Defines(langs, order[i], k);
    }
  }
}

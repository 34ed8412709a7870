/** How each generated locale class fills each interface member: with its
    own entry, by deferring to its default locale's member, or, at the root,
    with an empty text or the dummy indexer; and what such a member then
    evaluates to once the deferrals are followed. */
module Binding {
  import opened Wrappers
  import opened Seqs
  import opened Entries
  import opened Unify
  import opened Plurals
  import opened Resolver

  /** The resolved locales with their loaded entries. */
  datatype Build = Build(root: string, order: seq<string>, defaults: map<string, Option<string>>,
                         langs: map<string, map<string, Entry>>)

  ghost predicate Resolved(b: Build) {
    WellResolved(b.root, b.order, b.defaults)
  }

  /** The three forms a member body can take. */
  datatype Choice = Own(entry: Entry) | Defer(locale: string) | RootEmpty

  /** The entry has the shape the key's kind asks for: a text for a text
      member, variants for a counted one. */
  predicate Fits(kind: Kind, e: Entry) {
    match kind
    case SingleKey => e.Single? && e.text.Some?
    case PluralKey => e.Plural?
  }

  /** The member body for one key of one locale, given the locale's entry
      for it (if any) and its default locale (none at the root). */
  function Decide(kind: Kind, entry: Option<Entry>, dflt: Option<string>): (c: Choice)
    ensures c.Own? <==> entry.Some? && Fits(kind, entry.value)
    ensures c.Own? ==> c.entry == entry.value
    ensures c.Defer? ==> dflt == Some(c.locale)
    ensures c.RootEmpty? ==> dflt.None?
  {
    if entry.Some? && Fits(kind, entry.value) then Own(entry.value)
    else if dflt.Some? then Defer(dflt.value)
    else RootEmpty
  }

  /** An entry of the other shape is never used: a text member skips a
      plural entry and a counted member skips a text entry. */
  lemma MismatchDefers(text: Option<string>, variants: seq<string>, raw: string, dflt: string)
    ensures Decide(SingleKey, Some(Plural(variants, raw)), Some(dflt)) == Defer(dflt)
    ensures Decide(PluralKey, Some(Single(text)), Some(dflt)) == Defer(dflt)
    ensures Decide(SingleKey, Some(Plural(variants, raw)), None) == RootEmpty
  {
  }

  /** The entry locale `order[j]` has for `key`; a locale without a file
      has none. */
  function EntryAt(b: Build, j: nat, key: string): (e: Option<Entry>)
    requires j < |b.order|
    ensures e.Some? <==> Defines(b.langs, b.order[j], key)
    ensures e.Some? ==> e.value == b.langs[b.order[j]][key]
  {
    var entries := EntriesOf(b.langs, b.order[j]);
    if key in entries then Some(entries[key]) else None
  }

  function ChoiceAt(b: Build, kind: Kind, j: nat, key: string): Choice
    requires Resolved(b) && j < |b.order|
  {
    Decide(kind, EntryAt(b, j, key), b.defaults[b.order[j]])
  }

  /** A deferring member names a locale processed earlier, whose class
      therefore already exists. */
  lemma DeferTargetEarlier(b: Build, kind: Kind, j: nat, key: string)
    requires Resolved(b) && j < |b.order|
    ensures ChoiceAt(b, kind, j, key).Defer? ==>
              && ChoiceAt(b, kind, j, key).locale in b.order
              && IndexOf(b.order, ChoiceAt(b, kind, j, key).locale) < j
    ensures ChoiceAt(b, kind, j, key).RootEmpty? ==> j == 0
  {
    if j > 0 {
      DefaultIndexSmaller(b.root, b.order, b.defaults, j);
    } else {
      assert b.order[j] == b.root;
    }
  }

  // ---------------------------------------------------------------------
  // What a member evaluates to.

  /** A member's value: a text, or an indexer over plural variants. */
  datatype Member = Text(s: string) | Counted(ix: Indexer)

  function OwnValue(kind: Kind, e: Entry, lang: string): (m: Member)
    requires Fits(kind, e)
    ensures m.Text? <==> kind == SingleKey
  {
    if kind == SingleKey then Text(e.text.value)
    else Counted(Indexer(Some(e.variants), Some(StrategyFor(lang))))
  }

  /** The root's value for a key it has no fitting entry for. */
  function Empty(kind: Kind): (m: Member)
    ensures m.Text? <==> kind == SingleKey
    ensures kind == SingleKey ==> m == Text("")
    ensures kind != SingleKey ==> m == Counted(Dummy())
  {
    if kind == SingleKey then Text("") else Counted(Dummy())
  }

  /** The value of member `key` of locale `order[j]`, deferrals followed. */
  function Evaluate(b: Build, kind: Kind, j: nat, key: string): (m: Member)
    requires Resolved(b) && j < |b.order|
    ensures m.Text? <==> kind == SingleKey
    decreases j
  {
    match ChoiceAt(b, kind, j, key)
    case Own(e) => OwnValue(kind, e, b.order[j])
    case Defer(d) =>
      DeferTargetEarlier(b, kind, j, key);
      Evaluate(b, kind, IndexOf(b.order, d), key)
    case RootEmpty => Empty(kind)
  }

  /** The position of the default of the non-root locale `order[j]`. */
  function DefaultPos(b: Build, j: nat): (d: nat)
    requires Resolved(b) && 0 < j < |b.order|
    ensures d < j && b.defaults[b.order[j]] == Some(b.order[d])
  {
    DefaultIndexSmaller(b.root, b.order, b.defaults, j);
    IndexOf(b.order, b.defaults[b.order[j]].value)
  }

  /** The fallback chain of `order[j]`, as positions in the order: the
      locale itself, its default, that one's default, and so on. */
  function Chain(b: Build, j: nat): (c: seq<nat>)
    requires Resolved(b) && j < |b.order|
    ensures |c| > 0 && c[0] == j && c[|c| - 1] == 0
    ensures forall i :: 0 <= i < |c| ==> c[i] < |b.order|
    ensures forall i :: 0 <= i < |c| - 1 ==>
              c[i + 1] < c[i] && b.defaults[b.order[c[i]]] == Some(b.order[c[i + 1]])
    decreases j
  {
    if j == 0 then [0] else [j] + Chain(b, DefaultPos(b, j))
  }

  /** Every chain ends at the root, which has no default. */
  lemma ChainEndsAtRoot(b: Build, j: nat)
    requires Resolved(b) && j < |b.order|
    ensures b.order[Chain(b, j)[|Chain(b, j)| - 1]] == b.root
    ensures b.defaults[b.root] == None
  {
  }

  /** Locale `order[j]` has an entry for `key` of the key's shape. */
  ghost predicate FitsAt(b: Build, kind: Kind, key: string, j: int) {
    0 <= j < |b.order| && Defines(b.langs, b.order[j], key) && Fits(kind, b.langs[b.order[j]][key])
  }

  /** The first position of the chain `c` whose locale has a fitting
      entry. */
  ghost function NearestFit(b: Build, kind: Kind, key: string, c: seq<nat>): (n: Option<nat>)
    ensures n.None? <==> forall i :: 0 <= i < |c| ==> !FitsAt(b, kind, key, c[i])
    ensures n.Some? ==> n.value < |c| && FitsAt(b, kind, key, c[n.value])
                        && forall m :: 0 <= m < n.value ==> !FitsAt(b, kind, key, c[m])
  {
    if |c| == 0 then None
    else if FitsAt(b, kind, key, c[0]) then Some(0)
    else
      var n := NearestFit(b, kind, key, c[1..]);
      if n.Some? then Some(n.value + 1) else None
  }

  /** The value the chain `c` designates: the entry of its first locale whose
      entry fits, or the root's empty value when none does. */
  ghost function ChainValue(b: Build, kind: Kind, key: string, c: seq<nat>): Member {
    match NearestFit(b, kind, key, c)
    case None => Empty(kind)
    case Some(n) => OwnValue(kind, b.langs[b.order[c[n]]][key], b.order[c[n]])
  }

  /** A member evaluates to the entry of the nearest locale on its fallback
      chain whose entry fits, or to the root's empty value when none does. */
  lemma {:induction false} EvaluateFollowsChain(b: Build, kind: Kind, j: nat, key: string)
    requires Resolved(b) && j < |b.order|
    ensures Evaluate(b, kind, j, key) == ChainValue(b, kind, key, Chain(b, j))
    decreases j
  {
    var c := Chain(b, j);
    if FitsAt(b, kind, key, j) {
      assert EntryAt(b, j, key) == Some(b.langs[b.order[j]][key]);
      assert Evaluate(b, kind, j, key) == OwnValue(kind, b.langs[b.order[j]][key], b.order[j]);
      assert c[0] == j && NearestFit(b, kind, key, c) == Some(0);
    } else if j == 0 {
      assert b.order[0] == b.root;
      assert Evaluate(b, kind, j, key) == Empty(kind);
      assert c == [0] && NearestFit(b, kind, key, c[1..]) == None;
    } else {
      EvaluateDefers(b, kind, j, key);
      ChainStep(b, j);
      EvaluateFollowsChain(b, kind, DefaultPos(b, j), key);
      ChainValueSkips(b, kind, key, c);
    }
  }

  /** A chain whose first locale has no fitting entry designates what its
      tail designates. */
  lemma ChainValueSkips(b: Build, kind: Kind, key: string, c: seq<nat>)
    requires |c| > 0 && !FitsAt(b, kind, key, c[0])
    ensures ChainValue(b, kind, key, c) == ChainValue(b, kind, key, c[1..])
  {
    NearestFitSkips(b, kind, key, c);
    var n := NearestFit(b, kind, key, c[1..]);
    if n.Some? {
      assert c[n.value + 1] == c[1..][n.value];
    }
  }

  /** The chain of a non-root locale is the locale followed by its default's chain. */
  lemma ChainStep(b: Build, j: nat)
    requires Resolved(b) && 0 < j < |b.order|
    ensures Chain(b, j)[0] == j && Chain(b, j)[1..] == Chain(b, DefaultPos(b, j))
  {
    var c := Chain(b, j);
    assert c == [j] + Chain(b, DefaultPos(b, j));
  }

  /** A non-root locale without a fitting entry evaluates like its default. */
  lemma EvaluateDefers(b: Build, kind: Kind, j: nat, key: string)
    requires Resolved(b) && 0 < j < |b.order| && !FitsAt(b, kind, key, j)
    ensures Evaluate(b, kind, j, key) == Evaluate(b, kind, DefaultPos(b, j), key)
  {
    assert ChoiceAt(b, kind, j, key) == Defer(b.order[DefaultPos(b, j)]);
  }

  /** Skipping a head position without a fitting entry shifts the nearest fit by one. */
  lemma NearestFitSkips(b: Build, kind: Kind, key: string, c: seq<nat>)
    requires |c| > 0 && !FitsAt(b, kind, key, c[0])
    ensures NearestFit(b, kind, key, c) ==
              var n := NearestFit(b, kind, key, c[1..]);
              if n.Some? then Some(n.value + 1) else None
  {
  }
}

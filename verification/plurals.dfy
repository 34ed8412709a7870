/** The runtime plural rules: each family maps a count to the index of the
    variant to show, and an indexer picks that variant from a translated
    entry without ever running out of bounds. */
module Plurals {
  import opened Wrappers
  import opened Negotiate

  /** The strategy classes; `Base` is the `Plural` class itself, which
      always picks the first variant. */
  datatype Family = Base | Chinese | German | French | Russian | Czech | Polish | Icelandic

  /** C#'s `%`, which truncates toward zero: the remainder takes the sign
      of the dividend. */
  function TRem(n: int, d: int): (r: int)
    requires d > 0
    ensures (n - r) % d == 0
    ensures n >= 0 ==> 0 <= r < d && r == n % d
    ensures n < 0 ==> -d < r <= 0
  {
    if n >= 0 then
      assert n - n % d == d * (n / d);
      MultipleMod(d, n / d);
      n % d
    else
      var m := -n;
      assert n + m % d == d * -(m / d);
      MultipleMod(d, -(m / d));
      -(m % d)
  }

  /** A multiple of `d` leaves no remainder. */
  lemma MultipleMod(d: int, q: int)
    requires d > 0
    ensures (d * q) % d == 0
  {
    var k := (d * q) / d;
    assert d * (q - k) == (d * q) % d;
    if q - k >= 1 {
      assert false;
    } else if q - k <= -1 {
      assert false;
    }
  }

  /** The teens exclusion shared by the Russian and Polish rules. */
  predicate FewForm(n: int) {
    2 <= TRem(n, 10) <= 4 && (TRem(n, 100) < 10 || TRem(n, 100) >= 20)
  }

  /** `GetEntryIndexForCount` of each family. */
  function IndexForCount(f: Family, n: int): (i: nat)
    ensures i <= 2
    ensures f == Base || f == Chinese ==> i == 0
    ensures f == German || f == French || f == Icelandic ==> i <= 1
    ensures f == German ==> (i == 0 <==> n == 1)
    ensures f == French ==> (i == 0 <==> n <= 1)
    ensures f == Czech ==> (i == 0 <==> n == 1) && (i == 1 <==> 2 <= n <= 4)
    ensures f == Icelandic ==> (i == 0 <==> TRem(n, 10) == 1 && TRem(n, 100) != 11)
    ensures f == Russian ==> (i == 0 <==> TRem(n, 10) == 1 && TRem(n, 100) != 11)
    ensures f == Russian || f == Polish ==> (i == 1 <==> FewForm(n) && (f == Russian || n != 1))
    ensures f == Polish ==> (i == 0 <==> n == 1)
  {
    match f
    case Base => 0
    case Chinese => 0
    case German => if n != 1 then 1 else 0
    case French => if n > 1 then 1 else 0
    case Russian =>
      if TRem(n, 10) == 1 && TRem(n, 100) != 11 then 0
      else if FewForm(n) then 1
      else 2
    case Czech => if n == 1 then 0 else if 2 <= n <= 4 then 1 else 2
    case Polish => if n == 1 then 0 else if FewForm(n) then 1 else 2
    case Icelandic => if TRem(n, 10) != 1 || TRem(n, 100) == 11 then 1 else 0
  }

  lemma RussianSamples()
    ensures IndexForCount(Russian, 1) == 0 && IndexForCount(Russian, 2) == 1
    ensures IndexForCount(Russian, 5) == 2 && IndexForCount(Russian, 11) == 2
    ensures IndexForCount(Russian, 12) == 2 && IndexForCount(Russian, 21) == 0
    ensures IndexForCount(Russian, 22) == 1 && IndexForCount(Russian, 111) == 2
  {
  }

  lemma CzechSamples()
    ensures IndexForCount(Czech, 1) == 0 && IndexForCount(Czech, 3) == 1
    ensures IndexForCount(Czech, 0) == 2 && IndexForCount(Czech, 21) == 2
    ensures IndexForCount(Czech, 22) == 2
  {
  }

  lemma PolishSamples()
    ensures IndexForCount(Polish, 1) == 0 && IndexForCount(Polish, 22) == 1
    ensures IndexForCount(Polish, 12) == 2 && IndexForCount(Polish, 21) == 2
  {
  }

  lemma IcelandicSamples()
    ensures IndexForCount(Icelandic, 1) == 0 && IndexForCount(Icelandic, 21) == 0
    ensures IndexForCount(Icelandic, 11) == 1 && IndexForCount(Icelandic, 0) == 1
  {
  }

  /** Polish departs from Russian exactly on the counts ending in 1, other
      than 1 itself and the teens, where Polish takes the "many" form. */
  lemma PolishVersusRussian(n: int)
    ensures IndexForCount(Polish, n) != IndexForCount(Russian, n) <==>
              n != 1 && TRem(n, 10) == 1 && TRem(n, 100) != 11
    ensures IndexForCount(Polish, n) != IndexForCount(Russian, n) ==>
              IndexForCount(Russian, n) == 0 && IndexForCount(Polish, n) == 2
  {
  }

  /** Czech looks at the whole count and Polish at its last digits, but they
      only part at 22. */
  lemma CzechVersusPolish(n: int)
    requires n < 22
    ensures IndexForCount(Czech, n) == IndexForCount(Polish, n)
  {
    if n >= 0 {
      assert TRem(n, 100) == n;
    }
  }

  lemma CzechPolishPart()
    ensures IndexForCount(Czech, 22) == 2 && IndexForCount(Polish, 22) == 1
  {
  }

  /** Under C#'s truncating remainder a negative count never ends in 1 to 4,
      so the Slavic families pick the "many" form and Icelandic the plural. */
  lemma NegativeCounts(n: int)
    requires n < 0
    ensures IndexForCount(Russian, n) == 2 && IndexForCount(Polish, n) == 2
    ensures IndexForCount(Czech, n) == 2 && IndexForCount(Icelandic, n) == 1
    ensures IndexForCount(German, n) == 1 && IndexForCount(French, n) == 0
  {
  }

  /** The last-two-digit families repeat every hundred non-negative counts. */
  lemma Periodic(f: Family, n: int)
    requires n >= 0 && (f == Polish ==> n != 1)
    requires f == Russian || f == Polish || f == Icelandic
    ensures IndexForCount(f, n + 100) == IndexForCount(f, n)
  {
    LastDigitsShift(n);
    match f
    case Russian =>
    case Polish =>
    case Icelandic =>
  }

  /** Adding a hundred to a non-negative count keeps its last two digits. */
  lemma LastDigitsShift(n: int)
    requires n >= 0
    ensures TRem(n + 100, 10) == TRem(n, 10) && TRem(n + 100, 100) == TRem(n, 100)
    ensures FewForm(n + 100) == FewForm(n)
  {
    var q, r := n / 100, n % 100;
    assert n == 100 * q + r && n + 100 == 100 * (q + 1) + r;
    assert (n + 100) % 100 == r;
    assert (n + 100) % 10 == n % 10;
  }

  // ---------------------------------------------------------------------
  // The indexer.

  /** A `PluralIndexer`: the variants (`None` for a null array) and the
      strategy (`None` for a null reference). */
  datatype Indexer = Indexer(values: Option<seq<string>>, strategy: Option<Family>)

  /** `PluralIndexer.Dummy`. */
  function Dummy(): Indexer {
    Indexer(None, None)
  }

  /** The indexer `this[Count]`: empty when there is nothing to pick from,
      otherwise the family's variant, or the first one when the family asks
      for a variant the entry does not have. */
  function Lookup(ix: Indexer, count: int): (r: string)
    ensures ix.strategy.None? || ix.values.None? || |ix.values.value| == 0 ==> r == ""
    ensures ix.strategy.Some? && ix.values.Some? && |ix.values.value| > 0 ==>
              r in ix.values.value
              && (IndexForCount(ix.strategy.value, count) < |ix.values.value| ==>
                    r == ix.values.value[IndexForCount(ix.strategy.value, count)])
              && (IndexForCount(ix.strategy.value, count) >= |ix.values.value| ==>
                    r == ix.values.value[0])
  {
    if ix.strategy.None? || ix.values.None? || |ix.values.value| == 0 then ""
    else
      var index := IndexForCount(ix.strategy.value, count);
      var vs := ix.values.value;
      if index >= |vs| then vs[0] else vs[index]
  }

  lemma DummyIsEmpty(count: int)
    ensures Lookup(Dummy(), count) == ""
  {
  }

  /** Three variants cover every family, so nothing is ever clamped. */
  lemma ThreeVariantsNeverClamped(vs: seq<string>, f: Family, count: int)
    requires |vs| == 3
    ensures Lookup(Indexer(Some(vs), Some(f)), count) == vs[IndexForCount(f, count)]
  {
  }

  /** Two variants suffice for the two-form families. */
  lemma TwoVariantsTwoForms(vs: seq<string>, f: Family, count: int)
    requires |vs| == 2 && (f == German || f == French || f == Icelandic)
    ensures Lookup(Indexer(Some(vs), Some(f)), count) == vs[IndexForCount(f, count)]
  {
  }

  /** With two variants a three-form family shows the first one for its
      "many" form. */
  lemma TwoVariantsManyClamped(vs: seq<string>, count: int)
    requires |vs| == 2
    ensures IndexForCount(Russian, count) == 2 ==> Lookup(Indexer(Some(vs), Some(Russian)), count) == vs[0]
  {
  }

  // ---------------------------------------------------------------------
  // The family tables.

  /** The runtime table `Plural.PluralStrategies`. */
  function RuntimeTable(): map<string, Family> {
    map[
      "fa" := Chinese, "id" := Chinese, "ja" := Chinese, "ko" := Chinese, "lo" := Chinese,
      "ms" := Chinese, "th" := Chinese, "tr" := Chinese, "zh" := Chinese,
      "da" := German, "de" := German, "en" := German, "es" := German, "fi" := German,
      "el" := German, "he" := German, "hu" := German, "it" := German, "nl" := German,
      "no" := German, "pt" := German, "sv" := German,
      "fr" := French, "tl" := French, "pt-br" := French,
      "hr" := Russian, "ru" := Russian,
      "cs" := Czech, "pl" := Polish, "is" := Icelandic
    ]
  }

  /** The compiler's table of strategy names. */
  function CompileTable(): map<string, string> {
    map[
      "fa" := "Chinese", "id" := "Chinese", "ja" := "Chinese", "ko" := "Chinese", "lo" := "Chinese",
      "ms" := "Chinese", "th" := "Chinese", "tr" := "Chinese", "zh" := "Chinese",
      "da" := "German", "de" := "German", "en" := "German", "es" := "German", "fi" := "German",
      "el" := "German", "he" := "German", "hu" := "German", "it" := "German", "nl" := "German",
      "no" := "German", "pt" := "German", "sv" := "German",
      "fr" := "French", "tl" := "French", "pt-br" := "French",
      "hr" := "Russian", "ru" := "Russian",
      "cs" := "Czech", "pl" := "Polish", "is" := "Icelandic"
    ]
  }

  /** The class name of a family; the compiler's fallback name `Plural` is
      the base class's. */
  function FamilyName(f: Family): string {
    match f
    case Base => "Plural"
    case Chinese => "Chinese"
    case German => "German"
    case French => "French"
    case Russian => "Russian"
    case Czech => "Czech"
    case Polish => "Polish"
    case Icelandic => "Icelandic"
  }

  /** The static field `Plural.<name>` the generated code refers to; the
      base class has no field for itself. */
  function FieldNamed(name: string): (f: Option<Family>)
    ensures f.Some? ==> f.value != Base && FamilyName(f.value) == name
  {
    if name == "Chinese" then Some(Chinese)
    else if name == "German" then Some(German)
    else if name == "French" then Some(French)
    else if name == "Russian" then Some(Russian)
    else if name == "Czech" then Some(Czech)
    else if name == "Polish" then Some(Polish)
    else if name == "Icelandic" then Some(Icelandic)
    else None
  }

  /** Every derived family's name leads back to its field; the base name
      leads nowhere. */
  lemma FieldNamedRoundTrip(f: Family)
    ensures f != Base ==> FieldNamed(FamilyName(f)) == Some(f)
    ensures f == Base ==> FieldNamed(FamilyName(f)) == None
  {
  }

  /** Both tables name the same family for every locale. */
  lemma TablesAgree()
    ensures CompileTable() == MapValues(RuntimeTable(), FamilyName)
  {
    var c, r := CompileTable(), MapValues(RuntimeTable(), FamilyName);
    assert c.Keys == r.Keys;
    forall k | k in c ensures c[k] == r[k] {
    }
  }

  /** The runtime table maps every locale to a derived family. */
  lemma RuntimeNamesDerived()
    ensures forall k :: k in RuntimeTable() ==> RuntimeTable()[k] != Base
  {
  }

  /** Every name in the compiler's table names a static field. */
  lemma CompileNamesFields()
    ensures forall k :: k in CompileTable() ==> FieldNamed(CompileTable()[k]).Some?
  {
    TablesAgree();
    RuntimeNamesDerived();
    forall k | k in CompileTable() ensures FieldNamed(CompileTable()[k]).Some? {
      FieldNamedRoundTrip(RuntimeTable()[k]);
    }
  }

  /** The strategy the generated class refers to for a locale, as the
      compiler writes it: `Plural.<name>` with `Plural` as the fallback name,
      which names no field. */
  function EmittedStrategy(lang: string): (r: Option<Family>)
    ensures r.Some? <==> GetForLanguageOne(CompileTable(), lang, "Plural") != "Plural"
    ensures r.Some? ==> r.value != Base
  {
    CompileNamesFields();
    FieldNamed(GetForLanguageOne(CompileTable(), lang, "Plural"))
  }

  /** The strategy a locale gets once the fallback names the base class:
      the runtime negotiation over the runtime table. */
  function StrategyFor(lang: string): (f: Family)
    ensures EmittedStrategy(lang).Some? ==> f == EmittedStrategy(lang).value
  {
    FieldNamed(GetForLanguageOne(CompileTable(), lang, "Plural")).GetOr(Base)
  }

  /** The emitted reference exists exactly for the locales the runtime
      negotiation gives a derived family; those agree. */
  lemma {:induction false} EmittedMatchesRuntime(lang: string)
    ensures StrategyFor(lang) == GetForLanguageOne(RuntimeTable(), lang, Base)
    ensures EmittedStrategy(lang).None? <==> GetForLanguageOne(RuntimeTable(), lang, Base) == Base
  {
    TablesAgree();
    GetForLanguageNatural(RuntimeTable(), Some([lang]), Base, FamilyName);
    var f := GetForLanguageOne(RuntimeTable(), lang, Base);
    FieldNamedRoundTrip(f);
  }

  /** `pt-br` has a table entry of its own. */
  lemma BrazilianStrategy()
    ensures StrategyFor("pt-br") == French
  {
    var t := CompileTable();
    assert Strings.ToLower("pt-br") == "pt-br";
    assert "pt-br" in t && t["pt-br"] == "French";
  }

  /** `pt-pt` has none and falls back to `pt`. */
  lemma EuropeanPortugueseStrategy()
    ensures StrategyFor("pt-pt") == German
  {
    var t := CompileTable();
    assert Strings.ToLower("pt-pt") == "pt-pt";
    assert "pt-pt" !in t by {
      CompileKeysShape();
    }
    assert HasRegion("pt-pt") && "pt-pt"[..2] == "pt";
    assert "pt" in t && t["pt"] == "German";
    assert GetForLanguageOne(t, "pt-pt", "Plural") == "German";
  }

  /** Every compile-time key is a bare language code, except `pt-br`. */
  lemma CompileKeysShape()
    ensures forall k :: k in CompileTable() ==> |k| == 2 || k == "pt-br"
  {
  }

  /** No compile-time key starts with `u`. */
  lemma NoKeyStartsWithU()
    ensures forall k :: k in CompileTable() ==> |k| > 0 && k[0] != 'u'
  {
  }

  /** Ukrainian is absent from the table and gets the fallback name. */
  lemma UkrainianLookup()
    ensures GetForLanguageOne(CompileTable(), "uk", "Plural") == "Plural"
  {
    LowersTo("uk", "uk");
    NoKeyStartsWithU();
    assert "uk"[0] == 'u';
  }

  /** A locale missing from the table, such as Ukrainian, gets a reference
      to a field that does not exist. */
  lemma UnknownLocaleNamesNoField()
    ensures EmittedStrategy("uk") == None
  {
    UkrainianLookup();
  }

  /** With the base class as fallback, such a locale always shows the first
      variant. */
  lemma UnknownLocaleFirstVariant(count: int)
    ensures StrategyFor("uk") == Base
    ensures IndexForCount(StrategyFor("uk"), count) == 0
  {
    UkrainianLookup();
  }
}

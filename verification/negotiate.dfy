/** Locale negotiation (`Utils.GetForLanguage`): an exact match on any of
    the lower-cased requested tags wins over a match on the two-letter
    primary subtag of any of them; with neither, the caller's default. */
module Negotiate {
  import opened Wrappers
  import opened Strings

  /** The requested tags as the lookup sees them. */
  function LowerAll(tags: seq<string>): (r: seq<string>)
    ensures |r| == |tags|
    ensures forall i :: 0 <= i < |tags| ==> r[i] == ToLower(tags[i])
  {
    if |tags| == 0 then [] else [ToLower(tags[0])] + LowerAll(tags[1..])
  }

  /** A tag of the form `xx-...`, which the second phase cuts to `xx`. */
  predicate HasRegion(tag: string) {
    |tag| > 2 && tag[2] == '-'
  }

  /** Tag `i` matches a dictionary key as it stands. */
  ghost predicate ExactAt<T>(dict: map<string, T>, tags: seq<string>, i: int) {
    0 <= i < |tags| && tags[i] in dict
  }

  /** Tag `i` matches a dictionary key once cut to its primary subtag. */
  ghost predicate CutAt<T>(dict: map<string, T>, tags: seq<string>, i: int) {
    0 <= i < |tags| && HasRegion(tags[i]) && tags[i][..2] in dict
  }

  /** The first phase: the value of the first tag found as it stands. */
  function ExactScan<T>(dict: map<string, T>, tags: seq<string>): (r: Option<T>)
    ensures r.None? <==> forall i :: 0 <= i < |tags| ==> !ExactAt(dict, tags, i)
    ensures r.Some? ==> exists i :: ExactAt(dict, tags, i) && r.value == dict[tags[i]]
                                    && forall j :: 0 <= j < i ==> !ExactAt(dict, tags, j)
  {
    if |tags| == 0 then None
    else if tags[0] in dict then
      assert ExactAt(dict, tags, 0);
      Some(dict[tags[0]])
    else
      var r := ExactScan(dict, tags[1..]);
      assert forall i :: 1 <= i < |tags| ==> (ExactAt(dict, tags, i) <==> ExactAt(dict, tags[1..], i - 1));
      assert r.Some? ==> exists i :: ExactAt(dict, tags, i) && r.value == dict[tags[i]]
                                    && forall j :: 0 <= j < i ==> !ExactAt(dict, tags, j) by {
        if r.Some? {
          var i :| ExactAt(dict, tags[1..], i) && r.value == dict[tags[1..][i]]
                   && forall j :: 0 <= j < i ==> !ExactAt(dict, tags[1..], j);
          assert ExactAt(dict, tags, i + 1);
        }
      }
      r
  }

  /** The second phase: the value of the first `xx-...` tag whose `xx` is
      found. */
  function CutScan<T>(dict: map<string, T>, tags: seq<string>): (r: Option<T>)
    ensures r.None? <==> forall i :: 0 <= i < |tags| ==> !CutAt(dict, tags, i)
    ensures r.Some? ==> exists i :: CutAt(dict, tags, i) && r.value == dict[tags[i][..2]]
                                    && forall j :: 0 <= j < i ==> !CutAt(dict, tags, j)
  {
    if |tags| == 0 then None
    else if HasRegion(tags[0]) && tags[0][..2] in dict then
      assert CutAt(dict, tags, 0);
      Some(dict[tags[0][..2]])
    else
      var r := CutScan(dict, tags[1..]);
      assert forall i :: 1 <= i < |tags| ==> (CutAt(dict, tags, i) <==> CutAt(dict, tags[1..], i - 1));
      assert r.Some? ==> exists i :: CutAt(dict, tags, i) && r.value == dict[tags[i][..2]]
                                    && forall j :: 0 <= j < i ==> !CutAt(dict, tags, j) by {
        if r.Some? {
          var i :| CutAt(dict, tags[1..], i) && r.value == dict[tags[1..][i][..2]]
                   && forall j :: 0 <= j < i ==> !CutAt(dict, tags[1..], j);
          assert CutAt(dict, tags, i + 1);
        }
      }
      r
  }

  /** `GetForLanguage(Dict, langlist, Default)`; `None` stands for a null
      list. */
  function GetForLanguage<T>(dict: map<string, T>, langlist: Option<seq<string>>, dflt: T): (r: T)
    ensures langlist.None? || |langlist.value| == 0 ==> r == dflt
    ensures langlist.Some? ==>
              var tags := LowerAll(langlist.value);
              && (forall i :: ExactAt(dict, tags, i) && (forall j :: 0 <= j < i ==> !ExactAt(dict, tags, j))
                    ==> r == dict[tags[i]])
              && ((forall i :: 0 <= i < |tags| ==> !ExactAt(dict, tags, i)) ==>
                    && (forall i :: CutAt(dict, tags, i) && (forall j :: 0 <= j < i ==> !CutAt(dict, tags, j))
                          ==> r == dict[tags[i][..2]])
                    && ((forall i :: 0 <= i < |tags| ==> !CutAt(dict, tags, i)) ==> r == dflt))
  {
    if langlist.None? || |langlist.value| == 0 then dflt
    else
      var tags := LowerAll(langlist.value);
      var exact := ExactScan(dict, tags);
      if exact.Some? then
        ExactWins(dict, tags);
        exact.value
      else
        var cut := CutScan(dict, tags);
        if cut.Some? then
          CutWins(dict, tags);
          cut.value
        else dflt
  }

  /** A successful first phase returns the value of the first exact match. */
  lemma ExactWins<T>(dict: map<string, T>, tags: seq<string>)
    requires ExactScan(dict, tags).Some?
    ensures !(forall i :: 0 <= i < |tags| ==> !ExactAt(dict, tags, i))
    ensures forall i :: ExactAt(dict, tags, i) && (forall j :: 0 <= j < i ==> !ExactAt(dict, tags, j))
              ==> ExactScan(dict, tags).value == dict[tags[i]]
  {
    FirstIsUnique(tags, i => ExactAt(dict, tags, i));
  }

  /** A successful second phase returns the value of the first cut match. */
  lemma CutWins<T>(dict: map<string, T>, tags: seq<string>)
    requires CutScan(dict, tags).Some?
    ensures !(forall i :: 0 <= i < |tags| ==> !CutAt(dict, tags, i))
    ensures forall i :: CutAt(dict, tags, i) && (forall j :: 0 <= j < i ==> !CutAt(dict, tags, j))
              ==> CutScan(dict, tags).value == dict[tags[i][..2]]
  {
    FirstIsUnique(tags, i => CutAt(dict, tags, i));
  }

  /** Two first witnesses of the same property are the same index. */
  lemma FirstIsUnique(tags: seq<string>, p: int -> bool)
    ensures forall i, k :: (0 <= i && 0 <= k && p(i) && p(k) && (forall j :: 0 <= j < i ==> !p(j))
                            && (forall j :: 0 <= j < k ==> !p(j))) ==> i == k
  {
    forall i, k | 0 <= i && 0 <= k && p(i) && p(k) && (forall j :: 0 <= j < i ==> !p(j)) && (forall j :: 0 <= j < k ==> !p(j))
      ensures i == k
    {
      assert i < k ==> !p(i);
      assert k < i ==> !p(k);
    }
  }

  /** The single-tag overload: the one-element list. */
  function GetForLanguageOne<T>(dict: map<string, T>, lang: string, dflt: T): (r: T)
    ensures var tag := ToLower(lang);
            r == if tag in dict then dict[tag]
                 else if HasRegion(tag) && tag[..2] in dict then dict[tag[..2]]
                 else dflt
  {
    assert LowerAll([lang]) == [ToLower(lang)];
    GetForLanguage(dict, Some([lang]), dflt)
  }

  /** The dictionary with `f` applied to every value. */
  function MapValues<T, U>(dict: map<string, T>, f: T -> U): (r: map<string, U>)
    ensures r.Keys == dict.Keys
    ensures forall k :: k in dict ==> r[k] == f(dict[k])
  {
    map k | k in dict :: f(dict[k])
  }

  /** Negotiation only chooses among keys: renaming every value (and the
      default) before the lookup is the same as renaming the result. */
  lemma {:induction false} GetForLanguageNatural<T, U>(dict: map<string, T>, langlist: Option<seq<string>>, dflt: T, f: T -> U)
    ensures GetForLanguage(MapValues(dict, f), langlist, f(dflt)) == f(GetForLanguage(dict, langlist, dflt))
  {
    if langlist.Some? && |langlist.value| > 0 {
      var tags := LowerAll(langlist.value);
      ExactScanNatural(dict, tags, f);
      CutScanNatural(dict, tags, f);
    }
  }

  lemma {:induction false} ExactScanNatural<T, U>(dict: map<string, T>, tags: seq<string>, f: T -> U)
    ensures var r := ExactScan(dict, tags);
            ExactScan(MapValues(dict, f), tags) == if r.Some? then Some(f(r.value)) else None
    decreases |tags|
  {
    if |tags| > 0 {
      ExactScanNatural(dict, tags[1..], f);
    }
  }

  lemma {:induction false} CutScanNatural<T, U>(dict: map<string, T>, tags: seq<string>, f: T -> U)
    ensures var r := CutScan(dict, tags);
            CutScan(MapValues(dict, f), tags) == if r.Some? then Some(f(r.value)) else None
    decreases |tags|
  {
    if |tags| > 0 {
      CutScanNatural(dict, tags[1..], f);
    }
  }

  // ---------------------------------------------------------------------
  // The negotiations of the sample console application against a build
  // holding `en` and `ru`, with `en` as the fallback.

  function SampleLocales(): map<string, string> {
    map["en" := "en", "ru" := "ru"]
  }

  /** Exact tags are found as they stand; `it-xx` and `yy` fall through. */
  lemma SampleSingleTags()
    ensures GetForLanguageOne(SampleLocales(), "ru", "en") == "ru"
    ensures GetForLanguageOne(SampleLocales(), "it-xx", "en") == "en"
    ensures GetForLanguageOne(SampleLocales(), "yy", "en") == "en"
  {
    SampleExactTag();
    SampleUnknownRegion();
    SampleUnknownTag();
  }

  lemma SampleExactTag()
    ensures GetForLanguageOne(SampleLocales(), "ru", "en") == "ru"
  {
    LowersTo("ru", "ru");
  }

  lemma SampleUnknownRegion()
    ensures GetForLanguageOne(SampleLocales(), "it-xx", "en") == "en"
  {
    LowersTo("it-xx", "it-xx");
    assert "it-xx"[..2] == "it";
  }

  lemma SampleUnknownTag()
    ensures GetForLanguageOne(SampleLocales(), "yy", "en") == "en"
  {
    LowersTo("yy", "yy");
  }

  lemma LowersTo(s: string, t: string)
    requires |s| == |t| && forall i :: 0 <= i < |s| ==> LowerChar(s[i]) == t[i]
    ensures ToLower(s) == t
  {
  }

  lemma LowerAllIs(tags: seq<string>, lowered: seq<string>)
    requires |tags| == |lowered| && forall i :: 0 <= i < |tags| ==> ToLower(tags[i]) == lowered[i]
    ensures LowerAll(tags) == lowered
  {
  }

  /** Lower-casing the sample's mixed-case tags. */
  lemma SampleTagsLowered()
    ensures ToLower("zz-UA") == "zz-ua" && ToLower("zz-us") == "zz-us" && ToLower("it") == "it"
    ensures ToLower("ru-RU") == "ru-ru" && ToLower("ru-ua") == "ru-ua"
  {
    LowersTo("zz-UA", "zz-ua");
    LowersTo("zz-us", "zz-us");
    LowersTo("it", "it");
    LowersTo("ru-RU", "ru-ru");
    LowersTo("ru-ua", "ru-ua");
  }

  /** The primary subtags of the sample's regional tags. */
  lemma SamplePrimarySubtags()
    ensures "zz-ua"[..2] == "zz" && "zz-us"[..2] == "zz"
    ensures "ru-ru"[..2] == "ru" && "ru-ua"[..2] == "ru"
  {
  }

  /** Against the sample build, no tag of the four-tag list is found as it
      stands, and `ru-ru` is the first found once cut. */
  lemma SampleScansFour()
    ensures ExactScan(SampleLocales(), ["zz-ua", "zz-us", "ru-ru", "ru-ua"]) == None
    ensures CutScan(SampleLocales(), ["zz-ua", "zz-us", "ru-ru", "ru-ua"]) == Some("ru")
  {
    SamplePrimarySubtags();
  }

  /** The same with `it` inserted before `ru-ru`. */
  lemma SampleScansFive()
    ensures ExactScan(SampleLocales(), ["zz-ua", "zz-us", "it", "ru-ru", "ru-ua"]) == None
    ensures CutScan(SampleLocales(), ["zz-ua", "zz-us", "it", "ru-ru", "ru-ua"]) == Some("ru")
  {
    SamplePrimarySubtags();
  }

  /** A non-empty list is negotiated by the two scans of its lower-cased tags. */
  lemma GetForLanguageScans<T>(dict: map<string, T>, langlist: seq<string>, dflt: T)
    requires |langlist| > 0
    ensures var tags := LowerAll(langlist);
            var exact, cut := ExactScan(dict, tags), CutScan(dict, tags);
            GetForLanguage(dict, Some(langlist), dflt) ==
              if exact.Some? then exact.value else if cut.Some? then cut.value else dflt
  {
  }

  /** `ru-RU` is lowered and cut to `ru` in the second phase. */
  lemma SampleRegionFallback()
    ensures GetForLanguage(SampleLocales(), Some(["zz-UA", "zz-us", "ru-RU", "ru-ua"]), "en") == "ru"
  {
    var raw, tags := ["zz-UA", "zz-us", "ru-RU", "ru-ua"], ["zz-ua", "zz-us", "ru-ru", "ru-ua"];
    SampleTagsLowered();
    LowerAllIs(raw, tags);
    SampleScansFour();
    GetForLanguageScans(SampleLocales(), raw, "en");
  }

  /** An uncompiled `it` earlier in the list does not stop the second phase
      from finding `ru`. */
  lemma SampleUncompiledTagSkipped()
    ensures GetForLanguage(SampleLocales(), Some(["zz-UA", "zz-us", "it", "ru-RU", "ru-ua"]), "en") == "ru"
  {
    var raw, tags := ["zz-UA", "zz-us", "it", "ru-RU", "ru-ua"], ["zz-ua", "zz-us", "it", "ru-ru", "ru-ua"];
    SampleTagsLowered();
    LowerAllIs(raw, tags);
    SampleScansFive();
    GetForLanguageScans(SampleLocales(), raw, "en");
  }
}

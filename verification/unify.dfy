/** The interface the generated classes share: every key any locale file
    defines, typed as a text or a counted member by the first locale in the
    processing order that defines it. */
module Unify {
  import opened Entries

  /** Whether a key is a text member or a plural indexer. */
  datatype Kind = SingleKey | PluralKey

  function KindOf(e: Entry): (k: Kind)
    ensures k == SingleKey <==> e.IsSingle()
  {
    if e.IsSingle() then SingleKey else PluralKey
  }

  /** Locale `lang` was loaded from a file that has `key`. */
  ghost predicate Defines(langs: map<string, map<string, Entry>>, lang: string, key: string) {
    lang in langs && key in langs[lang]
  }

  /** Position `i` of `order` is the first locale that defines `key`. */
  ghost predicate FirstDefiner(order: seq<string>, langs: map<string, map<string, Entry>>, i: int, key: string) {
    0 <= i < |order| && Defines(langs, order[i], key)
    && forall j :: 0 <= j < i ==> !Defines(langs, order[j], key)
  }

  /** One locale's turn: keys already known keep their kind, new keys take
      the kind of this locale's entry. */
  function AddLocale(acc: map<string, Kind>, entries: map<string, Entry>): (r: map<string, Kind>)
    ensures r.Keys == acc.Keys + entries.Keys
    ensures forall k :: k in acc ==> r[k] == acc[k]
    ensures forall k :: k in entries && k !in acc ==> r[k] == KindOf(entries[k])
  {
    map k | k in acc.Keys + entries.Keys :: if k in acc then acc[k] else KindOf(entries[k])
  }

  /** The entries of a locale; a locale without a file contributes none. */
  function EntriesOf(langs: map<string, map<string, Entry>>, lang: string): (e: map<string, Entry>)
    ensures lang !in langs ==> e == map[]
    ensures forall k :: k in e <==> Defines(langs, lang, k)
  {
    if lang in langs then langs[lang] else map[]
  }

  /** `AllMethodsDict` after visiting `order` left to right. */
  function Unified(order: seq<string>, langs: map<string, map<string, Entry>>): (r: map<string, Kind>)
    ensures forall k :: k in r <==> exists i :: 0 <= i < |order| && Defines(langs, order[i], k)
    ensures forall k, i :: FirstDefiner(order, langs, i, k) ==> k in r && r[k] == KindOf(langs[order[i]][k])
    decreases |order|
  {
    if |order| == 0 then map[]
    else
      var n := |order| - 1;
      var prev := Unified(order[..n], langs);
      var r := AddLocale(prev, EntriesOf(langs, order[n]));
      UnifiedStep(order, langs, prev, r);
      r
  }

  /** The contract of `Unified` carries over one more locale. */
  lemma UnifiedStep(order: seq<string>, langs: map<string, map<string, Entry>>, prev: map<string, Kind>, r: map<string, Kind>)
    requires |order| > 0
    requires var n := |order| - 1;
             && (forall k :: k in prev <==> exists i :: 0 <= i < n && Defines(langs, order[..n][i], k))
             && (forall k, i :: FirstDefiner(order[..n], langs, i, k) ==> k in prev && prev[k] == KindOf(langs[order[..n][i]][k]))
             && r == AddLocale(prev, EntriesOf(langs, order[n]))
    ensures forall k :: k in r <==> exists i :: 0 <= i < |order| && Defines(langs, order[i], k)
    ensures forall k, i :: FirstDefiner(order, langs, i, k) ==> k in r && r[k] == KindOf(langs[order[i]][k])
  {
    var n := |order| - 1;
    var front := order[..n];
    assert forall i :: 0 <= i < n ==> front[i] == order[i];
    forall k | k in r ensures exists i :: 0 <= i < |order| && Defines(langs, order[i], k) {
      if k in prev {
        var i :| 0 <= i < n && Defines(langs, front[i], k);
        assert Defines(langs, order[i], k);
      } else {
        assert Defines(langs, order[n], k);
      }
    }
    forall k, i | 0 <= i < |order| && Defines(langs, order[i], k) ensures k in r {
      if i < n {
        assert Defines(langs, front[i], k);
      }
    }
    forall k, i | FirstDefiner(order, langs, i, k) ensures k in r && r[k] == KindOf(langs[order[i]][k]) {
      if i < n {
        assert FirstDefiner(front, langs, i, k);
      }
    }
  }

  /** First writer wins: what a prefix of the order decided, the rest of
      the order never changes. */
  lemma {:induction false} PrefixStable(order: seq<string>, langs: map<string, map<string, Entry>>, t: nat)
    requires t <= |order|
    ensures forall k :: k in Unified(order[..t], langs) ==>
              k in Unified(order, langs) && Unified(order, langs)[k] == Unified(order[..t], langs)[k]
  {
    var front, whole := Unified(order[..t], langs), Unified(order, langs);
    forall k | k in front ensures k in whole && whole[k] == front[k] {
      var i := FirstDefinerOf(order[..t], langs, k);
      assert order[..t][i] == order[i];
      assert FirstDefiner(order, langs, i, k) by {
        forall j | 0 <= j < i ensures !Defines(langs, order[j], k) {
          assert order[..t][j] == order[j];
        }
      }
    }
  }

  /** A defined key has a first definer. */
  lemma FirstDefinerOf(order: seq<string>, langs: map<string, map<string, Entry>>, k: string) returns (i: nat)
    requires exists i :: 0 <= i < |order| && Defines(langs, order[i], k)
    ensures FirstDefiner(order, langs, i, k)
  {
    var w :| 0 <= w < |order| && Defines(langs, order[w], k);
    i := 0;
    while !Defines(langs, order[i], k)
      invariant 0 <= i <= w
      invariant forall j :: 0 <= j < i ==> !Defines(langs, order[j], k)
      decreases w - i
    {
      i := i + 1;
    }
  }
}

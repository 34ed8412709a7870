/** One translated value as the compiler keeps it: either a single text or
    up to three plural variants, together with the unsplit raw text. */
module Entries {
  import opened Wrappers
  import opened Strings

  /** Separator between plural variants inside one raw value. */
  const PluralDelimiter: string := "||||"

  /** Variants beyond this many are dropped. */
  const MaxVariants: nat := 3

  /** `Single(text)` stands for an entry whose `PluralValues` is null (its
      `SingleValue` and `RawValue` are both `text`); `Plural` holds the kept
      variants and the raw value they were split from. */
  datatype Entry = Single(text: Option<string>) | Plural(variants: seq<string>, raw: string) {

    predicate IsSingle() {
      Single?
    }

    /** The `RawValue` field. */
    function Raw(): Option<string> {
      match this
      case Single(t) => t
      case Plural(_, r) => Some(r)
    }
  }

  /** `LanguageEntry.FromRawValue`: a value containing the delimiter becomes a
      plural entry holding its first (at most three) pieces. */
  function FromRawValue(value: Option<string>): (e: Entry)
    ensures e.IsSingle() <==> value.None? || !Contains(value.value, PluralDelimiter)
    ensures e.Raw() == value
    ensures e.Single? ==> e.text == value
    ensures e.Plural? ==> 2 <= |e.variants| <= MaxVariants
    ensures e.Plural? ==> e.variants <= Split(e.raw, PluralDelimiter)
    ensures e.Plural? ==> forall v :: v in e.variants ==> !Contains(v, PluralDelimiter)
    ensures e.Plural? && |Split(e.raw, PluralDelimiter)| <= MaxVariants ==>
              Join(e.variants, PluralDelimiter) == e.raw
  {
    if value.None? || !Contains(value.value, PluralDelimiter) then
      Single(value)
    else
      var pieces := Split(value.value, PluralDelimiter);
      SplitPiecesFree(value.value, PluralDelimiter);
      JoinSplit(value.value, PluralDelimiter);
      Plural(if |pieces| > MaxVariants then pieces[..MaxVariants] else pieces, value.value)
  }

  /** Splitting a one-letter piece followed by the delimiter. */
  lemma SplitOneLetter(c: char, rest: string)
    requires c != '|'
    ensures Split([c] + PluralDelimiter + rest, PluralDelimiter) == [[c]] + Split(rest, PluralDelimiter)
  {
    var s := [c] + PluralDelimiter + rest;
    assert s[0..4] != PluralDelimiter by { assert s[0..4][0] == c; }
    assert s[1..5] == PluralDelimiter;
    assert IndexOf(s, PluralDelimiter, 0) == Some(1);
    assert s[..1] == [c] && s[5..] == rest;
  }

  /** A raw value with more than three pieces keeps the first three. */
  lemma ManyPiecesKeepThree(s: string)
    requires |Split(s, PluralDelimiter)| > MaxVariants
    ensures FromRawValue(Some(s)) == Plural(Split(s, PluralDelimiter)[..MaxVariants], s)
  {
  }

  /** A raw value with five one-letter pieces keeps exactly the first three. */
  lemma FiveSegmentsKeepThree(a: char, b: char, c: char, x: char, y: char)
    requires a != '|' && b != '|' && c != '|' && x != '|' && y != '|'
    ensures var raw := [a] + PluralDelimiter + [b] + PluralDelimiter + [c] + PluralDelimiter
                       + [x] + PluralDelimiter + [y];
            FromRawValue(Some(raw)) == Plural([[a], [b], [c]], raw)
  {
    var s4 := [x] + PluralDelimiter + [y];
    var s3 := [c] + PluralDelimiter + s4;
    var s2 := [b] + PluralDelimiter + s3;
    var s1 := [a] + PluralDelimiter + s2;
    SplitOneLetter(a, s2);
    SplitOneLetter(b, s3);
    SplitOneLetter(c, s4);
    var tail := Split(s4, PluralDelimiter);
    var pieces := [[a]] + ([[b]] + ([[c]] + tail));
    assert |pieces| > 3 && pieces[..3] == [[a], [b], [c]];
    ManyPiecesKeepThree(s1);
    FiveConcat(a, b, c, x, y, s1);
  }

  lemma FiveConcat(a: char, b: char, c: char, x: char, y: char, s1: string)
    requires s1 == [a] + PluralDelimiter + ([b] + PluralDelimiter + ([c] + PluralDelimiter + ([x] + PluralDelimiter + [y])))
    ensures s1 == [a] + PluralDelimiter + [b] + PluralDelimiter + [c] + PluralDelimiter
                  + [x] + PluralDelimiter + [y]
  {
  }

  /** A raw value without the delimiter stays a single entry equal to its input. */
  lemma NoDelimiterIsSingle(s: string)
    requires forall k: nat :: !OccursAt(s, PluralDelimiter, k)
    ensures FromRawValue(Some(s)) == Single(Some(s))
  {
  }
}

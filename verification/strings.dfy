/** Ordinal string operations the compiler relies on: substring search,
    splitting on a separator, joining, and ASCII lower-casing. */
module Strings {
  import opened Wrappers

  /** `d` occurs in `s` starting at position `i`. */
  predicate OccursAt(s: string, d: string, i: nat) {
    i + |d| <= |s| && s[i..i + |d|] == d
  }

  /** First position at or after `from` where `d` occurs in `s` (ordinal IndexOf). */
  function IndexOf(s: string, d: string, from: nat): (r: Option<nat>)
    requires |d| > 0
    ensures r.Some? ==> from <= r.value && OccursAt(s, d, r.value)
    ensures r.Some? ==> forall k: nat :: from <= k < r.value ==> !OccursAt(s, d, k)
    ensures r.None? ==> forall k: nat :: from <= k ==> !OccursAt(s, d, k)
    decreases |s| - from
  {
    if from + |d| > |s| then None
    else if s[from..from + |d|] == d then Some(from)
    else IndexOf(s, d, from + 1)
  }

  /** Ordinal `String.Contains`. */
  predicate Contains(s: string, d: string)
    requires |d| > 0
  {
    IndexOf(s, d, 0).Some?
  }

  /** `String.Split(d)`: the pieces between non-overlapping occurrences of `d`,
      found left to right; there is always at least one piece. */
  function Split(s: string, d: string): (parts: seq<string>)
    requires |d| > 0
    ensures |parts| >= 1
    ensures |parts| == 1 <==> !Contains(s, d)
    decreases |s|
  {
    match IndexOf(s, d, 0)
    case None => [s]
    case Some(i) => [s[..i]] + Split(s[i + |d|..], d)
  }

  /** `String.Join(d, parts)`. */
  function Join(parts: seq<string>, d: string): string {
    if |parts| == 0 then ""
    else if |parts| == 1 then parts[0]
    else parts[0] + d + Join(parts[1..], d)
  }

  /** Joining a non-empty tail after a head puts one separator between them. */
  lemma JoinCons(head: string, tail: seq<string>, d: string)
    requires |tail| >= 1
    ensures Join([head] + tail, d) == head + d + Join(tail, d)
  {
    assert ([head] + tail)[1..] == tail;
  }

  /** A string is the part before an occurrence of `d`, then `d`, then the
      part after it. */
  lemma SplitAround(s: string, d: string, i: nat)
    requires OccursAt(s, d, i)
    ensures s == s[..i] + d + s[i + |d|..]
  {
    assert s == s[..i] + s[i..i + |d|] + s[i + |d|..];
  }

  /** Splitting loses nothing: joining the pieces back gives the original string. */
  lemma {:induction false} JoinSplit(s: string, d: string)
    requires |d| > 0
    ensures Join(Split(s, d), d) == s
    decreases |s|
  {
    var found := IndexOf(s, d, 0);
    if found.Some? {
      var i := found.value;
      var head, rest := s[..i], s[i + |d|..];
      var parts := Split(rest, d);
      assert Split(s, d) == [head] + parts;
      JoinSplit(rest, d);
      JoinCons(head, parts, d);
      SplitAround(s, d, i);
    }
  }

  /** A prefix ending before the first occurrence of `d` does not contain `d`. */
  lemma PrefixBeforeFirst(s: string, d: string, i: nat)
    requires |d| > 0 && i <= |s|
    requires forall k: nat :: k < i ==> !OccursAt(s, d, k)
    ensures !Contains(s[..i], d)
  {
    if Contains(s[..i], d) {
      var k := IndexOf(s[..i], d, 0).value;
      assert s[..i][k..k + |d|] == s[k..k + |d|];
      assert OccursAt(s, d, k);
    }
  }

  /** No piece produced by Split contains the separator. */
  lemma {:induction false} SplitPiecesFree(s: string, d: string)
    requires |d| > 0
    ensures forall p :: p in Split(s, d) ==> !Contains(p, d)
    decreases |s|
  {
    var found := IndexOf(s, d, 0);
    if found.Some? {
      var i := found.value;
      var rest := s[i + |d|..];
      var parts := Split(rest, d);
      PrefixBeforeFirst(s, d, i);
      SplitPiecesFree(rest, d);
      assert Split(s, d) == [s[..i]] + parts;
      forall p | p in Split(s, d) ensures !Contains(p, d) {
        if p != s[..i] {
          assert p in parts;
        }
      }
    }
  }

  /** ASCII lower-casing of one character. */
  function LowerChar(c: char): char {
    if 'A' <= c <= 'Z' then (c as int + 32) as char else c
  }

  /** `String.ToLower` restricted to ASCII letters. */
  function ToLower(s: string): (r: string)
    ensures |r| == |s|
    ensures forall i :: 0 <= i < |s| ==> r[i] == LowerChar(s[i])
  {
    if |s| == 0 then "" else [LowerChar(s[0])] + ToLower(s[1..])
  }

  predicate IsLowerLetter(c: char) {
    'a' <= c <= 'z'
  }
}

/** Flattening a parsed translation document into dotted keys. A document is
    a tree of string leaves and objects; every other token (numbers, arrays,
    null, ...) is `Other` and is skipped. */
module Flatten {
  import opened Wrappers
  import opened Strings

  datatype Node = Str(s: string) | Obj(props: seq<(string, Node)>) | Other

  /** The key written for property `name` under `prefix`; there is no prefix at the top level. */
  function Qualify(prefix: Option<string>, name: string): string {
    match prefix
    case None => name
    case Some(p) => p + "." + name
  }

  /** `FlattenEntries` from the `i`-th property of object `data` on: writes
      each string leaf into `acc` under its qualified name (a later write
      overwrites an earlier one) and descends into objects with the qualified
      name as prefix. */
  function FlattenFrom(data: Node, i: nat, acc: map<string, string>, prefix: Option<string>): (r: map<string, string>)
    requires data.Obj? && i <= |data.props|
    ensures acc.Keys <= r.Keys
    decreases data, |data.props| - i
  {
    if i == |data.props| then acc
    else
      var name := Qualify(prefix, data.props[i].0);
      var child := data.props[i].1;
      var acc' := match child
        case Str(s) => acc[name := s]
        case Obj(_) => FlattenFrom(child, 0, acc, Some(name))
        case Other => acc;
      FlattenFrom(data, i + 1, acc', prefix)
  }

  /** The entries of a whole document: `FlattenEntries(doc, new Dictionary(), null)`. */
  function Flatten(doc: Node): (r: map<string, string>)
    requires doc.Obj?
    ensures r == Apply(map[], Leaves(doc, 0, None))
  {
    FlattenIsApply(doc, 0, map[], None);
    FlattenFrom(doc, 0, map[], None)
  }

  /** The string leaves from the `i`-th property on, in depth-first order, each with its qualified name. */
  function Leaves(data: Node, i: nat, prefix: Option<string>): seq<(string, string)>
    requires data.Obj? && i <= |data.props|
    decreases data, |data.props| - i
  {
    if i == |data.props| then []
    else
      var name := Qualify(prefix, data.props[i].0);
      var child := data.props[i].1;
      var here := match child
        case Str(s) => [(name, s)]
        case Obj(_) => Leaves(child, 0, Some(name))
        case Other => [];
      here + Leaves(data, i + 1, prefix)
  }

  /** Writes each pair of `writes` into `acc` in turn. */
  function Apply(acc: map<string, string>, writes: seq<(string, string)>): map<string, string>
    decreases |writes|
  {
    if writes == [] then acc else Apply(acc[writes[0].0 := writes[0].1], writes[1..])
  }

  /** Writing two batches one after the other is writing their concatenation. */
  lemma {:induction false} ApplyConcat(acc: map<string, string>, a: seq<(string, string)>, b: seq<(string, string)>)
    ensures Apply(acc, a + b) == Apply(Apply(acc, a), b)
    decreases |a|
  {
    if a != [] {
      assert (a + b)[0] == a[0] && (a + b)[1..] == a[1..] + b;
      ApplyConcat(acc[a[0].0 := a[0].1], a[1..], b);
    } else {
      assert a + b == b;
    }
  }

  /** What a batch of writes leaves behind: every written key is present, a
      key keeps the value of its last write, and untouched keys keep their
      old value. */
  lemma ApplyLastWins(acc: map<string, string>, w: seq<(string, string)>)
    ensures forall k :: k in Apply(acc, w) <==> (k in acc || exists j :: 0 <= j < |w| && w[j].0 == k)
    ensures forall k :: k in Apply(acc, w) ==>
              (k in acc && Apply(acc, w)[k] == acc[k]) || (k, Apply(acc, w)[k]) in w
    ensures forall j :: 0 <= j < |w| && (forall j' :: j < j' < |w| ==> w[j'].0 != w[j].0) ==>
              Apply(acc, w)[w[j].0] == w[j].1
    ensures forall k :: k in acc && (forall j :: 0 <= j < |w| ==> w[j].0 != k) ==> Apply(acc, w)[k] == acc[k]
  {
    ApplyKeys(acc, w);
    ApplySources(acc, w);
    forall j | 0 <= j < |w| && (forall j' :: j < j' < |w| ==> w[j'].0 != w[j].0)
      ensures Apply(acc, w)[w[j].0] == w[j].1
    {
      ApplyLastAt(acc, w, j);
    }
    ApplyUntouched(acc, w);
  }

  lemma {:induction false} ApplyKeys(acc: map<string, string>, w: seq<(string, string)>)
    ensures forall k :: k in Apply(acc, w) <==> (k in acc || exists j :: 0 <= j < |w| && w[j].0 == k)
    decreases |w|
  {
    if w != [] {
      var acc', rest := acc[w[0].0 := w[0].1], w[1..];
      ApplyKeys(acc', rest);
      assert Apply(acc, w) == Apply(acc', rest);
      forall k
        ensures k in Apply(acc, w) <==> (k in acc || exists j :: 0 <= j < |w| && w[j].0 == k)
      {
        if exists j :: 0 <= j < |w| && w[j].0 == k {
          var j :| 0 <= j < |w| && w[j].0 == k;
          if j > 0 { assert rest[j - 1].0 == k; }
        }
        if exists j :: 0 <= j < |rest| && rest[j].0 == k {
          var j :| 0 <= j < |rest| && rest[j].0 == k;
          assert w[j + 1].0 == k;
        }
      }
    }
  }

  lemma {:induction false} ApplySources(acc: map<string, string>, w: seq<(string, string)>)
    ensures forall k :: k in Apply(acc, w) ==>
              (k in acc && Apply(acc, w)[k] == acc[k]) || (k, Apply(acc, w)[k]) in w
    decreases |w|
  {
    if w != [] {
      var acc', rest := acc[w[0].0 := w[0].1], w[1..];
      ApplySources(acc', rest);
      assert Apply(acc, w) == Apply(acc', rest);
      forall k | k in Apply(acc, w)
        ensures (k in acc && Apply(acc, w)[k] == acc[k]) || (k, Apply(acc, w)[k]) in w
      {
        if (k, Apply(acc, w)[k]) in rest {
          var j :| 0 <= j < |rest| && rest[j] == (k, Apply(acc, w)[k]);
          assert w[j + 1] == rest[j];
        } else if k == w[0].0 {
          assert w[0] == (k, Apply(acc, w)[k]);
        }
      }
    }
  }

  /** The last write to a key decides its value. */
  lemma {:induction false} ApplyLastAt(acc: map<string, string>, w: seq<(string, string)>, j: nat)
    requires j < |w| && forall j' :: j < j' < |w| ==> w[j'].0 != w[j].0
    ensures w[j].0 in Apply(acc, w) && Apply(acc, w)[w[j].0] == w[j].1
    decreases |w|
  {
    var acc', rest := acc[w[0].0 := w[0].1], w[1..];
    assert Apply(acc, w) == Apply(acc', rest);
    assert forall i :: 0 <= i < |rest| ==> rest[i] == w[i + 1];
    if j == 0 {
      ApplyUntouched(acc', rest);
    } else {
      ApplyLastAt(acc', rest, j - 1);
    }
  }

  lemma {:induction false} ApplyUntouched(acc: map<string, string>, w: seq<(string, string)>)
    ensures forall k :: k in acc && (forall j :: 0 <= j < |w| ==> w[j].0 != k) ==>
              k in Apply(acc, w) && Apply(acc, w)[k] == acc[k]
    decreases |w|
  {
    if w != [] {
      var acc', rest := acc[w[0].0 := w[0].1], w[1..];
      ApplyUntouched(acc', rest);
      assert Apply(acc, w) == Apply(acc', rest);
      forall k | k in acc && (forall j :: 0 <= j < |w| ==> w[j].0 != k)
        ensures k in Apply(acc, w) && Apply(acc, w)[k] == acc[k]
      {
        assert w[0].0 != k;
        assert forall j :: 0 <= j < |rest| ==> rest[j] == w[j + 1];
      }
    }
  }

  /** The imperative walk is the same as writing the depth-first leaf list in order. */
  lemma {:induction false} FlattenIsApply(data: Node, i: nat, acc: map<string, string>, prefix: Option<string>)
    requires data.Obj? && i <= |data.props|
    ensures FlattenFrom(data, i, acc, prefix) == Apply(acc, Leaves(data, i, prefix))
    decreases data, |data.props| - i
  {
    if i < |data.props| {
      var name := Qualify(prefix, data.props[i].0);
      var child := data.props[i].1;
      var here := match child
        case Str(s) => [(name, s)]
        case Obj(_) => Leaves(child, 0, Some(name))
        case Other => [];
      var acc' := match child
        case Str(s) => acc[name := s]
        case Obj(_) => FlattenFrom(child, 0, acc, Some(name))
        case Other => acc;
      if child.Obj? {
        FlattenIsApply(child, 0, acc, Some(name));
      } else if child.Str? {
        assert Apply(acc, here) == acc';
      }
      assert acc' == Apply(acc, here);
      FlattenIsApply(data, i + 1, acc', prefix);
      ApplyConcat(acc, here, Leaves(data, i + 1, prefix));
    }
  }

  /** `path` leads from object `data`, through properties at index `from` or
      later at the top level, to a string leaf holding `v`. */
  ghost predicate LeafFrom(data: Node, from: nat, path: seq<string>, v: string)
    decreases |path|, 1
  {
    && data.Obj?
    && |path| > 0
    && exists k :: from <= k < |data.props| && data.props[k].0 == path[0] && LeafStep(data.props[k].1, path, v)
  }

  /** The rest of `path` leads from `child` to the leaf `v`. */
  ghost predicate LeafStep(child: Node, path: seq<string>, v: string)
    requires |path| > 0
    decreases |path|, 0
  {
    if |path| == 1 then child == Str(v) else LeafFrom(child, 0, path[1..], v)
  }

  /** The dotted key a path is written under. */
  function DottedKey(prefix: Option<string>, path: seq<string>): string {
    Qualify(prefix, Join(path, "."))
  }

  lemma DottedKeyStep(prefix: Option<string>, name: string, rest: seq<string>)
    requires |rest| > 0
    ensures DottedKey(Some(Qualify(prefix, name)), rest) == DottedKey(prefix, [name] + rest)
  {
    JoinCons(name, rest, ".");
  }

  /** Every leaf entry is the dotted path to a string leaf, with that leaf's value. */
  lemma {:induction false} LeavesSound(data: Node, i: nat, prefix: Option<string>)
    requires data.Obj? && i <= |data.props|
    ensures forall e :: e in Leaves(data, i, prefix) ==>
              exists path :: LeafFrom(data, i, path, e.1) && e.0 == DottedKey(prefix, path)
    decreases data, |data.props| - i
  {
    if i < |data.props| {
      var name0 := data.props[i].0;
      var name := Qualify(prefix, name0);
      var child := data.props[i].1;
      LeavesSound(data, i + 1, prefix);
      if child.Obj? {
        LeavesSound(child, 0, Some(name));
      }
      forall e | e in Leaves(data, i, prefix)
        ensures exists path :: LeafFrom(data, i, path, e.1) && e.0 == DottedKey(prefix, path)
      {
        var tail := Leaves(data, i + 1, prefix);
        if e in tail {
          var path :| LeafFrom(data, i + 1, path, e.1) && e.0 == DottedKey(prefix, path);
          var k :| i + 1 <= k < |data.props| && data.props[k].0 == path[0] && LeafStep(data.props[k].1, path, e.1);
          assert LeafFrom(data, i, path, e.1);
        } else if child.Str? {
          assert e == (name, child.s);
          assert LeafStep(child, [name0], e.1);
          assert LeafFrom(data, i, [name0], e.1);
          assert e.0 == DottedKey(prefix, [name0]);
        } else {
          assert child.Obj? && e in Leaves(child, 0, Some(name));
          var p :| LeafFrom(child, 0, p, e.1) && e.0 == DottedKey(Some(name), p);
          var path := [name0] + p;
          assert path[1..] == p;
          assert LeafStep(child, path, e.1);
          assert LeafFrom(data, i, path, e.1);
          DottedKeyStep(prefix, name0, p);
        }
      }
    }
  }

  /** Every path to a string leaf shows up as a leaf entry under its dotted key. */
  lemma {:induction false} LeavesComplete(data: Node, i: nat, prefix: Option<string>, path: seq<string>, v: string)
    requires data.Obj? && i <= |data.props|
    requires LeafFrom(data, i, path, v)
    ensures (DottedKey(prefix, path), v) in Leaves(data, i, prefix)
    decreases data, |data.props| - i
  {
    var k :| i <= k < |data.props| && data.props[k].0 == path[0] && LeafStep(data.props[k].1, path, v);
    var name := Qualify(prefix, data.props[i].0);
    var child := data.props[i].1;
    if k > i {
      assert LeafFrom(data, i + 1, path, v);
      LeavesComplete(data, i + 1, prefix, path, v);
      LeavesLater(data, i, prefix, (DottedKey(prefix, path), v));
    } else if |path| == 1 {
      assert path == [path[0]];
      LeavesFirst(data, i, prefix, (DottedKey(prefix, path), v));
    } else {
      assert LeafFrom(child, 0, path[1..], v);
      LeavesComplete(child, 0, Some(name), path[1..], v);
      DottedKeyStep(prefix, path[0], path[1..]);
      assert [path[0]] + path[1..] == path;
      LeavesFirst(data, i, prefix, (DottedKey(prefix, path), v));
    }
  }

  /** The leaves after property `i` are among the leaves from `i` on. */
  lemma LeavesLater(data: Node, i: nat, prefix: Option<string>, x: (string, string))
    requires data.Obj? && i < |data.props| && x in Leaves(data, i + 1, prefix)
    ensures x in Leaves(data, i, prefix)
  {
  }

  /** The leaves of property `i` itself are among the leaves from `i` on. */
  lemma LeavesFirst(data: Node, i: nat, prefix: Option<string>, x: (string, string))
    requires data.Obj? && i < |data.props|
    requires var name := Qualify(prefix, data.props[i].0);
             var child := data.props[i].1;
             (child.Str? && x == (name, child.s)) || (child.Obj? && x in Leaves(child, 0, Some(name)))
    ensures x in Leaves(data, i, prefix)
  {
  }

  /** Every dotted path to a string leaf is a key of the flattened document. */
  lemma FlattenComplete(doc: Node)
    requires doc.Obj?
    ensures forall path, v :: LeafFrom(doc, 0, path, v) ==> Join(path, ".") in Flatten(doc)
  {
    var leaves := Leaves(doc, 0, None);
    FlattenIsApply(doc, 0, map[], None);
    forall path, v | LeafFrom(doc, 0, path, v)
      ensures Join(path, ".") in Flatten(doc)
    {
      LeavesComplete(doc, 0, None, path, v);
      var j :| 0 <= j < |leaves| && leaves[j] == (DottedKey(None, path), v);
      ApplyLastWins(map[], leaves);
    }
  }

  /** Key `k` of `entries` is the dotted path to a string leaf of `doc` holding `entries[k]`. */
  ghost predicate KeyFromLeaf(doc: Node, entries: map<string, string>, k: string)
    requires k in entries
  {
    exists path :: LeafFrom(doc, 0, path, entries[k]) && k == Join(path, ".")
  }

  /** Every key of a flattened document is the dotted path to a string leaf
      holding the key's value; nothing else is written. Which of several
      colliding leaves supplies the value is settled by `FlattenIsApply`
      with `ApplyLastWins`: the last one in document order. */
  lemma FlattenSound(doc: Node)
    requires doc.Obj?
    ensures forall k :: k in Flatten(doc) ==> KeyFromLeaf(doc, Flatten(doc), k)
  {
    var leaves := Leaves(doc, 0, None);
    var flat := Flatten(doc);
    FlattenIsApply(doc, 0, map[], None);
    LeavesSound(doc, 0, None);
    ApplyLastWins(map[], leaves);
    forall k | k in flat
      ensures KeyFromLeaf(doc, flat, k)
    {
      var e := (k, flat[k]);
      assert e in leaves;
      var path :| LeafFrom(doc, 0, path, e.1) && e.0 == DottedKey(None, path);
      assert LeafFrom(doc, 0, path, flat[k]) && k == Join(path, ".");
    }
  }
}

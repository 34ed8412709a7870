/** The build-time fallback-order resolver: from the configured root locale
    and a possibly cyclic `locale -> default locale` configuration it builds
    the processing order `LangOrder` and a total defaults map in which every
    locale but the root falls back to a locale placed strictly earlier. */
module Resolver {
  import opened Wrappers
  import opened Seqs
  import opened OrderedDict

  /** `Config.default_locale ?? "en"`. */
  function RootLocale(configured: Option<string>): (root: string)
    ensures configured.Some? ==> root == configured.value
    ensures configured.None? ==> root == "en"
  {
    configured.GetOr("en")
  }

  // ---------------------------------------------------------------------
  // What the resolution means, independently of the order in which equally
  // ready locales are picked.

  /** Following configured defaults from `v` for at most `n` steps reaches the
      root or a locale that has no configured default. */
  ghost predicate GroundedIn(cfg: map<string, string>, root: string, v: string, n: nat)
    decreases n
  {
    v == root || v !in cfg || (n > 0 && GroundedIn(cfg, root, cfg[v], n - 1))
  }

  /** The configured chain from `v` does not run into a cycle. */
  ghost predicate Grounded(cfg: map<string, string>, root: string, v: string) {
    exists n: nat :: GroundedIn(cfg, root, v, n)
  }

  /** The resolved default of `x`: none for the root; the configured default
      when `x` has one and is either nobody's default or grounded; the root
      otherwise (cycle members, locales whose chain runs into a cycle,
      defaults that have no default of their own, and file-only locales). */
  ghost function ExpectedDefault(cfg: map<string, string>, root: string, x: string): Option<string> {
    if x == root then None
    else if x in cfg && (x !in cfg.Values || Grounded(cfg, root, x)) then Some(cfg[x])
    else Some(root)
  }

  /** Inside a configured cycle that avoids the root, no chain is grounded. */
  lemma {:induction false} CycleNeverGrounded(cfg: map<string, string>, root: string, a: string, b: string, n: nat)
    requires a != root && b != root && a in cfg && b in cfg && cfg[a] == b && cfg[b] == a
    ensures !GroundedIn(cfg, root, a, n) && !GroundedIn(cfg, root, b, n)
    decreases n
  {
    if n > 0 {
      CycleNeverGrounded(cfg, root, a, b, n - 1);
    }
  }

  /** Two non-root locales naming each other (`a -> b -> a`, or a self-loop
      when `a == b`) both fall back to the root. */
  lemma TwoCycleFallsToRoot(cfg: map<string, string>, root: string, a: string, b: string)
    requires a != root && b != root && a in cfg && b in cfg && cfg[a] == b && cfg[b] == a
    ensures ExpectedDefault(cfg, root, a) == Some(root)
    ensures ExpectedDefault(cfg, root, b) == Some(root)
  {
    forall n: nat ensures !GroundedIn(cfg, root, a, n) && !GroundedIn(cfg, root, b, n) {
      CycleNeverGrounded(cfg, root, a, b, n);
    }
    assert cfg[b] in cfg.Values && cfg[a] in cfg.Values;
  }

  /** A configured default that has no default of its own is kept, and is
      itself given the root. */
  lemma EdgeToLeafKept(cfg: map<string, string>, root: string, a: string)
    requires a != root && a in cfg && cfg[a] != root && cfg[a] !in cfg
    ensures ExpectedDefault(cfg, root, a) == Some(cfg[a])
    ensures ExpectedDefault(cfg, root, cfg[a]) == Some(root)
  {
    assert GroundedIn(cfg, root, a, 1);
  }

  /** `dflt` is scheduled strictly before position `j` of `order`. */
  ghost predicate EarlierThan(order: seq<string>, j: nat, dflt: string) {
    dflt in order && forall i :: j <= i < |order| ==> order[i] != dflt
  }

  /** The shape every later stage relies on: the root first, no repeats, the
      defaults defined on exactly the ordered locales, and every locale but
      the root falling back to a strictly earlier one. */
  ghost predicate WellResolved(root: string, order: seq<string>, defaults: map<string, Option<string>>) {
    && |order| > 0 && order[0] == root && NoDup(order)
    && defaults.Keys == Elems(order)
    && defaults[root] == None
    && forall j {:trigger defaults[order[j]]} :: 1 <= j < |order| ==> defaults[order[j]].Some? && EarlierThan(order, j, defaults[order[j]].value)
  }

  /** The default of a non-root locale sits at a smaller index. */
  lemma DefaultIndexSmaller(root: string, order: seq<string>, defaults: map<string, Option<string>>, j: nat)
    requires WellResolved(root, order, defaults) && 1 <= j < |order|
    ensures IndexOf(order, defaults[order[j]].value) < j
  {
  }

  // ---------------------------------------------------------------------
  // The passes.

  /** The pass-1 readiness test: `v` is not scheduled, is not the root, and
      either has no default or its default is already scheduled. */
  predicate Ready(d: Dict, order: seq<string>, root: string, v: string) {
    v !in order && v != root && (v !in d.m || d.m[v] in order)
  }

  /** `DefaultsDict.Values.FirstOrDefault(Ready)`, scanning from the `i`-th key. */
  function FirstReady(d: Dict, order: seq<string>, root: string, i: nat): (r: Option<string>)
    requires Valid(d) && i <= |d.keys|
    ensures r.Some? ==> Ready(d, order, root, r.value) && r.value in d.m.Values
    ensures r.None? ==> forall j :: i <= j < |d.keys| ==> !Ready(d, order, root, d.m[d.keys[j]])
    ensures r.Some? ==> exists j ::
              && i <= j < |d.keys| && r.value == d.m[d.keys[j]]
              && forall j' :: i <= j' < j ==> !Ready(d, order, root, d.m[d.keys[j']])
    decreases |d.keys| - i
  {
    if i == |d.keys| then None
    else if Ready(d, order, root, d.m[d.keys[i]]) then Some(d.m[d.keys[i]])
    else FirstReady(d, order, root, i + 1)
  }

  /** `DefaultsDict.Keys.FirstOrDefault(...)` of pass 3, scanning from the `i`-th key. */
  function FirstUnscheduledKey(d: Dict, order: seq<string>, root: string, i: nat): (r: Option<string>)
    requires Valid(d) && i <= |d.keys|
    ensures r.Some? ==> r.value in d.m && r.value !in order && r.value != root
    ensures r.None? ==> forall j :: i <= j < |d.keys| ==> d.keys[j] in order || d.keys[j] == root
    ensures r.Some? ==> exists j ::
              && i <= j < |d.keys| && r.value == d.keys[j]
              && forall j' :: i <= j' < j ==> d.keys[j'] in order || d.keys[j'] == root
    decreases |d.keys| - i
  {
    if i == |d.keys| then None
    else if d.keys[i] !in order && d.keys[i] != root then Some(d.keys[i])
    else FirstUnscheduledKey(d, order, root, i + 1)
  }

  /** The pass-2 snapshot `Values.Where(unscheduled, not root).Distinct()`,
      extending `acc`. */
  function DistinctPending(vals: seq<string>, order: seq<string>, root: string, acc: seq<string>): (r: seq<string>)
    requires NoDup(acc) && forall x :: x in acc ==> x !in order && x != root
    ensures NoDup(r) && acc <= r
    ensures forall x :: x in r ==> x !in order && x != root
    ensures forall x :: x in r <==> x in acc || (x in vals && x !in order && x != root)
    ensures FirstSeenOrder(vals, acc, r)
  {
    if vals == [] then acc
    else
      var v := vals[0];
      var acc' := if v !in order && v != root && v !in acc then acc + [v] else acc;
      var r := DistinctPending(vals[1..], order, root, acc');
      PendingOrderStep(vals, order, root, acc, acc', r);
      r
  }

  /** What `r` adds after `acc` comes from `vals`, in the order of first
      occurrence there. */
  ghost predicate FirstSeenOrder(vals: seq<string>, acc: seq<string>, r: seq<string>) {
    forall a, b :: |acc| <= a < b < |r| ==>
      r[a] in vals && r[b] in vals && IndexOf(vals, r[a]) < IndexOf(vals, r[b])
  }

  lemma PendingOrderStep(vals: seq<string>, order: seq<string>, root: string,
                         acc: seq<string>, acc': seq<string>, r: seq<string>)
    requires |vals| > 0
    requires acc' == if vals[0] !in order && vals[0] != root && vals[0] !in acc then acc + [vals[0]] else acc
    requires NoDup(r) && acc' <= r
    requires forall x :: x in r ==> x !in order && x != root
    requires forall x :: x in r <==> x in acc' || (x in vals[1..] && x !in order && x != root)
    requires FirstSeenOrder(vals[1..], acc', r)
    ensures FirstSeenOrder(vals, acc, r)
  {
    forall a, b | |acc| <= a < b < |r|
      ensures r[a] in vals && r[b] in vals && IndexOf(vals, r[a]) < IndexOf(vals, r[b])
    {
      PendingOrderPair(vals, order, root, acc, acc', r, a, b);
    }
  }

  /** `PendingOrderStep` for one pair of positions. */
  lemma PendingOrderPair(vals: seq<string>, order: seq<string>, root: string,
                         acc: seq<string>, acc': seq<string>, r: seq<string>, a: nat, b: nat)
    requires |vals| > 0
    requires acc' == if vals[0] !in order && vals[0] != root && vals[0] !in acc then acc + [vals[0]] else acc
    requires NoDup(r) && acc' <= r && |acc| <= a < b < |r|
    requires forall x :: x in r ==> x !in order && x != root
    requires forall x :: x in r <==> x in acc' || (x in vals[1..] && x !in order && x != root)
    requires FirstSeenOrder(vals[1..], acc', r)
    ensures r[a] in vals && r[b] in vals && IndexOf(vals, r[a]) < IndexOf(vals, r[b])
  {
    LaterNotFirst(vals, order, root, acc, acc', r, b);
    if a < |acc'| {
      assert a == |acc| && acc' == acc + [vals[0]];
      assert r[a] == acc'[a] == vals[0];
    } else {
      LaterNotFirst(vals, order, root, acc, acc', r, a);
      assert IndexOf(vals[1..], r[a]) < IndexOf(vals[1..], r[b]);
    }
  }

  /** An element placed after `acc'` is not `vals[0]`, and its first
      occurrence in `vals` is one past its first occurrence in `vals[1..]`. */
  lemma LaterNotFirst(vals: seq<string>, order: seq<string>, root: string,
                      acc: seq<string>, acc': seq<string>, r: seq<string>, b: nat)
    requires |vals| > 0
    requires acc' == if vals[0] !in order && vals[0] != root && vals[0] !in acc then acc + [vals[0]] else acc
    requires NoDup(r) && acc' <= r && |acc'| <= b < |r|
    requires forall x :: x in r ==> x !in order && x != root
    requires forall x :: x in r <==> x in acc' || (x in vals[1..] && x !in order && x != root)
    ensures r[b] != vals[0] && r[b] in vals[1..] && r[b] in vals
    ensures IndexOf(vals, r[b]) == 1 + IndexOf(vals[1..], r[b])
  {
    var x := r[b];
    PastPrefix(acc', r, b);
    assert x in r;
    assert x in vals[1..];
    IndexOfTail(vals, x);
  }

  /** An element of `r` past its prefix `p` is not in `p`, when `r` has no repeats. */
  lemma PastPrefix(p: seq<string>, r: seq<string>, b: nat)
    requires NoDup(r) && p <= r && |p| <= b < |r|
    ensures r[b] !in p
  {
    forall i | 0 <= i < |p| ensures p[i] != r[b] {
      assert p[i] == r[i];
    }
  }

  /** The first occurrence of a value other than the head is one past its
      first occurrence in the tail. */
  lemma IndexOfTail(vals: seq<string>, x: string)
    requires |vals| > 0 && x != vals[0] && x in vals[1..]
    ensures x in vals && IndexOf(vals, x) == 1 + IndexOf(vals[1..], x)
  {
    assert vals == [vals[0]] + vals[1..];
  }

  /** The working dictionary during the passes: it holds every configured
      locale, configured locales not yet scheduled keep their configured
      default, anything else in it is already scheduled, and every default
      in it is the root or a configured default. */
  ghost predicate DictState(cfg: map<string, string>, root: string, order: seq<string>, d: Dict) {
    && Valid(d)
    && (forall k :: k in cfg ==> k in d.m)
    && (forall k :: k in cfg && k !in order ==> d.m[k] == cfg[k])
    && (forall k :: k in d.m && k !in cfg ==> k in order)
    && (forall k :: k in d.m ==> d.m[k] == root || d.m[k] in cfg.Values)
  }

  /** The schedule during the passes: root first, no repeats, and every
      scheduled locale is configured and has its expected default, placed
      strictly earlier. */
  ghost predicate OrderState(cfg: map<string, string>, root: string, order: seq<string>, d: Dict) {
    && |order| > 0 && order[0] == root && NoDup(order)
    && (forall j :: 1 <= j < |order| ==> order[j] in cfg || order[j] in cfg.Values)
    && (forall j :: 1 <= j < |order| ==> order[j] in d.m && EarlierThan(order, j, d.m[order[j]]))
    && (forall j :: 1 <= j < |order| ==> Some(d.m[order[j]]) == ExpectedDefault(cfg, root, order[j]))
  }

  ghost predicate PassState(cfg: map<string, string>, root: string, order: seq<string>, d: Dict) {
    DictState(cfg, root, order, d) && OrderState(cfg, root, order, d)
  }

  /** Scheduling `v` with default `d'.m[v]`, an already scheduled locale that
      is the one expected, keeps the pass invariant. */
  lemma AppendKeepsState(cfg: map<string, string>, root: string, order: seq<string>, d: Dict, d': Dict, v: string)
    requires PassState(cfg, root, order, d)
    requires v !in order && v != root && (v in cfg || v in cfg.Values)
    requires Valid(d') && d'.m.Keys == d.m.Keys + {v}
    requires forall k :: k in d.m && k != v ==> d'.m[k] == d.m[k]
    requires v in cfg ==> d'.m[v] == cfg[v] || v in cfg.Values
    requires d'.m[v] == root || d'.m[v] in cfg.Values
    requires d'.m[v] in order
    requires Some(d'.m[v]) == ExpectedDefault(cfg, root, v)
    ensures PassState(cfg, root, order + [v], d')
  {
    AppendKeepsDict(cfg, root, order, d, d', v);
    AppendKeepsOrder(cfg, root, order, d, d', v);
  }

  lemma AppendKeepsDict(cfg: map<string, string>, root: string, order: seq<string>, d: Dict, d': Dict, v: string)
    requires DictState(cfg, root, order, d)
    requires v !in order
    requires Valid(d') && d'.m.Keys == d.m.Keys + {v}
    requires forall k :: k in d.m && k != v ==> d'.m[k] == d.m[k]
    requires d'.m[v] == root || d'.m[v] in cfg.Values
    ensures DictState(cfg, root, order + [v], d')
  {
  }

  lemma AppendKeepsOrder(cfg: map<string, string>, root: string, order: seq<string>, d: Dict, d': Dict, v: string)
    requires OrderState(cfg, root, order, d)
    requires v !in order && v != root && (v in cfg || v in cfg.Values)
    requires d'.m.Keys == d.m.Keys + {v}
    requires forall k :: k in d.m && k != v ==> d'.m[k] == d.m[k]
    requires d'.m[v] in order
    requires Some(d'.m[v]) == ExpectedDefault(cfg, root, v)
    ensures OrderState(cfg, root, order + [v], d')
  {
    var order' := order + [v];
    forall j | 1 <= j < |order'|
      ensures order'[j] in d'.m && EarlierThan(order', j, d'.m[order'[j]])
      ensures Some(d'.m[order'[j]]) == ExpectedDefault(cfg, root, order'[j])
    {
      if j < |order| {
        assert order'[j] == order[j] != v;
      }
    }
  }

  /** A set of non-root configured locales closed under "configured default"
      holds nothing grounded: its members sit on or lead into cycles. */
  lemma {:induction false} StuckAt(cfg: map<string, string>, root: string, stuck: set<string>, w: string, n: nat)
    requires forall x :: x in stuck ==> x != root && x in cfg && cfg[x] in stuck
    requires w in stuck
    ensures !GroundedIn(cfg, root, w, n)
    decreases n
  {
    if n > 0 {
      StuckAt(cfg, root, stuck, cfg[w], n - 1);
    }
  }

  lemma StuckNeverGrounded(cfg: map<string, string>, root: string, stuck: set<string>)
    requires forall x :: x in stuck ==> x != root && x in cfg && cfg[x] in stuck
    ensures forall x :: x in stuck ==> !Grounded(cfg, root, x)
  {
    forall x, n: nat | x in stuck
      ensures !GroundedIn(cfg, root, x, n)
    {
      StuckAt(cfg, root, stuck, x, n);
    }
  }

  /** The step of pass 1: `v` is scheduled, and given the root as default
      when it has none. */
  function Pass1Dict(d: Dict, root: string, v: string): (d': Dict)
    requires Valid(d)
    ensures Valid(d')
  {
    if v in d.m then d else Put(d, v, root)
  }

  /** What pass 1 keeps true: the configured defaults are untouched and every
      scheduled locale is a grounded configured default. */
  ghost predicate Pass1State(cfg: map<string, string>, root: string, order: seq<string>, d: Dict) {
    && PassState(cfg, root, order, d)
    && (forall k :: k in cfg ==> d.m[k] == cfg[k])
    && (forall j :: 1 <= j < |order| ==> order[j] in cfg.Values && Grounded(cfg, root, order[j]))
  }

  lemma Pass1Step(cfg: map<string, string>, root: string, order: seq<string>, d: Dict, v: string)
    requires Pass1State(cfg, root, order, d)
    requires Ready(d, order, root, v) && v in d.m.Values
    ensures Pass1State(cfg, root, order + [v], Pass1Dict(d, root, v))
  {
    var d' := Pass1Dict(d, root, v);
    assert v in cfg.Values;
    assert v in d.m <==> v in cfg;
    if v in cfg {
      assert d.m[v] == cfg[v] && cfg[v] in order;
      if cfg[v] == root {
        assert GroundedIn(cfg, root, v, 1);
      } else {
        var i :| 0 <= i < |order| && order[i] == cfg[v];
        var n: nat :| GroundedIn(cfg, root, order[i], n);
        assert GroundedIn(cfg, root, v, n + 1);
      }
    } else {
      assert GroundedIn(cfg, root, v, 0);
    }
    AppendKeepsState(cfg, root, order, d, d', v);
    var order' := order + [v];
    forall j | 1 <= j < |order'|
      ensures order'[j] in cfg.Values && Grounded(cfg, root, order'[j])
    {
      if j < |order| {
        assert order'[j] == order[j];
      }
    }
  }

  lemma Pass1Init(cfg: map<string, string>, root: string, config: Dict)
    requires Valid(config) && config.m == cfg
    ensures Pass1State(cfg, root, [root], config)
  {
  }

  /** Scheduling a new locale shrinks the set of locales still to schedule. */
  lemma AppendShrinks(universe: set<string>, order: seq<string>, v: string)
    requires v in universe && v !in order
    ensures universe - Elems(order + [v]) < universe - Elems(order)
  {
    assert Elems(order + [v]) == Elems(order) + {v};
  }

  /** When no configured default is ready, the unscheduled ones are exactly the ungrounded ones. */
  lemma Pass1Exit(cfg: map<string, string>, root: string, order: seq<string>, d: Dict)
    requires Valid(d) && forall k :: k in cfg ==> k in d.m && d.m[k] == cfg[k]
    requires forall k :: k in d.m && k !in cfg ==> k in order
    requires forall j :: 1 <= j < |order| ==> Grounded(cfg, root, order[j])
    requires |order| > 0 && order[0] == root
    requires FirstReady(d, order, root, 0).None?
    ensures forall v :: v in cfg.Values && v != root ==> (v in order <==> Grounded(cfg, root, v))
  {
    var stuck := set w | w in cfg.Values && w !in order && w != root;
    StuckClosed(cfg, root, order, d, stuck);
    StuckNeverGrounded(cfg, root, stuck);
    forall v | v in cfg.Values && v != root
      ensures v in order <==> Grounded(cfg, root, v)
    {
      if v in order {
        var j :| 0 <= j < |order| && order[j] == v;
        assert j != 0 && Grounded(cfg, root, order[j]);
      } else {
        assert v in stuck;
        assert !Grounded(cfg, root, v);
      }
    }
  }

  /** With nothing ready, every unscheduled configured default has an
      unscheduled configured default of its own. */
  lemma StuckClosed(cfg: map<string, string>, root: string, order: seq<string>, d: Dict, stuck: set<string>)
    requires Valid(d) && forall k :: k in cfg ==> k in d.m && d.m[k] == cfg[k]
    requires forall k :: k in d.m && k !in cfg ==> k in order
    requires root in order && FirstReady(d, order, root, 0).None?
    requires stuck == set w | w in cfg.Values && w !in order && w != root
    ensures forall w :: w in stuck ==> w != root && w in cfg && cfg[w] in stuck
  {
    forall w | w in stuck
      ensures w in cfg && cfg[w] in stuck
    {
      var k :| k in cfg && cfg[k] == w;
      var j :| 0 <= j < |d.keys| && d.keys[j] == k;
      assert !Ready(d, order, root, d.m[d.keys[j]]);
    }
  }

  /** Pass 1 (Compile/Program.cs:177-199): repeatedly schedule the first
      configured default that is ready, giving it the root as default when it
      has none of its own. Afterwards exactly the grounded defaults are
      scheduled, and no configured default has been changed. */
  method SchedulePass1(cfg: map<string, string>, root: string, config: Dict) returns (order: seq<string>, d: Dict)
    requires Valid(config) && config.m == cfg
    ensures PassState(cfg, root, order, d)
    ensures forall k :: k in cfg ==> d.m[k] == cfg[k]
    ensures forall j :: 1 <= j < |order| ==> order[j] in cfg.Values && Grounded(cfg, root, order[j])
    ensures forall v :: v in cfg.Values && v != root ==> (v in order <==> Grounded(cfg, root, v))
  {
    order, d := [root], config;
    Pass1Init(cfg, root, config);
    var next := FirstReady(d, order, root, 0);
    while next.Some?
      invariant Pass1State(cfg, root, order, d)
      invariant next == FirstReady(d, order, root, 0)
      decreases (cfg.Values + {root}) - Elems(order)
    {
      var v := next.value;
      Pass1Step(cfg, root, order, d, v);
      AppendShrinks(cfg.Values + {root}, order, v);
      d := Pass1Dict(d, root, v);
      order := order + [v];
      next := FirstReady(d, order, root, 0);
    }
    Pass1Exit(cfg, root, order, d);
  }

  /** The step of pass 2: an ungrounded configured default is redirected to the root and scheduled. */
  lemma Pass2Step(cfg: map<string, string>, root: string, order: seq<string>, d: Dict, lang: string)
    requires PassState(cfg, root, order, d)
    requires lang !in order && lang != root && lang in cfg.Values && !Grounded(cfg, root, lang)
    ensures PassState(cfg, root, order + [lang], Put(d, lang, root))
  {
    AppendKeepsState(cfg, root, order, d, Put(d, lang, root), lang);
  }

  /** The snapshot pass 2 works through holds only ungrounded configured
      defaults. */
  lemma PendingUngrounded(cfg: map<string, string>, root: string, order: seq<string>, d: Dict,
                          vals: seq<string>, pending: seq<string>)
    requires DictState(cfg, root, order, d)
    requires forall v :: v in cfg.Values && v != root ==> (v in order <==> Grounded(cfg, root, v))
    requires vals == ValuesOf(d.keys, d.m)
    requires forall x :: x in pending ==> x in vals && x !in order && x != root
    ensures forall x :: x in pending ==> x in cfg.Values && !Grounded(cfg, root, x)
  {
    forall x | x in pending
      ensures x in cfg.Values && !Grounded(cfg, root, x)
    {
      var i :| 0 <= i < |vals| && vals[i] == x;
      var k := d.keys[i];
      assert k in d.m && d.m[k] == x;
    }
  }

  /** The snapshot pass 2 works through holds every unscheduled configured
      default other than the root. */
  lemma PendingComplete(cfg: map<string, string>, root: string, order: seq<string>, d: Dict,
                        vals: seq<string>, pending: seq<string>)
    requires Valid(d) && forall k :: k in cfg ==> k in d.m && d.m[k] == cfg[k]
    requires vals == ValuesOf(d.keys, d.m)
    requires forall x :: x in vals && x !in order && x != root ==> x in pending
    ensures forall v :: v in cfg.Values && v != root && v !in order ==> v in pending
  {
    forall v | v in cfg.Values && v != root && v !in order
      ensures v in pending
    {
      var k :| k in cfg && cfg[k] == v;
      var i :| 0 <= i < |d.keys| && d.keys[i] == k;
      assert vals[i] == v;
    }
  }

  /** What pass 2 keeps true after redirecting the first `t` snapshot entries. */
  ghost predicate Pass2State(cfg: map<string, string>, root: string, order0: seq<string>, pending: seq<string>,
                             t: nat, order: seq<string>, d: Dict) {
    && t <= |pending|
    && PassState(cfg, root, order, d)
    && order == order0 + pending[..t]
    && (forall j :: |order0| <= j < |order| ==> order[j] in d.m && d.m[order[j]] == root)
  }

  /** The next snapshot entry is not yet scheduled. */
  lemma NextPendingFresh(order0: seq<string>, pending: seq<string>, t: nat)
    requires t < |pending| && NoDup(pending) && forall x :: x in pending ==> x !in order0
    ensures pending[t] !in order0 + pending[..t]
    ensures order0 + pending[..t + 1] == (order0 + pending[..t]) + [pending[t]]
  {
    assert pending[..t + 1] == pending[..t] + [pending[t]];
  }

  /** Redirecting a fresh locale keeps earlier redirections pointing at the root. */
  lemma RedirectKeepsRoot(order0: seq<string>, order: seq<string>, d: Dict, lang: string, root: string)
    requires Valid(d) && lang !in order
    requires forall j :: |order0| <= j < |order| ==> order[j] in d.m && d.m[order[j]] == root
    ensures forall j :: |order0| <= j < |order| + 1 ==>
              (order + [lang])[j] in Put(d, lang, root).m && Put(d, lang, root).m[(order + [lang])[j]] == root
  {
    var order', d' := order + [lang], Put(d, lang, root);
    forall j | |order0| <= j < |order'|
      ensures order'[j] in d'.m && d'.m[order'[j]] == root
    {
      if j < |order| {
        assert order'[j] == order[j] && order[j] != lang;
      }
    }
  }

  lemma Pass2Loop(cfg: map<string, string>, root: string, order0: seq<string>, pending: seq<string>,
                  t: nat, order: seq<string>, d: Dict)
    requires Pass2State(cfg, root, order0, pending, t, order, d) && t < |pending|
    requires NoDup(pending) && forall x :: x in pending ==> x !in order0 && x != root
    requires forall x :: x in pending ==> x in cfg.Values && !Grounded(cfg, root, x)
    ensures Pass2State(cfg, root, order0, pending, t + 1, order + [pending[t]], Put(d, pending[t], root))
  {
    var lang := pending[t];
    NextPendingFresh(order0, pending, t);
    Pass2Step(cfg, root, order, d, lang);
    RedirectKeepsRoot(order0, order, d, lang, root);
  }

  /** Pass 2 (Compile/Program.cs:201-213): every configured default still
      unscheduled is redirected to the root and scheduled, which breaks every
      cycle. */
  method RedirectPass2(cfg: map<string, string>, root: string, order0: seq<string>, d0: Dict)
    returns (order: seq<string>, d: Dict)
    requires PassState(cfg, root, order0, d0)
    requires forall k :: k in cfg ==> d0.m[k] == cfg[k]
    requires forall v :: v in cfg.Values && v != root ==> (v in order0 <==> Grounded(cfg, root, v))
    ensures PassState(cfg, root, order, d)
    ensures order0 <= order
    ensures forall v :: v in cfg.Values ==> v in order
    ensures forall j :: |order0| <= j < |order| ==>
              order[j] in cfg.Values && !Grounded(cfg, root, order[j]) && d.m[order[j]] == root
  {
    var vals := ValuesOf(d0.keys, d0.m);
    var pending := DistinctPending(vals, order0, root, []);
    PendingUngrounded(cfg, root, order0, d0, vals, pending);
    PendingComplete(cfg, root, order0, d0, vals, pending);
    order, d := order0, d0;
    for t := 0 to |pending|
      invariant Pass2State(cfg, root, order0, pending, t, order, d)
    {
      Pass2Loop(cfg, root, order0, pending, t, order, d);
      d := Put(d, pending[t], root);
      order := order + [pending[t]];
    }
    Pass2Done(cfg, root, order0, pending, order, d);
  }

  lemma Pass2Done(cfg: map<string, string>, root: string, order0: seq<string>, pending: seq<string>,
                  order: seq<string>, d: Dict)
    requires Pass2State(cfg, root, order0, pending, |pending|, order, d)
    requires forall x :: x in pending ==> x in cfg.Values && !Grounded(cfg, root, x)
    requires forall v :: v in cfg.Values && v != root && v !in order0 ==> v in pending
    ensures order0 <= order
    ensures forall v :: v in cfg.Values ==> v in order
    ensures forall j :: |order0| <= j < |order| ==> order[j] in cfg.Values && !Grounded(cfg, root, order[j])
  {
    assert pending[..|pending|] == pending;
    forall j | |order0| <= j < |order|
      ensures order[j] in cfg.Values && !Grounded(cfg, root, order[j])
    {
      assert order[j] == pending[j - |order0|];
    }
  }

  /** The step of pass 3: an unscheduled configured locale, which nobody
      falls back to any more, is scheduled with its configured default. */
  lemma Pass3Step(cfg: map<string, string>, root: string, order0: seq<string>, order: seq<string>, d: Dict, k: string)
    requires PassState(cfg, root, order, d)
    requires forall v :: v in cfg.Values ==> v in order
    requires order0 <= order
    requires forall j :: |order0| <= j < |order| ==> order[j] in cfg && order[j] !in cfg.Values
    requires k in d.m && k !in order && k != root
    ensures PassState(cfg, root, order + [k], d)
    ensures order0 <= order + [k]
    ensures forall j :: |order0| <= j < |order| + 1 ==> (order + [k])[j] in cfg && (order + [k])[j] !in cfg.Values
  {
    assert k in cfg && k !in cfg.Values;
    AppendKeepsStateSameDict(cfg, root, order, d, k);
    var order' := order + [k];
    forall j | |order0| <= j < |order'|
      ensures order'[j] in cfg && order'[j] !in cfg.Values
    {
      if j < |order| {
        assert order'[j] == order[j];
      }
    }
  }

  /** Scheduling a configured locale whose default is already scheduled and
      expected keeps the pass invariant. */
  lemma AppendKeepsStateSameDict(cfg: map<string, string>, root: string, order: seq<string>, d: Dict, v: string)
    requires PassState(cfg, root, order, d)
    requires v !in order && v != root && v in cfg && v in d.m
    requires d.m[v] in order
    requires Some(d.m[v]) == ExpectedDefault(cfg, root, v)
    ensures PassState(cfg, root, order + [v], d)
  {
    AppendKeepsState(cfg, root, order, d, d, v);
  }

  /** Pass 3 (Compile/Program.cs:215-229): schedule the remaining configured
      locales, which nobody falls back to. */
  method ScheduleKeysPass3(cfg: map<string, string>, root: string, order0: seq<string>, d: Dict)
    returns (order: seq<string>)
    requires PassState(cfg, root, order0, d)
    requires forall v :: v in cfg.Values ==> v in order0
    ensures PassState(cfg, root, order, d)
    ensures order0 <= order
    ensures forall k :: k in d.m ==> k in order
    ensures forall j :: |order0| <= j < |order| ==> order[j] in cfg && order[j] !in cfg.Values
  {
    order := order0;
    var next := FirstUnscheduledKey(d, order, root, 0);
    while next.Some?
      invariant PassState(cfg, root, order, d)
      invariant order0 <= order
      invariant forall j :: |order0| <= j < |order| ==> order[j] in cfg && order[j] !in cfg.Values
      invariant next == FirstUnscheduledKey(d, order, root, 0)
      decreases d.m.Keys - Elems(order)
    {
      var k := next.value;
      Pass3Step(cfg, root, order0, order, d, k);
      AppendShrinks(d.m.Keys, order, k);
      order := order + [k];
      next := FirstUnscheduledKey(d, order, root, 0);
    }
    forall k | k in d.m
      ensures k in order
    {
      var j :| 0 <= j < |d.keys| && d.keys[j] == k;
    }
  }

  /** The configuration part of the resolver (Compile/Program.cs:154-232):
      the three passes, then the root's default set to null. */
  method ResolveConfigured(root: string, config: Dict) returns (order: seq<string>, defaults: map<string, Option<string>>)
    requires Valid(config)
    ensures WellResolved(root, order, defaults)
    ensures Elems(order) == {root} + config.m.Keys + config.m.Values
    ensures PassOrdered(config.m, root, order)
    ensures forall x :: x in defaults ==> defaults[x] == ExpectedDefault(config.m, root, x)
  {
    var cfg := config.m;
    var o1, d1 := SchedulePass1(cfg, root, config);
    var o2, d2 := RedirectPass2(cfg, root, o1, d1);
    order := ScheduleKeysPass3(cfg, root, o2, d2);
    defaults := FinalDefaults(d2, root);
    FinalShape(cfg, root, order, d2);
    FinalElems(cfg, root, order, d2);
    PassesOrdered(cfg, root, o1, o2, order);
  }

  /** The pass that schedules `x`: 0 for the root (line 159), 1 for a
      grounded default (lines 177-199), 2 for a default caught in or behind
      a cycle (lines 203-213), 3 for a locale that only has a default
      (lines 216-229). */
  ghost function PassOf(cfg: map<string, string>, root: string, x: string): nat {
    if x == root then 0
    else if x in cfg.Values && Grounded(cfg, root, x) then 1
    else if x in cfg.Values then 2
    else 3
  }

  /** The locales of `order` come pass by pass. */
  ghost predicate PassOrdered(cfg: map<string, string>, root: string, order: seq<string>) {
    forall i, j :: 0 <= i < j < |order| ==> PassOf(cfg, root, order[i]) <= PassOf(cfg, root, order[j])
  }

  /** The pass of the locale at position `j` is read off the segment holding `j`. */
  lemma PassAt(cfg: map<string, string>, root: string, o1: seq<string>, o2: seq<string>, order: seq<string>, j: nat)
    requires 0 < |o1| && o1[0] == root && o1 <= o2 <= order && NoDup(order) && j < |order|
    requires forall i :: 1 <= i < |o1| ==> o1[i] in cfg.Values && Grounded(cfg, root, o1[i])
    requires forall i :: |o1| <= i < |o2| ==> o2[i] in cfg.Values && !Grounded(cfg, root, o2[i])
    requires forall i :: |o2| <= i < |order| ==> order[i] !in cfg.Values
    ensures PassOf(cfg, root, order[j]) == if j == 0 then 0 else if j < |o1| then 1 else if j < |o2| then 2 else 3
  {
    if j > 0 {
      assert order[0] == root && order[j] != order[0];
    }
    if j < |o2| {
      assert order[j] == o2[j];
    }
    if j < |o1| {
      assert order[j] == o1[j];
    }
  }

  /** With root `en` and defaults `{k: en, p: v}`, pass 1 schedules `v`
      before pass 3 reaches `k` and `p`: `[en, v, k, p]` is sorted by pass and
      `[en, k, v, p]` is not. */
  lemma PassOrderExample()
    ensures PassOrdered(map["k" := "en", "p" := "v"], "en", ["en", "v", "k", "p"])
    ensures !PassOrdered(map["k" := "en", "p" := "v"], "en", ["en", "k", "v", "p"])
  {
    var cfg := map["k" := "en", "p" := "v"];
    assert GroundedIn(cfg, "en", "v", 0);
    assert "v" == cfg["p"] && "k" !in cfg.Values && "p" !in cfg.Values;
    assert PassOf(cfg, "en", "k") == 3 && PassOf(cfg, "en", "v") == 1;
    var bad := ["en", "k", "v", "p"];
    assert PassOf(cfg, "en", bad[1]) > PassOf(cfg, "en", bad[2]);
  }

  /** Pass 1's grounded defaults, then pass 2's redirected ones, then pass
      3's remaining keys: the order is sorted by pass. */
  lemma PassesOrdered(cfg: map<string, string>, root: string, o1: seq<string>, o2: seq<string>, order: seq<string>)
    requires 0 < |o1| && o1[0] == root && o1 <= o2 <= order && NoDup(order)
    requires forall i :: 1 <= i < |o1| ==> o1[i] in cfg.Values && Grounded(cfg, root, o1[i])
    requires forall i :: |o1| <= i < |o2| ==> o2[i] in cfg.Values && !Grounded(cfg, root, o2[i])
    requires forall i :: |o2| <= i < |order| ==> order[i] !in cfg.Values
    ensures PassOrdered(cfg, root, order)
  {
    forall i, j | 0 <= i < j < |order|
      ensures PassOf(cfg, root, order[i]) <= PassOf(cfg, root, order[j])
    {
      PassAt(cfg, root, o1, o2, order, i);
      PassAt(cfg, root, o1, o2, order, j);
    }
  }

  /** Line 232: the working dictionary as a total defaults map, with null
      for the root. */
  function FinalDefaults(d: Dict, root: string): (defaults: map<string, Option<string>>)
    ensures defaults.Keys == d.m.Keys + {root}
    ensures defaults[root] == None
    ensures forall k :: k in d.m && k != root ==> defaults[k] == Some(d.m[k])
  {
    map k | k in d.m.Keys + {root} :: if k == root then None else Some(d.m[k])
  }

  /** After the three passes every ordered locale has its expected default,
      placed strictly earlier. */
  lemma FinalShape(cfg: map<string, string>, root: string, order: seq<string>, d: Dict)
    requires PassState(cfg, root, order, d)
    requires forall k :: k in d.m ==> k in order
    ensures WellResolved(root, order, FinalDefaults(d, root))
    ensures forall x :: x in FinalDefaults(d, root) ==> FinalDefaults(d, root)[x] == ExpectedDefault(cfg, root, x)
  {
    var defaults := FinalDefaults(d, root);
    forall x | x in order
      ensures x in defaults
    {
      var j :| 0 <= j < |order| && order[j] == x;
    }
    forall j | 1 <= j < |order|
      ensures defaults[order[j]] == Some(d.m[order[j]])
    {
      assert order[j] != order[0];
    }
  }

  /** After the three passes the order holds exactly the root and the
      configured locales on either side. */
  lemma FinalElems(cfg: map<string, string>, root: string, order: seq<string>, d: Dict)
    requires PassState(cfg, root, order, d)
    requires forall k :: k in d.m ==> k in order
    requires forall v :: v in cfg.Values ==> v in order
    ensures Elems(order) == {root} + cfg.Keys + cfg.Values
  {
    forall x | x in order
      ensures x in {root} + cfg.Keys + cfg.Values
    {
      var j :| 0 <= j < |order| && order[j] == x;
    }
  }

  /** Appending a locale that falls back to the root keeps the order well resolved. */
  lemma AddLocaleStep(root: string, order: seq<string>, defaults: map<string, Option<string>>, icon: string)
    requires WellResolved(root, order, defaults) && icon !in order
    ensures WellResolved(root, order + [icon], defaults[icon := Some(root)])
  {
    var order', defaults' := order + [icon], defaults[icon := Some(root)];
    assert Elems(order') == Elems(order) + {icon};
    forall j | 1 <= j < |order'|
      ensures defaults'[order'[j]].Some? && EarlierThan(order', j, defaults'[order'[j]].value)
    {
      if j < |order| {
        assert order'[j] == order[j] && order[j] != icon;
        assert defaults'[order'[j]] == defaults[order[j]];
        var dv := defaults[order[j]].value;
        assert EarlierThan(order, j, dv);
        assert dv != icon;
      } else {
        assert order'[j] == icon && defaults'[icon] == Some(root);
        assert order'[0] == root && root != icon;
      }
    }
  }

  /** What adding the first `t` discovered locales keeps true. */
  ghost predicate FileState(root: string, order0: seq<string>, defaults0: map<string, Option<string>>,
                            icons: seq<string>, t: nat, order: seq<string>, defaults: map<string, Option<string>>) {
    && t <= |icons|
    && WellResolved(root, order, defaults)
    && FileBook(root, order0, defaults0, icons[..t], order, defaults)
  }

  /** The bookkeeping half of `FileState`: the locales seen so far are the
      old ones plus the discovered ones, and old defaults are untouched. */
  ghost predicate FileBook(root: string, order0: seq<string>, defaults0: map<string, Option<string>>,
                           seen: seq<string>, order: seq<string>, defaults: map<string, Option<string>>) {
    && order0 <= order
    && Elems(order) == Elems(order0) + Elems(seen)
    && (forall x :: x in defaults0 ==> x in defaults && defaults[x] == defaults0[x])
    && (forall x :: x in defaults && x !in defaults0 ==> defaults[x] == Some(root))
  }

  lemma ElemsSnoc(s: seq<string>, t: nat)
    requires t < |s|
    ensures s[..t + 1] == s[..t] + [s[t]]
    ensures Elems(s[..t + 1]) == Elems(s[..t]) + {s[t]}
  {
    assert s[..t + 1] == s[..t] + [s[t]];
  }

  lemma FileStep(root: string, order0: seq<string>, defaults0: map<string, Option<string>>,
                 icons: seq<string>, t: nat, order: seq<string>, defaults: map<string, Option<string>>)
    requires FileState(root, order0, defaults0, icons, t, order, defaults) && t < |icons|
    ensures icons[t] in defaults <==> icons[t] in order
    ensures icons[t] !in order ==> icons[t] !in icons[..t]
    ensures icons[t] in order ==> FileState(root, order0, defaults0, icons, t + 1, order, defaults)
    ensures icons[t] !in order ==>
              FileState(root, order0, defaults0, icons, t + 1, order + [icons[t]], defaults[icons[t] := Some(root)])
  {
    var icon := icons[t];
    ElemsSnoc(icons, t);
    assert icon in icons[..t] ==> icon in Elems(icons[..t]);
    if icon in order {
      BookSeen(root, order0, defaults0, icons[..t], icon, order, defaults);
    } else {
      AddLocaleStep(root, order, defaults, icon);
      BookNew(root, order0, defaults0, icons[..t], icon, order, defaults);
    }
  }

  lemma BookSeen(root: string, order0: seq<string>, defaults0: map<string, Option<string>>,
                 seen: seq<string>, icon: string, order: seq<string>, defaults: map<string, Option<string>>)
    requires FileBook(root, order0, defaults0, seen, order, defaults) && icon in order
    ensures FileBook(root, order0, defaults0, seen + [icon], order, defaults)
  {
    assert Elems(seen + [icon]) == Elems(seen) + {icon};
  }

  lemma BookNew(root: string, order0: seq<string>, defaults0: map<string, Option<string>>,
                seen: seq<string>, icon: string, order: seq<string>, defaults: map<string, Option<string>>)
    requires FileBook(root, order0, defaults0, seen, order, defaults)
    requires defaults.Keys == Elems(order) && icon !in order
    ensures FileBook(root, order0, defaults0, seen + [icon], order + [icon], defaults[icon := Some(root)])
  {
    assert Elems(seen + [icon]) == Elems(seen) + {icon};
    assert Elems(order + [icon]) == Elems(order) + {icon};
    assert icon !in defaults0;
  }

  /** A locale found among the first `t` icons has its first occurrence there. */
  lemma IndexBefore(icons: seq<string>, x: string, t: nat)
    requires t <= |icons| && x in icons[..t]
    ensures x in icons && IndexOf(icons, x) < t
  {
    var k :| 0 <= k < t && icons[..t][k] == x;
    assert icons[k] == x;
  }

  /** The icon at `t`, missing from the first `t`, first occurs at `t`. */
  lemma IndexAt(icons: seq<string>, t: nat)
    requires t < |icons| && icons[t] !in icons[..t]
    ensures IndexOf(icons, icons[t]) == t
  {
  }

  /** The order part of the file pass after `t` icons: what follows `order0`
      was discovered among them, in order of first occurrence. */
  ghost predicate FileOrder(icons: seq<string>, order0: seq<string>, t: nat, order: seq<string>) {
    && t <= |icons|
    && (forall a :: |order0| <= a < |order| ==> order[a] in icons[..t])
    && FirstSeenOrder(icons, order0, order)
  }

  lemma FileOrderStep(icons: seq<string>, order0: seq<string>, t: nat, order: seq<string>)
    requires FileOrder(icons, order0, t, order) && t < |icons|
    requires icons[t] in order || icons[t] !in icons[..t]
    ensures icons[t] in order ==> FileOrder(icons, order0, t + 1, order)
    ensures icons[t] !in order ==> FileOrder(icons, order0, t + 1, order + [icons[t]])
  {
    if icons[t] in order {
      SeenGrows(icons, order0, order, t);
    } else {
      AppendFirstSeen(icons, order0, order, t);
    }
  }

  lemma SeenGrows(icons: seq<string>, order0: seq<string>, order: seq<string>, t: nat)
    requires t < |icons|
    requires forall a :: |order0| <= a < |order| ==> order[a] in icons[..t]
    ensures forall a :: |order0| <= a < |order| ==> order[a] in icons[..t + 1]
  {
    assert icons[..t + 1] == icons[..t] + [icons[t]];
  }

  /** Appending the first occurrence of `icons[t]` keeps the appended part
      in order of first occurrence. */
  lemma AppendFirstSeen(icons: seq<string>, order0: seq<string>, order: seq<string>, t: nat)
    requires t < |icons| && icons[t] !in icons[..t]
    requires forall a :: |order0| <= a < |order| ==> order[a] in icons[..t]
    requires FirstSeenOrder(icons, order0, order)
    ensures FirstSeenOrder(icons, order0, order + [icons[t]])
    ensures forall a :: |order0| <= a < |order| + 1 ==> (order + [icons[t]])[a] in icons[..t + 1]
  {
    var order' := order + [icons[t]];
    IndexAt(icons, t);
    assert icons[..t + 1] == icons[..t] + [icons[t]];
    forall a, b | |order0| <= a < b < |order'|
      ensures order'[a] in icons && order'[b] in icons && IndexOf(icons, order'[a]) < IndexOf(icons, order'[b])
    {
      if b == |order| {
        assert order'[a] == order[a];
        IndexBefore(icons, order[a], t);
      } else {
        assert order'[a] == order[a] && order'[b] == order[b];
      }
    }
  }

  /** The file part of the resolver (Compile/Program.cs:258-266): each
      discovered locale missing so far is appended, falling back to the root.
      The source tests the defaults map and the order separately; the two
      tests agree because both hold exactly the same locales. */
  method AddFileLocales(root: string, order0: seq<string>, defaults0: map<string, Option<string>>, icons: seq<string>)
    returns (order: seq<string>, defaults: map<string, Option<string>>)
    requires WellResolved(root, order0, defaults0)
    ensures WellResolved(root, order, defaults)
    ensures order0 <= order
    ensures Elems(order) == Elems(order0) + Elems(icons)
    ensures forall x :: x in defaults0 ==> defaults[x] == defaults0[x]
    ensures forall x :: x in defaults && x !in defaults0 ==> defaults[x] == Some(root)
    ensures FirstSeenOrder(icons, order0, order)
  {
    order, defaults := order0, defaults0;
    assert icons[..0] == [];
    for t := 0 to |icons|
      invariant FileState(root, order0, defaults0, icons, t, order, defaults)
      invariant FileOrder(icons, order0, t, order)
    {
      FileStep(root, order0, defaults0, icons, t, order, defaults);
      FileOrderStep(icons, order0, t, order);
      var icon := icons[t];
      if icon !in defaults {
        defaults := defaults[icon := Some(root)];
      }
      if icon !in order {
        order := order + [icon];
      }
    }
    assert icons[..|icons|] == icons;
  }
}

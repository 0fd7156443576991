/**
 * The call-graph closure of an island entry and the GL-slot arming gate built on it
 * (harness/island/full/island_gl_reach.py), and the audit's closure over several roots
 * (harness/island/full/island_mutable_state_audit.py).
 */
module ArmingGate {
  import opened Truncation
  import opened Bits

  type Name = string

  // ---------------------------------------------------------------- the worklist

  ghost predicate Closed(next: Name -> set<Name>, s: set<Name>) {
    forall f :: f in s ==> next(f) <= s
  }

  /** The least closed set that holds the roots. */
  ghost predicate Least(next: Name -> set<Name>, roots: seq<Name>, s: set<Name>) {
    && Elements(roots) <= s
    && Closed(next, s)
    && forall t: set<Name> :: Elements(roots) <= t && Closed(next, t) ==> s <= t
  }

  function Elements(s: seq<Name>): set<Name> { set f | f in s }

  /** Pushing the members of a set, in whatever order they come. */
  method PushAll(stack: seq<Name>, names: set<Name>) returns (pushed: seq<Name>)
    ensures Elements(pushed) == Elements(stack) + names
  {
    pushed := stack;
    var todo := names;
    while todo != {}
      invariant todo <= names
      invariant Elements(pushed) == Elements(stack) + (names - todo)
      decreases todo
    {
      var f :| f in todo;
      assert Elements(pushed + [f]) == Elements(pushed) + {f};
      pushed := pushed + [f];
      todo := todo - {f};
    }
  }

  /** `source_closure_roots`, and the closure loop of the gate with a single root. */
  method Worklist(next: Name -> set<Name>, roots: seq<Name>, ghost universe: set<Name>) returns (closure: set<Name>)
    requires Closed(next, universe) && Elements(roots) <= universe
    ensures Least(next, roots, closure)
  {
    closure := {};
    var stack := roots;
    while stack != []
      invariant Elements(roots) <= closure + Elements(stack)
      invariant closure + Elements(stack) <= universe
      invariant forall f :: f in closure ==> next(f) <= closure + Elements(stack)
      invariant forall t: set<Name> :: Elements(roots) <= t && Closed(next, t) ==> closure + Elements(stack) <= t
      decreases universe - closure, |stack|
    {
      var f := stack[|stack| - 1];
      assert Elements(stack) == Elements(stack[..|stack| - 1]) + {f} by {
        assert stack == stack[..|stack| - 1] + [f];
      }
      stack := stack[..|stack| - 1];
      if f in closure {
        continue;
      }
      closure := closure + {f};
      stack := PushAll(stack, next(f));
    }
  }

  // Reachability, to say what the closure is without a set.

  ghost predicate IsPath(next: Name -> set<Name>, p: seq<Name>) {
    |p| > 0 && forall i :: 0 <= i < |p| - 1 ==> p[i + 1] in next(p[i])
  }

  ghost predicate Reaches(next: Name -> set<Name>, root: Name, f: Name) {
    exists p :: IsPath(next, p) && p[0] == root && p[|p| - 1] == f
  }

  lemma {:induction false} PathStaysInside(next: Name -> set<Name>, p: seq<Name>, s: set<Name>)
    requires IsPath(next, p) && Closed(next, s) && p[0] in s
    ensures p[|p| - 1] in s
  {
    if |p| > 1 {
      PathStaysInside(next, p[..|p| - 1], s);
    }
  }

  lemma ReachesStep(next: Name -> set<Name>, root: Name, f: Name, g: Name)
    requires Reaches(next, root, f) && g in next(f)
    ensures Reaches(next, root, g)
  {
    var p :| IsPath(next, p) && p[0] == root && p[|p| - 1] == f;
    assert IsPath(next, p + [g]);
  }

  /** The closure of a root is exactly what a path leads to. */
  lemma LeastIsReachable(next: Name -> set<Name>, root: Name, s: set<Name>)
    requires Least(next, [root], s)
    ensures forall f :: f in s <==> Reaches(next, root, f)
  {
    var t := set f | f in s && Reaches(next, root, f);
    assert Reaches(next, root, root) by { assert IsPath(next, [root]); }
    forall f, g | f in t && g in next(f) ensures g in t {
      ReachesStep(next, root, f, g);
    }
    assert Closed(next, t) && s <= t;
    forall f | Reaches(next, root, f) ensures f in s {
      var p :| IsPath(next, p) && p[0] == root && p[|p| - 1] == f;
      PathStaysInside(next, p, s);
    }
  }

  // ---------------------------------------------------------------- the gate

  // The names.  A source name is what stands before a parameter list; the compiler gives a clone of a
  // function its name and a dotted suffix.

  /** The identifier that ends before text[k], white space aside: its characters are those of `alnum` and '_'. */
  method NameBefore(text: string, k: nat, alnum: char -> bool, space: char -> bool) returns (name: Name)
    requires k <= |text| && !alnum('.')
    ensures '.' !in name
    ensures exists q: nat, end: nat ::
              && q <= end <= k && name == text[q..end]
              && (forall i :: end <= i < k ==> space(text[i])) && (end > 0 ==> !space(text[end - 1]))
              && (forall i :: q <= i < end ==> alnum(text[i]) || text[i] == '_')
              && (q > 0 ==> !alnum(text[q - 1]) && text[q - 1] != '_')
  {
    var end := k;
    while end > 0 && space(text[end - 1])
      invariant 0 <= end <= k && forall i :: end <= i < k ==> space(text[i])
    {
      end := end - 1;
    }
    var q := end;
    while q > 0 && (alnum(text[q - 1]) || text[q - 1] == '_')
      invariant 0 <= q <= end && forall i :: q <= i < end ==> alnum(text[i]) || text[i] == '_'
    {
      q := q - 1;
    }
    name := text[q..end];
  }

  const CLONES := ["isra", "part", "constprop", "cold", "lto_priv", "localalias"]

  predicate Digits(s: string) { forall i :: 0 <= i < |s| ==> '0' <= s[i] <= '9' }

  /** A whole clone suffix: a dot, a kind, perhaps a dot, digits. */
  predicate IsCloneSuffix(t: string) {
    t != "" && t[0] == '.' && exists w :: w in CLONES && w <= t[1..] && IsCloneNumber(t[1 + |w|..])
  }

  predicate IsCloneNumber(t: string) {
    Digits(t) || (t != "" && t[0] == '.' && Digits(t[1..]))
  }

  /** `CLONE.sub("", name)`: the name without its clone suffix. */
  function Strip(name: Name): (base: Name)
    ensures base <= name
  {
    StripFrom(name, 0)
  }

  function StripFrom(name: Name, i: nat): (base: Name)
    ensures base <= name
    decreases |name| - i
  {
    if i >= |name| then name else if IsCloneSuffix(name[i..]) then name[..i] else StripFrom(name, i + 1)
  }

  lemma {:induction false} SourceNameStays(name: Name, i: nat)
    requires '.' !in name
    ensures StripFrom(name, i) == name
    decreases |name| - i
  {
    if i < |name| {
      assert name[i..][0] == name[i];
      SourceNameStays(name, i + 1);
    }
  }

  /** What the scans of the binary and of the source deliver. */
  datatype Analysis = Analysis(
    calls: map<Name, set<Name>>,
    sourceFunctions: set<Name>,
    sourceCalls: map<Name, set<Name>>,
    indirectRefs: map<Name, set<Name>>,
    targets: map<Name, set<Name>>,
    byName: set<Name>,
    refs: map<Name, set<Name>>,
    indexOf: map<Name, nat>) {
    /** The source tables are keyed by what `NameBefore` finds. */
    ghost predicate Valid() {
      && (forall f :: f in sourceFunctions ==> '.' !in f)
      && (forall f :: f in sourceCalls ==> '.' !in f)
      && (forall f :: f in indirectRefs ==> '.' !in f)
      && (forall f :: f in refs ==> '.' !in f)
    }
  }

  function Get(table: map<Name, set<Name>>, key: Name): set<Name> {
    if key in table then table[key] else {}
  }

  /** `table.get(f, ()) or table.get(base, ())`: a clone without an entry of its own uses its base's. */
  function GetOrBase(table: map<Name, set<Name>>, f: Name, base: Name): set<Name> {
    if Get(table, f) != {} then Get(table, f) else Get(table, base)
  }

  /** The edges the closure follows out of f. */
  function Follow(a: Analysis, f: Name): set<Name> {
    (set c | c in Get(a.calls, f) && (c in a.sourceFunctions || Strip(c) in a.sourceFunctions))
    + (set c | c in GetOrBase(a.sourceCalls, f, Strip(f)) && c in a.sourceFunctions && c in a.byName)
    + (set m, t | m in GetOrBase(a.indirectRefs, f, Strip(f)) && t in Get(a.targets, m) && t in a.byName :: t)
  }

  /** The slots f refers to. */
  function Slots(a: Analysis, f: Name): set<nat> {
    set m | m in GetOrBase(a.refs, f, Strip(f)) && m in a.indexOf :: a.indexOf[m]
  }

  function Need(a: Analysis, closure: set<Name>): set<nat> {
    set f, s | f in closure && s in Slots(a, f) :: s
  }

  ghost function Universe(a: Analysis, root: Name): set<Name> {
    {root} + (set f, c | f in a.calls && c in a.calls[f] :: c) + a.byName
  }

  lemma UniverseIsClosed(a: Analysis, root: Name)
    ensures Closed((f: Name) => Follow(a, f), Universe(a, root))
  {
  }

  datatype Entry = Entry(closure: set<Name>, need: set<nat>, missing: set<nat>) {
    /** The printed verdict: GL-SLOTS OK. */
    predicate Ok() { missing == {} }
  }

  /** A function some followed path leads to. */
  ghost predicate Reached(a: Analysis, root: Name, f: Name) {
    Reaches((g: Name) => Follow(a, g), root, f)
  }

  /** The analysis of one entry. */
  method Analyse(a: Analysis, root: Name, unresolved: set<nat>) returns (e: Entry)
    ensures forall f :: f in e.closure <==> Reached(a, root, f)
    ensures e.need == Need(a, e.closure)
    ensures e.missing == e.need * unresolved
    ensures e.Ok() <==> forall f :: Reached(a, root, f) ==> Slots(a, f) !! unresolved
    ensures root in e.closure
    ensures a.Valid() ==> forall f, c :: f in e.closure && Edge(a, f, c) ==> c in e.closure
    ensures a.Valid() ==> forall c :: c in e.closure && c != root ==> exists f :: f in e.closure && f != c && Edge(a, f, c)
    ensures a.Valid() ==> forall slot :: slot in e.need <==> exists f :: f in e.closure && Refers(a, f, slot)
  {
    hide Follow, Slots;
    var next := (f: Name) => Follow(a, f);
    UniverseIsClosed(a, root);
    var closure := Worklist(next, [root], Universe(a, root));
    LeastIsReachable(next, root, closure);
    if a.Valid() {
      ClosureOfEdges(a, root, closure);
      NeedOfReferences(a, closure);
    }
    hide Edge, Refers, Analysis.Valid, Least;
    var need: set<nat> := {};
    var todo := closure;
    while todo != {}
      invariant todo <= closure
      invariant need == Need(a, closure - todo)
      decreases todo
    {
      var f :| f in todo;
      need := need + Slots(a, f);
      assert closure - (todo - {f}) == (closure - todo) + {f};
      todo := todo - {f};
    }
    assert closure - todo == closure;
    var missing := if unresolved != {} then need * unresolved else {};
    e := Entry(closure, need, missing);
    forall f | f in closure ensures missing == {} ==> Slots(a, f) !! unresolved {
      assert Slots(a, f) <= need;
    }
    if missing != {} {
      var s :| s in missing;
      var f :| f in closure && s in Slots(a, f);
      assert Reached(a, root, f);
    }
  }

  // What the edges and the slots are, on the tables.

  /** The binary has the call, and the source the function called. */
  predicate CallEdge(a: Analysis, f: Name, c: Name) {
    f in a.calls && c in a.calls[f] && OneSuffix(c) && SourceName(c) in a.sourceFunctions
  }

  /** The source has the call, and the binary the function called. */
  predicate SourceEdge(a: Analysis, f: Name, c: Name) {
    && OneSuffix(f) && SourceName(f) in a.sourceCalls && c in a.sourceCalls[SourceName(f)]
    && c in a.sourceFunctions && c in a.byName
  }

  /** The source calls through a member of an ops table that holds the function. */
  ghost predicate TableEdge(a: Analysis, f: Name, c: Name) {
    && OneSuffix(f) && SourceName(f) in a.indirectRefs && c in a.byName
    && exists m :: m in a.indirectRefs[SourceName(f)] && m in a.targets && c in a.targets[m]
  }

  ghost predicate Edge(a: Analysis, f: Name, c: Name) {
    CallEdge(a, f, c) || SourceEdge(a, f, c) || TableEdge(a, f, c)
  }

  /** The source of f names a member that has this slot. */
  ghost predicate Refers(a: Analysis, f: Name, slot: nat) {
    && OneSuffix(f) && SourceName(f) in a.refs
    && exists m :: m in a.refs[SourceName(f)] && m in a.indexOf && a.indexOf[m] == slot
  }

  lemma LookupIs(table: map<Name, set<Name>>, f: Name)
    requires forall g :: g in table ==> '.' !in g
    ensures GetOrBase(table, f, Strip(f))
         == if OneSuffix(f) && SourceName(f) in table then table[SourceName(f)] else {}
  {
    LookupIsBase(table, f);
    if OneSuffix(f) {
      OneSuffixIsSource(f);
    }
  }

  lemma FollowIff(a: Analysis, f: Name, c: Name)
    requires a.Valid()
    ensures c in Follow(a, f) <==> Edge(a, f, c)
  {
    LookupIs(a.sourceCalls, f);
    LookupIs(a.indirectRefs, f);
    CloneIsFollowed(a, c);
    hide GetOrBase, Strip, OneSuffix, SourceName;
  }

  lemma SlotsIff(a: Analysis, f: Name, slot: nat)
    requires a.Valid()
    ensures slot in Slots(a, f) <==> Refers(a, f, slot)
  {
    LookupIs(a.refs, f);
    hide GetOrBase, Strip, OneSuffix, SourceName;
  }

  lemma ClosureOfEdges(a: Analysis, root: Name, closure: set<Name>)
    requires a.Valid() && Least((f: Name) => Follow(a, f), [root], closure)
    ensures root in closure
    ensures forall f, c :: f in closure && Edge(a, f, c) ==> c in closure
    ensures forall c :: c in closure && c != root ==> exists f :: f in closure && f != c && Edge(a, f, c)
  {
    hide Follow, Edge, Analysis.Valid;
    var next := (f: Name) => Follow(a, f);
    assert root in Elements([root]);
    forall f, c | f in closure && Edge(a, f, c) ensures c in closure {
      FollowIff(a, f, c);
      assert c in next(f);
    }
    forall c | c in closure && c != root ensures exists f :: f in closure && f != c && Edge(a, f, c) {
      var t := closure - {c};
      assert Elements([root]) <= t && !(closure <= t);
      var f :| f in t && !(next(f) <= t);
      FollowIff(a, f, c);
    }
  }

  lemma NeedOfReferences(a: Analysis, closure: set<Name>)
    requires a.Valid()
    ensures forall slot :: slot in Need(a, closure) <==> exists f :: f in closure && Refers(a, f, slot)
  {
    hide Slots, Refers, Analysis.Valid;
    forall slot ensures slot in Need(a, closure) <==> exists f :: f in closure && Refers(a, f, slot) {
      forall f ensures slot in Slots(a, f) <==> Refers(a, f, slot) {
        SlotsIff(a, f, slot);
      }
    }
  }

  // ---------------------------------------------------------------- adding edges

  ghost predicate Extends(m: map<Name, set<Name>>, m': map<Name, set<Name>>) {
    forall f :: f in m ==> f in m' && m[f] <= m'[f]
  }

  /** b knows every edge, every table target and every slot reference that a knows. */
  ghost predicate Richer(a: Analysis, b: Analysis) {
    && a.indexOf == b.indexOf
    && a.sourceFunctions <= b.sourceFunctions && a.byName <= b.byName
    && Extends(a.calls, b.calls) && Extends(a.sourceCalls, b.sourceCalls)
    && Extends(a.indirectRefs, b.indirectRefs) && Extends(a.targets, b.targets) && Extends(a.refs, b.refs)
  }

  /** Whichever name is asked, the `or` reads the entry of the base: a clone has none of its own. */
  lemma LookupIsBase(table: map<Name, set<Name>>, f: Name)
    requires forall g :: g in table ==> '.' !in g
    ensures GetOrBase(table, f, Strip(f)) == Get(table, Strip(f))
  {
    if '.' !in f {
      SourceNameStays(f, 0);
    }
  }

  /** The name in the source of a function or of any clone of it: what stands before the first dot. */
  function SourceName(name: Name): (base: Name)
    ensures base <= name && '.' !in base
  {
    if name == "" || name[0] == '.' then "" else [name[0]] + SourceName(name[1..])
  }

  lemma {:induction false} SourceNameIs(name: Name, k: nat)
    requires k <= |name| && '.' !in name[..k] && (k < |name| ==> name[k] == '.')
    ensures SourceName(name) == name[..k]
  {
    if k > 0 {
      assert name[0] == name[..k][0];
      assert name[1..][..k - 1] == name[..k][1..];
      SourceNameIs(name[1..], k - 1);
      assert name[..k] == [name[0]] + name[1..][..k - 1];
    }
  }

  lemma {:induction false} StripEndsAtDot(name: Name, i: nat)
    ensures var k := |StripFrom(name, i)|; k < |name| ==> name[k] == '.'
    decreases |name| - i
  {
    if i < |name| {
      if IsCloneSuffix(name[i..]) {
        assert name[i..][0] == name[i];
      } else {
        StripEndsAtDot(name, i + 1);
      }
    }
  }

  /** One suffix at most: then what is left is the name in the source. */
  predicate OneSuffix(name: Name) { '.' !in Strip(name) }

  lemma OneSuffixIsSource(name: Name)
    requires OneSuffix(name)
    ensures Strip(name) == SourceName(name)
  {
    StripEndsAtDot(name, 0);
    SourceNameIs(name, |Strip(name)|);
  }

  /** What the source says of a function is read for a clone of it exactly when the clone has one suffix at most. */
  lemma CloneReadsSource(table: map<Name, set<Name>>, clone: Name)
    requires (forall g :: g in table ==> '.' !in g) && Get(table, SourceName(clone)) != {}
    ensures GetOrBase(table, clone, Strip(clone)) == Get(table, SourceName(clone)) <==> OneSuffix(clone)
  {
    LookupIsBase(table, clone);
    if OneSuffix(clone) {
      OneSuffixIsSource(clone);
    }
  }

  /** And a call of a clone is followed exactly when it has one suffix at most and its function is the source's. */
  lemma CloneIsFollowed(a: Analysis, callee: Name)
    requires a.Valid()
    ensures callee in a.sourceFunctions || Strip(callee) in a.sourceFunctions
       <==> OneSuffix(callee) && SourceName(callee) in a.sourceFunctions
  {
    if callee in a.sourceFunctions {
      SourceNameStays(callee, 0);
    }
    if OneSuffix(callee) {
      OneSuffixIsSource(callee);
    }
  }

  /** A dot, a kind of clone, perhaps a dot, digits. */
  ghost predicate IsSuffix(t: string) {
    exists w, n :: w in ["isra", "part", "constprop", "cold", "lto_priv", "localalias"] && SuffixOf(t, w, n)
  }

  predicate SuffixOf(t: string, w: string, n: string) {
    && (forall i :: 0 <= i < |n| ==> '0' <= n[i] <= '9')
    && (t == "." + w + n || t == "." + w + "." + n)
  }

  lemma SuffixIff(t: string)
    ensures IsCloneSuffix(t) <==> IsSuffix(t)
  {
    assert CLONES == ["isra", "part", "constprop", "cold", "lto_priv", "localalias"];
    hide CLONES, IsCloneNumber, SuffixOf;
    if IsCloneSuffix(t) {
      var w :| w in CLONES && w <= t[1..] && IsCloneNumber(t[1 + |w|..]);
      var n := NumberOf(t, w);
      assert SuffixOf(t, w, n);
    }
    if w, n :| w in CLONES && SuffixOf(t, w, n) {
      SuffixReads(t, w, n);
    }
  }

  lemma NumberOf(t: string, w: string) returns (n: string)
    requires t != "" && t[0] == '.' && w <= t[1..] && IsCloneNumber(t[1 + |w|..])
    ensures SuffixOf(t, w, n)
  {
    var rest := t[1 + |w|..];
    assert t == "." + w + rest;
    n := if Digits(rest) then rest else rest[1..];
    assert !Digits(rest) ==> rest == "." + n;
  }

  lemma SuffixReads(t: string, w: string, n: string)
    requires SuffixOf(t, w, n)
    ensures t != "" && t[0] == '.' && w <= t[1..] && IsCloneNumber(t[1 + |w|..])
  {
    if t == "." + w + n {
      assert t[1..] == w + n && t[1 + |w|..] == n;
    } else {
      assert t[1..] == w + ("." + n) && t[1 + |w|..] == "." + n && t[1 + |w|..][1..] == n;
    }
  }

  /** A name has one suffix at most when it is its source name, or that and one suffix. */
  lemma OneSuffixIff(name: Name)
    ensures OneSuffix(name) <==> name == SourceName(name) || IsSuffix(name[|SourceName(name)|..])
  {
    var k := |SourceName(name)|;
    SourceNameEnds(name);
    SuffixIff(name[k..]);
    hide IsCloneSuffix, IsSuffix;
    if OneSuffix(name) {
      OneSuffixIsSource(name);
      StrippedIs(name, 0);
    } else if k == |name| {
      SourceNameStays(name, 0);
    } else if IsSuffix(name[k..]) {
      forall j | 0 <= j < k ensures !IsCloneSuffix(name[j..]) {
        assert name[j..][0] == name[j] == SourceName(name)[j];
        NoDotNoSuffix(name[j..]);
      }
      StripIs(name, k);
    }
  }

  lemma {:induction false} SourceNameEnds(name: Name)
    ensures var k := |SourceName(name)|; k < |name| ==> name[k] == '.'
  {
    if name != "" && name[0] != '.' {
      SourceNameEnds(name[1..]);
    }
  }

  lemma {:induction false} StrippedIs(name: Name, i: nat)
    ensures var k := |StripFrom(name, i)|; k < |name| ==> IsCloneSuffix(name[k..])
    decreases |name| - i
  {
    if i < |name| && !IsCloneSuffix(name[i..]) {
      StrippedIs(name, i + 1);
    }
  }

  lemma {:induction false} NotBefore(name: Name, i: nat, k: nat)
    requires i <= k < |name| && IsCloneSuffix(name[k..])
    requires forall j :: i <= j < k ==> !IsCloneSuffix(name[j..])
    ensures StripFrom(name, i) == name[..k]
    decreases k - i
  {
    hide IsCloneSuffix;
    if i < k {
      NotBefore(name, i + 1, k);
    }
  }

  lemma NoDotNoSuffix(t: string)
    requires t != "" && t[0] != '.'
    ensures !IsCloneSuffix(t)
  {
  }

  /** The kinds begin with different letters, but for two. */
  lemma KindOf(w: string, t: string)
    requires w in CLONES && w <= t
    ensures t != "" && t[0] == w[0] && w[0] in "ipcl" && (w[0] == 'p' ==> w == "part")
  {
  }

  lemma ColdIsSuffix()
    ensures IsCloneSuffix(".cold")
  {
    assert CLONES[3] == "cold" && ".cold"[1..] == "cold" && ".cold"[5..] == "";
  }

  lemma ZeroColdIsNot()
    ensures !IsCloneSuffix(".0.cold")
  {
    var t := ".0.cold";
    assert t[1..][0] == '0';
    forall w | w in CLONES ensures !(w <= t[1..]) {
      if w <= t[1..] { KindOf(w, t[1..]); }
    }
  }

  lemma NoNumber(t: string)
    requires |t| > 2 && t[0] == '.' && t[2] == '.'
    ensures !IsCloneNumber(t)
  {
    assert t[1..][1] == '.';
  }

  lemma PartZeroColdIsNot()
    ensures !IsCloneSuffix(".part.0.cold")
  {
    var t := ".part.0.cold";
    assert t[5..] == ".0.cold";
    NoNumber(t[5..]);
    assert t[1..][0] == 'p';
    hide IsCloneNumber, CLONES;
    forall w | w in CLONES && w <= t[1..] ensures !IsCloneNumber(t[1 + |w|..]) {
      KindOf(w, t[1..]);
    }
  }

  lemma StripIs(name: Name, k: nat)
    requires k < |name| && IsCloneSuffix(name[k..])
    requires forall j :: 0 <= j < k ==> !IsCloneSuffix(name[j..])
    ensures Strip(name) == name[..k]
    ensures OneSuffix(name) <==> '.' !in name[..k]
  {
    NotBefore(name, 0, k);
  }

  lemma FirstSuffix(name: Name)
    requires |name| == 13 && name[8..] == ".cold" && name[6..] == ".0.cold" && name[1..] == ".part.0.cold" && name[0] == 'f'
    ensures forall j :: 0 <= j < 8 ==> !IsCloneSuffix(name[j..])
  {
    ZeroColdIsNot();
    PartZeroColdIsNot();
    hide IsCloneSuffix;
    forall j | 0 <= j < 8 ensures !IsCloneSuffix(name[j..]) {
      if j != 1 && j != 6 {
        assert name[j..][0] == name[j] && (j > 0 ==> name[j] == name[1..][j - 1]);
        NoDotNoSuffix(name[j..]);
      }
    }
  }

  /** A clone of a clone keeps its first suffix, and is no function of the source any more. */
  lemma TwoSuffixes()
    ensures Strip("f.part.0.cold") == "f.part.0" && !OneSuffix("f.part.0.cold")
  {
    hide IsCloneSuffix, Strip, StripFrom, OneSuffix;
    var name := "f.part.0.cold";
    ColdIsSuffix();
    assert name[8..] == ".cold" && name[6..] == ".0.cold" && name[1..] == ".part.0.cold";
    FirstSuffix(name);
    StripIs(name, 8);
    assert name[..8] == "f.part.0" && name[..8][1] == '.';
  }

  lemma RicherFollows(a: Analysis, b: Analysis, f: Name)
    requires a.Valid() && b.Valid() && Richer(a, b)
    ensures Follow(a, f) <= Follow(b, f) && Slots(a, f) <= Slots(b, f)
  {
    LookupIsBase(a.sourceCalls, f);
    LookupIsBase(b.sourceCalls, f);
    LookupIsBase(a.indirectRefs, f);
    LookupIsBase(b.indirectRefs, f);
    LookupIsBase(a.refs, f);
    LookupIsBase(b.refs, f);
    hide GetOrBase, Strip;
  }

  lemma RicherReaches(a: Analysis, b: Analysis, root: Name, f: Name)
    requires a.Valid() && b.Valid() && Richer(a, b) && Reached(a, root, f)
    ensures Reached(b, root, f)
  {
    var p :| IsPath((g: Name) => Follow(a, g), p) && p[0] == root && p[|p| - 1] == f;
    forall i | 0 <= i < |p| - 1 ensures p[i + 1] in Follow(b, p[i]) {
      RicherFollows(a, b, p[i]);
    }
    assert IsPath((g: Name) => Follow(b, g), p);
  }

  /** What makes an entry unfit to arm: something reached refers to an unresolved slot. */
  ghost predicate Refused(a: Analysis, root: Name, unresolved: set<nat>) {
    exists f :: Reached(a, root, f) && !(Slots(a, f) !! unresolved)
  }

  /** Learning more edges, targets or references never turns a refusal into an OK. */
  lemma RefusalStands(a: Analysis, b: Analysis, root: Name, unresolved: set<nat>)
    requires a.Valid() && b.Valid() && Richer(a, b) && Refused(a, root, unresolved)
    ensures Refused(b, root, unresolved)
  {
    var f :| Reached(a, root, f) && !(Slots(a, f) !! unresolved);
    RicherReaches(a, b, root, f);
    RicherFollows(a, b, f);
  }

  // ---------------------------------------------------------------- the emitted bitset

  /** The slots a bitset stands for. */
  function Decode(bits: seq<nat>): set<nat> {
    set s: nat | s < 32 * |bits| && Bit(bits[s / 32], s % 32)
  }

  /** The words written to the header: slot s is bit s mod 32 of word s / 32. */
  method Encode(need: set<nat>, slots: nat) returns (bits: array<nat>)
    requires forall s :: s in need ==> s < slots
    ensures fresh(bits) && bits.Length == (slots + 31) / 32
    ensures Decode(bits[..]) == need
    ensures forall i :: 0 <= i < bits.Length ==> bits[i] < 0x1_0000_0000
  {
    hide Decode, Or, Bit, Pow2;
    Pow2Values();
    bits := new nat[(slots + 31) / 32](_ => 0);
    var todo := need;
    NoSlots(bits[..]);
    while todo != {}
      invariant todo <= need
      invariant Decode(bits[..]) == need - todo
      invariant forall i :: 0 <= i < bits.Length ==> bits[i] < 0x1_0000_0000
      decreases todo
    {
      var s :| s in todo;
      ghost var before := bits[..];
      bits[s / 32] := Or(bits[s / 32], Pow2(s % 32));
      SetBit(before, s);
      OrBound(before[s / 32], Pow2(s % 32), 32);
      todo := todo - {s};
    }
  }

  lemma NoSlots(bits: seq<nat>)
    requires forall i :: 0 <= i < |bits| ==> bits[i] == 0
    ensures Decode(bits) == {}
  {
    forall s: nat | s < 32 * |bits| ensures !Bit(bits[s / 32], s % 32) { NoBits(s % 32); }
  }

  lemma SetBit(bits: seq<nat>, s: nat)
    requires s / 32 < |bits|
    ensures Decode(bits[s / 32 := Or(bits[s / 32], Pow2(s % 32))]) == Decode(bits) + {s}
    ensures Pow2(s % 32) < 0x1_0000_0000
  {
    var bits' := bits[s / 32 := Or(bits[s / 32], Pow2(s % 32))];
    forall t: nat | t < 32 * |bits|
      ensures Bit(bits'[t / 32], t % 32) <==> Bit(bits[t / 32], t % 32) || t == s
    {
      if t / 32 == s / 32 {
        OrBits(bits[s / 32], Pow2(s % 32), t % 32);
        PowerBits(s % 32, t % 32);
      }
    }
    Pow2Values();
    Pow2Monotone(s % 32, 31);
  }
}

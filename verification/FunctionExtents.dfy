/**
 * The function extents cut out of a source file by counting braces on its masked lines
 * (harness/island/full/island_icall_audit.py, functions_by_file).
 */
module FunctionExtents {
  import opened CMask
  import opened Wrappers

  /**
   * One file: its lines, the same lines masked, and what the two expressions the scan applies to a
   * masked line say of each: the name it may define, and whether it ends in a semicolon.
   */
  datatype Source = Source(lines: seq<string>, syntax: seq<string>, candidate: seq<Option<string>>, closes: seq<bool>)

  predicate Valid(f: Source) {
    |f.lines| == |f.syntax| == |f.candidate| == |f.closes|
  }

  function Net(line: string): int { Count('{', line) - Count('}', line) }

  /** The brace balance of the lines from a up to b. */
  function Depth(syntax: seq<string>, a: nat, b: nat): int
    requires b <= |syntax|
  {
    if b <= a then 0 else Depth(syntax, a, b - 1) + Net(syntax[b - 1])
  }

  datatype Span = Span(start: nat, end: nat)

  /** The lines after s read as one signature up to k: no brace, no other candidate, no semicolon. */
  predicate Signature(f: Source, s: nat, k: nat)
    requires Valid(f) && k <= |f.lines|
  {
    forall j :: s < j < k ==> '{' !in f.syntax[j] && f.candidate[j] == None && !f.closes[j]
  }

  /** Line b is where the body of the candidate on line s begins. */
  predicate Opening(f: Source, s: nat, b: nat)
    requires Valid(f)
  {
    && s < b < |f.lines| && f.candidate[s].Some?
    && Signature(f, s, b)
    && f.candidate[b] == None && !f.closes[b] && '{' in f.syntax[b]
  }

  /** The brace balance after line k, of the lines that follow the candidate on line s. */
  function Balance(f: Source, s: nat, k: nat): int
    requires Valid(f) && k < |f.lines|
  {
    Depth(f.syntax, s + 1, k + 1)
  }

  /** After line k a brace of the candidate on line s is open. */
  predicate HoldsOpen(f: Source, s: nat, k: nat)
    requires Valid(f) && k < |f.lines|
  {
    Balance(f, s, k) > 0
  }

  /** From line b to line e every line leaves a brace of the candidate on line s open. */
  predicate StaysOpen(f: Source, s: nat, b: nat, e: nat)
    requires Valid(f) && e <= |f.lines|
  {
    forall k :: b <= k < e ==> HoldsOpen(f, s, k)
  }

  /** An extent: a candidate, its body, and the first line on which the braces after the candidate balance. */
  ghost predicate IsExtent(f: Source, x: Span)
    requires Valid(f)
  {
    exists b: nat :: Opening(f, x.start, b) && b <= x.end < |f.lines| && StaysOpen(f, x.start, b, x.end)
      && !HoldsOpen(f, x.start, x.end)
  }

  /** A body that never closes, which swallows the rest of the file. */
  ghost predicate IsOpen(f: Source, s: nat)
    requires Valid(f)
  {
    exists b: nat :: Opening(f, s, b) && StaysOpen(f, s, b, |f.lines|)
  }

  lemma OpeningIsUnique(f: Source, s: nat, b: nat, c: nat)
    requires Valid(f) && Opening(f, s, b) && Opening(f, s, c)
    ensures b == c
  {
  }

  lemma ExtentIsUnique(f: Source, x: Span, y: Span)
    requires Valid(f) && IsExtent(f, x) && IsExtent(f, y) && x.start == y.start
    ensures x == y
  {
    var b: nat :| Opening(f, x.start, b) && b <= x.end && StaysOpen(f, x.start, b, x.end) && !HoldsOpen(f, x.start, x.end);
    var c: nat :| Opening(f, y.start, c) && c <= y.end && StaysOpen(f, y.start, c, y.end) && !HoldsOpen(f, y.start, y.end);
    OpeningIsUnique(f, x.start, b, c);
  }

  /** An open body has no extent. */
  lemma OpenHasNoExtent(f: Source, x: Span)
    requires Valid(f) && IsExtent(f, x)
    ensures !IsOpen(f, x.start)
  {
  }

  /** Line s lies in the body of one of the extents. */
  predicate Covered(found: seq<Span>, s: nat) {
    exists x :: x in found && x.start < s <= x.end
  }

  /** A body that begins before line s, in none of the extents, never closes. */
  ghost predicate Swallowed(f: Source, found: seq<Span>, s: nat)
    requires Valid(f)
  {
    exists t: nat :: t < s && IsOpen(f, t) && !Covered(found, t)
  }

  /** The extents are genuine, in order and apart, and nothing but a body hides one. */
  ghost predicate Selected(f: Source, found: seq<Span>)
    requires Valid(f)
  {
    && (forall x :: x in found ==> IsExtent(f, x))
    && (forall i, j :: 0 <= i < j < |found| ==> found[i].end < found[j].start)
    && forall x :: IsExtent(f, x) ==> x in found || Covered(found, x.start) || Swallowed(f, found, x.start)
  }

  predicate InFile(f: Source, found: seq<Span>)
    requires Valid(f)
  {
    forall x :: x in found ==> x.start <= x.end < |f.lines| && f.candidate[x.start].Some?
  }

  datatype Function = Function(start: nat, body: seq<string>)

  /** `out.setdefault`: the first extent of a name is the one that is kept. */
  function Table(f: Source, found: seq<Span>): map<string, Function>
    requires Valid(f)
    requires InFile(f, found)
  {
    if found == [] then map[]
    else
      var x := found[|found| - 1];
      SetDefault(Table(f, found[..|found| - 1]), f.candidate[x.start].value, Function(x.start + 1, f.lines[x.start..x.end + 1]))
  }

  function SetDefault<V>(m: map<string, V>, key: string, value: V): map<string, V> {
    if key in m then m else m[key := value]
  }

  /** What the scan is in before line i: nothing, a signature, or a body that began on an earlier line. */
  datatype Reading = Reading(cur: Option<string>, start: nat, body: seq<string>, depth: int, seen: bool)

  ghost predicate Scanning(f: Source, i: nat, r: Reading)
    requires Valid(f) && i <= |f.lines|
  {
    r.cur.Some? ==>
      && r.start < i && f.candidate[r.start] == r.cur && r.body == f.lines[r.start..i]
      && r.depth == Depth(f.syntax, r.start + 1, i)
      && (!r.seen ==> Signature(f, r.start, i))
      && (r.seen ==> exists b: nat :: Opening(f, r.start, b) && b < i && StaysOpen(f, r.start, b, i))
  }

  /** Every extent that starts before line i is dealt with, or may be under way. */
  ghost predicate Accounted(f: Source, found: seq<Span>, i: nat, r: Reading)
    requires Valid(f)
  {
    forall x :: IsExtent(f, x) && x.start < i ==>
      x in found || Covered(found, x.start) || (r.cur.Some? && (x.start == r.start || (r.seen && r.start < x.start)))
  }

  ghost predicate Apart(f: Source, found: seq<Span>, limit: nat)
    requires Valid(f)
  {
    && (forall x :: x in found ==> IsExtent(f, x) && x.start < x.end < limit)
    && forall i, j :: 0 <= i < j < |found| ==> found[i].end < found[j].start
  }

  ghost predicate Invariant(f: Source, found: seq<Span>, i: nat, r: Reading)
    requires Valid(f) && i <= |f.lines|
  {
    && Scanning(f, i, r) && Accounted(f, found, i, r)
    && Apart(f, found, if r.cur.Some? then r.start else i)
  }

  /** A signature that meets another candidate or a semicolon was not the start of an extent. */
  lemma SignatureEnds(f: Source, s: nat, i: nat, x: Span)
    requires Valid(f) && s < i < |f.lines| && Signature(f, s, i)
    requires f.candidate[i].Some? || f.closes[i]
    requires x.start == s
    ensures !IsExtent(f, x)
  {
  }

  lemma Starts(f: Source, found: seq<Span>, i: nat, r: Reading)
    requires Valid(f) && i < |f.lines| && Invariant(f, found, i, r)
    requires f.candidate[i].Some? && (r.cur.Some? ==> !r.seen)
    ensures Invariant(f, found, i + 1, Reading(f.candidate[i], i, [f.lines[i]], 0, false))
  {
    if r.cur.Some? {
      forall x: Span | x.start == r.start ensures !IsExtent(f, x) {
        SignatureEnds(f, r.start, i, x);
      }
    }
  }

  lemma Passes(f: Source, found: seq<Span>, i: nat, r: Reading)
    requires Valid(f) && i < |f.lines| && Invariant(f, found, i, r)
    requires r.cur == None && f.candidate[i] == None
    ensures Invariant(f, found, i + 1, r)
  {
  }

  lemma Closes(f: Source, found: seq<Span>, i: nat, r: Reading)
    requires Valid(f) && i < |f.lines| && Invariant(f, found, i, r)
    requires r.cur.Some? && !r.seen && f.candidate[i] == None && f.closes[i]
    ensures Invariant(f, found, i + 1, r.(cur := None))
  {
    forall x: Span | x.start == r.start ensures !IsExtent(f, x) {
      SignatureEnds(f, r.start, i, x);
    }
  }

  /** The reading after a line of a signature or a body. */
  function Longer(f: Source, i: nat, r: Reading): Reading
    requires Valid(f) && i < |f.lines|
  {
    r.(body := r.body + [f.lines[i]], depth := r.depth + Net(f.syntax[i]), seen := r.seen || '{' in f.syntax[i])
  }

  lemma BodyBegan(f: Source, i: nat, r: Reading) returns (b: nat)
    requires Valid(f) && i < |f.lines| && Scanning(f, i, r) && r.cur.Some?
    requires r.seen || (f.candidate[i] == None && !f.closes[i] && '{' in f.syntax[i])
    ensures Opening(f, r.start, b) && b <= i && StaysOpen(f, r.start, b, i)
  {
    if r.seen {
      b :| Opening(f, r.start, b) && b < i && StaysOpen(f, r.start, b, i);
    } else {
      b := i;
    }
  }

  lemma Reads(f: Source, found: seq<Span>, i: nat, r: Reading)
    requires Valid(f) && i < |f.lines| && Invariant(f, found, i, r) && r.cur.Some?
    requires r.seen || (f.candidate[i] == None && !f.closes[i])
    requires Longer(f, i, r).seen ==> Longer(f, i, r).depth > 0
    ensures Invariant(f, found, i + 1, Longer(f, i, r))
  {
    if Longer(f, i, r).seen {
      var b := BodyBegan(f, i, r);
      assert HoldsOpen(f, r.start, i);
      assert Opening(f, r.start, b) && b < i + 1 && StaysOpen(f, r.start, b, i + 1);
    }
  }

  lemma Records(f: Source, found: seq<Span>, i: nat, r: Reading)
    requires Valid(f) && i < |f.lines| && Invariant(f, found, i, r) && r.cur.Some?
    requires r.seen || (f.candidate[i] == None && !f.closes[i])
    requires Longer(f, i, r).seen && Longer(f, i, r).depth <= 0
    ensures var x := Span(r.start, i);
      IsExtent(f, x) && Invariant(f, found + [x], i + 1, Longer(f, i, r).(cur := None))
  {
    var x := Span(r.start, i);
    var b := BodyBegan(f, i, r);
    assert !HoldsOpen(f, r.start, i);
    assert IsExtent(f, x);
    forall y | IsExtent(f, y) && y.start == r.start ensures y == x {
      ExtentIsUnique(f, x, y);
    }
    var found' := found + [x];
    assert x == found'[|found|];
    forall y | IsExtent(f, y) && y.start < i + 1 ensures y in found' || Covered(found', y.start) {
      if y in found {
      } else if Covered(found, y.start) {
        var z :| z in found && z.start < y.start <= z.end;
        assert z in found';
      }
    }
  }

  lemma Ends(f: Source, found: seq<Span>, r: Reading)
    requires Valid(f) && Invariant(f, found, |f.lines|, r)
    ensures Selected(f, found)
  {
    forall x | IsExtent(f, x) && x !in found && !Covered(found, x.start)
      ensures Swallowed(f, found, x.start)
    {
      assert x.start < |f.lines|;
      if r.seen {
        OpenHasNoExtent(f, x);
        assert IsOpen(f, r.start);
        assert !Covered(found, r.start);
      }
    }
  }

  lemma TableGrows(f: Source, found: seq<Span>, x: Span)
    requires Valid(f)
    requires InFile(f, found + [x])
    ensures Table(f, found + [x]) ==
      SetDefault(Table(f, found), f.candidate[x.start].value, Function(x.start + 1, f.lines[x.start..x.end + 1]))
  {
    assert (found + [x])[..|found|] == found;
  }

  /** The table is that of the selected extents. */
  ghost predicate IsTable(f: Source, out: map<string, Function>)
    requires Valid(f)
  {
    exists found :: Selected(f, found) && InFile(f, found) && out == Table(f, found)
  }

  method FunctionsByFile(f: Source) returns (out: map<string, Function>)
    requires Valid(f)
    ensures IsTable(f, out)
  {
    hide Invariant, Selected, Net, IsExtent;
    out := map[];
    ghost var found: seq<Span> := [];
    var cur: Option<string>, start, body: seq<string>, depth, seen := None, 0, [], 0, false;
    NothingRead(f);
    for i := 0 to |f.lines|
      invariant Invariant(f, found, i, Reading(cur, start, body, depth, seen))
      invariant InFile(f, found) && out == Table(f, found)
    {
      ghost var r := Reading(cur, start, body, depth, seen);
      if cur == None {
        if f.candidate[i].Some? {
          Starts(f, found, i, r);
          cur, start, body, depth, seen := f.candidate[i], i, [f.lines[i]], 0, false;
        } else {
          Passes(f, found, i, r);
        }
        continue;
      }
      if !seen {
        if f.candidate[i].Some? {
          Starts(f, found, i, r);
          cur, start, body, depth := f.candidate[i], i, [f.lines[i]], 0;
          continue;
        }
        if f.closes[i] {
          Closes(f, found, i, r);
          cur := None;
          continue;
        }
      }
      body := body + [f.lines[i]];
      depth := depth + Net(f.syntax[i]);
      if '{' in f.syntax[i] {
        seen := true;
      }
      if seen && depth <= 0 {
        ghost var x := Span(start, i);
        Records(f, found, i, r);
        BodyOf(f, found, i, r);
        out := SetDefault(out, cur.value, Function(start + 1, body));
        TableGrows(f, found, x);
        found := found + [x];
        cur := None;
      } else {
        Reads(f, found, i, r);
      }
    }
    Ends(f, found, Reading(cur, start, body, depth, seen));
  }

  lemma NothingRead(f: Source)
    requires Valid(f)
    ensures Invariant(f, [], 0, Reading(None, 0, [], 0, false))
  {
  }

  lemma BodyOf(f: Source, found: seq<Span>, i: nat, r: Reading)
    requires Valid(f) && i < |f.lines| && Invariant(f, found, i, r) && r.cur.Some?
    ensures r.start < i && f.candidate[r.start] == r.cur && r.body + [f.lines[i]] == f.lines[r.start..i + 1]
  {
  }

  /** The table holds the name of every extent, and for each name its first extent. */
  lemma {:induction false} FirstWins(f: Source, found: seq<Span>, i: nat)
    requires Valid(f) && InFile(f, found) && i < |found|
    requires forall j :: 0 <= j < i ==> f.candidate[found[j].start] != f.candidate[found[i].start]
    ensures var x := found[i];
      var name := f.candidate[x.start].value;
      name in Table(f, found) && Table(f, found)[name] == Function(x.start + 1, f.lines[x.start..x.end + 1])
  {
    var before := found[..|found| - 1];
    if i < |before| {
      FirstWins(f, before, i);
    } else {
      NotYet(f, before, f.candidate[found[i].start].value);
    }
  }

  lemma {:induction false} NotYet(f: Source, found: seq<Span>, name: string)
    requires Valid(f) && InFile(f, found)
    requires forall x :: x in found ==> f.candidate[x.start] != Some(name)
    ensures name !in Table(f, found)
  {
    if found != [] {
      NotYet(f, found[..|found| - 1], name);
    }
  }

  // ---------------------------------------------------------------- braces on the candidate's own line

  /** Counted from the candidate's own line on, the braces have opened and are closed again on line k. */
  predicate Balances(f: Source, s: nat, k: nat)
    requires Valid(f) && k < |f.lines|
  {
    (exists j :: s <= j <= k && '{' in f.syntax[j]) && Depth(f.syntax, s, k + 1) <= 0
  }

  /** The extent closes where all braces of the function do. */
  predicate IsWhole(f: Source, x: Span)
    requires Valid(f) && x.end < |f.lines|
  {
    Balances(f, x.start, x.end) && forall k :: x.start <= k < x.end ==> !Balances(f, x.start, k)
  }

  lemma {:induction false} DepthFrom(syntax: seq<string>, a: nat, b: nat)
    requires a < b <= |syntax|
    ensures Depth(syntax, a, b) == Net(syntax[a]) + Depth(syntax, a + 1, b)
  {
    if a + 1 < b {
      DepthFrom(syntax, a, b - 1);
    }
  }

  lemma {:induction false} NothingOpens(f: Source, s: nat, k: nat)
    requires Valid(f) && s <= k < |f.lines| && forall j :: s < j <= k ==> '{' !in f.syntax[j]
    ensures Depth(f.syntax, s + 1, k + 1) <= 0
  {
    if s < k {
      NothingOpens(f, s, k - 1);
      CountAbsent('{', f.syntax[k]);
    }
  }

  /** What the braces of the candidate's own line must be for the lines after it to tell the end. */
  predicate OwnLineAgrees(f: Source, x: Span)
    requires Valid(f) && x.start <= x.end < |f.lines|
  {
    var opens, own := '{' in f.syntax[x.start], Net(f.syntax[x.start]);
    && (opens ==> 0 < own <= -Balance(f, x.start, x.end))
    && forall k :: x.start < k < x.end && (opens || HoldsOpen(f, x.start, k)) ==> own + Balance(f, x.start, k) > 0
  }

  lemma BalancesFrom(f: Source, s: nat, b: nat, k: nat)
    requires Valid(f) && Opening(f, s, b) && s <= k < |f.lines|
    ensures Depth(f.syntax, s, k + 1) == Net(f.syntax[s]) + Balance(f, s, k)
    ensures Balances(f, s, k) <==> ('{' in f.syntax[s] || k >= b) && Net(f.syntax[s]) + Balance(f, s, k) <= 0
    ensures k < b ==> !HoldsOpen(f, s, k)
  {
    DepthFrom(f.syntax, s, k + 1);
    if k < b {
      NothingOpens(f, s, k);
    }
  }

  /** Exactly when an extent is the whole function. */
  lemma WholeIff(f: Source, x: Span)
    requires Valid(f) && IsExtent(f, x)
    ensures x.start < x.end < |f.lines| && (IsWhole(f, x) <==> OwnLineAgrees(f, x))
  {
    var s, e := x.start, x.end;
    var b: nat :| Opening(f, s, b) && b <= e < |f.lines| && StaysOpen(f, s, b, e) && !HoldsOpen(f, s, e);
    var opens, own := '{' in f.syntax[s], Net(f.syntax[s]);
    if !opens {
      CountAbsent('{', f.syntax[s]);
    }
    BalancesFrom(f, s, b, e);
    BalancesFrom(f, s, b, s);
    forall k | s < k < e ensures !Balances(f, s, k) <==> (opens || HoldsOpen(f, s, k) ==> own + Balance(f, s, k) > 0) {
      BalancesFrom(f, s, b, k);
    }
    hide Balances, Balance, Opening, Net;
  }

  /**
   * In the ordinary case, a last line that closes just what the lines after the candidate opened: the
   * extent is the whole function if and only if no brace opens on the candidate's own line, and its
   * braces balance if and only if that line's do.
   */
  lemma OwnBraceCutsShort(f: Source, x: Span)
    requires Valid(f) && IsExtent(f, x) && Balance(f, x.start, x.end) == 0
    requires '}' in f.syntax[x.start] ==> '{' in f.syntax[x.start]
    ensures IsWhole(f, x) <==> '{' !in f.syntax[x.start]
    ensures Depth(f.syntax, x.start, x.end + 1) == 0 <==> Net(f.syntax[x.start]) == 0
  {
    WholeIff(f, x);
    DepthFrom(f.syntax, x.start, x.end + 1);
    if '{' !in f.syntax[x.start] {
      CountAbsent('{', f.syntax[x.start]);
      CountAbsent('}', f.syntax[x.start]);
    }
  }

  /** A function whose body opens on its first line, with a block inside. */
  const SHORT: Source :=
    Source(["f() {", "if {", "}", "z", "}"], ["f() {", "if {", "}", "z", "}"],
           [Some("f"), None, None, None, None], [false, false, false, false, false])

  lemma OpensOne(line: string, before: string)
    requires line == before + "{" && '{' !in before && '}' !in before
    ensures Net(line) == 1 && '{' in line
  {
    CountOfSum('{', before, "{");
    CountOfSum('}', before, "{");
    CountAbsent('{', before);
    CountAbsent('}', before);
    CountAbsent('}', "{");
    assert "{"[0] == '{' && line[|before|] == '{';
  }

  lemma ShortNets()
    ensures var t := SHORT.syntax;
      Net(t[0]) == 1 && Net(t[1]) == 1 && Net(t[2]) == -1 && Net(t[3]) == 0 && Net(t[4]) == -1
    ensures '{' in SHORT.syntax[0] && '{' in SHORT.syntax[1]
  {
    OpensOne("f() {", "f() ");
    OpensOne("if {", "if ");
    CountAbsent('{', "}");
    CountAbsent('{', "z");
    CountAbsent('}', "z");
    assert Net("}") == -1 && Net("z") == 0;
  }

  lemma ShortDepths()
    ensures var t := SHORT.syntax;
      && Depth(t, 1, 2) == 1 && Depth(t, 1, 3) == 0
      && Depth(t, 0, 1) == 1 && Depth(t, 0, 2) == 2 && Depth(t, 0, 3) == 1 && Depth(t, 0, 4) == 1 && Depth(t, 0, 5) == 0
  {
    ShortNets();
    hide Net;
    var t := SHORT.syntax;
    assert Depth(t, 1, 1) == 0 && Depth(t, 0, 0) == 0;
    assert Depth(t, 1, 2) == Depth(t, 1, 1) + Net(t[1]) && Depth(t, 0, 1) == Depth(t, 0, 0) + Net(t[0]);
    assert Depth(t, 0, 2) == Depth(t, 0, 1) + Net(t[1]) && Depth(t, 0, 3) == Depth(t, 0, 2) + Net(t[2]);
    assert Depth(t, 0, 4) == Depth(t, 0, 3) + Net(t[3]);
  }

  /** Its extent ends with the block; the function ends two lines later. */
  lemma ShortIsCutShort()
    ensures Valid(SHORT) && IsExtent(SHORT, Span(0, 2)) && !IsWhole(SHORT, Span(0, 2)) && IsWhole(SHORT, Span(0, 4))
  {
    ShortDepths();
    ShortNets();
    hide Depth, Net;
    assert Opening(SHORT, 0, 1);
    assert HoldsOpen(SHORT, 0, 1) && !HoldsOpen(SHORT, 0, 2);
    assert StaysOpen(SHORT, 0, 1, 2);
    assert !Balances(SHORT, 0, 0) && !Balances(SHORT, 0, 1) && !Balances(SHORT, 0, 2);
    assert !Balances(SHORT, 0, 3) && Balances(SHORT, 0, 4);
  }

  /** A last line that closes one brace more than the lines after the candidate opened. */
  const SURPLUS: Source :=
    Source(["f() {", "if {", "}}"], ["f() {", "if {", "}}"], [Some("f"), None, None], [false, false, false])

  lemma SurplusNets()
    ensures var t := SURPLUS.syntax; Net(t[0]) == 1 && Net(t[1]) == 1 && Net(t[2]) == -2
    ensures '{' in SURPLUS.syntax[0] && '{' in SURPLUS.syntax[1]
  {
    OpensOne("f() {", "f() ");
    OpensOne("if {", "if ");
    CountAbsent('{', "}}");
    assert "}}"[1..] == "}";
  }

  lemma SurplusDepths()
    ensures var t := SURPLUS.syntax;
      Depth(t, 1, 2) == 1 && Depth(t, 1, 3) == -1 && Depth(t, 0, 1) == 1 && Depth(t, 0, 2) == 2 && Depth(t, 0, 3) == 0
  {
    SurplusNets();
    hide Net;
    var t := SURPLUS.syntax;
    assert Depth(t, 1, 1) == 0 && Depth(t, 0, 0) == 0;
    assert Depth(t, 1, 2) == Depth(t, 1, 1) + Net(t[1]) && Depth(t, 0, 1) == Depth(t, 0, 0) + Net(t[0]);
    assert Depth(t, 0, 2) == Depth(t, 0, 1) + Net(t[1]);
  }

  /** Such an extent is whole although a brace opens on the candidate's own line. */
  lemma SurplusIsWhole()
    ensures Valid(SURPLUS) && IsExtent(SURPLUS, Span(0, 2)) && IsWhole(SURPLUS, Span(0, 2))
    ensures '{' in SURPLUS.syntax[0] && Net(SURPLUS.syntax[0]) == 1
  {
    SurplusDepths();
    SurplusNets();
    hide Depth, Net;
    assert Opening(SURPLUS, 0, 1);
    assert StaysOpen(SURPLUS, 0, 1, 2) && !HoldsOpen(SURPLUS, 0, 2);
    assert !Balances(SURPLUS, 0, 0) && !Balances(SURPLUS, 0, 1) && Balances(SURPLUS, 0, 2);
  }
}

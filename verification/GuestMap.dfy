/**
 * The interval index that takes a native address back to guest blocks
 * (harness/freeze_guest_read.py and harness/box86_guest_profile.py).
 */
module GuestMap {
  import opened Tally
  import opened Wrappers

  /** One compiled block: its native range and the guest range it came from. */
  datatype Block = Block(start: nat, size: nat, x86: nat, xsize: nat)

  predicate Holds(b: Block, ip: int) { b.start <= ip < b.start + b.size }

  /** The order of the records as tuples. */
  predicate TupleAtMost(a: Block, b: Block) {
    || a.start < b.start
    || (a.start == b.start && (a.size < b.size
        || (a.size == b.size && (a.x86 < b.x86 || (a.x86 == b.x86 && a.xsize <= b.xsize)))))
  }

  /** It is a total order: blocks that are each at most the other are the same. */
  lemma TupleOrder(a: Block, b: Block, c: Block)
    ensures TupleAtMost(a, b) || TupleAtMost(b, a)
    ensures TupleAtMost(a, b) && TupleAtMost(b, a) ==> a == b
    ensures TupleAtMost(a, b) && TupleAtMost(b, c) ==> TupleAtMost(a, c)
  {
  }

  /** So there is one sorted copy of a list. */
  lemma {:induction false} SortedIsUnique(a: seq<Block>, b: seq<Block>)
    requires Ordered(a) && Ordered(b) && multiset(a) == multiset(b)
    ensures a == b
  {
    hide Ordered, TupleAtMost;
    assert |multiset(a)| == |multiset(b)|;
    if a != [] {
      SameLast(a, b);
      DropLast(a);
      DropLast(b);
      SortedIsUnique(a[..|a| - 1], b[..|b| - 1]);
    }
  }

  lemma SameLast(a: seq<Block>, b: seq<Block>)
    requires Ordered(a) && Ordered(b) && multiset(a) == multiset(b) && a != [] && b != []
    ensures a[|a| - 1] == b[|b| - 1]
  {
    var x, y := a[|a| - 1], b[|b| - 1];
    LastIsLargest(a);
    LastIsLargest(b);
    hide Ordered, TupleAtMost;
    assert x in multiset(b) && y in multiset(a);
    TupleOrder(x, y, x);
  }

  lemma DropLast(a: seq<Block>)
    requires Ordered(a) && a != []
    ensures var front := a[..|a| - 1];
      Ordered(front) && a == front + [a[|a| - 1]] && multiset(front) == multiset(a) - multiset{a[|a| - 1]}
  {
    assert a == a[..|a| - 1] + [a[|a| - 1]];
  }

  lemma LastIsLargest(a: seq<Block>)
    requires Ordered(a) && a != []
    ensures forall c :: c in multiset(a) ==> TupleAtMost(c, a[|a| - 1])
  {
    forall c | c in multiset(a) ensures TupleAtMost(c, a[|a| - 1]) {
      var i :| 0 <= i < |a| && a[i] == c;
      TupleOrder(c, c, c);
    }
  }

  predicate Ordered(recs: seq<Block>) {
    forall i, j :: 0 <= i < j < |recs| ==> TupleAtMost(recs[i], recs[j])
  }

  /** A block with no size can hold no address; loading drops it. */
  predicate Sized(recs: seq<Block>) {
    forall i :: 0 <= i < |recs| ==> recs[i].size > 0
  }

  /** What reading the profiler's snapshot leaves: blocks sorted by start alone, none dropped. */
  predicate Ascending(recs: seq<Block>) {
    forall i, j :: 0 <= i < j < |recs| ==> recs[i].start <= recs[j].start
  }

  /** Tuple order is one such order: what `load_map` leaves is searched the same way. */
  lemma OrderedAscends(recs: seq<Block>)
    requires Ordered(recs)
    ensures Ascending(recs)
  {
    forall i, j | 0 <= i < j < |recs| ensures recs[i].start <= recs[j].start {
      assert TupleAtMost(recs[i], recs[j]);
    }
  }

  // `sorted`.

  function Insert(recs: seq<Block>, b: Block): (r: seq<Block>)
    requires Ordered(recs)
    ensures Ordered(r) && multiset(r) == multiset(recs) + multiset{b} && |r| == |recs| + 1
  {
    if recs == [] then [b]
    else
      var last, front := recs[|recs| - 1], recs[..|recs| - 1];
      assert recs == front + [last];
      if TupleAtMost(last, b) then recs + [b]
      else
        var r := Insert(front, b);
        InsertBelow(front, last, b, r);
        r + [last]
  }

  lemma InsertBelow(front: seq<Block>, last: Block, b: Block, r: seq<Block>)
    requires Ordered(front + [last]) && !TupleAtMost(last, b)
    requires multiset(r) == multiset(front) + multiset{b}
    ensures forall c :: c in r ==> TupleAtMost(c, last)
  {
    forall c | c in r ensures TupleAtMost(c, last) {
      assert c in multiset(r);
      if c != b {
        assert c in front;
        var i :| 0 <= i < |front| && front[i] == c;
        assert (front + [last])[i] == c && (front + [last])[|front|] == last;
      }
    }
  }

  function Sorted(recs: seq<Block>): (r: seq<Block>)
    ensures Ordered(r) && multiset(r) == multiset(recs) && |r| == |recs|
  {
    if recs == [] then []
    else
      assert recs == recs[..|recs| - 1] + [recs[|recs| - 1]];
      Insert(Sorted(recs[..|recs| - 1]), recs[|recs| - 1])
  }

  /** Sorting leaves what is in order alone. */
  lemma SortedIsSame(recs: seq<Block>)
    requires Ordered(recs)
    ensures Sorted(recs) == recs
  {
    SortedIsUnique(Sorted(recs), recs);
  }

  // ---------------------------------------------------------------- the measurement

  /** Block k is the last one before position i with the given start. */
  predicate LastWith(recs: seq<Block>, start: nat, k: nat, i: nat)
    requires i <= |recs|
  {
    k < i && recs[k].start == start && forall j :: k < j < i ==> recs[j].start != start
  }

  predicate RepeatAt(recs: seq<Block>, i: nat)
    requires i < |recs|
  {
    exists k :: 0 <= k < i && recs[k].start == recs[i].start
  }

  predicate ReuseAt(recs: seq<Block>, i: nat)
    requires i < |recs|
  {
    exists k: nat :: k < i && LastWith(recs, recs[i].start, k, i) && recs[k].x86 != recs[i].x86
  }

  predicate OverlapAt(recs: seq<Block>, i: nat)
    requires 0 < i < |recs|
  {
    recs[i - 1].start + recs[i - 1].size > recs[i].start
  }

  // The positions up to n at which a block has the start of an earlier one, or has that start for
  // another guest address than the last time, or begins before the block just before it ends.

  function Repeats(recs: seq<Block>, n: nat): set<nat>
    requires n <= |recs|
  {
    set i: nat | i < n && RepeatAt(recs, i)
  }

  function Reuses(recs: seq<Block>, n: nat): set<nat>
    requires n <= |recs|
  {
    set i: nat | i < n && ReuseAt(recs, i)
  }

  function Overlaps(recs: seq<Block>, n: nat): set<nat>
    requires n <= |recs|
  {
    set i: nat | 0 < i < n && OverlapAt(recs, i)
  }

  /** For records in any order; the overlaps are those of a sorted copy. */
  method MapInvariants(recs: seq<Block>) returns (dup: nat, overlap: nat, reused: nat)
    ensures dup == |Repeats(recs, |recs|)| && reused == |Reuses(recs, |recs|)|
    ensures overlap == |Overlaps(Sorted(recs), |recs|)|
    ensures reused <= dup && (Sized(recs) ==> dup <= overlap)
    ensures Ordered(recs) ==> overlap == |Overlaps(recs, |recs|)|
  {
    hide Repeats, Reuses, Overlaps, RepeatAt, ReuseAt, Sorted, Ordered;
    dup, overlap, reused := 0, 0, 0;
    var seen: map<nat, nat> := map[];
    Empty(recs);
    for i := 0 to |recs|
      invariant Seen(recs, i, seen)
      invariant dup == |Repeats(recs, i)| && reused == |Reuses(recs, i)|
    {
      var b := recs[i];
      Grow(recs, i);
      SeenTells(recs, i, seen);
      if b.start in seen {
        dup := dup + 1;
        if seen[b.start] != b.x86 {
          reused := reused + 1;
        }
      }
      seen := seen[b.start := b.x86];
    }
    var s := Sorted(recs);
    Empty(s);
    for i := 0 to if |s| == 0 then 0 else |s| - 1
      invariant overlap == |Overlaps(s, if |s| == 0 then 0 else i + 1)|
    {
      GrowOverlaps(s, i + 1);
      if s[i].start + s[i].size > s[i + 1].start {
        overlap := overlap + 1;
      }
    }
    ReusesRepeat(recs);
    if Sized(recs) {
      RepeatsOverlap(recs);
    }
    if Ordered(recs) {
      SortedIsSame(recs);
    }
  }

  /** The dictionary after i blocks: the guest address each start was last compiled for. */
  ghost predicate Seen(recs: seq<Block>, i: nat, seen: map<nat, nat>)
    requires i <= |recs|
  {
    && (forall s :: s in seen ==> exists k: nat :: LastWith(recs, s, k, i) && seen[s] == recs[k].x86)
    && (forall k :: 0 <= k < i ==> recs[k].start in seen)
  }

  lemma SeenTells(recs: seq<Block>, i: nat, seen: map<nat, nat>)
    requires i < |recs| && Seen(recs, i, seen)
    ensures Seen(recs, i + 1, seen[recs[i].start := recs[i].x86])
    ensures recs[i].start in seen <==> RepeatAt(recs, i)
    ensures recs[i].start in seen ==> (seen[recs[i].start] != recs[i].x86 <==> ReuseAt(recs, i))
    ensures ReuseAt(recs, i) ==> RepeatAt(recs, i)
  {
    var b := recs[i];
    if b.start in seen {
      var k: nat :| LastWith(recs, b.start, k, i) && seen[b.start] == recs[k].x86;
      forall m: nat | LastWith(recs, b.start, m, i) ensures m == k { }
    }
    var seen' := seen[b.start := b.x86];
    forall s | s in seen' ensures exists k: nat :: LastWith(recs, s, k, i + 1) && seen'[s] == recs[k].x86 {
      if s == b.start {
        assert LastWith(recs, s, i, i + 1);
      } else {
        var k: nat :| LastWith(recs, s, k, i) && seen[s] == recs[k].x86;
        assert LastWith(recs, s, k, i + 1);
      }
    }
  }

  lemma StartsAscend(recs: seq<Block>, i: nat, j: nat)
    requires Ordered(recs) && i <= j < |recs|
    ensures recs[i].start <= recs[j].start && (recs[i].start == recs[j].start ==> recs[i].size <= recs[j].size)
  {
    assert i < j ==> TupleAtMost(recs[i], recs[j]);
  }

  lemma Empty(recs: seq<Block>)
    ensures Repeats(recs, 0) == Reuses(recs, 0) == Overlaps(recs, 0) == {}
    ensures |recs| > 0 ==> Overlaps(recs, 1) == {}
  {
  }

  lemma Grow(recs: seq<Block>, i: nat)
    requires i < |recs|
    ensures |Repeats(recs, i + 1)| == |Repeats(recs, i)| + (if RepeatAt(recs, i) then 1 else 0)
    ensures |Reuses(recs, i + 1)| == |Reuses(recs, i)| + (if ReuseAt(recs, i) then 1 else 0)
  {
    hide RepeatAt, ReuseAt;
    OneMorePosition(Repeats(recs, i), Repeats(recs, i + 1), i, RepeatAt(recs, i));
    OneMorePosition(Reuses(recs, i), Reuses(recs, i + 1), i, ReuseAt(recs, i));
  }

  lemma GrowOverlaps(recs: seq<Block>, i: nat)
    requires 0 < i < |recs|
    ensures |Overlaps(recs, i + 1)| == |Overlaps(recs, i)| + (if OverlapAt(recs, i) then 1 else 0)
  {
    OneMorePosition(Overlaps(recs, i), Overlaps(recs, i + 1), i, OverlapAt(recs, i));
  }

  lemma OneMorePosition(s: set<nat>, t: set<nat>, i: nat, here: bool)
    requires i !in s && forall k :: k in t <==> k in s || (here && k == i)
    ensures |t| == |s| + if here then 1 else 0
  {
    assert t == if here then s + {i} else s;
  }

  lemma ReusesRepeat(recs: seq<Block>)
    ensures |Reuses(recs, |recs|)| <= |Repeats(recs, |recs|)|
  {
    SubsetSize(Reuses(recs, |recs|), Repeats(recs, |recs|));
  }

  function StartSet(recs: seq<Block>, n: nat): set<nat>
    requires n <= |recs|
  {
    set i | 0 <= i < n :: recs[i].start
  }

  /** What repeats is all but one block for each start, in whatever order. */
  lemma {:induction false} RepeatsAndStarts(recs: seq<Block>, n: nat)
    requires n <= |recs|
    ensures |Repeats(recs, n)| + |StartSet(recs, n)| == n
  {
    if n == 0 {
      assert StartSet(recs, 0) == {} && Repeats(recs, 0) == {};
    } else {
      RepeatsAndStarts(recs, n - 1);
      Grow(recs, n - 1);
      assert StartSet(recs, n) == StartSet(recs, n - 1) + {recs[n - 1].start};
      assert RepeatAt(recs, n - 1) <==> recs[n - 1].start in StartSet(recs, n - 1);
    }
  }

  // One start at a time: the guest addresses it was compiled for, in the order of the records.

  function Guests(recs: seq<Block>, n: nat, start: nat): seq<nat>
    requires n <= |recs|
  {
    if n == 0 then []
    else Guests(recs, n - 1, start) + if recs[n - 1].start == start then [recs[n - 1].x86] else []
  }

  /** How often an entry differs from the one before it. */
  function Changes(xs: seq<nat>): nat {
    if |xs| < 2 then 0
    else Changes(xs[..|xs| - 1]) + if xs[|xs| - 2] != xs[|xs| - 1] then 1 else 0
  }

  lemma ChangesOfMore(xs: seq<nat>, x: nat)
    ensures Changes(xs + [x]) == Changes(xs) + if xs != [] && xs[|xs| - 1] != x then 1 else 0
  {
    assert (xs + [x])[..|xs|] == xs;
  }

  function Of(recs: seq<Block>, positions: set<nat>, start: nat): set<nat> {
    set i | i in positions && i < |recs| && recs[i].start == start
  }

  /** The last guest address of a start, if there is one. */
  lemma {:induction false} LastGuest(recs: seq<Block>, n: nat, start: nat)
    requires n <= |recs|
    ensures var xs := Guests(recs, n, start);
      if xs == [] then forall k :: 0 <= k < n ==> recs[k].start != start
      else exists k: nat :: LastWith(recs, start, k, n) && xs[|xs| - 1] == recs[k].x86
  {
    if n > 0 {
      LastGuest(recs, n - 1, start);
      if recs[n - 1].start == start {
        assert LastWith(recs, start, n - 1, n);
      } else if Guests(recs, n - 1, start) != [] {
        var xs := Guests(recs, n - 1, start);
        var k: nat :| LastWith(recs, start, k, n - 1) && xs[|xs| - 1] == recs[k].x86;
        assert LastWith(recs, start, k, n) && Guests(recs, n, start) == xs;
      }
    }
  }

  /**
   * A start is repeated by all its blocks but the first, and reused as often as its guest address
   * changes from one of them to the next.
   */
  lemma {:induction false} ReusesAreChanges(recs: seq<Block>, n: nat, start: nat)
    requires n <= |recs|
    ensures |Of(recs, Reuses(recs, n), start)| == Changes(Guests(recs, n, start))
    ensures |Of(recs, Repeats(recs, n), start)| == if Guests(recs, n, start) == [] then 0 else |Guests(recs, n, start)| - 1
  {
    if n == 0 {
      assert Of(recs, Reuses(recs, 0), start) == {} && Of(recs, Repeats(recs, 0), start) == {};
    } else {
      var i := n - 1;
      ReusesAreChanges(recs, i, start);
      var here := recs[i].start == start;
      if here { ReuseOrNot(recs, i, start); }
      OneMorePosition(Of(recs, Reuses(recs, i), start), Of(recs, Reuses(recs, n), start), i, here && ReuseAt(recs, i));
      OneMorePosition(Of(recs, Repeats(recs, i), start), Of(recs, Repeats(recs, n), start), i, here && RepeatAt(recs, i));
      hide ReuseAt, RepeatAt, LastWith, Reuses, Repeats, Of;
      var xs, ys := Guests(recs, i, start), Guests(recs, n, start);
      if here {
        ChangesOfMore(xs, recs[i].x86);
      } else {
        assert ys == xs;
      }
    }
  }

  lemma ReuseOrNot(recs: seq<Block>, i: nat, start: nat)
    requires i < |recs| && recs[i].start == start
    ensures var xs := Guests(recs, i, start);
      && (RepeatAt(recs, i) <==> xs != [])
      && (ReuseAt(recs, i) <==> xs != [] && xs[|xs| - 1] != recs[i].x86)
  {
    LastGuest(recs, i, start);
    hide Guests;
    if k: nat :| k < i && LastWith(recs, start, k, i) {
      forall m: nat | LastWith(recs, start, m, i) ensures m == k { }
    }
  }

  lemma SameStarts(a: seq<Block>, b: seq<Block>)
    requires multiset(a) == multiset(b)
    ensures StartSet(a, |a|) <= StartSet(b, |b|)
  {
    forall i | 0 <= i < |a| ensures a[i].start in StartSet(b, |b|) {
      assert a[i] in multiset(b);
      var j :| 0 <= j < |b| && b[j] == a[i];
    }
  }

  /** In sorted order a repeated start is that of the block just before, which has a size. */
  lemma RepeatsOverlapInOrder(s: seq<Block>)
    requires Ordered(s) && Sized(s)
    ensures |Repeats(s, |s|)| <= |Overlaps(s, |s|)|
  {
    forall i | i in Repeats(s, |s|) ensures i in Overlaps(s, |s|) {
      var k :| 0 <= k < i && s[k].start == s[i].start;
      StartsAscend(s, k, i - 1);
      StartsAscend(s, i - 1, i);
    }
    SubsetSize(Repeats(s, |s|), Overlaps(s, |s|));
  }

  /** As many blocks repeat a start in any order, and so no more than overlap in the sorted one. */
  lemma RepeatsOverlap(recs: seq<Block>)
    requires Sized(recs)
    ensures |Repeats(recs, |recs|)| <= |Overlaps(Sorted(recs), |recs|)|
  {
    var s := Sorted(recs);
    SortedIsSized(recs);
    hide *;
    SameStarts(recs, s);
    SameStarts(s, recs);
    RepeatsAndStarts(recs, |recs|);
    RepeatsAndStarts(s, |s|);
    assert StartSet(recs, |recs|) == StartSet(s, |s|);
    RepeatsOverlapInOrder(s);
  }

  lemma SortedIsSized(recs: seq<Block>)
    requires Sized(recs)
    ensures Sized(Sorted(recs))
  {
    var s := Sorted(recs);
    forall i | 0 <= i < |s| ensures s[i].size > 0 {
      assert s[i] in multiset(recs);
    }
  }

  // ---------------------------------------------------------------- the lookups

  /** `bisect.bisect_right`: how many of the starts are at most x. */
  method BisectRight(starts: seq<nat>, x: int) returns (at: nat)
    requires forall i, j :: 0 <= i < j < |starts| ==> starts[i] <= starts[j]
    ensures at <= |starts|
    ensures forall i :: 0 <= i < at ==> starts[i] <= x
    ensures forall i :: at <= i < |starts| ==> x < starts[i]
  {
    var lo, hi := 0, |starts|;
    while lo < hi
      invariant 0 <= lo <= hi <= |starts|
      invariant forall i :: 0 <= i < lo ==> starts[i] <= x
      invariant forall i :: hi <= i < |starts| ==> x < starts[i]
    {
      var mid := (lo + hi) / 2;
      if x < starts[mid] {
        hi := mid;
      } else {
        lo := mid + 1;
      }
    }
    at := lo;
  }

  function Starts(recs: seq<Block>): seq<nat> { seq(|recs|, i requires 0 <= i < |recs| => recs[i].start) }

  /** The guest addresses of the blocks from k on that hold the address. */
  function OwnersFrom(recs: seq<Block>, k: nat, ip: int): set<nat> {
    set i | k <= i < |recs| && Holds(recs[i], ip) :: recs[i].x86
  }

  method Owners(recs: seq<Block>, maxsz: nat, ip: int) returns (owners: set<nat>)
    requires Ascending(recs) && forall i :: 0 <= i < |recs| ==> recs[i].size <= maxsz
    ensures owners == OwnersFrom(recs, 0, ip)
  {
    hide OwnersFrom;
    var starts := Starts(recs);
    var out: set<nat> := {};
    StartsInOrder(recs);
    var at: int := BisectRight(starts, ip);
    var j := at - 1;
    NoOwners(recs, at, ip);
    while j >= 0 && starts[j] >= ip - maxsz
      invariant -1 <= j < at
      invariant out == OwnersFrom(recs, j + 1, ip)
    {
      OneMore(recs, j, ip);
      if recs[j].start <= ip < recs[j].start + recs[j].size {
        out := out + {recs[j].x86};
      }
      j := j - 1;
    }
    owners := out;
    forall i | 0 <= i <= j ensures !Holds(recs[i], ip) {
      assert starts[i] <= starts[j];
    }
    NoneBelow(recs, j + 1, ip);
  }

  lemma StartsInOrder(recs: seq<Block>)
    requires Ascending(recs)
    ensures forall i, j :: 0 <= i < j < |recs| ==> Starts(recs)[i] <= Starts(recs)[j]
  {
  }

  lemma NoOwners(recs: seq<Block>, k: nat, ip: int)
    requires forall i :: k <= i < |recs| ==> ip < Starts(recs)[i]
    ensures OwnersFrom(recs, k, ip) == {}
  {
    forall i | k <= i < |recs| ensures !Holds(recs[i], ip) {
      assert ip < Starts(recs)[i];
    }
  }

  lemma OneMore(recs: seq<Block>, k: nat, ip: int)
    requires k < |recs|
    ensures OwnersFrom(recs, k, ip) == (if Holds(recs[k], ip) then {recs[k].x86} else {}) + OwnersFrom(recs, k + 1, ip)
  {
  }

  lemma NoneBelow(recs: seq<Block>, k: nat, ip: int)
    requires k <= |recs| && forall i :: 0 <= i < k ==> !Holds(recs[i], ip)
    ensures OwnersFrom(recs, 0, ip) == OwnersFrom(recs, k, ip)
  {
  }

  /** The block whose start is nearest at or below the address. */
  ghost predicate Nearest(items: seq<Block>, b: Block, address: int) {
    b in items && b.start <= address && forall c :: c in items && c.start <= address ==> c.start <= b.start
  }

  /** Block k is the last whose start is at most the address. */
  predicate LastBelow(items: seq<Block>, k: nat, address: int) {
    && k < |items| && items[k].start <= address
    && forall i :: k < i < |items| ==> address < items[i].start
  }

  /** `containing`: the last of the blocks with the nearest start, if it reaches past the address. */
  method Containing(items: seq<Block>, address: int) returns (item: Option<Block>)
    requires Ascending(items)
    ensures item.Some? ==> Nearest(items, item.value, address) && Holds(item.value, address)
    ensures item.Some? <==> exists k: nat :: LastBelow(items, k, address) && Holds(items[k], address)
    ensures forall k: nat :: LastBelow(items, k, address) && Holds(items[k], address) ==> item == Some(items[k])
    ensures Overlaps(items, |items|) == {} ==> OwnersFrom(items, 0, address) == if item.Some? then {item.value.x86} else {}
  {
    StartsInOrder(items);
    hide OwnersFrom, Nearest, Overlaps, LastBelow, Ascending, Starts;
    var at: int := BisectRight(Starts(items), address);
    var index := at - 1;
    LastIsAt(items, at, address);
    if index < 0 {
      NoOwners(items, 0, address);
      item := None;
      return;
    }
    var found := items[index];
    item := if address < found.start + found.size then Some(found) else None;
    LastAnswers(items, index, address);
  }

  /** What the last block with the nearest start says. */
  lemma LastAnswers(items: seq<Block>, k: nat, address: int)
    requires Ascending(items) && LastBelow(items, k, address)
    ensures Nearest(items, items[k], address) && (Holds(items[k], address) <==> address < items[k].start + items[k].size)
    ensures forall m: nat :: LastBelow(items, m, address) <==> m == k
    ensures Overlaps(items, |items|) == {} ==>
              OwnersFrom(items, 0, address) == if Holds(items[k], address) then {items[k].x86} else {}
  {
    LastIsNearest(items, k, address);
    if Overlaps(items, |items|) == {} {
      OnlyNearest(items, k, address);
    }
  }

  lemma LastIsAt(items: seq<Block>, at: nat, address: int)
    requires Ascending(items) && at <= |items|
    requires forall i :: 0 <= i < at ==> Starts(items)[i] <= address
    requires forall i :: at <= i < |items| ==> address < Starts(items)[i]
    ensures forall k: nat :: LastBelow(items, k, address) <==> k == at - 1
    ensures forall i :: at <= i < |items| ==> address < items[i].start
  {
    forall i | 0 <= i < |items| ensures if i < at then items[i].start <= address else address < items[i].start {
      assert Starts(items)[i] == items[i].start;
    }
    forall k: nat ensures LastBelow(items, k, address) <==> k == at - 1 {
      if k < at - 1 {
        assert items[at - 1].start <= address;
      }
    }
  }

  lemma LastIsNearest(items: seq<Block>, k: nat, address: int)
    requires Ascending(items) && LastBelow(items, k, address)
    ensures Nearest(items, items[k], address)
    ensures forall b :: Nearest(items, b, address) <==> exists i :: 0 <= i <= k && items[i] == b && b.start == items[k].start
  {
    forall c | c in items && c.start <= address
      ensures c.start <= items[k].start && exists i :: 0 <= i <= k && items[i] == c
    {
      var i: nat :| i < |items| && items[i] == c;
      assert i <= k;
    }
  }

  /** Some block with the nearest start holds the address, and the lookup does not find it. */
  ghost predicate Misses(items: seq<Block>, address: int) {
    && (exists b :: Nearest(items, b, address) && Holds(b, address))
    && !exists k: nat :: LastBelow(items, k, address) && Holds(items[k], address)
  }

  /**
   * That happens exactly when the last block with the nearest start ends at or before the address and
   * an earlier one with the same start reaches past it.
   */
  lemma MissesIff(items: seq<Block>, k: nat, address: int)
    requires Ascending(items) && LastBelow(items, k, address)
    ensures Misses(items, address) <==>
              && items[k].start + items[k].size <= address
              && exists i :: 0 <= i < k && items[i].start == items[k].start && address < items[i].start + items[i].size
  {
    LastIsNearest(items, k, address);
    forall m: nat | LastBelow(items, m, address) ensures m == k { }
    if i :| 0 <= i < k && items[i].start == items[k].start && address < items[i].start + items[i].size {
      assert Nearest(items, items[i], address) && Holds(items[i], address);
    }
  }

  /** In tuple order the last block with a start is the longest, and the lookup misses nothing. */
  lemma NeverMissesInOrder(items: seq<Block>, k: nat, address: int)
    requires Ordered(items) && LastBelow(items, k, address)
    ensures !Misses(items, address)
  {
    OrderedAscends(items);
    MissesIff(items, k, address);
    forall i | 0 <= i < k && items[i].start == items[k].start ensures items[i].size <= items[k].size {
      StartsAscend(items, i, k);
    }
  }

  /** A range that was recompiled shorter: the lookup answers nothing, and the older block reaches past. */
  lemma RecompiledShorterIsMissed()
    ensures var items := [Block(10, 5, 1, 1), Block(10, 2, 2, 2)];
      Ascending(items) && LastBelow(items, 1, 13) && Misses(items, 13)
  {
    var items := [Block(10, 5, 1, 1), Block(10, 2, 2, 2)];
    assert items[0].start == items[1].start;
    MissesIff(items, 1, 13);
  }

  // ---------------------------------------------------------------- what the measurement means

  lemma {:induction false} ApartWithoutOverlaps(recs: seq<Block>, i: nat, j: nat)
    requires Overlaps(recs, |recs|) == {} && i < j < |recs|
    ensures recs[i].start + recs[i].size <= recs[j].start
  {
    assert j !in Overlaps(recs, |recs|);
    if i < j - 1 {
      ApartWithoutOverlaps(recs, i, j - 1);
    }
  }

  /** No overlapping neighbours, exactly when no address lies in two blocks. */
  lemma OverlapsMeasureSharing(recs: seq<Block>)
    requires Ascending(recs) && Sized(recs)
    ensures Overlaps(recs, |recs|) == {}
       <==> forall i, j, ip: int :: 0 <= i < j < |recs| && Holds(recs[i], ip) ==> !Holds(recs[j], ip)
  {
    if Overlaps(recs, |recs|) == {} {
      forall i: nat, j: nat, ip: int | i < j < |recs| && Holds(recs[i], ip) ensures !Holds(recs[j], ip) {
        ApartWithoutOverlaps(recs, i, j);
      }
    } else {
      var i :| i in Overlaps(recs, |recs|);
      assert recs[i - 1].start <= recs[i].start;
      assert Holds(recs[i - 1], recs[i].start) && Holds(recs[i], recs[i].start);
    }
  }

  /** Without overlapping neighbours an address has at most one owner. */
  lemma OneOwner(recs: seq<Block>, ip: int)
    requires Overlaps(recs, |recs|) == {}
    ensures |OwnersFrom(recs, 0, ip)| <= 1
  {
    if i: nat :| i < |recs| && Holds(recs[i], ip) {
      forall j: nat | j < |recs| && Holds(recs[j], ip) ensures j == i {
        if i < j { ApartWithoutOverlaps(recs, i, j); }
        if j < i { ApartWithoutOverlaps(recs, j, i); }
      }
      assert OwnersFrom(recs, 0, ip) == {recs[i].x86};
    } else {
      assert OwnersFrom(recs, 0, ip) == {};
    }
  }

  lemma OnlyNearest(recs: seq<Block>, k: nat, ip: int)
    requires Overlaps(recs, |recs|) == {} && k < |recs| && recs[k].start <= ip
    requires forall i :: k < i < |recs| ==> ip < recs[i].start
    ensures OwnersFrom(recs, 0, ip) == if Holds(recs[k], ip) then {recs[k].x86} else {}
  {
    forall i: nat | i < |recs| && i != k ensures !Holds(recs[i], ip) {
      if i < k {
        ApartWithoutOverlaps(recs, i, k);
      }
    }
  }
}

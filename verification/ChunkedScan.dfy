/**
 * Searching mapped memory for a record header in bounded chunks (harness/dmime_state.py,
 * harness/cs_deadlock_census.py).  The mapped ranges are readable and do not change during a scan.
 */
module ChunkedScan {
  import opened Truncation

  type Byte = b: nat | b < 0x100

  type Memory = nat -> Byte

  datatype Range = Range(start: nat, end: nat)

  function Bytes(mem: Memory, lo: nat, hi: nat): seq<Byte>
    requires lo <= hi
  {
    seq(hi - lo, i requires 0 <= i => mem(lo + i))
  }

  ghost predicate OccursAt(mem: Memory, needle: seq<Byte>, a: nat) {
    Bytes(mem, a, a + |needle|) == needle
  }

  /** The occurrences that lie inside a range. */
  ghost predicate Inside(mem: Memory, needle: seq<Byte>, start: nat, end: nat, a: nat) {
    start <= a && a + |needle| <= end && OccursAt(mem, needle, a)
  }

  predicate Match(window: seq<Byte>, needle: seq<Byte>, i: nat) {
    i + |needle| <= |window| && window[i..i + |needle|] == needle
  }

  /** `bytes.find`: the first match at or after `from`, or -1. */
  function Find(window: seq<Byte>, needle: seq<Byte>, from: nat): (r: int)
    ensures r == -1 || (r >= from && Match(window, needle, r))
    ensures forall i: nat :: i >= from && (r == -1 || i < r) ==> !Match(window, needle, i)
    decreases |window| - from
  {
    if from + |needle| > |window| then -1
    else if window[from..from + |needle|] == needle then from
    else Find(window, needle, from + 1)
  }

  lemma WindowMatch(mem: Memory, needle: seq<Byte>, lo: nat, hi: nat, i: nat)
    requires lo <= hi
    ensures Match(Bytes(mem, lo, hi), needle, i) <==> lo + i + |needle| <= hi && OccursAt(mem, needle, lo + i)
  {
    if lo + i + |needle| <= hi {
      assert Bytes(mem, lo, hi)[i..i + |needle|] == Bytes(mem, lo + i, lo + i + |needle|);
    }
  }

  predicate Increasing(xs: seq<nat>) {
    forall i, j :: 0 <= i < j < |xs| ==> xs[i] < xs[j]
  }

  /** The list of all occurrences in a range, each once. */
  ghost predicate Occurrences(mem: Memory, needle: seq<Byte>, start: nat, end: nat, hits: seq<nat>) {
    && Increasing(hits)
    && forall a :: a in hits <==> Inside(mem, needle, start, end, a)
  }

  /**
   * One mapping, chunk by chunk, carrying the last |needle| - 1 bytes over: exactly the occurrences
   * inside the range, each reported once, for any chunk size.  (A needle of one byte would carry the
   * whole window: `window[-0:]`.)
   */
  method ScanRange(mem: Memory, start: nat, end: nat, needle: seq<Byte>, chunk: nat) returns (hits: seq<nat>)
    requires |needle| >= 2 && chunk > 0 && start <= end
    ensures Occurrences(mem, needle, start, end, hits)
  {
    hits := [];
    var carry: seq<Byte> := [];
    var position := start;
    while position < end
      invariant start <= position <= end
      invariant |carry| == (if position - start < |needle| - 1 then position - start else |needle| - 1)
      invariant carry == Bytes(mem, position - |carry|, position)
      invariant Occurrences(mem, needle, start, position, hits)
      decreases end - position
    {
      var size := if chunk < end - position then chunk else end - position;
      var window := carry + Bytes(mem, position, position + size);
      var base := position - |carry|;
      assert window == Bytes(mem, base, position + size);
      ghost var earlier := hits;
      HitsBehind(mem, start, position, base, needle, hits);
      hits := ScanWindow(base, needle, window, hits);
      WindowCovers(mem, start, position, base, position + size, needle, earlier, hits);
      carry := if |window| < |needle| - 1 then window else window[|window| - (|needle| - 1)..];
      position := position + size;
    }
  }

  /** The inner loop: every match in the window, at its address. */
  method ScanWindow(base: nat, needle: seq<Byte>, window: seq<Byte>, hits: seq<nat>) returns (more: seq<nat>)
    requires Increasing(hits) && forall a :: a in hits ==> a < base
    ensures Increasing(more)
    ensures forall a: nat :: a in more <==> a in hits || (a >= base && Match(window, needle, a - base))
  {
    hide Match;
    more := hits;
    var offset := Find(window, needle, 0);
    ghost var seen: nat := 0;
    while offset >= 0
      invariant offset == Find(window, needle, seen)
      invariant Increasing(more)
      invariant forall a :: a in more ==> a < base + seen
      invariant forall a: nat :: a in more <==>
                  a in hits || (base <= a < base + seen && Match(window, needle, a - base))
      decreases if offset >= 0 then |window| + 1 - offset else 0
    {
      MatchFits(window, needle, offset);
      forall i | 0 <= i < |more| ensures more[i] < base + offset {
        assert more[i] in more;
      }
      more := Append(more, base + offset);
      seen := offset + 1;
      offset := Find(window, needle, offset + 1);
      if offset >= 0 { MatchFits(window, needle, offset); }
    }
  }

  lemma MatchFits(window: seq<Byte>, needle: seq<Byte>, i: nat)
    requires Match(window, needle, i)
    ensures i + |needle| <= |window|
  {
  }

  function Append(xs: seq<nat>, x: nat): (ys: seq<nat>)
    requires Increasing(xs) && forall i :: 0 <= i < |xs| ==> xs[i] < x
    ensures Increasing(ys)
    ensures forall a :: a in ys <==> a in xs || a == x
  {
    xs + [x]
  }

  /** No occurrence found so far starts in the window. */
  lemma HitsBehind(mem: Memory, start: nat, position: nat, base: nat, needle: seq<Byte>, hits: seq<nat>)
    requires |needle| >= 2 && start <= base <= position
    requires position - base == (if position - start < |needle| - 1 then position - start else |needle| - 1)
    requires Occurrences(mem, needle, start, position, hits)
    ensures forall a :: a in hits ==> a < base
  {
    hide OccursAt;
  }

  /** The earlier occurrences and the matches of the window are the occurrences up to its end. */
  lemma WindowCovers(mem: Memory, start: nat, position: nat, base: nat, stop: nat, needle: seq<Byte>,
                     hits: seq<nat>, more: seq<nat>)
    requires |needle| >= 2 && start <= base <= position <= stop
    requires position - base == (if position - start < |needle| - 1 then position - start else |needle| - 1)
    requires Occurrences(mem, needle, start, position, hits) && Increasing(more)
    requires forall a: nat :: a in more <==>
               a in hits || (a >= base && Match(Bytes(mem, base, stop), needle, a - base))
    ensures Occurrences(mem, needle, start, stop, more)
  {
    hide OccursAt, Match;
    forall a: nat ensures a in more <==> Inside(mem, needle, start, stop, a) {
      if a >= base { WindowMatch(mem, needle, base, stop, a - base); }
    }
  }

  // ---------------------------------------------------------------- the two locators

  const SCAN_CHUNK: nat := 0x1_0000
  const MAX_SCAN_BYTES: nat := 0x80_0000

  predicate Mapped(ranges: seq<Range>) {
    forall i :: 0 <= i < |ranges| ==> ranges[i].start <= ranges[i].end
  }

  function Total(ranges: seq<Range>): nat
    requires Mapped(ranges)
  {
    if ranges == [] then 0 else ranges[0].end - ranges[0].start + Total(ranges[1..])
  }

  /** The sum of the lengths, from whichever end it is taken. */
  lemma {:induction false} TotalOfMore(ranges: seq<Range>, range: Range)
    requires Mapped(ranges) && range.start <= range.end
    ensures Total(ranges + [range]) == Total(ranges) + (range.end - range.start) && Total([]) == 0
  {
    if ranges != [] {
      TotalOfMore(ranges[1..], range);
      assert (ranges + [range])[1..] == ranges[1..] + [range];
    }
  }

  /** An aligned occurrence inside one of the first n ranges. */
  ghost predicate AlignedIn(mem: Memory, ranges: seq<Range>, n: nat, signature: seq<Byte>, a: nat) {
    a % 4 == 0 && exists i :: 0 <= i < n <= |ranges| && Inside(mem, signature, ranges[i].start, ranges[i].end, a)
  }

  datatype Location = Found(address: nat) | Missing | Ambiguous | Oversized

  /** `locate_state`: the header is where the signature occurs, if it does so at one aligned place. */
  method LocateState(mem: Memory, ranges: seq<Range>, signature: seq<Byte>) returns (r: Location)
    requires |signature| == 24 && Mapped(ranges)
    ensures r.Oversized? <==> Total(ranges) > 0x80_0000
    ensures r.Found? ==> forall a: nat :: AlignedIn(mem, ranges, |ranges|, signature, a) <==> a == r.address
    ensures r.Missing? ==> forall a: nat :: !AlignedIn(mem, ranges, |ranges|, signature, a)
    ensures r.Ambiguous? ==>
              exists a: nat, b: nat ::
                a != b && AlignedIn(mem, ranges, |ranges|, signature, a) && AlignedIn(mem, ranges, |ranges|, signature, b)
  {
    if Total(ranges) > MAX_SCAN_BYTES {
      return Oversized;
    }
    hide OccursAt, Total;
    var matches: set<nat> := {};
    for i := 0 to |ranges|
      invariant forall a: nat :: a in matches <==> AlignedIn(mem, ranges, i, signature, a)
    {
      var hits := ScanRange(mem, ranges[i].start, ranges[i].end, signature, SCAN_CHUNK);
      ghost var earlier := matches;
      matches := matches + set a | a in hits && a % 4 == 0;
      forall a: nat ensures a in matches <==> AlignedIn(mem, ranges, i + 1, signature, a) {
        OneMoreRange(mem, ranges, i, signature, a);
      }
    }
    if matches == {} {
      return Missing;
    }
    var address :| address in matches;
    if matches == {address} {
      return Found(address);
    }
    assert matches == (matches - {address}) + {address};
    ghost var other :| other in matches - {address};
    assert AlignedIn(mem, ranges, |ranges|, signature, address) && AlignedIn(mem, ranges, |ranges|, signature, other);
    r := Ambiguous;
  }

  lemma OneMoreRange(mem: Memory, ranges: seq<Range>, n: nat, signature: seq<Byte>, a: nat)
    requires n < |ranges|
    ensures AlignedIn(mem, ranges, n + 1, signature, a)
       <==> AlignedIn(mem, ranges, n, signature, a)
            || (a % 4 == 0 && Inside(mem, signature, ranges[n].start, ranges[n].end, a))
  {
    hide OccursAt;
  }

  const CENSUS_MAGIC: nat := 0x32355250
  const CENSUS_VERSION: nat := 1
  const CENSUS_WORDS: nat := 0x214
  const CENSUS_HEADER: nat := 80

  function LittleEndian(w: nat): seq<Byte> {
    [w % 0x100, w / 0x100 % 0x100, w / 0x1_0000 % 0x100, w / 0x100_0000 % 0x100]
  }

  function WordAt(mem: Memory, a: nat): nat {
    mem(a) + 0x100 * mem(a + 1) + 0x1_0000 * mem(a + 2) + 0x100_0000 * mem(a + 3)
  }

  /** The bytes of a word occur where the word stands. */
  lemma LittleEndianOccurs(mem: Memory, w: nat, a: nat)
    requires w < 0x1_0000_0000
    ensures OccursAt(mem, LittleEndian(w), a) <==> WordAt(mem, a) == w
  {
    assert Bytes(mem, a, a + 4) == [mem(a), mem(a + 1), mem(a + 2), mem(a + 3)];
    LittleEndianIs(WordAt(mem, a), mem(a), mem(a + 1), mem(a + 2), mem(a + 3));
    LittleEndianAdds(w);
    hide LittleEndian;
  }

  lemma LittleEndianIs(w: nat, b0: Byte, b1: Byte, b2: Byte, b3: Byte)
    requires w == b0 + 0x100 * b1 + 0x1_0000 * b2 + 0x100_0000 * b3
    ensures LittleEndian(w) == [b0, b1, b2, b3]
  {
    DivUnique(w, 0x100, b1 + 0x100 * b2 + 0x1_0000 * b3, b0);
    DivUnique(w / 0x100, 0x100, b2 + 0x100 * b3, b1);
    DivUnique(w, 0x1_0000, b2 + 0x100 * b3, b0 + 0x100 * b1);
    DivUnique(w / 0x1_0000, 0x100, b3, b2);
    DivUnique(w, 0x100_0000, b3, b0 + 0x100 * b1 + 0x1_0000 * b2);
  }

  lemma LittleEndianAdds(w: nat)
    requires w < 0x1_0000_0000
    ensures var b: seq<int> := LittleEndian(w);
      |b| == 4 && w == b[0] + 0x100 * b[1] + 0x1_0000 * b[2] + 0x100_0000 * b[3]
  {
    var q1 := w / 0x100;
    var q2 := q1 / 0x100;
    var q3 := q2 / 0x100;
    DivUnique(w, 0x1_0000, q2, w % 0x100 + 0x100 * (q1 % 0x100));
    DivUnique(w, 0x100_0000, q3, w % 0x100 + 0x100 * (q1 % 0x100) + 0x1_0000 * (q2 % 0x100));
  }

  /** The header at a can be read, and is the census header. */
  predicate Header(mem: Memory, readable: nat -> bool, a: nat) {
    && (forall b :: a <= b < a + CENSUS_HEADER ==> readable(b))
    && WordAt(mem, a + 4) == CENSUS_VERSION
    && WordAt(mem, a + 8) == CENSUS_WORDS
    && WordAt(mem, a + 12) == 0xffff_ffff - CENSUS_MAGIC
  }

  /** A census header whose magic lies inside the range. */
  ghost predicate CensusIn(mem: Memory, readable: nat -> bool, range: Range, a: nat) {
    Inside(mem, LittleEndian(CENSUS_MAGIC), range.start, range.end, a) && Header(mem, readable, a)
  }

  /** That is: inside the range the magic, and at its place four words that can be read and are the header's. */
  lemma CensusInIff(mem: Memory, readable: nat -> bool, range: Range, a: nat)
    ensures CensusIn(mem, readable, range, a) <==>
              && range.start <= a && a + 4 <= range.end
              && (forall b :: a <= b < a + 80 ==> readable(b))
              && WordAt(mem, a) == 0x3235_5250 && WordAt(mem, a + 4) == 1
              && WordAt(mem, a + 8) == 0x214 && WordAt(mem, a + 12) == 0xcdca_adaf
  {
    LittleEndianOccurs(mem, CENSUS_MAGIC, a);
    hide OccursAt, WordAt;
  }

  /** The list of the headers in the first n ranges, each range's once; `owner` says in which one. */
  ghost predicate Listed(mem: Memory, readable: nat -> bool, ranges: seq<Range>, n: nat,
                         matches: seq<nat>, owner: seq<nat>) {
    && |owner| == |matches| && n <= |ranges|
    && (forall k :: 0 <= k < |matches| ==> owner[k] < n && CensusIn(mem, readable, ranges[owner[k]], matches[k]))
    && (forall k, l :: 0 <= k < l < |matches| ==> owner[k] != owner[l] || matches[k] != matches[l])
    && (forall i, a :: 0 <= i < n && CensusIn(mem, readable, ranges[i], a) ==>
          exists k :: 0 <= k < |matches| && owner[k] == i && matches[k] == a)
  }

  /** The inner loop's test of each occurrence of the magic. */
  method KeepHeaders(mem: Memory, readable: nat -> bool, hits: seq<nat>) returns (kept: seq<nat>)
    requires Increasing(hits)
    ensures Increasing(kept)
    ensures forall a :: a in kept <==> a in hits && Header(mem, readable, a)
  {
    hide Header;
    kept := [];
    for h := 0 to |hits|
      invariant Increasing(kept)
      invariant forall a :: a in kept <==> a in hits[..h] && Header(mem, readable, a)
    {
      assert hits[..h + 1] == hits[..h] + [hits[h]];
      if Header(mem, readable, hits[h]) {
        forall i | 0 <= i < |kept| ensures kept[i] < hits[h] {
          assert kept[i] in hits[..h];
        }
        kept := Append(kept, hits[h]);
      }
    }
    assert hits[..|hits|] == hits;
  }

  lemma ListedNext(mem: Memory, readable: nat -> bool, ranges: seq<Range>, n: nat,
                   matches: seq<nat>, owner: seq<nat>, kept: seq<nat>)
    requires n < |ranges| && Listed(mem, readable, ranges, n, matches, owner) && Increasing(kept)
    requires forall a :: a in kept <==> CensusIn(mem, readable, ranges[n], a)
    ensures Listed(mem, readable, ranges, n + 1, matches + kept, owner + seq(|kept|, _ => n))
  {
    hide CensusIn;
    var matches', owner' := matches + kept, owner + seq(|kept|, _ => n);
    forall i, a | 0 <= i < n + 1 && CensusIn(mem, readable, ranges[i], a)
      ensures exists k :: 0 <= k < |matches'| && owner'[k] == i && matches'[k] == a
    {
      if i < n {
        var k :| 0 <= k < |matches| && owner[k] == i && matches[k] == a;
        assert owner'[k] == i && matches'[k] == a;
      } else {
        var k :| 0 <= k < |kept| && kept[k] == a;
        assert owner'[|matches| + k] == i && matches'[|matches| + k] == a;
      }
    }
  }

  datatype Census = Census(address: nat) | NotUnique(count: nat)

  /** `find_census`: the header, if the ranges hold exactly one. */
  method FindCensus(mem: Memory, readable: nat -> bool, ranges: seq<Range>) returns (r: Census)
    requires Mapped(ranges)
    ensures r.Census? ==>
              exists i :: 0 <= i < |ranges| && CensusIn(mem, readable, ranges[i], r.address)
                && forall j, b :: 0 <= j < |ranges| && CensusIn(mem, readable, ranges[j], b) ==> j == i && b == r.address
    ensures r.NotUnique? ==> r.count != 1
    ensures r.NotUnique? ==>
              exists matches, owner ::
                |matches| == r.count && Listed(mem, readable, ranges, |ranges|, matches, owner)
  {
    hide OccursAt, Header;
    var matches: seq<nat> := [];
    ghost var owner: seq<nat> := [];
    for i := 0 to |ranges|
      invariant Listed(mem, readable, ranges, i, matches, owner)
    {
      var hits := ScanRange(mem, ranges[i].start, ranges[i].end, LittleEndian(CENSUS_MAGIC), SCAN_CHUNK);
      var kept := KeepHeaders(mem, readable, hits);
      ListedNext(mem, readable, ranges, i, matches, owner, kept);
      matches, owner := matches + kept, owner + seq(|kept|, _ => i);
    }
    if |matches| != 1 {
      return NotUnique(|matches|);
    }
    r := Census(matches[0]);
  }
}

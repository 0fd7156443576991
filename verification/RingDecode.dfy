/**
 * The event rings of the DirectMusic recorders (harness/dmsynth_state.py, harness/dmime_state.py):
 * record k is written to slot (k - 1) mod EVENTS, and the header counts the writes.  A record write
 * is taken as one step, and the 32-bit counts as not having wrapped.
 */
module RingDecode {

  const EVENTS: nat := 256

  datatype Record = Record(sequence: nat, body: seq<nat>)

  /** The oldest record a ring of EVENTS slots still holds after w writes. */
  function First(w: nat): nat { if w < EVENTS then 1 else w - EVENTS + 1 }

  // ---------------------------------------------------------------- the recorder

  /** The records a recorder makes, each stamped with its number. */
  ghost predicate Stamped(genuine: nat -> Record) {
    forall k :: genuine(k).sequence == k
  }

  /** The last record that went to the slot in the first w writes; 0 if none did. */
  function Latest(w: nat, slot: nat): nat
    requires slot < EVENTS
  {
    if w <= slot then 0 else w - (w - 1 - slot) % EVENTS
  }

  /** What the slot holds after w writes; the memory starts as zeroes. */
  function Slot(genuine: nat -> Record, w: nat, slot: nat): Record
    requires slot < EVENTS
  {
    if Latest(w, slot) == 0 then Record(0, []) else genuine(Latest(w, slot))
  }

  lemma LatestIsLast(w: nat, slot: nat, k: nat)
    requires slot < EVENTS && k > 0 && (k - 1) % EVENTS == slot
    ensures Latest(w, slot) == k <==> k <= w < k + EVENTS
    ensures Latest(w, slot) <= w && (Latest(w, slot) > 0 ==> (Latest(w, slot) - 1) % EVENTS == slot)
  {
  }

  // ---------------------------------------------------------------- decoding

  /** The slot holds a record of the window, in its own place. */
  predicate Kept(raw: seq<Record>, w: nat, slot: nat) {
    && slot < |raw|
    && First(w) <= raw[slot].sequence <= w
    && (raw[slot].sequence - 1) % EVENTS == slot
  }

  predicate Increasing(rs: seq<Record>) {
    forall i, j :: 0 <= i < j < |rs| ==> rs[i].sequence < rs[j].sequence
  }

  /** The kept records, each once, in order of their numbers. */
  ghost predicate Decodes(raw: seq<Record>, w: nat, rs: seq<Record>) {
    && Increasing(rs)
    && (forall r :: r in rs ==> exists slot: nat :: Kept(raw, w, slot) && raw[slot] == r)
    && (forall slot: nat :: Kept(raw, w, slot) ==> raw[slot] in rs)
  }

  /** Sorting by number a list in which no number occurs twice. */
  method SortBySequence(rs: seq<Record>) returns (out: seq<Record>)
    requires forall i, j :: 0 <= i < j < |rs| ==> rs[i].sequence != rs[j].sequence
    ensures Increasing(out)
    ensures forall r :: r in out <==> r in rs
  {
    out := [];
    for i := 0 to |rs|
      invariant Increasing(out)
      invariant forall r :: r in out <==> r in rs[..i]
    {
      var j := |out|;
      while j > 0 && out[j - 1].sequence > rs[i].sequence
        invariant 0 <= j <= |out|
        invariant forall k :: j <= k < |out| ==> out[k].sequence > rs[i].sequence
      {
        j := j - 1;
      }
      ghost var before := out;
      forall k | 0 <= k < j ensures out[k].sequence < rs[i].sequence {
        assert out[k] in rs[..i];
        assert out[j - 1] in rs[..i];
      }
      out := out[..j] + [rs[i]] + out[j..];
      assert forall r :: r in out <==> r in before || r == rs[i];
      assert rs[..i + 1] == rs[..i] + [rs[i]];
    }
    assert rs[..|rs|] == rs;
  }

  /** `decode_records`. */
  method DecodeRecords(raw: seq<Record>, w: nat) returns (rs: seq<Record>)
    requires |raw| == EVENTS
    ensures Decodes(raw, w, rs)
  {
    var records: seq<Record> := [];
    for slot := 0 to EVENTS
      invariant forall r :: r in records ==> exists s: nat :: s < slot && Kept(raw, w, s) && raw[s] == r
      invariant forall s: nat :: s < slot && Kept(raw, w, s) ==> raw[s] in records
      invariant forall i :: 0 <= i < |records| ==> (records[i].sequence - 1) % EVENTS < slot
      invariant forall i, j :: 0 <= i < j < |records| ==> records[i].sequence != records[j].sequence
    {
      var r := raw[slot];
      if r.sequence < First(w) || r.sequence > w {
        continue;
      }
      if (r.sequence - 1) % EVENTS != slot {
        continue;
      }
      assert Kept(raw, w, slot);
      records := records + [r];
    }
    rs := SortBySequence(records);
  }

  lemma HasFirst(rs: seq<Record>)
    requires rs != []
    ensures rs[0] in rs
  {
  }

  lemma {:induction false} SameElements(a: seq<Record>, b: seq<Record>)
    requires Increasing(a) && Increasing(b)
    requires forall r :: r in a <==> r in b
    ensures a == b
  {
    if a == [] {
      if b != [] {
        HasFirst(b);
        assert false;
      }
    } else {
      assert a[0] in b && b != [];
      assert b[0] in a;
      assert a[0] == b[0];
      var a', b' := a[1..], b[1..];
      forall r ensures r in a' <==> r in b' {
        assert r in a <==> r == a[0] || r in a';
        assert r in b <==> r == b[0] || r in b';
      }
      SameElements(a', b');
    }
  }

  /** The decoding is determined by the slots and the count. */
  lemma DecodesOnce(raw: seq<Record>, w: nat, a: seq<Record>, b: seq<Record>)
    requires Decodes(raw, w, a) && Decodes(raw, w, b)
    ensures a == b
  {
    SameElements(a, b);
  }

  // ---------------------------------------------------------------- reading a ring that is being written

  /** The slots were read in order, slot i when counts[i] records had been written, from lo to hi. */
  ghost predicate ReadBetween(genuine: nat -> Record, raw: seq<Record>, counts: seq<nat>, lo: nat, hi: nat) {
    && |raw| == |counts| == EVENTS
    && forall i :: 0 <= i < EVENTS ==> lo <= counts[i] <= hi && raw[i] == Slot(genuine, counts[i], i)
  }

  /** The records from one number to another. */
  function Window(genuine: nat -> Record, from: nat, to: nat): seq<Record> {
    if from > to then [] else seq(to - from + 1, i requires 0 <= i => genuine(from + i))
  }

  /**
   * Whatever was written during the reading, and whichever header count w is used, the result is a
   * strictly increasing choice of genuine records of the window of w, and it misses none that was
   * already there at the start and still there at the end.
   */
  lemma RingRead(genuine: nat -> Record, raw: seq<Record>, counts: seq<nat>, lo: nat, hi: nat, w: nat, rs: seq<Record>)
    requires Stamped(genuine) && ReadBetween(genuine, raw, counts, lo, hi) && Decodes(raw, w, rs)
    ensures forall r :: r in rs ==> 1 <= r.sequence <= w < r.sequence + 256 && r == genuine(r.sequence)
    ensures forall k: nat :: 1 <= k <= w < k + 256 && k <= lo && hi < k + 256 ==> genuine(k) in rs
  {
    forall r | r in rs ensures 1 <= r.sequence <= w < r.sequence + 256 && r == genuine(r.sequence) {
      var slot: nat :| Kept(raw, w, slot) && raw[slot] == r;
      assert raw[slot] == Slot(genuine, counts[slot], slot);
    }
    forall k: nat | 1 <= k <= w < k + 256 && k <= lo && hi < k + 256 ensures genuine(k) in rs {
      var slot := (k - 1) % EVENTS;
      LatestIsLast(counts[slot], slot, k);
      assert raw[slot] == genuine(k);
      assert Kept(raw, w, slot);
    }
  }

  /** A ring at rest decodes to exactly the last 256 records, in order. */
  lemma RingAtRest(genuine: nat -> Record, raw: seq<Record>, counts: seq<nat>, w: nat, rs: seq<Record>)
    requires Stamped(genuine) && ReadBetween(genuine, raw, counts, w, w) && Decodes(raw, w, rs)
    ensures rs == Window(genuine, if w < 256 then 1 else w - 255, w)
  {
    RingRead(genuine, raw, counts, w, w, w, rs);
    var window := Window(genuine, First(w), w);
    forall r ensures r in rs <==> r in window {
      if r in rs {
        assert window[r.sequence - First(w)] == r;
      }
      if r in window {
        var i :| 0 <= i < |window| && window[i] == r;
        assert r == genuine(First(w) + i);
      }
    }
    SameElements(rs, window);
  }

  /** The recorder in the other process. */
  class Recorder {
    const genuine: nat -> Record
    var written: nat
    ghost var headers: seq<nat>   // the counts read from the header, in order
    ghost var passes: seq<nat>    // the counts at which a reading of the slots began

    constructor (genuine: nat -> Record)
      ensures this.genuine == genuine && written == 0 && headers == [] && passes == []
    {
      this.genuine := genuine;
      written, headers, passes := 0, [], [];
    }

    /** The header's count, after any number of further writes. */
    method ReadHeader() returns (w: nat)
      modifies this
      ensures old(written) <= written == w
      ensures headers == old(headers) + [w] && passes == old(passes)
    {
      var later: nat :| later >= written;
      written := later;
      w := written;
      headers := headers + [w];
    }

    /** The slots one after the other, with writes in between. */
    method ReadSlots() returns (raw: seq<Record>, ghost counts: seq<nat>)
      modifies this
      ensures old(written) <= written
      ensures ReadBetween(genuine, raw, counts, old(written), written)
      ensures headers == old(headers) && passes == old(passes) + [old(written)]
    {
      raw, counts := [], [];
      passes := passes + [written];
      while |raw| < EVENTS
        invariant old(written) <= written && |raw| == |counts| <= EVENTS
        invariant headers == old(headers) && passes == old(passes) + [old(written)]
        invariant forall i :: 0 <= i < |raw| ==>
                    old(written) <= counts[i] <= written && raw[i] == Slot(genuine, counts[i], i)
      {
        var later: nat :| later >= written;
        written := later;
        raw, counts := raw + [Slot(genuine, written, |raw|)], counts + [written];
      }
    }
  }

  /**
   * What a reading of the ring under the header count w promises, from the count before it to the
   * count after it, when the slots it uses were read from the count `from` on.
   */
  ghost predicate Faithful(genuine: nat -> Record, rs: seq<Record>, w: nat, from: nat, before: nat, after: nat) {
    && before <= w <= after && before <= from <= after
    && Increasing(rs)
    && (forall r :: r in rs ==> 1 <= r.sequence <= w < r.sequence + 256 && r == genuine(r.sequence))
    && (forall k: nat :: 1 <= k <= from && k <= w && after < k + 256 ==> genuine(k) in rs)
    && (before == after ==> rs == Window(genuine, if w < 256 then 1 else w - 255, w))
  }

  lemma ReadingIsFaithful(genuine: nat -> Record, raw: seq<Record>, counts: seq<nat>, lo: nat, hi: nat, w: nat,
                          rs: seq<Record>, before: nat, after: nat)
    requires Stamped(genuine) && ReadBetween(genuine, raw, counts, lo, hi) && Decodes(raw, w, rs)
    requires before <= lo <= hi <= after && before <= w <= after
    ensures Faithful(genuine, rs, w, lo, before, after)
  {
    hide Slot, ReadBetween, Kept;
    RingRead(genuine, raw, counts, lo, hi, w, rs);
    if before == after {
      RingAtRest(genuine, raw, counts, w, rs);
    }
  }

  /** Increasing numbers of a window are no more than the window. */
  lemma {:induction false} NoMoreThanWindow(rs: seq<Record>, from: nat, to: nat)
    requires Increasing(rs) && forall r :: r in rs ==> from <= r.sequence <= to
    ensures |rs| <= if from > to then 0 else to - from + 1
    decreases |rs|
  {
    if rs != [] {
      var last := rs[|rs| - 1];
      var earlier := rs[..|rs| - 1];
      assert last in rs;
      forall r | r in earlier ensures from <= r.sequence <= last.sequence - 1 {
        var i :| 0 <= i < |earlier| && earlier[i] == r;
        assert rs[i] == r && r in rs;
      }
      if earlier != [] {
        assert earlier[0] in earlier;
        NoMoreThanWindow(earlier, from, last.sequence - 1);
      }
    }
  }

  /** So a reading never holds more records than the ring has slots. */
  lemma ReadingFitsRing(genuine: nat -> Record, rs: seq<Record>, w: nat, from: nat, before: nat, after: nat)
    requires Faithful(genuine, rs, w, from, before, after)
    ensures |rs| <= 256
  {
    NoMoreThanWindow(rs, First(w), w);
  }

  /**
   * `dmsynth_state.read_state`: if the count moved, the slots are read again and then the header.
   * Nothing is missed that was there from the start of the last reading of the slots.
   */
  method DmsynthReadState(ring: Recorder) returns (rs: seq<Record>, ghost w: nat, ghost from: nat)
    requires Stamped(ring.genuine)
    modifies ring
    ensures Faithful(ring.genuine, rs, w, from, old(ring.written), ring.written)
    ensures from <= w
    ensures old(ring.headers) <= ring.headers && old(ring.passes) <= ring.passes
    ensures var h, p := ring.headers[|old(ring.headers)|..], ring.passes[|old(ring.passes)|..];
      if |h| > 1 && h[0] == h[1] then h == [w, w] && p == [from]
      else |h| == 3 && h[2] == w && |p| == 2 && p[1] == from && h[1] <= from
  {
    var before := ring.ReadHeader();
    from := ring.written;
    var raw;
    ghost var counts;
    raw, counts := ring.ReadSlots();
    ghost var hi := ring.written;
    var after := ring.ReadHeader();
    if before != after {
      from := ring.written;
      raw, counts := ring.ReadSlots();
      hi := ring.written;
      after := ring.ReadHeader();
    }
    rs := DecodeRecords(raw, after);
    w := after;
    ReadingIsFaithful(ring.genuine, raw, counts, from, hi, w, rs, old(ring.written), ring.written);
  }

  /**
   * `dmime_state.read_state`: if the count moved, the slots are read again under the second header.
   * Nothing of the window is missed that was not overwritten meanwhile.
   */
  method DmimeReadState(ring: Recorder) returns (rs: seq<Record>, ghost w: nat, ghost from: nat)
    requires Stamped(ring.genuine)
    modifies ring
    ensures Faithful(ring.genuine, rs, w, from, old(ring.written), ring.written)
    ensures w <= from
    ensures old(ring.headers) <= ring.headers && old(ring.passes) <= ring.passes
    ensures var h, p := ring.headers[|old(ring.headers)|..], ring.passes[|old(ring.passes)|..];
      |h| == 2 && h[1] == w
      && if h[0] == h[1] then p == [from] else |p| == 2 && p[1] == from
  {
    var header := ring.ReadHeader();
    from := ring.written;
    var raw;
    ghost var counts;
    raw, counts := ring.ReadSlots();
    ghost var hi := ring.written;
    var headerAfter := ring.ReadHeader();
    if headerAfter != header {
      from := ring.written;
      raw, counts := ring.ReadSlots();
      hi := ring.written;
      header := headerAfter;
    }
    rs := DecodeRecords(raw, header);
    w := header;
    ReadingIsFaithful(ring.genuine, raw, counts, from, hi, w, rs, old(ring.written), ring.written);
  }
}

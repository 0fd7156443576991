/** The reinforcement submission census reader (harness/reinforcement_submit_census.py). */
module SubmitCensus {
  import opened LiveMemory
  import opened Wrappers

  const MAGIC: nat := 0x31534352
  const SIGNATURE: nat := 0xffff_ffff - MAGIC  // ~MAGIC in 32 bits
  const VERSION: nat := 1
  const HEADER: nat := 6    // magic version size_words signature enabled publish_sequence
  const PAYLOAD: nat := 27
  const SEQUENCE: nat := 5

  datatype Reading =
    | Reading(enabled: bool, sequence: Word, counters: seq<Word>)
    | ShortRead
    | BadSignature
    | BadLayout
    | Changed

  predicate GoodHeader(h: seq<Word>) {
    && |h| == HEADER
    && h[0] == MAGIC && h[3] == SIGNATURE && h[1] == VERSION && h[2] == HEADER + PAYLOAD
  }

  /**
   * What an accepted reading promises when the whole record is published by its sequence word: it is
   * the payload of one finished publication, unless the 32-bit sequence made a whole turn meanwhile.
   */
  ghost predicate Coherent(memory: Trace, address: nat, r: Reading, lo: nat, hi: nat)
    requires r.Reading?
  {
    forall epoch: nat -> nat | Publishes(memory, epoch, address + SEQUENCE, address, address + HEADER + PAYLOAD) ::
      || epoch(hi) >= epoch(lo) + 0x1_0000_0000
      || exists t :: lo <= t <= hi && epoch(t) % 2 == 0 && PublishedAt(memory, address, r, t)
  }

  predicate PublishedAt(memory: Trace, address: nat, r: Reading, t: nat)
    requires r.Reading?
  {
    && address + HEADER + PAYLOAD <= |memory(t)|
    && r.counters == memory(t)[address + HEADER..address + HEADER + PAYLOAD]
    && r.sequence == memory(t)[address + SEQUENCE]
    && r.enabled == (memory(t)[address + 4] != 0)
  }

  /** The three reads of one attempt, and that `snapshot` accepts them. */
  ghost predicate Accepts(memory: Trace, address: nat, first: seq<Word>, payload: seq<Word>, second: seq<Word>,
                          at1: seq<nat>, at2: seq<nat>, at3: seq<nat>, t0: nat, t1: nat, t2: nat, t3: nat)
  {
    && GoodHeader(first) && |second| == HEADER && |payload| == PAYLOAD
    && Pass(memory, address, first, at1, t0, t1)
    && Pass(memory, address + HEADER, payload, at2, t1, t2)
    && Pass(memory, address, second, at3, t2, t3)
    && first[SEQUENCE] == second[SEQUENCE] && second[SEQUENCE] % 2 == 0
  }

  /** The reading of one accepted attempt. */
  lemma AttemptIsCoherent(memory: Trace, address: nat, first: seq<Word>, payload: seq<Word>, second: seq<Word>,
                          at1: seq<nat>, at2: seq<nat>, at3: seq<nat>, t0: nat, t1: nat, t2: nat, t3: nat, from: nat)
    requires from <= t0 && Accepts(memory, address, first, payload, second, at1, at2, at3, t0, t1, t2, t3)
    ensures Coherent(memory, address, Reading(second[4] != 0, second[SEQUENCE], payload), from, t3)
  {
    var r := Reading(second[4] != 0, second[SEQUENCE], payload);
    var end := address + HEADER + PAYLOAD;
    forall epoch: nat -> nat | Publishes(memory, epoch, address + SEQUENCE, address, end)
      ensures epoch(t3) >= epoch(from) + WORD
              || exists t :: from <= t <= t3 && epoch(t) % 2 == 0 && PublishedAt(memory, address, r, t)
    {
      var t, t' := at1[SEQUENCE], at3[SEQUENCE];
      SameSequence(memory, epoch, address + SEQUENCE, address, end, t, t');
      EpochGrows(memory, epoch, address + SEQUENCE, address, end, from, t);
      EpochGrows(memory, epoch, address + SEQUENCE, address, end, t', t3);
      if epoch(t') == epoch(t) {
        forall k | 0 <= k < PAYLOAD ensures payload[k] == memory(t)[address + HEADER + k] {
          StillThen(memory, epoch, address, t, at2[k], t');
          assert memory(at2[k])[address..end][HEADER + k] == memory(t)[address..end][HEADER + k];
        }
        StillThen(memory, epoch, address, t, at3[4], t');
        assert memory(at3[4])[address..end][4] == memory(t)[address..end][4];
        assert PublishedAt(memory, address, r, t);
      }
    }
  }

  lemma StillThen(memory: Trace, epoch: nat -> nat, address: nat, t: nat, m: nat, t': nat)
    requires Publishes(memory, epoch, address + SEQUENCE, address, address + HEADER + PAYLOAD)
    requires t <= m <= t' && epoch(t) == epoch(t') && epoch(t) % 2 == 0
    ensures memory(m)[address..address + HEADER + PAYLOAD] == memory(t)[address..address + HEADER + PAYLOAD]
  {
    EpochGrows(memory, epoch, address + SEQUENCE, address, address + HEADER + PAYLOAD, t, m);
    EpochGrows(memory, epoch, address + SEQUENCE, address, address + HEADER + PAYLOAD, m, t');
    Quiet(memory, epoch, address + SEQUENCE, address, address + HEADER + PAYLOAD, t, m);
  }

  /** Each word of the reading was there at some moment. */
  ghost predicate WasSeen(memory: Trace, address: nat, r: Reading, lo: nat, hi: nat)
    requires r.Reading?
  {
    && |r.counters| == 27
    && r.sequence % 2 == 0 && Seen(memory, address + 5, r.sequence, lo, hi)
    && (if r.enabled then SeenOther(memory, address + 4, 0, lo, hi) else Seen(memory, address + 4, 0, lo, hi))
    && forall i :: 0 <= i < 27 ==> Seen(memory, address + 6 + i, r.counters[i], lo, hi)
  }

  lemma AttemptIsSeen(memory: Trace, address: nat, payload: seq<Word>, second: seq<Word>, at2: seq<nat>, at3: seq<nat>,
                      t1: nat, t2: nat, t3: nat, from: nat)
    requires from <= t1 && |payload| == PAYLOAD && |second| == HEADER && second[SEQUENCE] % 2 == 0
    requires Pass(memory, address + HEADER, payload, at2, t1, t2) && Pass(memory, address, second, at3, t2, t3)
    requires t1 <= t2 <= t3
    ensures WasSeen(memory, address, Reading(second[4] != 0, second[SEQUENCE], payload), from, t3)
  {
    hide Pass, Seen, SeenOther;
    WordSeen(memory, address, second, at3, t2, t3, from, t3, address + 4, 0);
    WordSeen(memory, address, second, at3, t2, t3, from, t3, address + 5, 0);
    forall i | 0 <= i < 27 ensures Seen(memory, address + 6 + i, payload[i], from, t3) {
      WordSeen(memory, address + 6, payload, at2, t1, t2, from, t3, address + 6 + i, 0);
    }
  }

  /**
   * `snapshot`: at most twenty attempts, each reading the header, the payload and the header again.
   * The moments at which an attempt begins, and the last one ends, are `marks`.
   */
  method Snapshot(p: Process, address: nat) returns (r: Reading, ghost marks: seq<nat>)
    modifies p`now
    ensures old(p.now) <= p.now
    ensures r.Reading? ==> |r.counters| == 27 && Coherent(p.memory, address, r, old(p.now), p.now)
    ensures r.Changed? ==> |marks| == 21 && marks[0] == old(p.now) && marks[20] == p.now
                           && Disturbed(p.memory, address, HEADER + PAYLOAD, Some(SEQUENCE), marks)
    ensures r.ShortRead? ==> exists t :: old(p.now) <= t <= p.now && |p.memory(t)| < address + HEADER + PAYLOAD
    ensures r.BadSignature? ==>
              || SeenOther(p.memory, address, 0x3153_4352, old(p.now), p.now)
              || SeenOther(p.memory, address + 3, 0xceac_bcad, old(p.now), p.now)
    ensures r.BadLayout? ==>
              || SeenOther(p.memory, address + 1, 1, old(p.now), p.now)
              || SeenOther(p.memory, address + 2, 33, old(p.now), p.now)
    ensures r.Reading? ==> WasSeen(p.memory, address, r, old(p.now), p.now)
  {
    hide Pass, Coherent, Disturbed, Still, Seen, SeenOther, RecordAt, WasSeen;
    marks := [p.now];
    OneMark(p.memory, address, HEADER + PAYLOAD, Some(SEQUENCE), p.now);
    for attempt := 0 to 20
      invariant |marks| == attempt + 1 && marks[0] == old(p.now) && marks[attempt] == p.now >= old(p.now)
      invariant Disturbed(p.memory, address, HEADER + PAYLOAD, Some(SEQUENCE), marks)
    {
      var first, payload, second;
      ghost var at1, at2, at3, t0 := [], [], [], p.now;
      first, at1 := ReadExact(p, address, HEADER);
      if first.None? { return Reading.ShortRead, marks; }
      ghost var t1 := p.now;
      if first.value[0] != MAGIC || first.value[3] != SIGNATURE {
        WordSeen(p.memory, address, first.value, at1, t0, t1, old(p.now), p.now, address, MAGIC);
        WordSeen(p.memory, address, first.value, at1, t0, t1, old(p.now), p.now, address + 3, SIGNATURE);
        return BadSignature, marks;
      }
      if first.value[1] != VERSION || first.value[2] != HEADER + PAYLOAD {
        WordSeen(p.memory, address, first.value, at1, t0, t1, old(p.now), p.now, address + 1, VERSION);
        WordSeen(p.memory, address, first.value, at1, t0, t1, old(p.now), p.now, address + 2, HEADER + PAYLOAD);
        return BadLayout, marks;
      }
      if first.value[SEQUENCE] % 2 == 1 {
        StillHeader(p.memory, address, first.value, at1, t0, t1, t0, p.now);
        DisturbedAgain(p.memory, address, HEADER + PAYLOAD, Some(SEQUENCE), marks, p.now);
        marks := marks + [p.now];
        continue;
      }
      payload, at2 := ReadExact(p, address + HEADER, PAYLOAD);
      if payload.None? { return Reading.ShortRead, marks; }
      ghost var t2 := p.now;
      second, at3 := ReadExact(p, address, HEADER);
      if second.None? { return Reading.ShortRead, marks; }
      if first.value[SEQUENCE] == second.value[SEQUENCE] && second.value[SEQUENCE] % 2 == 0 {
        AttemptIsCoherent(p.memory, address, first.value, payload.value, second.value, at1, at2, at3,
                          t0, t1, t2, p.now, old(p.now));
        AttemptIsSeen(p.memory, address, payload.value, second.value, at2, at3, t1, t2, p.now, old(p.now));
        return Reading(second.value[4] != 0, second.value[SEQUENCE], payload.value), marks;
      }
      StillHeader(p.memory, address, first.value, at1, t0, t1, t0, p.now);
      StillHeader(p.memory, address, second.value, at3, t2, p.now, t0, p.now);
      DisturbedAgain(p.memory, address, HEADER + PAYLOAD, Some(SEQUENCE), marks, p.now);
      marks := marks + [p.now];
    }
    r := Reading.Changed;
  }

  /** A header read while nothing changes is the header. */
  lemma StillHeader(memory: Trace, address: nat, h: seq<Word>, at: seq<nat>, lo: nat, hi: nat, from: nat, to: nat)
    requires from <= lo <= hi <= to && |h| == HEADER && Pass(memory, address, h, at, lo, hi)
    ensures Still(memory, address, HEADER + PAYLOAD, Some(SEQUENCE), from, to) ==>
              h[SEQUENCE] % 2 == 0 && RecordAt(memory, from, address, h)
  {
    if Still(memory, address, HEADER + PAYLOAD, Some(SEQUENCE), from, to) {
      var ws :| |ws| == HEADER + PAYLOAD && (forall t :: from <= t <= to ==> RecordAt(memory, t, address, ws))
                && ws[SEQUENCE] % 2 == 0;
      forall k | 0 <= k < HEADER ensures h[k] == ws[k] {
        assert RecordAt(memory, at[k], address, ws);
      }
      assert h == ws[..HEADER];
      assert RecordAt(memory, from, address, ws);
    }
  }

  lemma Readable(memory: Trace, address: nat, ws: seq<Word>, lo: nat, hi: nat)
    requires forall t :: lo <= t <= hi ==> RecordAt(memory, t, address, ws)
    ensures !exists t :: lo <= t <= hi && |memory(t)| < address + |ws|
  {
    forall t | lo <= t <= hi ensures |memory(t)| >= address + |ws| {
      assert RecordAt(memory, t, address, ws);
    }
  }

  lemma NothingElseSeen(memory: Trace, address: nat, ws: seq<Word>, lo: nat, hi: nat)
    requires forall t :: lo <= t <= hi ==> RecordAt(memory, t, address, ws)
    ensures forall a, w :: address <= a < address + |ws| && Seen(memory, a, w, lo, hi) ==> w == ws[a - address]
    ensures forall a, w :: address <= a < address + |ws| && SeenOther(memory, a, w, lo, hi) ==> w != ws[a - address]
  {
    forall a, w | address <= a < address + |ws| && SeenOther(memory, a, w, lo, hi) ensures w != ws[a - address] {
      var t :| lo <= t <= hi && a < |memory(t)| && memory(t)[a] != w;
      assert RecordAt(memory, t, address, ws) && memory(t)[address..address + |ws|][a - address] == memory(t)[a];
    }
    forall a, w | address <= a < address + |ws| && Seen(memory, a, w, lo, hi) ensures w == ws[a - address] {
      var t :| lo <= t <= hi && a < |memory(t)| && memory(t)[a] == w;
      assert RecordAt(memory, t, address, ws) && memory(t)[address..address + |ws|][a - address] == memory(t)[a];
    }
  }

  lemma StillBefore(memory: Trace, address: nat, ws: seq<Word>, marks: seq<nat>)
    requires |ws| == HEADER + PAYLOAD && ws[SEQUENCE] % 2 == 0 && |marks| > 1
    requires forall t :: marks[0] <= t ==> RecordAt(memory, t, address, ws)
    ensures !Disturbed(memory, address, HEADER + PAYLOAD, Some(SEQUENCE), marks)
  {
    hide RecordAt;
    if marks[0] <= marks[1] {
      assert Still(memory, address, HEADER + PAYLOAD, Some(SEQUENCE), marks[0], marks[1]);
    }
    assert 0 <= 0 < |marks| - 1;
  }

  /** So a census that stays as it is, with a good header and an even sequence, is read. */
  method ReadAtRest(p: Process, address: nat, ghost ws: seq<Word>) returns (r: Reading)
    requires |ws| == HEADER + PAYLOAD && GoodHeader(ws[..HEADER]) && ws[SEQUENCE] % 2 == 0
    requires forall t :: p.now <= t ==> RecordAt(p.memory, t, address, ws)
    modifies p`now
    ensures r == Reading(ws[4] != 0, ws[5], ws[6..])
  {
    ghost var from := p.now;
    ghost var marks;
    r, marks := Snapshot(p, address);
    hide Coherent, Disturbed;
    Readable(p.memory, address, ws, from, p.now);
    NothingElseSeen(p.memory, address, ws, from, p.now);
    assert forall i :: 0 <= i < HEADER ==> ws[..HEADER][i] == ws[i];
    assert ws[..HEADER][0] == ws[0] && ws[..HEADER][1] == ws[1] && ws[..HEADER][2] == ws[2] && ws[..HEADER][3] == ws[3];
    if r.Changed? {
      StillBefore(p.memory, address, ws, marks);
    }
    if r.Reading? {
      forall i | 0 <= i < PAYLOAD ensures r.counters[i] == ws[6..][i] {
        assert Seen(p.memory, address + 6 + i, r.counters[i], from, p.now);
      }
      assert r.counters == ws[6..];
    }
  }

  // ---------------------------------------------------------------- the wrap is a real limit

  /** A census whose writer stores the number of the publication in two counters, one at a time. */
  function PairWriter(t: nat): seq<Word> {
    var j, phase := t / 4, t % 4;
    [MAGIC, VERSION, HEADER + PAYLOAD, SIGNATURE, 1, PairEpoch(t) % WORD]
    + PairPayload((if phase < 2 then j else j + 1) % WORD, (if phase < 3 then j else j + 1) % WORD)
  }

  function PairPayload(a: Word, b: Word): (payload: seq<Word>)
    ensures |payload| == PAYLOAD
  {
    seq(PAYLOAD, i => if i == 0 then a else if i == 1 then b else 0)
  }

  function PairEpoch(t: nat): nat { 2 * (t / 4) + if t % 4 == 0 then 0 else 1 }

  lemma PairWriterPublishes()
    ensures Publishes(PairWriter, PairEpoch, SEQUENCE, 0, HEADER + PAYLOAD)
  {
    var size := HEADER + PAYLOAD;
    forall t ensures Beat(PairWriter, PairEpoch, SEQUENCE, 0, size, t) {
      assert (t + 1) / 4 == t / 4 || ((t + 1) / 4 == t / 4 + 1 && t % 4 == 3);
    }
  }

  const LATE: nat := 4 * 0x8000_0000

  /** The header as it stands at the start, and again after 2^31 publications. */
  const PAIR_HEADER: seq<Word> := [MAGIC, VERSION, HEADER + PAYLOAD, SIGNATURE, 1, 0]

  lemma PairHeaderPass(t: nat)
    requires t == 0 || t == LATE
    ensures Pass(PairWriter, 0, PAIR_HEADER, seq(HEADER, _ => t), t, t)
  {
    assert PairEpoch(t) % WORD == 0;
  }

  /** The first counter at the start, the others after 2^31 publications. */
  lemma PairPayloadPass()
    ensures Pass(PairWriter, HEADER, PairPayload(0, 0x8000_0000), seq(PAYLOAD, i => if i == 0 then 0 else LATE), 0, LATE)
  {
    assert PairWriter(0)[HEADER] == 0;
    var late := PairWriter(LATE);
    forall i | HEADER < i < HEADER + PAYLOAD ensures late[i] == if i == HEADER + 1 then 0x8000_0000 else 0 {
      assert late[i] == PairPayload(0x8000_0000, 0x8000_0000)[i - HEADER];
    }
  }

  /**
   * With exactly 2^31 publications between its two headers, the reader accepts a census that stood in
   * memory at no moment: the exception of `AttemptIsCoherent` is real.
   */
  lemma WrapTears()
    ensures Publishes(PairWriter, PairEpoch, SEQUENCE, 0, HEADER + PAYLOAD)
    ensures Accepts(PairWriter, 0, PAIR_HEADER, PairPayload(0, 0x8000_0000), PAIR_HEADER,
                    seq(HEADER, _ => 0), seq(PAYLOAD, i => if i == 0 then 0 else LATE), seq(HEADER, _ => LATE),
                    0, 0, LATE, LATE)
    ensures forall t :: !PublishedAt(PairWriter, 0, Reading(true, 0, PairPayload(0, 0x8000_0000)), t)
  {
    PairWriterPublishes();
    PairHeaderPass(0);
    PairHeaderPass(LATE);
    PairPayloadPass();
    forall t ensures !PublishedAt(PairWriter, 0, Reading(true, 0, PairPayload(0, 0x8000_0000)), t) {
      NeverThatPair(t);
    }
  }

  lemma NeverThatPair(t: nat)
    ensures PairWriter(t)[HEADER..HEADER + PAYLOAD] != PairPayload(0, 0x8000_0000)
  {
    var payload := PairWriter(t)[HEADER..HEADER + PAYLOAD];
    assert payload[0] == PairWriter(t)[HEADER] && payload[1] == PairWriter(t)[HEADER + 1];
  }

  // ---------------------------------------------------------------- deltas

  /** `diff` on one counter. */
  function Delta(before: Word, after: Word): (d: Word) { (after - before) % WORD }

  /** A counter that wraps at 32 bits still shows how far it went, if that is less than a whole turn. */
  lemma DeltaIsExact(start: nat, steps: nat)
    ensures Delta(start % 0x1_0000_0000, (start + steps) % 0x1_0000_0000) == steps % 0x1_0000_0000
    ensures steps < 0x1_0000_0000 <==> Delta(start % 0x1_0000_0000, (start + steps) % 0x1_0000_0000) == steps
  {
  }
}

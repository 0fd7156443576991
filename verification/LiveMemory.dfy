/**
 * Reading records that another process keeps writing, through /proc/<pid>/mem.
 *
 * The memory of the writer is a function of time.  The reader takes one word after the other; any
 * amount of time may pass between two words, so a multi-word read need not see any one instant.
 */
module LiveMemory {
  import opened Wrappers

  const WORD: nat := 0x1_0000_0000

  type Word = w: nat | w < 0x1_0000_0000

  type Trace = nat -> seq<Word>

  /** The writer's memory, and the moment the reader has reached. */
  class Process {
    const memory: Trace
    var now: nat

    constructor (memory: Trace)
      ensures this.memory == memory && now == 0
    {
      this.memory := memory;
      now := 0;
    }
  }

  /** The words ws were read from `address` on, word k at the moment at[k], in order. */
  ghost predicate Pass(memory: Trace, address: nat, ws: seq<Word>, at: seq<nat>, lo: nat, hi: nat) {
    && |at| == |ws|
    && lo <= hi
    && (forall k :: 0 <= k < |at| ==> lo <= at[k] <= hi)
    && (forall j, k :: 0 <= j < k < |at| ==> at[j] <= at[k])
    && (forall k :: 0 <= k < |ws| ==> address + k < |memory(at[k])| && ws[k] == memory(at[k])[address + k])
  }

  /** `read_exact`: all the words, or a short read. */
  method ReadExact(p: Process, address: nat, size: nat) returns (ws: Option<seq<Word>>, ghost at: seq<nat>)
    modifies p`now
    ensures p.now >= old(p.now)
    ensures ws.Some? ==> |ws.value| == size && Pass(p.memory, address, ws.value, at, old(p.now), p.now)
    ensures ws.None? ==> exists t :: old(p.now) <= t <= p.now && |p.memory(t)| < address + size
  {
    var words: seq<Word> := [];
    at := [];
    while |words| < size
      invariant p.now >= old(p.now) && |words| <= size
      invariant Pass(p.memory, address, words, at, old(p.now), p.now)
    {
      var later: nat :| later >= p.now;
      p.now := later;
      if address + |words| >= |p.memory(p.now)| {
        return None, [];
      }
      at := at + [p.now];
      words := words + [p.memory(p.now)[address + |words|]];
    }
    ws := Some(words);
  }

  // ---------------------------------------------------------------- the writer's discipline

  /**
   * A writer that publishes by a sequence word: it makes the word odd, changes the other words of
   * [lo, hi), and makes it even.  `epoch` counts the changes of the sequence word without wrapping.
   */
  ghost predicate Publishes(memory: Trace, epoch: nat -> nat, sequence: nat, lo: nat, hi: nat) {
    && lo <= sequence < hi
    && (forall t :: hi <= |memory(t)| && memory(t)[sequence] == epoch(t) % 0x1_0000_0000)
    && (forall t :: Beat(memory, epoch, sequence, lo, hi, t))
  }

  ghost predicate Beat(memory: Trace, epoch: nat -> nat, sequence: nat, lo: nat, hi: nat, t: nat)
    requires lo <= sequence < hi <= |memory(t)| && hi <= |memory(t + 1)|
  {
    && epoch(t) <= epoch(t + 1) <= epoch(t) + 1
    && (epoch(t + 1) != epoch(t) || epoch(t) % 2 == 0 ==>
          forall a :: lo <= a < hi && a != sequence ==> memory(t + 1)[a] == memory(t)[a])
  }

  lemma {:induction false} EpochGrows(memory: Trace, epoch: nat -> nat, sequence: nat, lo: nat, hi: nat, t: nat, t': nat)
    requires Publishes(memory, epoch, sequence, lo, hi) && t <= t'
    ensures epoch(t) <= epoch(t')
  {
    if t < t' {
      EpochGrows(memory, epoch, sequence, lo, hi, t, t' - 1);
      assert Beat(memory, epoch, sequence, lo, hi, t' - 1);
    }
  }

  /** While the sequence stays even and the same, nothing in the record changes. */
  lemma {:induction false} Quiet(memory: Trace, epoch: nat -> nat, sequence: nat, lo: nat, hi: nat, t: nat, t': nat)
    requires Publishes(memory, epoch, sequence, lo, hi) && t <= t'
    requires epoch(t) == epoch(t') && epoch(t) % 2 == 0
    ensures memory(t')[lo..hi] == memory(t)[lo..hi]
  {
    if t < t' {
      EpochGrows(memory, epoch, sequence, lo, hi, t, t' - 1);
      assert Beat(memory, epoch, sequence, lo, hi, t' - 1);
      Quiet(memory, epoch, sequence, lo, hi, t, t' - 1);
    }
  }

  /** Two equal readings of the sequence word: no publication between them, or a whole wrap. */
  lemma SameSequence(memory: Trace, epoch: nat -> nat, sequence: nat, lo: nat, hi: nat, t: nat, t': nat)
    requires Publishes(memory, epoch, sequence, lo, hi) && t <= t'
    requires memory(t)[sequence] == memory(t')[sequence]
    ensures epoch(t') == epoch(t) || epoch(t') >= epoch(t) + 0x1_0000_0000
    ensures epoch(t) % 2 == memory(t)[sequence] % 2
  {
    EpochGrows(memory, epoch, sequence, lo, hi, t, t');
    assert hi <= |memory(t)| && hi <= |memory(t')|;
  }

  // ---------------------------------------------------------------- double collect

  /** A value of the word at a that comes back was there all the while. */
  ghost predicate NeverReturns(memory: Trace, a: nat) {
    forall t, m, t' :: t <= m <= t' && a < |memory(t)| && a < |memory(m)| && a < |memory(t')| && memory(t)[a] == memory(t')[a] ==>
      memory(m)[a] == memory(t)[a]
  }

  ghost predicate Steady(memory: Trace, lo: nat, hi: nat) {
    forall a :: lo <= a < hi ==> NeverReturns(memory, a)
  }

  /** Words that only grow are steady. */
  lemma GrowingIsSteady(memory: Trace, lo: nat, hi: nat)
    requires forall t, t', a :: t <= t' && lo <= a < hi && a < |memory(t)| && a < |memory(t')| ==> memory(t)[a] <= memory(t')[a]
    ensures Steady(memory, lo, hi)
  {
  }

  /**
   * Two equal passes over steady words are a snapshot: they are the whole record as it stood at any
   * moment between the passes.
   */
  lemma DoubleCollect(memory: Trace, address: nat, ws: seq<Word>, at1: seq<nat>, at2: seq<nat>,
                      lo: nat, mid: nat, hi: nat)
    requires Pass(memory, address, ws, at1, lo, mid) && Pass(memory, address, ws, at2, mid, hi)
    requires address + |ws| <= |memory(mid)| && Steady(memory, address, address + |ws|)
    ensures ws == memory(mid)[address..address + |ws|]
  {
    forall k | 0 <= k < |ws| ensures ws[k] == memory(mid)[address + k] {
      assert NeverReturns(memory, address + k);
      assert memory(at1[k])[address + k] == memory(at2[k])[address + k];
    }
  }

  /**
   * The first word, or the last, may even do as it likes: then they are the record as it stood when
   * that word was read on the side of the others.
   */
  lemma DoubleCollectButOne(memory: Trace, address: nat, ws: seq<Word>, at1: seq<nat>, at2: seq<nat>,
                            lo: nat, mid: nat, hi: nat, free: nat) returns (t: nat)
    requires Pass(memory, address, ws, at1, lo, mid) && Pass(memory, address, ws, at2, mid, hi)
    requires ws != [] && (free == 0 || free == |ws| - 1)
    requires forall m :: address + |ws| <= |memory(m)|
    requires forall a :: address <= a < address + |ws| && a != address + free ==> NeverReturns(memory, a)
    ensures lo <= t <= hi && ws == memory(t)[address..address + |ws|]
  {
    t := if free == 0 then at2[0] else at1[free];
    forall k | 0 <= k < |ws| ensures ws[k] == memory(t)[address + k] {
      if k != free {
        assert NeverReturns(memory, address + k);
        assert at1[k] <= t <= at2[k];
        assert memory(at1[k])[address + k] == memory(at2[k])[address + k];
      }
    }
  }

  /**
   * With an even sequence word in it, the record need not grow: two equal passes are the record of
   * one publication, the words in front of the sequence word included, unless the sequence wrapped.
   */
  lemma SequencedDoubleCollect(memory: Trace, epoch: nat -> nat, address: nat, ws: seq<Word>, q: nat,
                               at1: seq<nat>, at2: seq<nat>, lo: nat, mid: nat, hi: nat)
    requires Pass(memory, address, ws, at1, lo, mid) && Pass(memory, address, ws, at2, mid, hi)
    requires q < |ws| && ws[q] % 2 == 0
    requires Publishes(memory, epoch, address + q, address, address + |ws|)
    ensures epoch(at2[q]) >= epoch(at1[q]) + WORD
            || (epoch(at1[q]) % 2 == 0 && ws == memory(at1[q])[address..address + |ws|])
  {
    var end := address + |ws|;
    var t, t' := at1[q], at2[q];
    SameSequence(memory, epoch, address + q, address, end, t, t');
    if epoch(t') == epoch(t) {
      forall k | 0 <= k < |ws| ensures ws[k] == memory(t)[address + k] {
        var m := if k < q then at2[k] else at1[k];  // read between the two readings of the sequence
        EpochGrows(memory, epoch, address + q, address, end, t, m);
        EpochGrows(memory, epoch, address + q, address, end, m, t');
        Quiet(memory, epoch, address + q, address, end, t, m);
        assert memory(m)[address..end][k] == memory(t)[address..end][k];
      }
    }
  }

  /** The record as it stood at t. */
  predicate RecordAt(memory: Trace, t: nat, address: nat, ws: seq<Word>) {
    address + |ws| <= |memory(t)| && ws == memory(t)[address..address + |ws|]
  }

  // For two words the condition is exact: which histories of one word make every double collect a
  // snapshot, whatever the other word does.

  function Pair(f: nat -> Word, g: nat -> Word): Trace { t => [f(t), g(t)] }

  /** Two equal passes, with their moments. */
  ghost predicate Collects(memory: Trace, ws: seq<Word>, at1: seq<nat>, at2: seq<nat>, lo: nat, mid: nat, hi: nat) {
    Pass(memory, 0, ws, at1, lo, mid) && Pass(memory, 0, ws, at2, mid, hi)
  }

  ghost predicate Stood(memory: Trace, ws: seq<Word>, lo: nat, hi: nat) {
    exists t :: lo <= t <= hi && RecordAt(memory, t, 0, ws)
  }

  /** Every double collect of the first n words is the record at some moment of the reading. */
  ghost predicate Snapshots(memory: Trace, n: nat) {
    forall ws, at1, at2, lo, mid, hi :: |ws| == n && Collects(memory, ws, at1, at2, lo, mid, hi) ==> Stood(memory, ws, lo, hi)
  }

  /** The word comes back to a value it had left, and leaves it again. */
  ghost predicate ComesBackAndLeaves(f: nat -> Word) {
    exists t1, t2, t3, t4 :: BackAndAway(f, t1, t2, t3, t4)
  }

  predicate BackAndAway(f: nat -> Word, t1: nat, t2: nat, t3: nat, t4: nat) {
    t1 < t2 < t3 < t4 && f(t1) == f(t3) && f(t2) != f(t1) && f(t4) != f(t1)
  }

  /** The word comes to a value, leaves it and comes back. */
  ghost predicate ArrivesTwice(g: nat -> Word) {
    exists t1, t2, t3, t4 :: InAndBack(g, t1, t2, t3, t4)
  }

  predicate InAndBack(g: nat -> Word, t1: nat, t2: nat, t3: nat, t4: nat) {
    t1 < t2 < t3 < t4 && g(t2) == g(t4) && g(t1) != g(t2) && g(t3) != g(t2)
  }

  /** A word that is 1 at two moments and 0 at all others. */
  function At(a: nat, b: nat): nat -> Word { t => if t == a || t == b then 1 else 0 }

  /** Such a partner tears a word that is away when the partner is 1. */
  lemma PartnerTears(f: nat -> Word, g: nat -> Word, t1: nat, t2: nat, t3: nat, t4: nat)
    requires t1 < t2 < t3 < t4 && f(t1) == f(t3) && g(t2) == g(t4)
    requires forall t :: f(t) != f(t1) || g(t) != g(t2)
    ensures !Snapshots(Pair(f, g), 2)
  {
    var ws := [f(t1), g(t2)];
    assert Collects(Pair(f, g), ws, [t1, t2], [t3, t4], t1, t2, t4);
    forall t ensures !RecordAt(Pair(f, g), t, 0, ws) {
      assert Pair(f, g)(t)[0..2] == [f(t), g(t)];
    }
    assert !Stood(Pair(f, g), ws, t1, t4);
  }

  /** The moments of a double collect of two words. */
  lemma PairCollected(f: nat -> Word, g: nat -> Word, ws: seq<Word>, at1: seq<nat>, at2: seq<nat>, lo: nat, mid: nat, hi: nat)
    requires |ws| == 2 && Collects(Pair(f, g), ws, at1, at2, lo, mid, hi)
    ensures lo <= at1[0] <= at1[1] <= at2[0] <= at2[1] <= hi
    ensures ws[0] == f(at1[0]) == f(at2[0]) && ws[1] == g(at1[1]) == g(at2[1])
    ensures forall t :: lo <= t <= hi && f(t) == ws[0] && g(t) == ws[1] ==> Stood(Pair(f, g), ws, lo, hi)
  {
    forall t | lo <= t <= hi && f(t) == ws[0] && g(t) == ws[1] ensures RecordAt(Pair(f, g), t, 0, ws) {
      assert Pair(f, g)(t)[0..2] == [f(t), g(t)];
    }
  }

  /** Whatever the second word does, no double collect tears, exactly when the first does not come back and leave. */
  lemma FirstWordExact(f: nat -> Word)
    ensures (forall g :: Snapshots(Pair(f, g), 2)) <==> !ComesBackAndLeaves(f)
  {
    if t1, t2, t3, t4 :| BackAndAway(f, t1, t2, t3, t4) {
      PartnerTears(f, At(t2, t4), t1, t2, t3, t4);
    }
    if !ComesBackAndLeaves(f) {
      forall g ensures Snapshots(Pair(f, g), 2) {
        forall ws, at1, at2, lo, mid, hi | |ws| == 2 && Collects(Pair(f, g), ws, at1, at2, lo, mid, hi)
          ensures Stood(Pair(f, g), ws, lo, hi)
        {
          PairCollected(f, g, ws, at1, at2, lo, mid, hi);
          assert !BackAndAway(f, at1[0], at1[1], at2[0], at2[1]);
        }
      }
    }
  }

  /** Whatever the first word does, no double collect tears, exactly when the second does not arrive twice. */
  lemma SecondWordExact(g: nat -> Word)
    ensures (forall f :: Snapshots(Pair(f, g), 2)) <==> !ArrivesTwice(g)
  {
    if t1, t2, t3, t4 :| InAndBack(g, t1, t2, t3, t4) {
      PartnerTears(At(t1, t3), g, t1, t2, t3, t4);
    }
    if !ArrivesTwice(g) {
      forall f ensures Snapshots(Pair(f, g), 2) {
        forall ws, at1, at2, lo, mid, hi | |ws| == 2 && Collects(Pair(f, g), ws, at1, at2, lo, mid, hi)
          ensures Stood(Pair(f, g), ws, lo, hi)
        {
          PairCollected(f, g, ws, at1, at2, lo, mid, hi);
          assert !InAndBack(g, at1[0], at1[1], at2[0], at2[1]);
        }
      }
    }
  }

  // For any number of words: which one may do as it likes, if the others are steady.

  ghost predicate SteadyBut(memory: Trace, n: nat, free: nat) {
    && (forall t :: n <= |memory(t)|)
    && forall a :: 0 <= a < n && a != free ==> NeverReturns(memory, a)
  }

  /** The words before `free` change after the reading begins to repeat, those after it before; `free` is away in between. */
  function Between(n: nat, free: nat): Trace {
    t => seq(n, j requires 0 <= j < n =>
      if j < free then (if t <= 1 then 0 else 1)
      else if j > free then (if t == 0 then 1 else 0)
      else if t == 1 then 1 else 0)
  }

  lemma BetweenIsSteady(n: nat, free: nat)
    ensures SteadyBut(Between(n, free), n, free)
  {
    forall a | 0 <= a < n && a != free ensures NeverReturns(Between(n, free), a) { }
  }

  lemma BetweenTears(n: nat, free: nat)
    requires 0 < free < n - 1
    ensures !Snapshots(Between(n, free), n)
  {
    var memory := Between(n, free);
    var ws := seq(n, _ => 0 as Word);
    var at1 := seq(n, j => if j <= free then 0 else 1);
    var at2 := seq(n, j => if j < free then 1 else 2);
    assert Collects(memory, ws, at1, at2, 0, 1, 2);
    forall t ensures !RecordAt(memory, t, 0, ws) {
      assert memory(t)[0..n] == memory(t) && (memory(t)[0] != 0 || memory(t)[free] != 0 || memory(t)[n - 1] != 0);
    }
    assert !Stood(memory, ws, 0, 2);
  }

  /** With the other words steady, no double collect tears exactly when the free word is the first or the last. */
  lemma FreeWordExact(n: nat, free: nat)
    requires free < n
    ensures (forall memory :: SteadyBut(memory, n, free) ==> Snapshots(memory, n)) <==> free == 0 || free == n - 1
  {
    if free == 0 || free == n - 1 {
      forall memory | SteadyBut(memory, n, free) ensures Snapshots(memory, n) {
        forall ws, at1, at2, lo, mid, hi | |ws| == n && Collects(memory, ws, at1, at2, lo, mid, hi)
          ensures Stood(memory, ws, lo, hi)
        {
          var t := DoubleCollectButOne(memory, 0, ws, at1, at2, lo, mid, hi, free);
          assert RecordAt(memory, t, 0, ws);
        }
      }
    } else {
      BetweenIsSteady(n, free);
      BetweenTears(n, free);
    }
  }

  /** Two words, written one at a time: 0 0, 1 0, 1 1, 1 0, and over again. */
  function Flicker(t: nat): seq<Word> {
    [if t % 4 == 0 then 0 else 1, if t % 4 == 2 then 1 else 0]
  }

  /** Of these, two equal passes accept 0 1, which never stood. */
  lemma DoubleCollectCanTear()
    ensures forall t: nat :: Flicker(t)[0] == Flicker(t + 1)[0] || Flicker(t)[1] == Flicker(t + 1)[1]
    ensures Collects(Flicker, [0, 1], [0, 2], [4, 6], 0, 2, 6)
    ensures forall t :: !RecordAt(Flicker, t, 0, [0, 1])
  {
    FlickerPass(0, 0);
    FlickerPass(4, 2);
    forall t ensures !RecordAt(Flicker, t, 0, [0, 1]) {
      assert Flicker(t)[0..2][0] == Flicker(t)[0] && Flicker(t)[0..2][1] == Flicker(t)[1];
    }
  }

  lemma FlickerPass(t: nat, lo: nat)
    requires t % 4 == 0 && lo <= t
    ensures Pass(Flicker, 0, [0, 1], [t, t + 2], lo, t + 2)
  {
    assert Flicker(t)[0] == 0 && Flicker(t + 2)[1] == 1;
  }

  /** What accepting ws promises about a record of steady words. */
  ghost predicate SnapshotIfSteady(memory: Trace, address: nat, ws: seq<Word>, mid: nat) {
    Steady(memory, address, address + |ws|) && address + |ws| <= |memory(mid)| ==>
      RecordAt(memory, mid, address, ws)
  }

  /** What it promises about a record published by its sequence word q. */
  ghost predicate SnapshotIfPublished(memory: Trace, address: nat, ws: seq<Word>, q: nat, lo: nat, hi: nat) {
    forall epoch: nat -> nat :: Publishes(memory, epoch, address + q, address, address + |ws|) ==>
      Published(memory, epoch, address, ws, lo, hi)
  }

  ghost predicate Published(memory: Trace, epoch: nat -> nat, address: nat, ws: seq<Word>, lo: nat, hi: nat) {
    || epoch(hi) >= epoch(lo) + 0x1_0000_0000
    || exists t :: lo <= t <= hi && epoch(t) % 2 == 0 && RecordAt(memory, t, address, ws)
  }

  /** The word at a had the value w at some moment. */
  ghost predicate Seen(memory: Trace, a: nat, w: Word, lo: nat, hi: nat) {
    exists t :: lo <= t <= hi && a < |memory(t)| && memory(t)[a] == w
  }

  /** It had another. */
  ghost predicate SeenOther(memory: Trace, a: nat, w: Word, lo: nat, hi: nat) {
    exists t :: lo <= t <= hi && a < |memory(t)| && memory(t)[a] != w
  }

  lemma WordSeen(memory: Trace, address: nat, ws: seq<Word>, at: seq<nat>, lo: nat, hi: nat, from: nat, to: nat,
                 a: nat, w: Word)
    requires Pass(memory, address, ws, at, lo, hi) && from <= lo && hi <= to && address <= a < address + |ws|
    ensures Seen(memory, a, ws[a - address], from, to)
    ensures w != ws[a - address] ==> SeenOther(memory, a, w, from, to)
  {
    var t := at[a - address];
    assert from <= t <= to && a < |memory(t)|;
  }

  /** Nothing is written during the reading, and no publication is under way. */
  ghost predicate Still(memory: Trace, address: nat, size: nat, sequence: Option<nat>, lo: nat, hi: nat) {
    exists ws :: |ws| == size && (forall t :: lo <= t <= hi ==> RecordAt(memory, t, address, ws))
                 && (sequence.Some? && sequence.value < size ==> ws[sequence.value] % 2 == 0)
  }

  /** Between any two marks that follow each other, the record was not still. */
  ghost predicate Disturbed(memory: Trace, address: nat, size: nat, sequence: Option<nat>, marks: seq<nat>) {
    forall i :: 0 <= i < |marks| - 1 ==>
      marks[i] <= marks[i + 1] && !Still(memory, address, size, sequence, marks[i], marks[i + 1])
  }

  lemma OneMark(memory: Trace, address: nat, size: nat, sequence: Option<nat>, mark: nat)
    ensures Disturbed(memory, address, size, sequence, [mark])
  {
  }

  lemma DisturbedAgain(memory: Trace, address: nat, size: nat, sequence: Option<nat>, marks: seq<nat>, next: nat)
    requires marks != [] && Disturbed(memory, address, size, sequence, marks)
    requires marks[|marks| - 1] <= next && !Still(memory, address, size, sequence, marks[|marks| - 1], next)
    ensures Disturbed(memory, address, size, sequence, marks + [next])
  {
    hide Still;
    var all := marks + [next];
    forall i | 0 <= i < |all| - 1
      ensures all[i] <= all[i + 1] && !Still(memory, address, size, sequence, all[i], all[i + 1])
    {
      if i < |marks| - 1 {
        assert all[i] == marks[i] && all[i + 1] == marks[i + 1];
      }
    }
  }

  lemma StillPasses(memory: Trace, address: nat, size: nat, sequence: Option<nat>, ws: seq<Word>, at: seq<nat>,
                    lo: nat, hi: nat, from: nat, to: nat)
    requires from <= lo <= hi <= to && Still(memory, address, size, sequence, from, to)
    requires |ws| == size && Pass(memory, address, ws, at, lo, hi)
    ensures RecordAt(memory, from, address, ws)
    ensures sequence.Some? && sequence.value < size ==> ws[sequence.value] % 2 == 0
  {
    var still :| |still| == size && (forall t :: from <= t <= to ==> RecordAt(memory, t, address, still))
                 && (sequence.Some? && sequence.value < size ==> still[sequence.value] % 2 == 0);
    forall k | 0 <= k < size ensures ws[k] == still[k] {
      assert RecordAt(memory, at[k], address, still);
    }
    assert ws == still;
  }

  lemma PublishedPasses(memory: Trace, address: nat, ws: seq<Word>, q: nat,
                        at1: seq<nat>, at2: seq<nat>, lo: nat, mid: nat, hi: nat, from: nat)
    requires from <= lo && Pass(memory, address, ws, at1, lo, mid) && Pass(memory, address, ws, at2, mid, hi)
    requires q < |ws| && ws[q] % 2 == 0
    ensures SnapshotIfPublished(memory, address, ws, q, from, hi)
  {
    forall epoch: nat -> nat | Publishes(memory, epoch, address + q, address, address + |ws|)
      ensures Published(memory, epoch, address, ws, from, hi)
    {
      SequencedDoubleCollect(memory, epoch, address, ws, q, at1, at2, lo, mid, hi);
      EpochGrows(memory, epoch, address + q, address, address + |ws|, from, at1[q]);
      EpochGrows(memory, epoch, address + q, address, address + |ws|, at2[q], hi);
    }
  }

  datatype Stable = Stable(words: seq<Word>) | ShortRead | Changed

  /**
   * `read_stable`: at most eight times two passes.  The frame record has its sequence word at a given
   * place; the draw record and the lock history have none.
   */
  method ReadStable(p: Process, address: nat, size: nat, sequence: Option<nat>)
    returns (r: Stable, ghost mid: nat, ghost marks: seq<nat>)
    requires sequence.Some? ==> sequence.value < size
    modifies p`now
    ensures old(p.now) <= p.now
    ensures r.Stable? ==> |r.words| == size && old(p.now) <= mid <= p.now
                          && SnapshotIfSteady(p.memory, address, r.words, mid)
                          && (sequence.Some? ==>
                                SnapshotIfPublished(p.memory, address, r.words, sequence.value, old(p.now), p.now))
    ensures r.ShortRead? ==> exists t :: old(p.now) <= t <= p.now && |p.memory(t)| < address + size
    ensures r.Changed? ==> |marks| == 9 && marks[0] == old(p.now) && marks[8] == p.now
                           && Disturbed(p.memory, address, size, sequence, marks)
  {
    hide SnapshotIfSteady, SnapshotIfPublished, Pass, Disturbed, Still;
    mid, marks := 0, [p.now];
    OneMark(p.memory, address, size, sequence, p.now);
    for attempt := 0 to 8
      invariant |marks| == attempt + 1 && marks[0] == old(p.now) && marks[attempt] == p.now >= old(p.now)
      invariant Disturbed(p.memory, address, size, sequence, marks)
    {
      var raw1, raw2;
      ghost var at1, at2, start := [], [], p.now;
      raw1, at1 := ReadExact(p, address, size);
      if raw1.None? { return ShortRead, mid, marks; }
      mid := p.now;
      raw2, at2 := ReadExact(p, address, size);
      if raw2.None? { return ShortRead, mid, marks; }
      if Still(p.memory, address, size, sequence, start, p.now) {
        StillPasses(p.memory, address, size, sequence, raw1.value, at1, start, mid, start, p.now);
        StillPasses(p.memory, address, size, sequence, raw2.value, at2, mid, p.now, start, p.now);
      }
      if raw1.value != raw2.value || (sequence.Some? && raw1.value[sequence.value] % 2 == 1) {
        DisturbedAgain(p.memory, address, size, sequence, marks, p.now);
        marks := marks + [p.now];
        continue;
      }
      SteadyPasses(p.memory, address, raw1.value, at1, at2, start, mid, p.now);
      if sequence.Some? {
        PublishedPasses(p.memory, address, raw1.value, sequence.value, at1, at2, start, mid, p.now, old(p.now));
      }
      r := Stable(raw1.value);
      return;
    }
    r := Changed;
  }

  lemma SteadyPasses(memory: Trace, address: nat, ws: seq<Word>, at1: seq<nat>, at2: seq<nat>,
                      lo: nat, mid: nat, hi: nat)
    requires Pass(memory, address, ws, at1, lo, mid) && Pass(memory, address, ws, at2, mid, hi)
    ensures SnapshotIfSteady(memory, address, ws, mid)
  {
    if Steady(memory, address, address + |ws|) && address + |ws| <= |memory(mid)| {
      DoubleCollect(memory, address, ws, at1, at2, lo, mid, hi);
    }
  }
}

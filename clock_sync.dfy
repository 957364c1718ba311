/** Clock synchronisation of a drive CPU with the main CPU: the wake-up
    heuristic and the conversion of elapsed main-CPU cycles into a drive
    stop clock through a 16.16 fixed-point accumulator.

    Clock values are unbounded naturals. CLOCK is an unsigned 64-bit type,
    and the one place where its wrap-around changes what the code does, the
    difference `maincpu_clk - last_clk` of the wake-up test, is computed
    modulo 2^64 explicitly. */
module ClockSync {

  const CLOCK_MOD: nat := 0x1_0000_0000_0000_0000

  /** The wake-up test skips cycles when more than this many main-CPU cycles
      are owed ... */
  const WAKE_UP_GAP: nat := 0xff_ffff
  /** ... and the drive clock is already past this warm-up period. */
  const WAKE_UP_WARMUP: nat := 934639

  /** Largest number of main-CPU cycles converted in one chunk. */
  const CHUNK: nat := 10000

  /** One drive cycle in 16.16 fixed point. */
  const FRACTION: nat := 0x1_0000

  /** Unsigned 64-bit subtraction of two CLOCK values. */
  function ClockSub(a: nat, b: nat): nat
  {
    (a - b) % CLOCK_MOD
  }

  /** `last_clk` after drivecpu_wake_up: resynchronised to the main clock when
      the drive is owed an enormous number of cycles, unchanged otherwise. */
  function WakeUpLastClk(mainClk: nat, lastClk: nat, driveClk: nat): (r: nat)
    ensures r == mainClk || r == lastClk
    ensures mainClk < CLOCK_MOD && lastClk <= mainClk ==>
      r == if mainClk - lastClk > WAKE_UP_GAP && driveClk > WAKE_UP_WARMUP then mainClk else lastClk
    // a main clock below last_clk reads as a huge gap, unless it is within
    // 2^24 cycles of a wrap-around of the 64-bit counter
    ensures lastClk < CLOCK_MOD && mainClk < lastClk ==>
      r == if lastClk - mainClk < CLOCK_MOD - WAKE_UP_GAP && driveClk > WAKE_UP_WARMUP then mainClk else lastClk
  {
    if ClockSub(mainClk, lastClk) > WAKE_UP_GAP && driveClk > WAKE_UP_WARMUP then mainClk else lastClk
  }

  /** Once woken up, a second wake-up test at the same clocks changes nothing. */
  lemma WakeUpSettles(mainClk: nat, lastClk: nat, driveClk: nat)
    requires mainClk < CLOCK_MOD && lastClk < CLOCK_MOD
    ensures var l := WakeUpLastClk(mainClk, lastClk, driveClk);
            WakeUpLastClk(mainClk, l, driveClk) == l
  {
  }

  /** The pair (stop_clk, cycle_accum). */
  datatype Accum = Accum(stop: nat, frac: nat)

  /** The accumulated drive time in 1/65536 drive cycles. */
  function Total(a: Accum): nat
  {
    a.stop * FRACTION + a.frac
  }

  /** One turn of the chunk loop: add `sync * t` to the accumulator, move its
      integral part into stop_clk and keep the fraction. */
  function Step(a: Accum, sync: nat, t: nat): (r: Accum)
    ensures Total(r) == Total(a) + sync * t
    ensures r.frac < FRACTION && r.stop >= a.stop
  {
    var acc := a.frac + sync * t;
    assert acc == acc / FRACTION * FRACTION + acc % FRACTION;
    Accum(a.stop + acc / FRACTION, acc % FRACTION)
  }

  /** The chunks the loop cuts `cycles` into: 10000 at a time, the rest last. */
  function Chunks(cycles: nat): seq<nat>
    decreases cycles
  {
    if cycles == 0 then []
    else
      var t := if cycles > CHUNK then CHUNK else cycles;
      [t] + Chunks(cycles - t)
  }

  function Sum(s: seq<nat>): nat
  {
    if s == [] then 0 else s[0] + Sum(s[1..])
  }

  /** The accumulator after converting the given chunks in turn. */
  function Accumulate(a: Accum, sync: nat, chunks: seq<nat>): Accum
    decreases |chunks|
  {
    if chunks == [] then a else Accumulate(Step(a, sync, chunks[0]), sync, chunks[1..])
  }

  /** The loop's chunks cover exactly the owed cycles and none is longer
      than 10000 cycles or empty. */
  lemma {:induction false} ChunksCover(cycles: nat)
    ensures Sum(Chunks(cycles)) == cycles
    ensures Chunks(cycles) == [] <==> cycles == 0
    ensures forall i :: 0 <= i < |Chunks(cycles)| ==> 0 < Chunks(cycles)[i] <= CHUNK
    decreases cycles
  {
    if cycles > 0 {
      var t := if cycles > CHUNK then CHUNK else cycles;
      ChunksCover(cycles - t);
      assert Chunks(cycles) == [t] + Chunks(cycles - t);
      assert Chunks(cycles)[1..] == Chunks(cycles - t);
    }
  }

  /** Conservation: however the cycles are chunked, the accumulated time grows
      by exactly `sync` per main-CPU cycle, and after at least one chunk the
      fraction is below one drive cycle. */
  lemma {:induction false} AccumulateConserves(a: Accum, sync: nat, chunks: seq<nat>)
    ensures Total(Accumulate(a, sync, chunks)) == Total(a) + sync * Sum(chunks)
    ensures chunks != [] ==> Accumulate(a, sync, chunks).frac < FRACTION
    ensures chunks == [] ==> Accumulate(a, sync, chunks) == a
    ensures Accumulate(a, sync, chunks).stop >= a.stop
    decreases |chunks|
  {
    if chunks != [] {
      var b := Step(a, sync, chunks[0]);
      AccumulateConserves(b, sync, chunks[1..]);
      calc {
        Total(Accumulate(a, sync, chunks));
        Total(Accumulate(b, sync, chunks[1..]));
        Total(b) + sync * Sum(chunks[1..]);
        Total(a) + sync * chunks[0] + sync * Sum(chunks[1..]);
        Total(a) + sync * (chunks[0] + Sum(chunks[1..]));
      }
    }
  }

  /** An accumulator value is determined by its total once its fraction is
      below one drive cycle. */
  lemma Normalised(a: Accum)
    requires a.frac < FRACTION
    ensures a == Accum(Total(a) / FRACTION, Total(a) % FRACTION)
  {
    var t := Total(a);
    assert t == a.stop * FRACTION + a.frac;
    assert t / FRACTION == a.stop && t % FRACTION == a.frac by {
      DivModUnique(t, a.stop, a.frac);
    }
  }

  lemma DivModUnique(t: nat, q: nat, r: nat)
    requires t == q * FRACTION + r && r < FRACTION
    ensures t / FRACTION == q && t % FRACTION == r
  {
  }

  /** Closed form of the catch-up: after at least one chunk, stop_clk and
      cycle_accum are the quotient and remainder of the accumulated time. */
  lemma AccumulateClosedForm(a: Accum, sync: nat, chunks: seq<nat>)
    requires chunks != []
    ensures var t := Total(a) + sync * Sum(chunks);
            Accumulate(a, sync, chunks) == Accum(t / FRACTION, t % FRACTION)
  {
    AccumulateConserves(a, sync, chunks);
    Normalised(Accumulate(a, sync, chunks));
  }

  /** The result does not depend on how the owed cycles were chunked. */
  lemma ChunkingIrrelevant(a: Accum, sync: nat, c1: seq<nat>, c2: seq<nat>)
    requires c1 != [] && c2 != [] && Sum(c1) == Sum(c2)
    ensures Accumulate(a, sync, c1) == Accumulate(a, sync, c2)
  {
    AccumulateClosedForm(a, sync, c1);
    AccumulateClosedForm(a, sync, c2);
  }

  /** Converting chunks one after another is the same as converting their concatenation. */
  lemma {:induction false} AccumulateAppend(a: Accum, sync: nat, c1: seq<nat>, c2: seq<nat>)
    ensures Accumulate(Accumulate(a, sync, c1), sync, c2) == Accumulate(a, sync, c1 + c2)
    decreases |c1|
  {
    if c1 != [] {
      assert (c1 + c2)[0] == c1[0];
      assert (c1 + c2)[1..] == c1[1..] + c2;
      AccumulateAppend(Step(a, sync, c1[0]), sync, c1[1..], c2);
    } else {
      assert c1 + c2 == c2;
    }
  }

  lemma {:induction false} SumAppend(c1: seq<nat>, c2: seq<nat>)
    ensures Sum(c1 + c2) == Sum(c1) + Sum(c2)
    decreases |c1|
  {
    if c1 != [] {
      assert (c1 + c2)[0] == c1[0];
      assert (c1 + c2)[1..] == c1[1..] + c2;
      SumAppend(c1[1..], c2);
    } else {
      assert c1 + c2 == c2;
    }
  }

  /** No drift across calls: catching up n1 and then n2 cycles leaves the same
      stop_clk and cycle_accum as catching up n1 + n2 cycles in one call. */
  lemma CatchUpAdditive(a: Accum, sync: nat, n1: nat, n2: nat)
    ensures Accumulate(Accumulate(a, sync, Chunks(n1)), sync, Chunks(n2))
         == Accumulate(a, sync, Chunks(n1 + n2))
  {
    ChunksCover(n2);
    if n2 > 0 {
      ChunksCover(n1);
      ChunksCover(n1 + n2);
      AccumulateAppend(a, sync, Chunks(n1), Chunks(n2));
      SumAppend(Chunks(n1), Chunks(n2));
      ChunkingIrrelevant(a, sync, Chunks(n1) + Chunks(n2), Chunks(n1 + n2));
    }
  }

  /** Accuracy: starting from a normalised accumulator, converting N main-CPU
      cycles at ratio `sync` schedules floor(sync * N / 65536) drive cycles,
      or one more when the carried fraction tips over. */
  lemma ScheduledCycles(a: Accum, sync: nat, n: nat)
    requires a.frac < FRACTION
    ensures var d := Accumulate(a, sync, Chunks(n)).stop - a.stop;
            sync * n / FRACTION <= d <= sync * n / FRACTION + 1
  {
    if n > 0 {
      ChunksCover(n);
      AccumulateClosedForm(a, sync, Chunks(n));
      var t := Total(a) + sync * n;
      var q := sync * n / FRACTION;
      var r := sync * n % FRACTION;
      assert sync * n == q * FRACTION + r;
      assert t == (a.stop + q) * FRACTION + (a.frac + r);
      assert a.frac + r < 2 * FRACTION;
      if a.frac + r < FRACTION {
        DivModUnique(t, a.stop + q, a.frac + r);
      } else {
        assert t == (a.stop + q + 1) * FRACTION + (a.frac + r - FRACTION);
        DivModUnique(t, a.stop + q + 1, a.frac + r - FRACTION);
      }
    }
  }
}

/** The cached generator under concurrency: any number of threads taking ids and any number of
    threads running paddingBuffer, in every interleaving of their atomic steps. */
module ConcurrentUid {
  import opened BitsAllocator
  import opened JavaLong
  import opened DefaultUidGenerator
  import opened RingBuffer
  import opened CachedUidGenerator
  import CR = ConcurrentRing
  import RP = RingProgress
  import SC = StaleClaims

  /** A sequence within a second. */
  type index = k: int | 0 <= k < 0x8000_0000_0000_0000

  /** Where a thread is inside paddingBuffer. */
  datatype Padder =
    | Outside
    | NeedSecond                       // running won; before lastSecond.incrementAndGet
    | Filling(second: int, k: nat)     // about to put the k-th id of the second
    | Putting(second: int, seqno: index)   // inside put
    | Leaving                          // ring full; before running is cleared

  datatype System = System(
    ring: CR.Ring, running: bool, lastSecond: int, padders: seq<Padder>,
    ids: seq<Id>,         // history: what was put, by sequence number
    provided: seq<int>,   // history: the seconds paid out, in order
    rejected: seq<nat>)   // history: for each rejected put, how many ids had been put before it

  datatype Step = Taker(step: CR.Step) | Pad(p: nat)

  ghost function Start(n: nat, takers: nat, padders: nat, now: int): System
    requires n > 0
  {
    System(CR.Start(n, takers), false, now, seq(padders, _ => Outside), [], [], [])
  }

  ghost function PadStep(c: Config, n: nat, y: System, p: nat): (y': System)
    requires c.Valid() && y.ring.Shaped(n) && p < |y.padders|
    ensures y'.ring.Shaped(n)
  {
    match y.padders[p]
    case Outside =>
      // running.compareAndSet(false, true); the loser returns
      if y.running then y else y.(running := true, padders := y.padders[p := NeedSecond])
    case NeedSecond =>
      var second := y.lastSecond + 1;
      y.(lastSecond := second, padders := y.padders[p := Filling(second, 0)], provided := y.provided + [second])
    case Filling(second, k) =>
      if k >= SecondSize(c) then y.(padders := y.padders[p := NeedSecond])
      else if !y.ring.producer.Free? then y // waits for the lock of put
      else y.(ring := CR.Apply(n, y.ring, CR.PutBegin(UidOf(c, (second, k)))), padders := y.padders[p := Putting(second, k)])
    case Putting(second, k) =>
      var ring' := CR.Apply(n, y.ring, CR.PutNext);
      if !ring'.producer.Free? then y.(ring := ring')
      else if y.ring.producer.FlagSet? then
        y.(ring := ring', ids := y.ids + [(second, k)], padders := y.padders[p := Filling(second, k + 1)])
      else y.(ring := ring', padders := y.padders[p := Leaving], rejected := y.rejected + [|y.ids|])
    case Leaving => y.(running := false, padders := y.padders[p := Outside])
  }

  /** Ids are put by padding threads only. */
  ghost function Apply(c: Config, n: nat, y: System, step: Step): (y': System)
    requires c.Valid() && y.ring.Shaped(n)
    ensures y'.ring.Shaped(n)
  {
    match step
    case Taker(s) => if s.Take? || s.Retry? then y.(ring := CR.Apply(n, y.ring, s)) else y
    case Pad(p) => if p < |y.padders| then PadStep(c, n, y, p) else y
  }

  ghost function Run(c: Config, n: nat, y: System, steps: seq<Step>): (y': System)
    requires c.Valid() && y.ring.Shaped(n)
    ensures y'.ring.Shaped(n)
    decreases |steps|
  {
    if |steps| == 0 then y else Run(c, n, Apply(c, n, y, steps[0]), steps[1..])
  }

  ghost predicate NeverStale(c: Config, n: nat, y: System, steps: seq<Step>)
    requires c.Valid() && y.ring.Shaped(n)
    decreases |steps|
  {
    |steps| == 0 ||
    (!(steps[0].Taker? && CR.StaleOnEmpty(y.ring, steps[0].step)) && NeverStale(c, n, Apply(c, n, y, steps[0]), steps[1..]))
  }

  // ------------------------------------------------------------ padding threads

  ghost predicate Inside(y: System) {
    exists p :: 0 <= p < |y.padders| && !y.padders[p].Outside?
  }

  ghost predicate OnePadder(y: System) {
    && (y.running <==> Inside(y))
    && (forall p :: 0 <= p < |y.padders| && !y.padders[p].Outside? ==> y.running)
    && (forall p, q :: 0 <= p < |y.padders| && 0 <= q < |y.padders| && p != q ==>
          y.padders[p].Outside? || y.padders[q].Outside?)
    && (!y.ring.producer.Free? ==> exists p :: 0 <= p < |y.padders| && y.padders[p].Putting?)
  }

  /** Ids put so far lie before (second, k). */
  ghost predicate IdsBefore(y: System, second: int, k: int) {
    forall i :: 0 <= i < |y.ids| ==> Before(y.ids[i], (second, k))
  }

  ghost predicate PadderOk(c: Config, y: System, p: nat)
    requires c.Valid() && p < |y.padders|
  {
    match y.padders[p]
    case Filling(second, k) => second == y.lastSecond && k <= SecondSize(c) && IdsBefore(y, second, k)
    case Putting(second, k) =>
      second == y.lastSecond && k < SecondSize(c) && IdsBefore(y, second, k)
      && !y.ring.producer.Free? && y.ring.producer.uid == UidOf(c, (second, k))
    case _ => true
  }

  ghost predicate HistoryOk(c: Config, y: System)
    requires c.Valid()
  {
    && y.ring.puts == Uids(c, y.ids) && Increasing(y.ids)
    && (forall i :: 0 <= i < |y.ids| ==> y.ids[i].0 <= y.lastSecond && 0 <= y.ids[i].1 <= c.allocator.maxSequence)
    && (forall i, j :: 0 <= i < j < |y.provided| ==> y.provided[i] < y.provided[j])
    && (forall i :: 0 <= i < |y.provided| ==> y.provided[i] <= y.lastSecond)
  }

  ghost predicate Inv(c: Config, n: nat, y: System) {
    && c.Valid() && y.ring.Shaped(n) && OnePadder(y) && HistoryOk(c, y)
    && forall p :: 0 <= p < |y.padders| ==> PadderOk(c, y, p)
  }

  /** A taker's step leaves the producer and the history of puts alone. */
  lemma TakerKeeps(n: nat, r: CR.Ring, s: CR.Step)
    requires r.Shaped(n) && (s.Take? || s.Retry?)
    ensures CR.Apply(n, r, s).producer == r.producer && CR.Apply(n, r, s).puts == r.puts
  {
    hide Slot;
  }

  lemma PutKeeps(n: nat, r: CR.Ring)
    requires r.Shaped(n) && !r.producer.Free?
    ensures var r' := CR.Apply(n, r, CR.PutNext);
            && r'.puts == (if r.producer.FlagSet? then r.puts + [r.producer.uid] else r.puts)
            && (r.producer.FlagSet? ==> r'.producer.Free?)
            && (!r'.producer.Free? ==> r'.producer.uid == r.producer.uid)
  {
    hide Slot;
  }

  lemma PadStepInv(c: Config, n: nat, y: System, p: nat)
    requires Inv(c, n, y) && p < |y.padders|
    ensures Inv(c, n, PadStep(c, n, y, p))
  {
    hide Slot, UidOf, Uids, SecondSize, CR.PutStep, CR.TakeStep, Inside;
    var y' := PadStep(c, n, y, p);
    RunningKept(c, n, y, p);
    assert PadderOk(c, y, p);
    match y.padders[p]
    case Putting(second, k) =>
      PutKeeps(n, y.ring);
      if y.ring.producer.FlagSet? {
        AppendId(c, y.ids, (second, k));
        assert IdsBefore(y', second, k + 1);
        assert SecondSize(c) == c.allocator.maxSequence + 1 by { MaxIs(c); }
      } else {
        assert y'.ids == y.ids && y'.ring.puts == y.ring.puts;
        if !y'.ring.producer.Free? { assert y'.padders[p].Putting?; }
      }
    case Filling(second, k) =>
      if y'.padders[p].Putting? { assert !y'.ring.producer.Free?; }
    case NeedSecond =>
      assert IdsBefore(y', y'.lastSecond, 0);
    case _ =>
  }

  lemma RunningKept(c: Config, n: nat, y: System, p: nat)
    requires c.Valid() && y.ring.Shaped(n) && OnePadder(y) && p < |y.padders|
    ensures var y' := PadStep(c, n, y, p); y'.running <==> Inside(y')
  {
    hide UidOf, SecondSize, CR.Apply;
    var y' := PadStep(c, n, y, p);
    assert |y'.padders| == |y.padders| && forall q :: 0 <= q < |y.padders| && q != p ==> y'.padders[q] == y.padders[q];
    match y.padders[p]
    case Outside =>
      if y.running { assert y' == y; } else { assert !y'.padders[p].Outside?; }
    case Leaving =>
      forall q | 0 <= q < |y'.padders| ensures y'.padders[q].Outside? {
        if q != p { assert y.padders[q].Outside?; }
      }
    case _ =>
      assert y.running && y'.running && !y'.padders[p].Outside?;
  }

  lemma MaxIs(c: Config)
    requires c.Valid()
    ensures SecondSize(c) == c.allocator.maxSequence + 1
  {
  }

  lemma AppendId(c: Config, ids: seq<Id>, id: Id)
    requires Increasing(ids) && forall i :: 0 <= i < |ids| ==> Before(ids[i], id)
    ensures Increasing(ids + [id]) && Uids(c, ids + [id]) == Uids(c, ids) + [UidOf(c, id)]
  {
    hide UidOf;
  }

  lemma StepInv(c: Config, n: nat, y: System, step: Step)
    requires Inv(c, n, y)
    ensures Inv(c, n, Apply(c, n, y, step))
  {
    hide Slot, UidOf, Uids, SecondSize, CR.Apply, PadStep;
    match step
    case Pad(p) => if p < |y.padders| { PadStepInv(c, n, y, p); }
    case Taker(s) =>
      if s.Take? || s.Retry? {
        TakerKeeps(n, y.ring, s);
        var y' := Apply(c, n, y, step);
        forall p | 0 <= p < |y'.padders| ensures PadderOk(c, y', p) { assert PadderOk(c, y, p); }
      }
  }

  lemma {:induction false} RunInv(c: Config, n: nat, y: System, steps: seq<Step>)
    requires Inv(c, n, y)
    ensures Inv(c, n, Run(c, n, y, steps))
    decreases |steps|
  {
    hide Apply, OnePadder, HistoryOk, PadderOk;
    if |steps| > 0 {
      StepInv(c, n, y, steps[0]);
      RunInv(c, n, Apply(c, n, y, steps[0]), steps[1..]);
    }
  }

  lemma StartInv(c: Config, n: nat, takers: nat, padders: nat, now: int)
    requires c.Valid() && n > 0
    ensures Inv(c, n, Start(n, takers, padders, now))
  {
    hide UidOf;
  }

  /** In every interleaving at most one thread is inside the padding loop, and one is exactly when
      `running` is set, so that no padding is locked out for good; each second is paid
      out at most once and in order, and the ids put, in put order, are strictly increasing. */
  lemma PaddingIsExclusive(c: Config, n: nat, takers: nat, padders: nat, now: int, steps: seq<Step>)
    requires c.Valid() && n > 0
    ensures var y := Run(c, n, Start(n, takers, padders, now), steps);
            && (forall p, q :: 0 <= p < |y.padders| && 0 <= q < |y.padders| && p != q ==>
                  y.padders[p].Outside? || y.padders[q].Outside?)
            && (y.running <==> exists p :: 0 <= p < |y.padders| && !y.padders[p].Outside?)
            && (forall i, j :: 0 <= i < j < |y.provided| ==> y.provided[i] < y.provided[j])
            && Increasing(y.ids) && y.ring.puts == Uids(c, y.ids)
  {
    hide UidOf, Uids, Apply, SecondSize;
    StartInv(c, n, takers, padders, now);
    RunInv(c, n, Start(n, takers, padders, now), steps);
  }

  // ------------------------------------------------------------ together with the ring

  lemma StepSafe(c: Config, n: nat, y: System, step: Step)
    requires c.Valid() && CR.Safe(n, y.ring)
    requires !(step.Taker? && CR.StaleOnEmpty(y.ring, step.step))
    ensures CR.Safe(n, Apply(c, n, y, step).ring)
  {
    hide Slot, UidOf, CR.Apply, CR.Safe;
    assert y.ring.Shaped(n) by { ShapedSafe(n, y.ring); }
    match step
    case Taker(s) => if s.Take? || s.Retry? { CR.StepSafe(n, y.ring, s); }
    case Pad(p) =>
      if p < |y.padders| {
        match y.padders[p]
        case Filling(second, k) => if k < SecondSize(c) { CR.StepSafe(n, y.ring, CR.PutBegin(UidOf(c, (second, k)))); }
        case Putting(second, k) => CR.StepSafe(n, y.ring, CR.PutNext);
        case _ =>
      }
  }

  lemma ShapedSafe(n: nat, r: CR.Ring)
    requires CR.Safe(n, r)
    ensures r.Shaped(n)
  {
  }

  lemma {:induction false} RunSafe(c: Config, n: nat, y: System, steps: seq<Step>)
    requires c.Valid() && y.ring.Shaped(n) && CR.Safe(n, y.ring) && NeverStale(c, n, y, steps)
    ensures CR.Safe(n, Run(c, n, y, steps).ring)
    decreases |steps|
  {
    hide Apply, CR.Safe, CR.StaleOnEmpty;
    if |steps| > 0 {
      StepSafe(c, n, y, steps[0]);
      RunSafe(c, n, Apply(c, n, y, steps[0]), steps[1..]);
    }
  }

  /** The longs put are strictly increasing, takers claim them in that order, and no long is
      handed out twice. */
  ghost predicate Unique(r: CR.Ring) {
    && (forall i, j :: 0 <= i < j < |r.puts| ==> r.puts[i] < r.puts[j])
    && |r.claims| <= |r.puts| && (forall i :: 0 <= i < |r.claims| ==> r.claims[i].1 == i)
    && (forall i :: 0 <= i < |r.given| ==>
          0 <= r.given[i].1 < |r.claims| && r.given[i].2 == r.puts[r.given[i].1])
    && (forall i, j :: 0 <= i < j < |r.given| ==> r.given[i].2 != r.given[j].2)
  }

  /** End to end, under concurrency: so it is in every interleaving without a stale update on an
      empty ring, as long as the seconds paid out stay in the timestamp range. */
  lemma UidsAreUnique(c: Config, n: nat, takers: nat, padders: nat, now: int, steps: seq<Step>)
    requires c.Valid() && n > 0 && NeverStale(c, n, Start(n, takers, padders, now), steps)
    requires now - c.epochSeconds >= -1 - c.allocator.maxDeltaSeconds
    requires Run(c, n, Start(n, takers, padders, now), steps).lastSecond - c.epochSeconds <= c.allocator.maxDeltaSeconds
    ensures Unique(Run(c, n, Start(n, takers, padders, now), steps).ring)
  {
    hide Apply, UidOf, Uids, SecondSize, OnePadder, Slot, CR.LiveOk, CR.SlotsDistinct, CR.ProducerOk, CR.Start;
    var y0 := Start(n, takers, padders, now);
    var y := Run(c, n, y0, steps);
    StartInv(c, n, takers, padders, now);
    RunInv(c, n, y0, steps);
    CR.StartSafe(n, takers);
    RunSafe(c, n, y0, steps);
    StartAfter(c, n, y0, steps, now);
    forall i, j | 0 <= i < j < |y.ring.puts| ensures y.ring.puts[i] < y.ring.puts[j] {
      IdOrder(c, y.ids, i, j, now, y.lastSecond);
    }
  }

  /** Takers claim without a step of another taker in between; padders may step in. */
  ghost predicate AtomicClaims(c: Config, n: nat, y: System, steps: seq<Step>)
    requires c.Valid() && y.ring.Shaped(n)
    decreases |steps|
  {
    |steps| == 0 ||
    ((steps[0].Taker? ==> CR.ClaimAlone(y.ring, steps[0].step)) && AtomicClaims(c, n, Apply(c, n, y, steps[0]), steps[1..]))
  }

  lemma FreshStep(c: Config, n: nat, y: System, step: Step)
    requires c.Valid() && y.ring.Shaped(n) && CR.FreshReads(y.ring)
    requires step.Taker? ==> CR.ClaimAlone(y.ring, step.step)
    ensures !(step.Taker? && CR.StaleOnEmpty(y.ring, step.step))
    ensures CR.FreshReads(Apply(c, n, y, step).ring) && |Apply(c, n, y, step).ring.takers| == |y.ring.takers|
  {
    hide Slot, UidOf, CR.Apply, CR.FreshReads;
    match step
    case Taker(s) => CR.FreshStep(n, y.ring, s);
    case Pad(p) =>
      if p < |y.padders| {
        match y.padders[p]
        case Filling(second, k) => if k < SecondSize(c) { CR.FreshStep(n, y.ring, CR.PutBegin(UidOf(c, (second, k)))); }
        case Putting(second, k) => CR.FreshStep(n, y.ring, CR.PutNext);
        case _ =>
      }
  }

  lemma {:induction false} AtomicNeverStale(c: Config, n: nat, y: System, steps: seq<Step>)
    requires c.Valid() && y.ring.Shaped(n) && CR.FreshReads(y.ring)
    requires |y.ring.takers| <= 1 || AtomicClaims(c, n, y, steps)
    ensures NeverStale(c, n, y, steps)
    decreases |steps|
  {
    hide Apply, CR.FreshReads, CR.StaleOnEmpty;
    if |steps| > 0 {
      FreshStep(c, n, y, steps[0]);
      AtomicNeverStale(c, n, Apply(c, n, y, steps[0]), steps[1..]);
    }
  }

  /** So ids are unique if takers serialise their claims, or if there is only one taker,
      whatever the padding threads do. */
  lemma AtomicClaimsUnique(c: Config, n: nat, takers: nat, padders: nat, now: int, steps: seq<Step>)
    requires c.Valid() && n > 0
    requires takers <= 1 || AtomicClaims(c, n, Start(n, takers, padders, now), steps)
    requires now - c.epochSeconds >= -1 - c.allocator.maxDeltaSeconds
    requires Run(c, n, Start(n, takers, padders, now), steps).lastSecond - c.epochSeconds <= c.allocator.maxDeltaSeconds
    ensures NeverStale(c, n, Start(n, takers, padders, now), steps)
    ensures Unique(Run(c, n, Start(n, takers, padders, now), steps).ring)
  {
    hide Unique, Run, Apply;
    AtomicNeverStale(c, n, Start(n, takers, padders, now), steps);
    UidsAreUnique(c, n, takers, padders, now, steps);
  }

  /** Ids never precede the start. */
  lemma {:induction false} StartAfter(c: Config, n: nat, y: System, steps: seq<Step>, now: int)
    requires Inv(c, n, y) && y.lastSecond >= now
    requires forall i :: 0 <= i < |y.ids| ==> y.ids[i].0 >= now
    ensures var y' := Run(c, n, y, steps);
            y'.lastSecond >= now && forall i :: 0 <= i < |y'.ids| ==> y'.ids[i].0 >= now
    decreases |steps|
  {
    hide Apply, OnePadder, HistoryOk, PadderOk;
    if |steps| > 0 {
      StepAfter(c, n, y, steps[0], now);
      StepInv(c, n, y, steps[0]);
      StartAfter(c, n, Apply(c, n, y, steps[0]), steps[1..], now);
    }
  }

  lemma StepAfter(c: Config, n: nat, y: System, step: Step, now: int)
    requires Inv(c, n, y) && y.lastSecond >= now
    requires forall i :: 0 <= i < |y.ids| ==> y.ids[i].0 >= now
    ensures var y' := Apply(c, n, y, step);
            y'.lastSecond >= now && forall i :: 0 <= i < |y'.ids| ==> y'.ids[i].0 >= now
  {
    hide UidOf, Uids, SecondSize, CR.Apply, OnePadder, HistoryOk;
    if step.Pad? && step.p < |y.padders| { assert PadderOk(c, y, step.p); }
  }

  lemma IdOrder(c: Config, ids: seq<Id>, i: nat, j: nat, now: int, last: int)
    requires c.Valid() && Increasing(ids) && i < j < |ids|
    requires forall k :: 0 <= k < |ids| ==> now <= ids[k].0 <= last && 0 <= ids[k].1 <= c.allocator.maxSequence
    requires now - c.epochSeconds >= -1 - c.allocator.maxDeltaSeconds
    requires last - c.epochSeconds <= c.allocator.maxDeltaSeconds
    ensures Uids(c, ids)[i] < Uids(c, ids)[j]
  {
    hide Allocator.Allocate;
    var e := c.epochSeconds;
    AllocateOrder(c.allocator, ids[i].0 - e, c.workerId, ids[i].1, ids[j].0 - e, c.workerId, ids[j].1);
  }

  // ------------------------------------------------------------ two takers are enough to fail

  /** Steps of takers act on the ring alone. */
  lemma {:induction false} TakersRun(c: Config, n: nat, y: System, steps: seq<CR.Step>)
    requires c.Valid() && y.ring.Shaped(n) && forall s :: s in steps ==> s.Take?
    ensures Run(c, n, y, seq(|steps|, i requires 0 <= i < |steps| => Taker(steps[i]))) == y.(ring := CR.Run(n, y.ring, steps))
    decreases |steps|
  {
    hide CR.Apply;
    var all := seq(|steps|, i requires 0 <= i < |steps| => Taker(steps[i]));
    if |steps| > 0 {
      var y', rest := y.(ring := CR.Apply(n, y.ring, steps[0])), steps[1..];
      assert steps[0] in steps && all[0] == Taker(steps[0]);
      assert all[1..] == seq(|rest|, i requires 0 <= i < |rest| => Taker(rest[i]));
      assert Apply(c, n, y, all[0]) == y';
      TakersRun(c, n, y', rest);
    }
  }

  lemma {:induction false} RunAppend(c: Config, n: nat, y: System, a: seq<Step>, b: seq<Step>)
    requires c.Valid() && y.ring.Shaped(n)
    ensures Run(c, n, y, a + b) == Run(c, n, Run(c, n, y, a), b)
    decreases |a|
  {
    hide Apply;
    if a == [] {
      assert a + b == b;
    } else {
      assert (a + b)[0] == a[0] && (a + b)[1..] == a[1..] + b;
      RunAppend(c, n, Apply(c, n, y, a[0]), a[1..], b);
    }
  }

  /** The first 2 + k steps of padder 0: it wins `running`, takes the first second, and is k steps
      into the put of its first id. */
  lemma {:induction false} PadderPuts(c: Config, n: nat, takers: nat, padders: nat, now: int, k: nat)
    requires c.Valid() && n > 0 && takers >= 2 && padders >= 1 && k <= 6
    ensures var y := Run(c, n, Start(n, takers, padders, now), seq(2 + k, _ => Pad(0)));
            && y.ring == RP.After(n, CR.Start(n, takers), RP.PutOne(UidOf(c, (now + 1, 0))), k)
            && y.lastSecond == now + 1 && |y.padders| == padders
            && (if k == 0 then y.padders[0] == Filling(now + 1, 0)
                else if k < 6 then y.padders[0] == Putting(now + 1, 0) else true)
    decreases k
  {
    hide UidOf, CR.Apply, RP.After, CR.Start, Run, Apply;
    var y0, steps := Start(n, takers, padders, now), seq(2 + k, _ => Pad(0));
    var uid := UidOf(c, (now + 1, 0));
    if k == 0 {
      PadderStarts(c, n, takers, padders, now);
    } else {
      PadderPuts(c, n, takers, padders, now, k - 1);
      var before := seq(2 + (k - 1), _ => Pad(0));
      assert steps == before + [Pad(0)];
      RunAppend(c, n, y0, before, [Pad(0)]);
      StartFree(n, takers, uid);
      PutGoesOn(c, n, Run(c, n, y0, before), now + 1);
      RunOne(c, n, Run(c, n, y0, before), Pad(0));
      RP.AfterNext(n, CR.Start(n, takers), RP.PutOne(uid), k - 1);
      SC.PutChecks(n, takers, uid);
      SC.PutWrites(n, takers, uid);
    }
  }

  /** A step of padder 0 at its first id, before or inside put. */
  lemma PutGoesOn(c: Config, n: nat, y: System, second: int)
    requires c.Valid() && y.ring.Shaped(n) && |y.padders| >= 1
    requires (y.padders[0] == Filling(second, 0) && y.ring.producer.Free?) || y.padders[0] == Putting(second, 0)
    ensures var uid, y' := UidOf(c, (second, 0)), Apply(c, n, y, Pad(0));
            && y'.ring == CR.Apply(n, y.ring, if y.padders[0].Filling? then CR.PutBegin(uid) else CR.PutNext)
            && y'.lastSecond == y.lastSecond && |y'.padders| == |y.padders|
            && (!y'.ring.producer.Free? ==> y'.padders[0] == Putting(second, 0))
  {
    hide UidOf, CR.Apply, SecondSize;
    if y.padders[0].Filling? { PutBegins(n, y.ring, UidOf(c, (second, 0))); }
  }

  lemma PutBegins(n: nat, r: CR.Ring, uid: long)
    requires r.Shaped(n) && r.producer.Free?
    ensures CR.Apply(n, r, CR.PutBegin(uid)).producer == CR.SawTail(uid, r.tail)
  {
  }

  lemma RunOne(c: Config, n: nat, y: System, step: Step)
    requires c.Valid() && y.ring.Shaped(n)
    ensures Run(c, n, y, [step]) == Apply(c, n, y, step)
  {
    hide Apply;
  }

  lemma StartFree(n: nat, takers: nat, uid: long)
    requires n > 0
    ensures RP.After(n, CR.Start(n, takers), RP.PutOne(uid), 0) == CR.Start(n, takers)
    ensures CR.Start(n, takers).producer.Free?
  {
  }

  lemma PadderStarts(c: Config, n: nat, takers: nat, padders: nat, now: int)
    requires c.Valid() && n > 0 && padders >= 1
    ensures var y := Run(c, n, Start(n, takers, padders, now), seq(2, _ => Pad(0)));
            && y.ring == CR.Start(n, takers) == RP.After(n, CR.Start(n, takers), RP.PutOne(UidOf(c, (now + 1, 0))), 0)
            && y.lastSecond == now + 1 && |y.padders| == padders && y.padders[0] == Filling(now + 1, 0)
  {
    hide UidOf, CR.Apply, CR.Start, SecondSize;
    var y0 := Start(n, takers, padders, now);
    assert seq(2, _ => Pad(0)) == [Pad(0)] + [Pad(0)];
    RunAppend(c, n, y0, [Pad(0)], [Pad(0)]);
    RunOne(c, n, y0, Pad(0));
    RunOne(c, n, Apply(c, n, y0, Pad(0)), Pad(0));
  }

  /** With two takers and one padder there is an interleaving in which the first id of the first
      second is handed out twice. */
  lemma SameUidTwice(c: Config, n: nat, takers: nat, padders: nat, now: int) returns (steps: seq<Step>)
    requires c.Valid() && n > 0 && takers >= 2 && padders >= 1
    ensures var y := Run(c, n, Start(n, takers, padders, now), steps);
            var uid := UidOf(c, (now + 1, 0));
            y.ring.given == [(1, 0, uid), (0, 0, uid)] && y.lastSecond == now + 1
  {
    hide UidOf, CR.Apply, CR.Start, RP.After, CR.Run, RP.PutOne, Run;
    var uid, takes := UidOf(c, (now + 1, 0)), SC.TwoClaims() + SC.BothRead();
    var pads: seq<Step> := seq(2 + 6, _ => Pad(0));
    var y := Run(c, n, Start(n, takers, padders, now), pads);
    var lifted := seq(|takes|, i requires 0 <= i < |takes| => Taker(takes[i]));
    steps := pads + lifted;
    PadderPuts(c, n, takers, padders, now, 6);
    RunAppend(c, n, Start(n, takers, padders, now), pads, lifted);
    TakersRun(c, n, y, takes);
    RP.AfterIsRun(n, CR.Start(n, takers), RP.PutOne(uid));
    RP.RunAppend(n, CR.Start(n, takers), RP.PutOne(uid), takes);
    SC.SameIdTwice(n, takers, uid);
  }

  /** So over all interleavings in the timestamp range uids are unique exactly when at most one
      thread takes. */
  lemma AllUniqueIff(c: Config, n: nat, takers: nat, padders: nat, now: int)
    requires c.Valid() && n > 0 && padders >= 1
    requires -1 - c.allocator.maxDeltaSeconds <= now - c.epochSeconds < c.allocator.maxDeltaSeconds
    ensures (forall steps ::
               Run(c, n, Start(n, takers, padders, now), steps).lastSecond - c.epochSeconds <= c.allocator.maxDeltaSeconds
               ==> Unique(Run(c, n, Start(n, takers, padders, now), steps).ring))
       <==> takers <= 1
  {
    hide Run, Unique, UidOf;
    var y0 := Start(n, takers, padders, now);
    if takers <= 1 {
      forall steps | Run(c, n, y0, steps).lastSecond - c.epochSeconds <= c.allocator.maxDeltaSeconds
        ensures Unique(Run(c, n, y0, steps).ring)
      {
        AtomicClaimsUnique(c, n, takers, padders, now, steps);
      }
    } else {
      var steps := SameUidTwice(c, n, takers, padders, now);
      NotUnique(Run(c, n, y0, steps).ring, UidOf(c, (now + 1, 0)));
    }
  }

  lemma NotUnique(r: CR.Ring, uid: long)
    requires r.given == [(1, 0, uid), (0, 0, uid)]
    ensures !Unique(r)
  {
    assert r.given[0].2 == r.given[1].2;
  }
}

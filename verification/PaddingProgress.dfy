/** Which ids the padding threads put, in every interleaving, and that a padding fills the ring. */
module PaddingProgress {
  import opened BitsAllocator
  import opened JavaLong
  import opened RingBuffer
  import opened CachedUidGenerator
  import opened ConcurrentUid
  import CR = ConcurrentRing
  import RP = RingProgress
  import D = DefaultUidGenerator

  type Config = D.Config

  // ------------------------------------------------------------ which ids are put

  /** How often i occurs. */
  function Times(s: seq<nat>, i: nat): nat {
    if s == [] then 0 else Times(s[..|s| - 1], i) + if s[|s| - 1] == i then 1 else 0
  }

  /** The id after the given ones when no put is rejected in between, and after m rejected puts,
      each of which costs the second it stopped in. */
  function Due(c: Config, now: int, ids: seq<Id>, m: nat): (int, int) {
    var next: (int, int) :=
      if ids == [] then (now + 1, 0)
      else
        var last: (int, int) := ids[|ids| - 1];
        if last.1 == c.allocator.maxSequence then (last.0 + 1, 0) else (last.0, last.1 + 1);
    if m == 0 then next else (next.0 + m, 0)
  }

  /** Each id put so far is the one that was due, and a padder is at the one due next. */
  ghost predicate OnTime(c: Config, now: int, y: System)
    requires c.Valid()
  {
    && IdsDue(c, now, y.ids, y.rejected) && Paid(now, y.lastSecond, y.provided)
    && (forall p :: 0 <= p < |y.padders| ==> AtDue(c, now, y, y.padders[p]))
    && ((forall p :: 0 <= p < |y.padders| ==> y.padders[p].Outside?) ==> NextDue(c, now, y) == (y.lastSecond + 1, 0))
  }

  ghost predicate IdsDue(c: Config, now: int, ids: seq<Id>, rejected: seq<nat>) {
    && (forall i :: 0 <= i < |ids| ==> ids[i] == Due(c, now, ids[..i], Times(rejected, i)))
    && (forall i :: 0 <= i < |ids| ==> 0 <= ids[i].1 <= c.allocator.maxSequence)
    && (forall i :: 0 <= i < |rejected| ==> rejected[i] <= |ids|)
  }

  ghost predicate Paid(now: int, lastSecond: int, provided: seq<int>) {
    lastSecond == now + |provided| && forall i :: 0 <= i < |provided| ==> provided[i] == now + 1 + i
  }

  lemma PaidNext(now: int, lastSecond: int, provided: seq<int>)
    requires Paid(now, lastSecond, provided)
    ensures Paid(now, lastSecond + 1, provided + [lastSecond + 1])
  {
  }

  ghost function NextDue(c: Config, now: int, y: System): (int, int) {
    Due(c, now, y.ids, Times(y.rejected, |y.ids|))
  }

  ghost predicate AtDue(c: Config, now: int, y: System, padder: Padder)
    requires c.Valid()
  {
    match padder
    case Outside => true
    case NeedSecond => NextDue(c, now, y) == (y.lastSecond + 1, 0)
    case Filling(second, k) =>
      && second == y.lastSecond && k <= SecondSize(c)
      && NextDue(c, now, y) == if k == SecondSize(c) then (second + 1, 0) else (second, k)
    case Putting(second, k) =>
      second == y.lastSecond && k <= c.allocator.maxSequence && NextDue(c, now, y) == (second, k)
    case Leaving => NextDue(c, now, y) == (y.lastSecond + 1, 0)
  }

  lemma {:induction false} TimesNone(s: seq<nat>, i: nat)
    requires forall j :: 0 <= j < |s| ==> s[j] != i
    ensures Times(s, i) == 0
  {
    if s != [] { TimesNone(s[..|s| - 1], i); }
  }

  lemma TimesMore(s: seq<nat>, x: nat, i: nat)
    ensures Times(s + [x], i) == Times(s, i) + if x == i then 1 else 0
  {
    assert (s + [x])[..|s|] == s;
  }

  lemma StartOnTime(c: Config, n: nat, takers: nat, padders: nat, now: int)
    requires c.Valid() && n > 0
    ensures OnTime(c, now, Start(n, takers, padders, now))
  {
    hide UidOf, SecondSize, CR.Start;
  }

  /** A padder's step that puts nothing and is not rejected leaves what is due alone. */
  lemma SameDue(c: Config, now: int, y: System, y': System)
    requires y'.ids == y.ids && y'.rejected == y.rejected
    ensures NextDue(c, now, y') == NextDue(c, now, y)
  {
  }

  /** A put takes the due id; the next one is due then. */
  lemma PutDue(c: Config, now: int, y: System, y': System, id: Id)
    requires c.Valid() && OnTime(c, now, y) && id == NextDue(c, now, y) && 0 <= id.1 <= c.allocator.maxSequence
    requires y'.ids == y.ids + [id] && y'.rejected == y.rejected
    ensures NextDue(c, now, y') == if id.1 == c.allocator.maxSequence then (id.0 + 1, 0) else (id.0, id.1 + 1)
    ensures IdsDue(c, now, y'.ids, y'.rejected)
  {
    hide Due, Times;
    TimesNone(y'.rejected, |y'.ids|);
    DueAfter(c, now, y.ids, id);
    forall i | 0 <= i < |y'.ids| ensures y'.ids[i] == Due(c, now, y'.ids[..i], Times(y'.rejected, i)) {
      SamePrefix(y.ids, id, i);
    }
  }

  lemma SamePrefix(ids: seq<Id>, id: Id, i: nat)
    requires i <= |ids|
    ensures (ids + [id])[..i] == ids[..i] && (i == |ids| ==> ids[..i] == ids)
  {
  }

  lemma DueAfter(c: Config, now: int, ids: seq<Id>, id: Id)
    ensures Due(c, now, ids + [id], 0) == if id.1 == c.allocator.maxSequence then (id.0 + 1, 0) else (id.0, id.1 + 1)
  {
  }

  /** A rejected put moves what is due to the start of the next second. */
  lemma RejectDue(c: Config, now: int, y: System, y': System)
    requires c.Valid() && OnTime(c, now, y)
    requires y'.ids == y.ids && y'.rejected == y.rejected + [|y.ids|]
    ensures NextDue(c, now, y') == (NextDue(c, now, y).0 + 1, 0)
    ensures IdsDue(c, now, y'.ids, y'.rejected)
  {
    TimesMore(y.rejected, |y.ids|, |y.ids|);
    forall i | 0 <= i < |y'.ids| ensures y'.ids[i] == Due(c, now, y'.ids[..i], Times(y'.rejected, i)) {
      TimesMore(y.rejected, |y.ids|, i);
    }
  }

  lemma PadOnTime(c: Config, n: nat, now: int, y: System, p: nat)
    requires Inv(c, n, y) && OnTime(c, now, y) && p < |y.padders|
    ensures OnTime(c, now, PadStep(c, n, y, p))
  {
    hide UidOf, SecondSize, CR.Apply, Due, Times, NextDue, HistoryOk, PadderOk, Uids, OnTime, IdsDue, Paid, Inside;
    var y' := PadStep(c, n, y, p);
    MaxIs(c);
    OnTimeAt(c, now, y, p);
    if y.padders[p].Outside? && y.running {
      assert y' == y;
    } else {
      match y.padders[p] {
        case Putting(second, k) =>
          if !CR.Apply(n, y.ring, CR.PutNext).producer.Free? { SameDue(c, now, y, y'); }
          else if y.ring.producer.FlagSet? { PutDue(c, now, y, y', (second, k)); }
          else { RejectDue(c, now, y, y'); }
        case NeedSecond =>
          SameDue(c, now, y, y');
          PaidNext(now, y.lastSecond, y.provided);
        case _ => SameDue(c, now, y, y');
      }
      OthersOutside(c, now, y, y', p);
      AllOnTime(c, now, y', p);
    }
  }

  lemma OnTimeAt(c: Config, now: int, y: System, p: nat)
    requires c.Valid() && OnTime(c, now, y) && OnePadder(y) && p < |y.padders|
    ensures AtDue(c, now, y, y.padders[p]) && IdsDue(c, now, y.ids, y.rejected) && Paid(now, y.lastSecond, y.provided)
    ensures !y.running ==> NextDue(c, now, y) == (y.lastSecond + 1, 0)
  {
    hide AtDue, IdsDue, Paid, NextDue;
    if !y.running { assert forall q :: 0 <= q < |y.padders| ==> y.padders[q].Outside?; }
  }

  lemma AllOnTime(c: Config, now: int, y: System, p: nat)
    requires c.Valid() && p < |y.padders| && IdsDue(c, now, y.ids, y.rejected) && Paid(now, y.lastSecond, y.provided)
    requires AtDue(c, now, y, y.padders[p]) && (y.padders[p].Outside? ==> NextDue(c, now, y) == (y.lastSecond + 1, 0))
    requires forall q :: 0 <= q < |y.padders| && q != p ==> y.padders[q].Outside?
    ensures OnTime(c, now, y)
  {
    hide IdsDue, Paid, NextDue, SecondSize;
  }

  /** Only the padder that steps is inside the loop. */
  lemma OthersOutside(c: Config, now: int, y: System, y': System, p: nat)
    requires c.Valid() && OnePadder(y) && p < |y.padders| == |y'.padders|
    requires forall q :: 0 <= q < |y.padders| && q != p ==> y'.padders[q] == y.padders[q]
    requires !y.padders[p].Outside? || !y.running
    ensures forall q :: 0 <= q < |y'.padders| && q != p ==> y'.padders[q].Outside?
  {
  }

  lemma StepOnTime(c: Config, n: nat, now: int, y: System, step: Step)
    requires Inv(c, n, y) && OnTime(c, now, y)
    ensures OnTime(c, now, Apply(c, n, y, step))
  {
    hide UidOf, SecondSize, CR.Apply, PadStep, Due, Times, Inv;
    InvShaped(c, n, y);
    match step
    case Pad(p) => if p < |y.padders| { PadOnTime(c, n, now, y, p); }
    case Taker(s) =>
      var y' := Apply(c, n, y, step);
      assert y' == y.(ring := y'.ring);
      SameDue(c, now, y, y');
  }

  lemma InvShaped(c: Config, n: nat, y: System)
    requires Inv(c, n, y)
    ensures c.Valid() && y.ring.Shaped(n)
  {
  }

  lemma {:induction false} RunOnTime(c: Config, n: nat, now: int, y: System, steps: seq<Step>)
    requires Inv(c, n, y) && OnTime(c, now, y)
    ensures OnTime(c, now, Run(c, n, y, steps))
    decreases |steps|
  {
    hide Apply, OnTime, OnePadder, HistoryOk, PadderOk;
    if |steps| > 0 {
      StepInv(c, n, y, steps[0]);
      StepOnTime(c, n, now, y, steps[0]);
      RunOnTime(c, n, now, Apply(c, n, y, steps[0]), steps[1..]);
    }
  }

  /** In every interleaving the ids put are determined by the rejected puts: without one in
      between, the next id is the next sequence of the second, or sequence 0 of the next second
      after the last one; m rejected puts in between cost the rest of the second and m - 1 more.
      The seconds paid out are the ones after the start, without a gap. */
  lemma PutsExactly(c: Config, n: nat, takers: nat, padders: nat, now: int, steps: seq<Step>)
    requires c.Valid() && n > 0
    ensures var y := Run(c, n, Start(n, takers, padders, now), steps);
            && (|y.ids| > 0 ==> y.ids[0] == (now + 1 + Times(y.rejected, 0), 0))
            && (forall i :: 0 <= i < |y.ids| - 1 ==>
                  var (s, k), m := y.ids[i], Times(y.rejected, i + 1);
                  y.ids[i + 1] == if m == 0 && k < c.allocator.maxSequence then (s, k + 1)
                                  else if k < c.allocator.maxSequence then (s + m, 0)
                                  else (s + m + 1, 0))
            && y.lastSecond == now + |y.provided| && (forall i :: 0 <= i < |y.provided| ==> y.provided[i] == now + 1 + i)
  {
    hide Apply, SecondSize, UidOf, Run, Times, Due, AtDue, Inv;
    var y0 := Start(n, takers, padders, now);
    StartInv(c, n, takers, padders, now);
    StartOnTime(c, n, takers, padders, now);
    RunOnTime(c, n, now, y0, steps);
    DuesAre(c, now, Run(c, n, y0, steps));
  }

  lemma DuesAre(c: Config, now: int, y: System)
    requires c.Valid() && OnTime(c, now, y)
    ensures |y.ids| > 0 ==> y.ids[0] == (now + 1 + Times(y.rejected, 0), 0)
    ensures forall i :: 0 <= i < |y.ids| - 1 ==>
              var (s, k), m := y.ids[i], Times(y.rejected, i + 1);
              y.ids[i + 1] == if m == 0 && k < c.allocator.maxSequence then (s, k + 1)
                              else if k < c.allocator.maxSequence then (s + m, 0)
                              else (s + m + 1, 0)
  {
    hide Times, AtDue, Due, NextDue, Paid;
    forall i | 0 <= i < |y.ids| - 1
      ensures var (s, k), m := y.ids[i], Times(y.rejected, i + 1);
              y.ids[i + 1] == if m == 0 && k < c.allocator.maxSequence then (s, k + 1)
                              else if k < c.allocator.maxSequence then (s + m, 0)
                              else (s + m + 1, 0)
    {
      DueIs(c, now, y.ids[..i + 1], Times(y.rejected, i + 1));
      assert y.ids[..i + 1][i] == y.ids[i];
    }
    DueIs(c, now, [], Times(y.rejected, 0));
    if |y.ids| > 0 { assert y.ids[..0] == []; }
  }

  lemma DueIs(c: Config, now: int, ids: seq<Id>, m: nat)
    requires forall i :: 0 <= i < |ids| ==> ids[i].1 <= c.allocator.maxSequence
    ensures ids == [] ==> Due(c, now, ids, m) == (now + 1 + m, 0)
    ensures ids != [] ==>
              var (s, k) := ids[|ids| - 1];
              Due(c, now, ids, m) == if m == 0 && k < c.allocator.maxSequence then (s, k + 1)
                                     else if k < c.allocator.maxSequence then (s + m, 0)
                                     else (s + m + 1, 0)
  {
  }

  /** As long as no put has been rejected, the ids put are all ids from the second after the
      start on, one after another. */
  lemma NoneLeftOut(c: Config, n: nat, takers: nat, padders: nat, now: int, steps: seq<Step>)
    requires c.Valid() && n > 0 && Run(c, n, Start(n, takers, padders, now), steps).rejected == []
    ensures var y := Run(c, n, Start(n, takers, padders, now), steps); y.ids == Stream(c, now + 1, |y.ids|)
  {
    hide Apply, SecondSize, UidOf, Run, IdAt;
    PutsExactly(c, n, takers, padders, now, steps);
    var ids := Run(c, n, Start(n, takers, padders, now), steps).ids;
    forall i | 0 <= i < |ids| ensures ids[i] == IdAt(c, now + 1, i) { FromStart(c, now, ids, i); }
  }

  lemma {:induction false} FromStart(c: Config, now: int, ids: seq<Id>, i: nat)
    requires c.Valid() && i < |ids| && ids[0] == (now + 1, 0)
    requires forall j :: 0 <= j < |ids| - 1 ==>
               ids[j + 1] == if ids[j].1 < c.allocator.maxSequence then (ids[j].0, ids[j].1 + 1) else (ids[j].0 + 1, 0)
    ensures ids[i] == IdAt(c, now + 1, i)
    decreases i
  {
    hide IdAt;
    if i == 0 {
      IdAtNext(c, now + 1, 0);
    } else {
      FromStart(c, now, ids, i - 1);
      IdAtNext(c, now + 1, i - 1);
      assert ids[(i - 1) + 1] == ids[i];
    }
  }

  // ------------------------------------------------------------ rejected puts

  /** The invariants of the ring, together with those of the padding threads. */
  ghost predicate Sound(c: Config, n: nat, y: System) {
    Inv(c, n, y) && CR.Safe(n, y.ring) && RP.Clear(n, y.ring)
  }

  lemma StepSound(c: Config, n: nat, y: System, step: Step)
    requires Sound(c, n, y) && !(step.Taker? && CR.StaleOnEmpty(y.ring, step.step))
    ensures Sound(c, n, Apply(c, n, y, step))
  {
    hide UidOf, SecondSize, CR.Apply, CR.Safe, RP.Clear, Inv, CR.StaleOnEmpty;
    InvShaped(c, n, y);
    StepInv(c, n, y, step);
    StepSafe(c, n, y, step);
    match step
    case Taker(s) => if s.Take? || s.Retry? { RP.ClearStep(n, y.ring, s); }
    case Pad(p) =>
      if p < |y.padders| {
        NoTake(y.ring);
        match y.padders[p]
        case Filling(second, k) =>
          if k < SecondSize(c) { RP.ClearStep(n, y.ring, CR.PutBegin(UidOf(c, (second, k)))); }
        case Putting(second, k) => RP.ClearStep(n, y.ring, CR.PutNext);
        case _ =>
      }
  }

  lemma NoTake(r: CR.Ring)
    ensures !CR.StaleOnEmpty(r, CR.PutNext) && forall uid :: !CR.StaleOnEmpty(r, CR.PutBegin(uid))
  {
  }

  lemma {:induction false} RunSound(c: Config, n: nat, y: System, steps: seq<Step>)
    requires Sound(c, n, y) && NeverStale(c, n, y, steps)
    ensures Sound(c, n, Run(c, n, y, steps))
    decreases |steps|
  {
    hide Apply, CR.StaleOnEmpty, CR.Safe, RP.Clear, OnePadder, HistoryOk, PadderOk;
    if |steps| > 0 {
      StepSound(c, n, y, steps[0]);
      RunSound(c, n, Apply(c, n, y, steps[0]), steps[1..]);
    }
  }

  lemma StartSound(c: Config, n: nat, takers: nat, padders: nat, now: int)
    requires c.Valid() && n > 0
    ensures Sound(c, n, Start(n, takers, padders, now))
  {
    hide Inv, CR.Safe, RP.Clear;
    StartInv(c, n, takers, padders, now);
    CR.StartSafe(n, takers);
    RP.StartClear(n, takers);
  }

  /** In every interleaving without a stale update: a padder's put is counted as rejected exactly
      when the put has read tail and cursor and either n - 1 ids are ahead of that cursor or a
      taker still owns the next slot. */
  lemma RejectedIff(c: Config, n: nat, takers: nat, padders: nat, now: int, steps: seq<Step>, p: nat)
    requires c.Valid() && n > 0 && NeverStale(c, n, Start(n, takers, padders, now), steps)
    ensures var y := Run(c, n, Start(n, takers, padders, now), steps);
            p < |y.padders| && y.padders[p].Putting? ==>
              && !y.ring.producer.Free?
              && (Apply(c, n, y, Pad(p)).rejected == y.rejected + [|y.ids|]
                  <==> y.ring.producer.SawCursor?
                       && (y.ring.tail - (if y.ring.producer.c < 0 then 0 else y.ring.producer.c) == n - 1
                           || RP.NextSlotOwned(n, y.ring)))
              && (y.ring.producer.FlagSet? <==> Apply(c, n, y, Pad(p)).ids != y.ids)
  {
    hide Run, NeverStale, UidOf, SecondSize, CR.Safe, RP.Clear, RP.NextSlotOwned, CR.PutStep, OnePadder, HistoryOk;
    StartSound(c, n, takers, padders, now);
    RunSound(c, n, Start(n, takers, padders, now), steps);
    var y := Run(c, n, Start(n, takers, padders, now), steps);
    if p < |y.padders| && y.padders[p].Putting? {
      assert PadderOk(c, y, p);
      RP.PutDecides(n, y.ring);
    }
  }

  // ------------------------------------------------------------ a padding fills the ring

  ghost function Pads(p: nat, k: nat): (steps: seq<Step>)
    ensures |steps| == k
  {
    seq(k, _ => Pad(p))
  }

  lemma PadsNext(c: Config, n: nat, y: System, p: nat, j: nat, k: nat)
    requires c.Valid() && y.ring.Shaped(n)
    ensures Run(c, n, y, Pads(p, j + k)) == Run(c, n, Run(c, n, y, Pads(p, j)), Pads(p, k))
  {
    hide Apply, Run;
    assert Pads(p, j + k) == Pads(p, j) + Pads(p, k);
    RunAppend(c, n, y, Pads(p, j), Pads(p, k));
  }

  lemma PadsOne(c: Config, n: nat, y: System, p: nat)
    requires c.Valid() && y.ring.Shaped(n)
    ensures Run(c, n, y, Pads(p, 1)) == Apply(c, n, y, Pad(p))
    ensures Run(c, n, y, Pads(p, 0)) == y
  {
    hide Apply;
    assert Pads(p, 1) == [Pad(p)];
    RunOne(c, n, y, Pad(p));
  }

  /** The first j steps of a put, as long as it holds the lock. */
  lemma {:induction false} PadsPut(c: Config, n: nat, y: System, p: nat, second: int, k: index, j: nat)
    requires c.Valid() && y.ring.Shaped(n) && p < |y.padders| && y.padders[p] == Filling(second, k)
    requires k < SecondSize(c) && y.ring.producer.Free? && 1 <= j <= 6
    requires forall i :: 1 <= i <= j ==> !RP.After(n, y.ring, RP.PutOne(UidOf(c, (second, k))), i).producer.Free?
    ensures Run(c, n, y, Pads(p, j))
         == y.(ring := RP.After(n, y.ring, RP.PutOne(UidOf(c, (second, k))), j),
               padders := y.padders[p := Putting(second, k)])
    decreases j
  {
    hide UidOf, SecondSize, CR.PutStep, CR.TakeStep, RP.After, Run, Pads;
    var steps := RP.PutOne(UidOf(c, (second, k)));
    RP.AfterNext(n, y.ring, steps, j - 1);
    AfterZero(n, y.ring, steps);
    if j == 1 {
      PadsOne(c, n, y, p);
    } else {
      PadsPut(c, n, y, p, second, k, j - 1);
      PadsNext(c, n, y, p, j - 1, 1);
      PadsOne(c, n, Run(c, n, y, Pads(p, j - 1)), p);
    }
  }

  lemma AfterZero(n: nat, r: CR.Ring, steps: seq<CR.Step>)
    requires r.Shaped(n)
    ensures RP.After(n, r, steps, 0) == r
  {
  }

  /** A put alone, as steps of its padder. */
  lemma PutPads(c: Config, n: nat, y: System, p: nat, second: int, k: index)
    requires c.Valid() && CR.Safe(n, y.ring) && RP.Clear(n, y.ring) && y.ring.producer.Free?
    requires p < |y.padders| && y.padders[p] == Filling(second, k) && k < SecondSize(c)
    ensures y.ring.Shaped(n)
    ensures RP.HasRoom(n, y.ring) ==>
              Run(c, n, y, Pads(p, 6)) == y.(ring := CR.Run(n, y.ring, RP.PutOne(UidOf(c, (second, k)))),
                                             ids := y.ids + [(second, k)],
                                             padders := y.padders[p := Filling(second, k + 1)])
    ensures !RP.HasRoom(n, y.ring) ==>
              Run(c, n, y, Pads(p, 3)) == y.(padders := y.padders[p := Leaving], rejected := y.rejected + [|y.ids|])
  {
    hide UidOf, SecondSize, CR.Safe, RP.Clear, CR.Apply, RP.After, Run, Pads, RP.HasRoom;
    var uid := UidOf(c, (second, k));
    var steps := RP.PutOne(uid);
    RP.ShapedSafe(n, y.ring);
    RP.PutTrace(n, y.ring, uid);
    if RP.HasRoom(n, y.ring) {
      PutEnds(n, y.ring, uid);
      PadsPut(c, n, y, p, second, k, 5);
      PadsNext(c, n, y, p, 5, 1);
      PadsOne(c, n, Run(c, n, y, Pads(p, 5)), p);
      RP.AfterNext(n, y.ring, steps, 5);
      RP.AfterIsRun(n, y.ring, steps);
    } else {
      PadsPut(c, n, y, p, second, k, 2);
      PadsNext(c, n, y, p, 2, 1);
      PadsOne(c, n, Run(c, n, y, Pads(p, 2)), p);
      RP.AfterNext(n, y.ring, steps, 2);
    }
  }

  lemma PutEnds(n: nat, r: CR.Ring, uid: long)
    requires CR.Safe(n, r) && RP.Clear(n, r) && r.producer.Free? && RP.HasRoom(n, r)
    ensures r.Shaped(n)
    ensures var steps := RP.PutOne(uid);
            && RP.After(n, r, steps, 3).producer.FlagFree? && RP.After(n, r, steps, 4).producer.SlotWritten?
            && RP.After(n, r, steps, 5).producer.FlagSet? && RP.After(n, r, steps, 6).producer.Free?
  {
    hide CR.Safe, RP.Clear, CR.Apply, RP.After, RP.HasRoom;
    var steps := RP.PutOne(uid);
    RP.ShapedSafe(n, r);
    RP.PutTrace(n, r, uid);
    RP.AfterNext(n, r, steps, 3);
    RP.AfterNext(n, r, steps, 4);
    RP.AfterNext(n, r, steps, 5);
    RP.PutWritesRest(n, RP.After(n, r, steps, 3));
  }

  /** How many puts the ring has room for while nothing is taken. */
  function Room(n: nat, r: CR.Ring): int { n - 1 - (r.tail - (if r.cursor < 0 then 0 else r.cursor)) }

  /** No taker holds a claimed number. */
  ghost predicate NoOwner(r: CR.Ring) {
    forall t :: !CR.Owner(r, t)
  }

  lemma RoomIs(n: nat, r: CR.Ring)
    requires CR.Safe(n, r) && NoOwner(r)
    ensures n > 0 && Room(n, r) >= 0 && (RP.HasRoom(n, r) <==> Room(n, r) > 0)
  {
    hide CR.LiveOk, CR.SlotsDistinct, CR.ProducerOk, CR.HistoryOk, CR.Owner, Slot;
  }

  ghost function Rest(c: Config, start: int, j: nat, room: nat): (ids: seq<Id>)
    requires c.Valid()
    ensures |ids| == room
  {
    seq(room, i requires 0 <= i < room => IdAt(c, start, j + i))
  }

  lemma RestNext(c: Config, start: int, j: nat, room: nat)
    requires c.Valid() && j < SecondSize(c)
    ensures IdAt(c, start, j) == (start, j)
    ensures room > 0 ==> Rest(c, start, j, room) == [IdAt(c, start, j)] + Rest(c, start, j + 1, room - 1)
  {
    hide SecondSize, IdsIn;
    SecondsCount(c, 0, j);
    CountsOf(c, j);
    if room > 0 { RestCons(c, start, j, room); }
  }

  lemma RestCons(c: Config, start: int, j: nat, room: nat)
    requires c.Valid() && room > 0
    ensures Rest(c, start, j, room) == [IdAt(c, start, j)] + Rest(c, start, j + 1, room - 1)
  {
    hide IdAt;
    var more := Rest(c, start, j + 1, room - 1);
    forall i | 1 <= i < room ensures Rest(c, start, j, room)[i] == more[i - 1] {
      assert j + i == j + 1 + (i - 1);
    }
  }

  /** A full second on is the next second. */
  lemma IdShift(c: Config, start: int, i: nat)
    requires c.Valid()
    ensures IdAt(c, start, SecondSize(c) + i) == IdAt(c, start + 1, i)
  {
    hide SecondSize, IdsIn;
    CountsOf(c, i);
    var k, j := SecondsIn(c, i), i % SecondSize(c);
    SecondsCount(c, k, j);
    SecondsCount(c, k + 1, j);
  }

  lemma RestShift(c: Config, start: int, room: nat)
    requires c.Valid()
    ensures Rest(c, start, SecondSize(c), room) == Rest(c, start + 1, 0, room)
    ensures IdAt(c, start, SecondSize(c) + room) == IdAt(c, start + 1, room)
  {
    hide SecondSize, IdAt;
    IdShift(c, start, room);
    var a, b := Rest(c, start, SecondSize(c), room), Rest(c, start + 1, 0, room);
    forall i | 0 <= i < room ensures a[i] == b[i] { IdShift(c, start, i); }
  }

  lemma {:induction false} PadsSound(c: Config, n: nat, y: System, p: nat, k: nat)
    requires Sound(c, n, y)
    ensures c.Valid() && y.ring.Shaped(n) && Sound(c, n, Run(c, n, y, Pads(p, k)))
    decreases k
  {
    hide Sound, Run, Pads, Apply;
    SoundShaped(c, n, y);
    if k == 0 {
      PadsOne(c, n, y, p);
    } else {
      PadsSound(c, n, y, p, k - 1);
      PadsNext(c, n, y, p, k - 1, 1);
      PadsOne(c, n, Run(c, n, y, Pads(p, k - 1)), p);
      StepSound(c, n, Run(c, n, y, Pads(p, k - 1)), Pad(p));
    }
  }

  lemma SoundShaped(c: Config, n: nat, y: System)
    requires Sound(c, n, y)
    ensures Inv(c, n, y) && CR.Safe(n, y.ring) && RP.Clear(n, y.ring) && c.Valid() && y.ring.Shaped(n)
  {
    hide CR.Safe, RP.Clear, OnePadder, HistoryOk, PadderOk;
  }

  /** What a padding that is alone comes to, from the id it is at. */
  ghost predicate Filled(c: Config, y: System, y': System, p: nat, start: int, j: nat, room: nat)
    requires c.Valid() && p < |y.padders|
  {
    && y'.ids == y.ids + Rest(c, start, j, room) && y'.lastSecond == IdAt(c, start, j + room).0
    && !y'.running && y'.padders == y.padders[p := Outside] && y'.rejected == y.rejected + [|y'.ids|]
    && y'.ring.takers == y.ring.takers && y'.ring.cursor == y.ring.cursor && y'.ring.given == y.ring.given
    && y'.ring.tail == y.ring.tail + room && y'.ring.producer.Free?
  }

  /** The last put is rejected: the padder leaves. */
  lemma Leaves(c: Config, n: nat, y: System, p: nat, second: int, k: nat) returns (steps: nat)
    requires Sound(c, n, y) && p < |y.padders| && y.padders[p] == Filling(second, k) && k < SecondSize(c)
    requires y.ring.producer.Free? && NoOwner(y.ring) && Room(n, y.ring) == 0
    ensures c.Valid() && y.ring.Shaped(n) && Filled(c, y, Run(c, n, y, Pads(p, steps)), p, second, k, 0)
  {
    hide SecondSize, CR.Apply, Run, Pads, UidOf, Room, NoOwner, CR.Safe, RP.Clear, RP.HasRoom, IdAt;
    SoundShaped(c, n, y);
    MaxIs(c);
    RoomIs(n, y.ring);
    assert PadderOk(c, y, p);
    PutPads(c, n, y, p, second, k);
    PadsNext(c, n, y, p, 3, 1);
    PadsOne(c, n, Run(c, n, y, Pads(p, 3)), p);
    RestNext(c, second, k, 0);
    steps := 4;
  }

  /** A put that is accepted. */
  lemma PutsOne(c: Config, n: nat, y: System, p: nat, second: int, k: nat) returns (y': System)
    requires Sound(c, n, y) && p < |y.padders| && y.padders[p] == Filling(second, k) && k < SecondSize(c)
    requires y.ring.producer.Free? && NoOwner(y.ring) && Room(n, y.ring) > 0
    ensures c.Valid() && y.ring.Shaped(n) && y' == Run(c, n, y, Pads(p, 6)) && Sound(c, n, y')
    ensures y'.padders == y.padders[p := Filling(second, k + 1)] && y'.ring.producer.Free? && NoOwner(y'.ring)
    ensures Room(n, y'.ring) == Room(n, y.ring) - 1 && y'.ring.tail == y.ring.tail + 1
    ensures y'.ids == y.ids + [IdAt(c, second, k)] && y'.rejected == y.rejected && y'.lastSecond == y.lastSecond
    ensures y'.ring.takers == y.ring.takers && y'.ring.cursor == y.ring.cursor && y'.ring.given == y.ring.given
  {
    hide SecondSize, CR.Apply, Run, Pads, UidOf, CR.Safe, RP.Clear, IdAt, Sound, RP.NextSlotOwned;
    SoundShaped(c, n, y);
    MaxIs(c);
    RoomIs(n, y.ring);
    PutPads(c, n, y, p, second, k);
    RP.PutAlone(n, y.ring, UidOf(c, (second, k)));
    PadsSound(c, n, y, p, 6);
    RestNext(c, second, k, 0);
    y' := Run(c, n, y, Pads(p, 6));
    SameOwnersNone(y.ring, y'.ring);
  }

  lemma SameOwnersNone(r: CR.Ring, r': CR.Ring)
    requires NoOwner(r) && r'.takers == r.takers
    ensures NoOwner(r')
  {
    hide CR.Owned;
    assert forall t :: CR.Owner(r', t) ==> CR.Owner(r, t);
  }

  lemma {:induction false} Fills(c: Config, n: nat, y: System, p: nat, second: int, k: nat) returns (steps: nat)
    requires Sound(c, n, y) && p < |y.padders| && y.padders[p] == Filling(second, k)
    requires y.ring.producer.Free? && NoOwner(y.ring) && Room(n, y.ring) >= 0
    ensures c.Valid() && y.ring.Shaped(n)
    ensures Filled(c, y, Run(c, n, y, Pads(p, steps)), p, second, k, Room(n, y.ring))
    decreases Room(n, y.ring), k
  {
    hide SecondSize, CR.Apply, Run, Pads, UidOf, NoOwner, Sound, IdAt, Filled, Room;
    SoundShaped(c, n, y);
    assert k <= SecondSize(c) && second == y.lastSecond by { AtSecond(c, n, y, p); }
    if k == SecondSize(c) {
      var z := NextSecond(c, n, y, p);
      steps := Fills(c, n, z, p, second + 1, 0);
      PadsNext(c, n, y, p, 2, steps);
      RestShift(c, second, Room(n, y.ring));
      FilledFrom(c, y, z, Run(c, n, z, Pads(p, steps)), p, second, k, Room(n, y.ring));
      steps := 2 + steps;
    } else if Room(n, y.ring) == 0 {
      steps := Leaves(c, n, y, p, second, k);
    } else {
      var z := PutsOne(c, n, y, p, second, k);
      steps := Fills(c, n, z, p, second, k + 1);
      PadsNext(c, n, y, p, 6, steps);
      RestNext(c, second, k, Room(n, y.ring));
      FilledOne(c, y, z, Run(c, n, z, Pads(p, steps)), p, second, k, Room(n, y.ring));
      steps := 6 + steps;
    }
  }

  lemma AtSecond(c: Config, n: nat, y: System, p: nat)
    requires Sound(c, n, y) && p < |y.padders| && y.padders[p].Filling?
    ensures c.Valid() && y.padders[p].k <= SecondSize(c) && y.padders[p].second == y.lastSecond
  {
    hide CR.Safe, RP.Clear, OnePadder, HistoryOk, SecondSize;
    assert PadderOk(c, y, p);
  }

  /** Behind the last id of a second, two steps take the next one. */
  lemma NextSecond(c: Config, n: nat, y: System, p: nat) returns (z: System)
    requires Sound(c, n, y) && p < |y.padders| && y.padders[p].Filling? && c.Valid() && y.padders[p].k == SecondSize(c)
    ensures y.ring.Shaped(n) && z == Run(c, n, y, Pads(p, 2)) && Sound(c, n, z)
    ensures z.padders == y.padders[p := Filling(y.lastSecond + 1, 0)] && z.lastSecond == y.lastSecond + 1
    ensures z.ring == y.ring && z.ids == y.ids && z.rejected == y.rejected
  {
    hide SecondSize, CR.Apply, Run, Pads, UidOf, Sound;
    SoundShaped(c, n, y);
    PadsNext(c, n, y, p, 1, 1);
    PadsOne(c, n, y, p);
    PadsOne(c, n, Run(c, n, y, Pads(p, 1)), p);
    PadsSound(c, n, y, p, 2);
    z := Run(c, n, y, Pads(p, 2));
  }

  lemma FilledFrom(c: Config, y: System, z: System, y': System, p: nat, second: int, k: nat, room: nat)
    requires c.Valid() && p < |y.padders| == |z.padders| && k == SecondSize(c)
    requires Filled(c, z, y', p, second + 1, 0, room)
    requires z.padders == y.padders[p := z.padders[p]] && z.ring == y.ring && z.ids == y.ids && z.rejected == y.rejected
    requires Rest(c, second, k, room) == Rest(c, second + 1, 0, room) && IdAt(c, second, k + room) == IdAt(c, second + 1, room)
    ensures Filled(c, y, y', p, second, k, room)
  {
    hide IdAt, Rest;
  }

  lemma FilledOne(c: Config, y: System, z: System, y': System, p: nat, second: int, k: nat, room: nat)
    requires c.Valid() && p < |y.padders| == |z.padders| && room > 0
    requires Filled(c, z, y', p, second, k + 1, room - 1)
    requires z.padders == y.padders[p := z.padders[p]] && z.rejected == y.rejected && z.ring.takers == y.ring.takers
    requires z.ring.cursor == y.ring.cursor && z.ring.given == y.ring.given && z.ring.tail == y.ring.tail + 1
    requires z.ids == y.ids + [IdAt(c, second, k)]
    requires Rest(c, second, k, room) == [IdAt(c, second, k)] + Rest(c, second, k + 1, room - 1)
    ensures Filled(c, y, y', p, second, k, room)
  {
    hide IdAt, Rest;
    Joined(y.ids, [IdAt(c, second, k)], Rest(c, second, k + 1, room - 1));
    assert k + 1 + (room - 1) == k + room;
  }

  lemma Joined(a: seq<Id>, b: seq<Id>, d: seq<Id>)
    ensures (a + b) + d == a + (b + d)
  {
  }

  /** A padding that no other step interrupts, while no taker holds a claimed number: it ends,
      the ring is full of the ids from the next second on, one after another, `running` is cleared,
      and the second it stopped in is spent. */
  lemma PaddingAlone(c: Config, n: nat, y: System, p: nat) returns (steps: seq<Step>)
    requires Sound(c, n, y) && p < |y.padders| && !y.running && NoOwner(y.ring)
    ensures c.Valid() && y.ring.Shaped(n) && forall s :: s in steps ==> s == Pad(p)
    ensures var y', room := Run(c, n, y, steps), n - 1 - (y.ring.tail - (if y.ring.cursor < 0 then 0 else y.ring.cursor));
            && room >= 0 && y'.ids == y.ids + Stream(c, y.lastSecond + 1, room)
            && y'.lastSecond == y.lastSecond + 1 + SecondsIn(c, room)
            && y'.ring.tail == y.ring.tail + room && y'.ring.cursor == y.ring.cursor && y'.ring.takers == y.ring.takers
            && !y'.running && y'.padders == y.padders
  {
    hide SecondSize, CR.Apply, Run, UidOf, NoOwner, Sound, SecondsIn;
    SoundShaped(c, n, y);
    RoomIs(n, y.ring);
    var z := Begins(c, n, y, p);
    var k := Fills(c, n, z, p, y.lastSecond + 1, 0);
    PadsNext(c, n, y, p, 2, k);
    steps := Pads(p, 2 + k);
    RestIsStream(c, y.lastSecond + 1, Room(n, y.ring));
  }

  lemma RestIsStream(c: Config, start: int, room: nat)
    requires c.Valid()
    ensures Rest(c, start, 0, room) == Stream(c, start, room) && IdAt(c, start, room).0 == start + SecondsIn(c, room)
  {
    hide SecondSize, SecondsIn;
  }

  lemma Begins(c: Config, n: nat, y: System, p: nat) returns (z: System)
    requires Sound(c, n, y) && p < |y.padders| && !y.running
    ensures c.Valid() && y.ring.Shaped(n) && z == Run(c, n, y, Pads(p, 2)) && Sound(c, n, z)
    ensures z.padders == y.padders[p := Filling(y.lastSecond + 1, 0)] && z.ring == y.ring && z.ids == y.ids
    ensures y.padders[p].Outside? && y.ring.producer.Free? && z.rejected == y.rejected
  {
    hide SecondSize, CR.Apply, Run, Pads, UidOf, Sound, HistoryOk, PadderOk;
    SoundShaped(c, n, y);
    PadsNext(c, n, y, p, 1, 1);
    PadsOne(c, n, y, p);
    PadsOne(c, n, Run(c, n, y, Pads(p, 1)), p);
    PadsSound(c, n, y, p, 2);
    z := Run(c, n, y, Pads(p, 2));
  }
}

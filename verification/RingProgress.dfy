/** When the interleaved ring accepts a put and when it serves a take. */
module RingProgress {
  import opened JavaLong
  import opened RingBuffer
  import opened ConcurrentRing

  /** The state after the first k steps. */
  ghost function After(n: nat, r: Ring, steps: seq<Step>, k: nat): (r': Ring)
    requires r.Shaped(n) && k <= |steps|
    ensures r'.Shaped(n)
  {
    if k == 0 then r else Apply(n, After(n, r, steps, k - 1), steps[k - 1])
  }

  lemma {:induction false} AfterIsRun(n: nat, r: Ring, steps: seq<Step>)
    requires r.Shaped(n)
    ensures Run(n, r, steps) == After(n, r, steps, |steps|)
    decreases |steps|
  {
    hide Apply;
    if |steps| > 0 {
      AfterIsRun(n, Apply(n, r, steps[0]), steps[1..]);
      AfterTail(n, r, steps, |steps|);
    }
  }

  lemma {:induction false} AfterTail(n: nat, r: Ring, steps: seq<Step>, k: nat)
    requires r.Shaped(n) && 0 < k <= |steps|
    ensures After(n, r, steps, k) == After(n, Apply(n, r, steps[0]), steps[1..], k - 1)
  {
    hide Apply;
    if k > 1 { AfterTail(n, r, steps, k - 1); }
  }

  lemma AfterNext(n: nat, r: Ring, steps: seq<Step>, k: nat)
    requires r.Shaped(n) && k < |steps|
    ensures After(n, r, steps, k + 1) == Apply(n, After(n, r, steps, k), steps[k])
  {
    hide Apply;
  }

  lemma {:induction false} RunAppend(n: nat, r: Ring, a: seq<Step>, b: seq<Step>)
    requires r.Shaped(n)
    ensures Run(n, r, a + b) == Run(n, Run(n, r, a), b)
    decreases |a|
  {
    hide Apply;
    if a == [] {
      assert a + b == b;
    } else {
      assert (a + b)[0] == a[0] && (a + b)[1..] == a[1..] + b;
      RunAppend(n, Apply(n, r, a[0]), a[1..], b);
    }
  }

  // ------------------------------------------------------------ free slots

  /** A slot in which nothing lives, and which no put is about to publish, may be put into. */
  ghost predicate Clear(n: nat, r: Ring)
    requires r.Shaped(n)
  {
    forall i: nat :: i < n && SlotUnused(n, r, i) && !Publishing(n, r, i) ==> r.flags[i] == CAN_PUT_FLAG
  }

  ghost predicate Publishing(n: nat, r: Ring, i: nat)
    requires n > 0
  {
    r.producer.FlagSet? && Slot(r.producer.t + 1, n) == i
  }

  lemma StartClear(n: nat, takers: nat)
    requires n > 0
    ensures Clear(n, Start(n, takers))
  {
    hide Slot, SlotUnused;
  }

  lemma ClearStep(n: nat, r: Ring, step: Step)
    requires Safe(n, r) && Clear(n, r) && !StaleOnEmpty(r, step)
    ensures Clear(n, Apply(n, r, step))
  {
    hide Slot, LiveOk, SlotsDistinct, ProducerOk, HistoryOk, Clear, SlotUnused, InOrder, Bounded;
    match step
    case Take(t) => if t < |r.takers| { ClearTake(n, r, t); }
    case Retry(t) => ClearSame(n, r, Apply(n, r, step));
    case PutBegin(uid) => ClearSame(n, r, Apply(n, r, step));
    case PutNext => ClearPut(n, r);
  }

  /** The flags stay, and every owner and every queued number keeps its slot. */
  lemma ClearSame(n: nat, r: Ring, r': Ring)
    requires r.Shaped(n) && r'.Shaped(n) && Clear(n, r) && r'.flags == r.flags
    requires forall t :: Owner(r, t) ==> Owner(r', t) && Owned(r'.takers[t]) == Owned(r.takers[t])
    requires r'.cursor == r.cursor && r'.tail == r.tail
    requires forall i :: Publishing(n, r, i) ==> Publishing(n, r', i)
    ensures Clear(n, r')
  {
    hide Slot, Owned, Owner, Publishing;
    forall i: nat | i < n && SlotUnused(n, r', i) && !Publishing(n, r', i) ensures r'.flags[i] == CAN_PUT_FLAG {
      assert SlotUnused(n, r, i);
    }
  }

  lemma ClearTake(n: nat, r: Ring, t: nat)
    requires Safe(n, r) && Clear(n, r) && !StaleOnEmpty(r, Take(t)) && t < |r.takers|
    ensures Clear(n, TakeStep(n, r, t))
  {
    hide Slot, LiveOk, SlotsDistinct, ProducerOk, HistoryOk, InOrder, Bounded, Clear;
    var r' := TakeStep(n, r, t);
    if r.takers[t].GotUid? {
      ClearHandBack(n, r, t);
    } else if r.takers[t].HasTail? && r.cursor == r.takers[t].prev != r.takers[t].seenTail {
      ClearClaim(n, r, t);
    } else {
      QuietTakeOwns(n, r, t);
      ClearSame(n, r, r');
    }
  }

  lemma ClearHandBack(n: nat, r: Ring, t: nat)
    requires Safe(n, r) && Clear(n, r) && t < |r.takers| && r.takers[t].GotUid?
    ensures Clear(n, TakeStep(n, r, t))
  {
    hide Slot, LiveOk, SlotsDistinct, ProducerOk, HistoryOk, InOrder, Bounded, Monotone;
    var r' := TakeStep(n, r, t);
    forall i: nat | i < n && SlotUnused(n, r', i) && !Publishing(n, r', i) ensures r'.flags[i] == CAN_PUT_FLAG {
      if i != Slot(r.takers[t].next, n) {
        assert forall u :: Owner(r, u) && u != t ==> Owner(r', u) && r'.takers[u] == r.takers[u];
        assert SlotUnused(n, r, i);
      }
    }
  }

  lemma ClearClaim(n: nat, r: Ring, t: nat)
    requires Safe(n, r) && Clear(n, r) && t < |r.takers| && r.takers[t].HasTail?
    requires r.cursor == r.takers[t].prev != r.takers[t].seenTail
    ensures Clear(n, TakeStep(n, r, t))
  {
    hide Slot, LiveOk, SlotsDistinct, ProducerOk, HistoryOk, InOrder, Bounded;
    var r' := TakeStep(n, r, t);
    var s := r.cursor + 1;
    assert PastReads(r.cursor, r.tail, r.takers[t]);
    assert Owner(r', t) && Owned(r'.takers[t]) == s;
    forall i: nat | i < n && SlotUnused(n, r', i) && !Publishing(n, r', i) ensures r'.flags[i] == CAN_PUT_FLAG {
      assert forall u :: Owner(r, u) ==> Owner(r', u) && r'.takers[u] == r.takers[u];
      assert forall q :: Queued(r, q) ==> q == s || Queued(r', q);
      assert SlotUnused(n, r, i);
    }
  }

  lemma ClearPut(n: nat, r: Ring)
    requires Safe(n, r) && Clear(n, r)
    ensures Clear(n, PutStep(n, r))
  {
    hide Slot, LiveOk, SlotsDistinct, HistoryOk, InOrder, Bounded, PastReads;
    var r' := PutStep(n, r);
    match r.producer
    case SlotWritten(uid, t, c) =>
      forall i: nat | i < n && SlotUnused(n, r', i) && !Publishing(n, r', i) ensures r'.flags[i] == CAN_PUT_FLAG {
        assert forall u :: Owner(r, u) <==> Owner(r', u);
        assert SlotUnused(n, r, i);
      }
    case FlagSet(uid, t, c) =>
      assert Queued(r', t + 1);
      forall i: nat | i < n && SlotUnused(n, r', i) && !Publishing(n, r', i) ensures r'.flags[i] == CAN_PUT_FLAG {
        assert forall u :: Owner(r, u) <==> Owner(r', u);
        assert forall q :: Queued(r, q) ==> Queued(r', q);
        assert SlotUnused(n, r, i);
      }
    case _ => ClearSame(n, r, r');
  }

  /** Both invariants hold in every state that is reached without a stale update. */
  lemma {:induction false} RunClear(n: nat, r: Ring, steps: seq<Step>)
    requires Safe(n, r) && Clear(n, r) && NeverStale(n, r, steps)
    ensures Safe(n, Run(n, r, steps)) && Clear(n, Run(n, r, steps))
    decreases |steps|
  {
    hide Apply, StaleOnEmpty, Safe, Clear;
    if |steps| > 0 {
      ShapedSafe(n, r);
      StepSafe(n, r, steps[0]);
      ClearStep(n, r, steps[0]);
      ShapedSafe(n, Apply(n, r, steps[0]));
      RunClear(n, Apply(n, r, steps[0]), steps[1..]);
    }
  }

  lemma ShapedSafe(n: nat, r: Ring)
    requires Safe(n, r)
    ensures r.Shaped(n)
  {
  }

  // ------------------------------------------------------------ puts

  /** A taker has claimed the number that lives in the next slot, and not handed it back. */
  ghost predicate NextSlotOwned(n: nat, r: Ring)
    requires n > 0
  {
    exists t :: Owner(r, t) && Slot(Owned(r.takers[t]), n) == Slot(r.tail + 1, n)
  }

  /** The flag of the next slot says whether a taker still owns it, once the distance to the
      cursor that the put has read leaves room. */
  lemma NextFlag(n: nat, r: Ring, c: int)
    requires Safe(n, r) && Clear(n, r) && !r.producer.FlagSet?
    requires -1 <= c <= r.cursor && r.tail - Max(c, 0) <= n - 2
    ensures r.flags[Slot(r.tail + 1, n)] == CAN_PUT_FLAG <==> !NextSlotOwned(n, r)
  {
    hide Slot, SlotsDistinct, ProducerOk, HistoryOk, InOrder, Bounded, Clear;
    var i := Slot(r.tail + 1, n);
    if NextSlotOwned(n, r) {
      var t :| Owner(r, t) && Slot(Owned(r.takers[t]), n) == i;
      assert Holds(n, r, Owned(r.takers[t]));
    } else {
      forall s | Queued(r, s) ensures Slot(s, n) != i {
        if Slot(s, n) == i { SlotUnique(s, r.tail + 1, n); }
      }
      UnusedIs(n, r, i);
      ClearAt(n, r, i);
    }
  }

  lemma UnusedIs(n: nat, r: Ring, i: nat)
    requires n > 0 && i == Slot(r.tail + 1, n) && !NextSlotOwned(n, r)
    requires forall s :: Queued(r, s) ==> Slot(s, n) != i
    ensures SlotUnused(n, r, i)
  {
    hide Slot, Owned, Owner, Queued;
  }

  lemma ClearAt(n: nat, r: Ring, i: nat)
    requires r.Shaped(n) && Clear(n, r) && i < n && SlotUnused(n, r, i) && !Publishing(n, r, i)
    ensures r.flags[i] == CAN_PUT_FLAG
  {
    hide SlotUnused, Publishing;
  }

  /** The put that has read the tail and the cursor goes on unless n - 1 ids are ahead of that
      cursor, or the next slot is still owned; the other steps of put always go on, and the
      last one appends the id. */
  lemma PutDecides(n: nat, r: Ring)
    requires Safe(n, r) && Clear(n, r)
    ensures var r' := PutStep(n, r);
            match r.producer
            case Free => r' == r
            case SawTail(uid, t) => t == r.tail && r' == r.(producer := SawCursor(uid, r.tail, r.cursor))
            case SawCursor(uid, t, c) =>
              && t == r.tail && c <= r.cursor
              && r' == r.(producer := if r.tail - (if c < 0 then 0 else c) == n - 1 || NextSlotOwned(n, r) then Free
                                      else FlagFree(uid, t, c))
            case FlagFree(uid, t, c) => r'.producer == SlotWritten(uid, t, c) && r'.puts == r.puts && r'.tail == r.tail
            case SlotWritten(uid, t, c) => r'.producer == FlagSet(uid, t, c) && r'.puts == r.puts && r'.tail == r.tail
            case FlagSet(uid, _, _) => r'.producer == Free && r'.puts == r.puts + [uid] && r'.tail == r.tail + 1
  {
    hide Slot, LiveOk, SlotsDistinct, HistoryOk, InOrder, Monotone, Bounded, Clear, NextSlotOwned;
    if r.producer.SawCursor? {
      var c := r.producer.c;
      if r.tail - Max(c, 0) != n - 1 { NextFlag(n, r, c); }
    }
  }

  /** In every interleaving without a stale update: a put is rejected if and only if n - 1 ids
      are ahead of the cursor it read or a taker still owns the next slot. */
  lemma PutRejectedIff(n: nat, takers: nat, steps: seq<Step>)
    requires n > 0 && NeverStale(n, Start(n, takers), steps)
    ensures var r := Run(n, Start(n, takers), steps);
            r.producer.SawCursor? ==>
              (Apply(n, r, PutNext).producer.Free?
               <==> r.tail - (if r.producer.c < 0 then 0 else r.producer.c) == n - 1 || NextSlotOwned(n, r))
  {
    hide Run, NeverStale, Safe, Clear, NextSlotOwned, PutStep;
    StartSafe(n, takers);
    StartClear(n, takers);
    RunClear(n, Start(n, takers), steps);
    PutDecides(n, Run(n, Start(n, takers), steps));
  }

  /** One put. */
  ghost function PutOne(uid: long): (steps: seq<Step>)
    ensures |steps| == 6
  {
    [PutBegin(uid), PutNext, PutNext, PutNext, PutNext, PutNext]
  }

  /** There is room in front of the cursor and in the next slot. */
  ghost predicate HasRoom(n: nat, r: Ring)
    requires n > 0
  {
    r.tail - (if r.cursor < 0 then 0 else r.cursor) < n - 1 && !NextSlotOwned(n, r)
  }

  /** The steps of a put that no other step interrupts. */
  lemma PutTrace(n: nat, r: Ring, uid: long)
    requires Safe(n, r) && Clear(n, r) && r.producer.Free?
    ensures After(n, r, PutOne(uid), 1).producer.SawTail? && After(n, r, PutOne(uid), 2).producer.SawCursor?
    ensures !HasRoom(n, r) ==> After(n, r, PutOne(uid), 3) == r
    ensures HasRoom(n, r) ==> After(n, r, PutOne(uid), 3) == r.(producer := FlagFree(uid, r.tail, r.cursor))
  {
    hide After, Safe, Clear, NextSlotOwned, PutStep, TakeStep;
    var steps := PutOne(uid);
    ShapedSafe(n, r);
    PutReads(n, r, uid);
    AfterNext(n, r, steps, 2);
    BoundedSafe(n, r);
    var r2 := r.(producer := SawCursor(uid, r.tail, r.cursor));
    StepSafe(n, r, PutBegin(uid));
    ClearStep(n, r, PutBegin(uid));
    StepSafe(n, After(n, r, steps, 1), PutNext);
    ClearStep(n, After(n, r, steps, 1), PutNext);
    SameNext(n, r, r2);
    PutDecides(n, r2);
  }

  /** A put that no other step interrupts appends its id if and only if fewer than n - 1 ids are
      ahead of the cursor and no taker owns the next slot; else it changes nothing. */
  lemma PutAlone(n: nat, r: Ring, uid: long)
    requires Safe(n, r) && Clear(n, r) && r.producer.Free?
    ensures var r' := Run(n, r, PutOne(uid));
            if r.tail - (if r.cursor < 0 then 0 else r.cursor) < n - 1 && !NextSlotOwned(n, r) then
              && r'.puts == r.puts + [uid] && r'.tail == r.tail + 1 && r'.cursor == r.cursor && r'.producer.Free?
              && r'.takers == r.takers && r'.claims == r.claims && r'.given == r.given
            else r' == r
  {
    hide After, Safe, Clear, NextSlotOwned, PutStep, TakeStep;
    var steps := PutOne(uid);
    ShapedSafe(n, r);
    AfterIsRun(n, r, steps);
    PutTrace(n, r, uid);
    AfterNext(n, r, steps, 3);
    AfterNext(n, r, steps, 4);
    AfterNext(n, r, steps, 5);
    if HasRoom(n, r) { PutWritesRest(n, After(n, r, steps, 3)); } else { FreeStays(n, r); }
  }

  lemma BoundedSafe(n: nat, r: Ring)
    requires Safe(n, r)
    ensures r.tail - Max(r.cursor, 0) <= n - 1
  {
    hide LiveOk, SlotsDistinct, ProducerOk, HistoryOk, InOrder, Monotone;
  }

  lemma SameNext(n: nat, r: Ring, r': Ring)
    requires n > 0 && r' == r.(producer := r'.producer)
    ensures NextSlotOwned(n, r') <==> NextSlotOwned(n, r)
  {
    hide Slot, Owned;
    assert forall t :: Owner(r, t) <==> Owner(r', t);
  }

  lemma PutReads(n: nat, r: Ring, uid: long)
    requires r.Shaped(n) && r.producer.Free?
    ensures After(n, r, PutOne(uid), 1) == r.(producer := SawTail(uid, r.tail)) == Apply(n, r, PutBegin(uid))
    ensures After(n, r, PutOne(uid), 2) == r.(producer := SawCursor(uid, r.tail, r.cursor))
         == Apply(n, After(n, r, PutOne(uid), 1), PutNext)
  {
    hide Slot, TakeStep;
    AfterNext(n, r, PutOne(uid), 0);
    AfterNext(n, r, PutOne(uid), 1);
    assert After(n, r, PutOne(uid), 0) == r;
  }

  lemma FreeStays(n: nat, r: Ring)
    requires r.Shaped(n) && r.producer.Free?
    ensures Apply(n, r, PutNext) == r
  {
    hide Slot, TakeStep;
  }

  /** Once the flag is found free, three more steps write, mark and publish. */
  lemma PutWritesRest(n: nat, r: Ring)
    requires r.Shaped(n) && r.producer.FlagFree?
    ensures Apply(n, r, PutNext).producer.SlotWritten? && Apply(n, Apply(n, r, PutNext), PutNext).producer.FlagSet?
    ensures var r' := Apply(n, Apply(n, Apply(n, r, PutNext), PutNext), PutNext);
            && r'.puts == r.puts + [r.producer.uid] && r'.tail == r.tail + 1 && r'.cursor == r.cursor
            && r'.producer.Free? && r'.takers == r.takers && r'.claims == r.claims && r'.given == r.given
  {
    hide Slot, TakeStep;
  }

  // ------------------------------------------------------------ takes

  /** What each step of a taker comes to, in every state without a stale update at hand. The
      update claims the number behind the cursor if the cursor is still the one it read and the
      tail it read lies further; it is rejected if the tail it read was the cursor; it starts
      again if the cursor has moved. A claimed id is then always handed out. */
  lemma TakeDecides(n: nat, r: Ring, t: nat)
    requires Safe(n, r) && t < |r.takers| && !StaleOnEmpty(r, Take(t))
    ensures var r' := TakeStep(n, r, t);
            match r.takers[t]
            case Idle => r' == At(r, t, HasRead(r.cursor))
            case HasRead(current) => r' == At(r, t, HasOld(current, r.cursor))
            case HasOld(current, prev) => r' == At(r, t, HasTail(current, prev, r.tail))
            case HasTail(current, prev, seenTail) =>
              if r.cursor != prev then r' == At(r, t, HasRead(current))
              else if seenTail == prev then current == r.cursor && r' == At(r, t, Claimed(current, current))
              else r' == At(r.(cursor := prev + 1, claims := r.claims + [(t, prev + 1)]), t, Claimed(current, prev + 1))
            case Claimed(current, next) => r' == At(r, t, if next == current then Idle else Passed(next))
            case Passed(next) => r' == At(r, t, FlagSeen(next))
            case FlagSeen(next) => 0 <= next < |r.puts| && r' == At(r, t, GotUid(next, r.puts[next]))
            case GotUid(next, uid) =>
              && 0 <= next < |r.puts| && uid == r.puts[next] && r'.takers == r.takers[t := Idle]
              && r'.given == r.given + [(t, next, r.puts[next])] && r'.cursor == r.cursor && r'.claims == r.claims
              && r'.tail == r.tail && r'.puts == r.puts
  {
    hide Slot, SlotsDistinct, ProducerOk, HistoryOk, InOrder, Bounded;
    assert PastReads(r.cursor, r.tail, r.takers[t]);
    if r.takers[t].Passed? || r.takers[t].FlagSeen? || r.takers[t].GotUid? {
      assert Owner(r, t);
      assert Holds(n, r, Owned(r.takers[t]));
    }
  }

  ghost function Takes(t: nat, k: nat): (steps: seq<Step>)
    ensures |steps| == k
  {
    seq(k, _ => Take(t))
  }

  ghost function At(r: Ring, t: nat, p: Taker): (r': Ring)
    requires t < |r.takers|
  {
    r.(takers := r.takers[t := p])
  }

  lemma AtTwice(r: Ring, t: nat, p: Taker, q: Taker)
    requires t < |r.takers|
    ensures At(At(r, t, p), t, q) == At(r, t, q) && At(r, t, r.takers[t]) == r
  {
    assert r.takers[t := p][t := q] == r.takers[t := q];
    assert r.takers[t := r.takers[t]] == r.takers;
  }

  lemma Looks(n: nat, r: Ring, t: nat, m: nat)
    requires r.Shaped(n) && t < |r.takers| && r.takers[t].Idle? && m >= 3
    ensures After(n, r, Takes(t, m), 3) == At(r, t, HasTail(r.cursor, r.cursor, r.tail))
  {
    hide Slot, PutStep;
    var steps := Takes(t, m);
    AfterNext(n, r, steps, 0);
    AfterNext(n, r, steps, 1);
    AfterNext(n, r, steps, 2);
    assert After(n, r, steps, 0) == r;
    hide After, Takes;
    assert After(n, r, steps, 1) == At(r, t, HasRead(r.cursor));
    AtTwice(r, t, HasRead(r.cursor), HasOld(r.cursor, r.cursor));
    assert After(n, r, steps, 2) == At(r, t, HasOld(r.cursor, r.cursor));
    AtTwice(r, t, HasOld(r.cursor, r.cursor), HasTail(r.cursor, r.cursor, r.tail));
  }

  /** A take on an empty ring that no other step interrupts is rejected and changes nothing. */
  lemma TakeEmpty(n: nat, r: Ring, t: nat)
    requires r.Shaped(n) && t < |r.takers| && r.takers[t].Idle? && r.cursor == r.tail
    ensures Run(n, r, Takes(t, 5)) == r
  {
    hide Slot, PutStep, After;
    var steps := Takes(t, 5);
    AfterIsRun(n, r, steps);
    Looks(n, r, t, 5);
    AfterNext(n, r, steps, 3);
    AfterNext(n, r, steps, 4);
    AtTwice(r, t, HasTail(r.cursor, r.cursor, r.tail), Claimed(r.cursor, r.cursor));
    assert After(n, r, steps, 4) == At(r, t, Claimed(r.cursor, r.cursor));
    AtTwice(r, t, Claimed(r.cursor, r.cursor), Idle);
  }

  /** A take that no other step interrupts hands out the oldest queued id if there is one. */
  lemma TakeAlone(n: nat, r: Ring, t: nat)
    requires Safe(n, r) && t < |r.takers| && r.takers[t].Idle? && r.cursor < r.tail
    ensures var s, r' := r.cursor + 1, Run(n, r, Takes(t, 8));
            && r'.given == r.given + [(t, s, r.puts[s])] && r'.claims == r.claims + [(t, s)]
            && r'.cursor == s && r'.tail == r.tail && r'.puts == r.puts && r'.takers == r.takers
            && r'.producer == r.producer
  {
    hide Slot, PutStep, After, LiveOk, SlotsDistinct, ProducerOk, HistoryOk, InOrder, Bounded;
    var steps, s := Takes(t, 8), r.cursor + 1;
    AfterIsRun(n, r, steps);
    Looks(n, r, t, 8);
    QueueHolds(n, r, s);
    AfterNext(n, r, steps, 3);
    var claimed := r.(cursor := s, claims := r.claims + [(t, s)]);
    AtTwice(claimed, t, HasTail(r.cursor, r.cursor, r.tail), Claimed(r.cursor, s));
    assert After(n, r, steps, 4) == At(claimed, t, Claimed(r.cursor, s));
    AfterNext(n, r, steps, 4);
    AfterNext(n, r, steps, 5);
    AfterNext(n, r, steps, 6);
    AfterNext(n, r, steps, 7);
    HandsOut(n, claimed, t, r.cursor, s);
  }

  lemma QueueHolds(n: nat, r: Ring, s: int)
    requires Safe(n, r) && r.cursor < s <= r.tail
    ensures Holds(n, r, s)
  {
    hide Slot, SlotsDistinct, ProducerOk, HistoryOk, InOrder, Monotone;
    assert Queued(r, s);
  }

  /** From the claim on: the flag is right, the slot is read, the flag reset. */
  lemma HandsOut(n: nat, r: Ring, t: nat, current: int, s: int)
    requires r.Shaped(n) && t < |r.takers| && r.takers[t].Idle? && s != current && Holds(n, r, s)
    ensures var r4 := At(r, t, Claimed(current, s));
            var r' := Apply(n, Apply(n, Apply(n, Apply(n, r4, Take(t)), Take(t)), Take(t)), Take(t));
            r' == r.(flags := r.flags[Slot(s, n) := CAN_PUT_FLAG], given := r.given + [(t, s, r.puts[s])])
  {
    hide Slot, PutStep;
    AtTwice(r, t, Claimed(current, s), Passed(s));
    assert Apply(n, At(r, t, Claimed(current, s)), Take(t)) == At(r, t, Passed(s));
    AtTwice(r, t, Passed(s), FlagSeen(s));
    assert Apply(n, At(r, t, Passed(s)), Take(t)) == At(r, t, FlagSeen(s));
    AtTwice(r, t, FlagSeen(s), GotUid(s, r.puts[s]));
    assert Apply(n, At(r, t, FlagSeen(s)), Take(t)) == At(r, t, GotUid(s, r.puts[s]));
    AtTwice(r, t, GotUid(s, r.puts[s]), Idle);
    assert r.takers[t := GotUid(s, r.puts[s])][t := Idle] == r.takers;
  }
}

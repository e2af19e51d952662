/** The ring under concurrency: any number of takers, and producers serialised by the lock of
    put, as interleaved atomic steps. Every read and write of a shared variable is a step of
    its own; updateAndGet is its loop of get, function, compare-and-set. */
module ConcurrentRing {
  import opened Common
  import opened JavaLong
  import opened RingBuffer

  /** Where a taker is inside take(). */
  datatype Taker =
    | Idle
    | HasRead(current: int)                           // cursor read before updateAndGet
    | HasOld(current: int, prev: int)                  // updateAndGet read the cursor
    | HasTail(current: int, prev: int, seenTail: int)  // its function read the tail
    | Claimed(current: int, next: int)                // compare-and-set done
    | Passed(next: int)                               // not rejected
    | FlagSeen(next: int)                             // flag was CAN_TAKE
    | GotUid(next: int, uid: long)                    // slot read, flag not yet reset

  /** Where the holder of the put lock is inside put(uid). */
  datatype Producer =
    | Free
    | SawTail(uid: long, t: int)
    | SawCursor(uid: long, t: int, c: int)
    | FlagFree(uid: long, t: int, c: int)
    | SlotWritten(uid: long, t: int, c: int)
    | FlagSet(uid: long, t: int, c: int)

  /** Shared variables, program counters, and the history. A claim is a compare-and-set that
      gives a taker a sequence number different from the cursor it read first: from there on
      the code treats the number as its own. */
  datatype Ring = Ring(
    slots: seq<long>, flags: seq<int>, tail: int, cursor: int,
    takers: seq<Taker>, producer: Producer,
    puts: seq<long>, claims: seq<(nat, int)>, given: seq<(nat, int, long)>)
  {
    predicate Shaped(n: nat) {
      n > 0 && |slots| == n && |flags| == n
    }
  }

  datatype Step =
    | Take(t: nat)        // taker t's next step
    | Retry(t: nat)       // a compare-and-set that fails although nothing changed
    | PutBegin(uid: long) // lock taken, tail read
    | PutNext             // the lock holder's next step

  function Start(n: nat, takers: nat): (r: Ring)
    requires n > 0
    ensures r.Shaped(n)
  {
    Ring(seq(n, _ => 0), seq(n, _ => CAN_PUT_FLAG), -1, -1, seq(takers, _ => Idle), Free, [], [], [])
  }

  function TakeStep(n: nat, r: Ring, t: nat): (r': Ring)
    requires r.Shaped(n) && t < |r.takers|
    ensures r'.Shaped(n)
  {
    match r.takers[t]
    case Idle => r.(takers := r.takers[t := HasRead(r.cursor)])
    case HasRead(current) => r.(takers := r.takers[t := HasOld(current, r.cursor)])
    case HasOld(current, prev) => r.(takers := r.takers[t := HasTail(current, prev, r.tail)])
    case HasTail(current, prev, seenTail) =>
      if r.cursor != prev then r.(takers := r.takers[t := HasRead(current)])
      else
        var next := if prev == seenTail then prev else prev + 1;
        r.(cursor := next, takers := r.takers[t := Claimed(current, next)],
           claims := if next != current then r.claims + [(t, next)] else r.claims)
    case Claimed(current, next) =>
      // the padding check in between only reads the tail; equal cursors mean rejection
      r.(takers := r.takers[t := if next == current then Idle else Passed(next)])
    case Passed(next) =>
      // a flag other than CAN_TAKE ends the call with an exception
      r.(takers := r.takers[t := if r.flags[Slot(next, n)] == CAN_TAKE_FLAG then FlagSeen(next) else Idle])
    case FlagSeen(next) => r.(takers := r.takers[t := GotUid(next, r.slots[Slot(next, n)])])
    case GotUid(next, uid) =>
      r.(flags := r.flags[Slot(next, n) := CAN_PUT_FLAG], takers := r.takers[t := Idle],
         given := r.given + [(t, next, uid)])
  }

  function PutStep(n: nat, r: Ring): (r': Ring)
    requires r.Shaped(n)
    ensures r'.Shaped(n)
  {
    match r.producer
    case Free => r
    case SawTail(uid, t) => r.(producer := SawCursor(uid, t, r.cursor))
    case SawCursor(uid, t, c) =>
      if t - (if c == -1 then 0 else c) == n - 1 || r.flags[Slot(t + 1, n)] != CAN_PUT_FLAG
      then r.(producer := Free)
      else r.(producer := FlagFree(uid, t, c))
    case FlagFree(uid, t, c) => r.(slots := r.slots[Slot(t + 1, n) := uid], producer := SlotWritten(uid, t, c))
    case SlotWritten(uid, t, c) =>
      r.(flags := r.flags[Slot(t + 1, n) := CAN_TAKE_FLAG], producer := FlagSet(uid, t, c))
    case FlagSet(uid, t, c) => r.(tail := r.tail + 1, producer := Free, puts := r.puts + [uid])
  }

  /** One step of one thread; a step that is not enabled changes nothing. */
  function Apply(n: nat, r: Ring, step: Step): (r': Ring)
    requires r.Shaped(n)
    ensures r'.Shaped(n)
  {
    match step
    case Take(t) => if t < |r.takers| then TakeStep(n, r, t) else r
    case Retry(t) =>
      if t < |r.takers| && r.takers[t].HasTail?
      then r.(takers := r.takers[t := HasRead(r.takers[t].current)]) else r
    case PutBegin(uid) => if r.producer.Free? then r.(producer := SawTail(uid, r.tail)) else r
    case PutNext => PutStep(n, r)
  }

  function Run(n: nat, r: Ring, steps: seq<Step>): (r': Ring)
    requires r.Shaped(n)
    ensures r'.Shaped(n)
    decreases |steps|
  {
    if |steps| == 0 then r else Run(n, Apply(n, r, steps[0]), steps[1..])
  }

  /** The compare-and-set of a taker on an empty ring whose first read of the cursor is out of
      date: it keeps the cursor where it is, yet passes the emptiness test. */
  predicate StaleOnEmpty(r: Ring, step: Step) {
    step.Take? && step.t < |r.takers| && r.takers[step.t].HasTail? &&
    var HasTail(current, prev, seenTail) := r.takers[step.t];
    r.cursor == prev && prev == seenTail && current != prev
  }

  predicate NeverStale(n: nat, r: Ring, steps: seq<Step>)
    requires r.Shaped(n)
    decreases |steps|
  {
    |steps| == 0 || (!StaleOnEmpty(r, steps[0]) && NeverStale(n, Apply(n, r, steps[0]), steps[1..]))
  }

  // ------------------------------------------------------------ claims

  /** Reads never run ahead of the variables, which only grow. */
  ghost predicate Monotone(r: Ring) {
    && -1 <= r.cursor <= r.tail
    && (forall t :: 0 <= t < |r.takers| ==> PastReads(r.cursor, r.tail, r.takers[t]))
  }

  ghost predicate PastReads(cursor: int, tail: int, p: Taker) {
    match p
    case HasRead(current) => -1 <= current <= cursor
    case HasOld(current, prev) => -1 <= current <= prev <= cursor
    case HasTail(current, prev, seenTail) => -1 <= current <= prev <= cursor && prev <= seenTail <= tail
    case Claimed(current, next) => -1 <= current <= next <= cursor
    case Passed(next) => 0 <= next <= cursor
    case FlagSeen(next) => 0 <= next <= cursor
    case GotUid(next, _) => 0 <= next <= cursor
    case Idle => true
  }

  lemma MonotoneStep(n: nat, r: Ring, step: Step)
    requires r.Shaped(n) && Monotone(r)
    ensures var r' := Apply(n, r, step);
            Monotone(r') && r.cursor <= r'.cursor && r.tail <= r'.tail && r.claims <= r'.claims
  {
    hide Slot, PastReads;
    var r' := Apply(n, r, step);
    if step.Take? && step.t < |r.takers| {
      MonotoneTake(n, r, step.t);
    } else if step.Retry? && step.t < |r.takers| {
      StillPast(r.cursor, r.tail, r.cursor, r.tail, r.takers[step.t]);
      RetriedPast(r.cursor, r.tail, r.takers[step.t]);
    } else {
      assert r'.takers == r.takers && r'.cursor == r.cursor && r'.claims == r.claims;
      forall t | 0 <= t < |r.takers| ensures PastReads(r'.cursor, r'.tail, r'.takers[t]) {
        StillPast(r.cursor, r.tail, r'.cursor, r'.tail, r.takers[t]);
      }
    }
  }

  lemma StillPast(cursor: int, tail: int, cursor': int, tail': int, p: Taker)
    requires PastReads(cursor, tail, p) && cursor <= cursor' && tail <= tail'
    ensures PastReads(cursor', tail', p)
  {
  }

  lemma RetriedPast(cursor: int, tail: int, p: Taker)
    requires PastReads(cursor, tail, p)
    ensures p.HasTail? ==> PastReads(cursor, tail, HasRead(p.current))
  {
  }

  lemma MonotoneTake(n: nat, r: Ring, t: nat)
    requires r.Shaped(n) && Monotone(r) && t < |r.takers|
    ensures var r' := TakeStep(n, r, t);
            && Monotone(r') && r.cursor <= r'.cursor && r.tail == r'.tail
            && r.claims <= r'.claims
  {
    hide Slot, PastReads;
    var r' := TakeStep(n, r, t);
    assert PastReads(r.cursor, r.tail, r.takers[t]);
    TakePast(n, r, t);
    forall u | 0 <= u < |r.takers| ensures PastReads(r'.cursor, r'.tail, r'.takers[u]) {
      if u != t { StillPast(r.cursor, r.tail, r'.cursor, r'.tail, r.takers[u]); }
    }
  }

  lemma TakePast(n: nat, r: Ring, t: nat)
    requires r.Shaped(n) && -1 <= r.cursor <= r.tail && t < |r.takers| && PastReads(r.cursor, r.tail, r.takers[t])
    ensures var r' := TakeStep(n, r, t);
            && r.cursor <= r'.cursor <= r'.tail == r.tail && PastReads(r'.cursor, r'.tail, r'.takers[t])
            && |r'.takers| == |r.takers| && (forall u :: 0 <= u < |r.takers| && u != t ==> r'.takers[u] == r.takers[u])
  {
    hide Slot;
  }

  /** The claims so far are 0, 1, ..., cursor, in this order. */
  ghost predicate InOrder(r: Ring) {
    |r.claims| == r.cursor + 1 && forall i :: 0 <= i < |r.claims| ==> r.claims[i].1 == i
  }

  ghost predicate ClaimedOnce(claims: seq<(nat, int)>) {
    forall i, j :: 0 <= i < j < |claims| ==> claims[i].1 != claims[j].1
  }

  lemma {:induction false} ClaimsGrow(n: nat, r: Ring, steps: seq<Step>)
    requires r.Shaped(n) && Monotone(r)
    ensures r.claims <= Run(n, r, steps).claims
    decreases |steps|
  {
    hide Apply;
    if |steps| > 0 {
      MonotoneStep(n, r, steps[0]);
      ClaimsGrow(n, Apply(n, r, steps[0]), steps[1..]);
    }
  }

  lemma InOrderStep(n: nat, r: Ring, step: Step)
    requires r.Shaped(n) && Monotone(r) && InOrder(r)
    ensures var r' := Apply(n, r, step);
            if StaleOnEmpty(r, step) then !ClaimedOnce(r'.claims) else InOrder(r')
  {
    hide Slot;
    var r' := Apply(n, r, step);
    if StaleOnEmpty(r, step) {
      assert r'.claims[r.cursor].1 == r.cursor == r'.claims[|r.claims|].1;
    }
  }

  lemma {:induction false} ClaimsIff(n: nat, r: Ring, steps: seq<Step>)
    requires r.Shaped(n) && Monotone(r) && InOrder(r)
    ensures if NeverStale(n, r, steps) then InOrder(Run(n, r, steps)) else !ClaimedOnce(Run(n, r, steps).claims)
    decreases |steps|
  {
    hide Apply, StaleOnEmpty;
    if |steps| > 0 {
      var r' := Apply(n, r, steps[0]);
      MonotoneStep(n, r, steps[0]);
      InOrderStep(n, r, steps[0]);
      if StaleOnEmpty(r, steps[0]) {
        ClaimsGrow(n, r', steps[1..]);
        var c, c' := r'.claims, Run(n, r', steps[1..]).claims;
        var i, j :| 0 <= i < j < |c| && c[i].1 == c[j].1;
        assert c'[i] == c[i] && c'[j] == c[j];
      } else {
        ClaimsIff(n, r', steps[1..]);
      }
    }
  }

  /** Over every interleaving: each sequence number is claimed at most once exactly when no
      taker updates with a stale first read on an empty ring. */
  lemma ClaimedOnceIff(n: nat, takers: nat, steps: seq<Step>)
    requires n > 0
    ensures ClaimedOnce(Run(n, Start(n, takers), steps).claims) <==> NeverStale(n, Start(n, takers), steps)
  {
    ClaimsIff(n, Start(n, takers), steps);
  }

  // ------------------------------------------------------------ safety

  /** The sequence number a taker has claimed and not yet handed back, if any. */
  function Owned(p: Taker): int {
    match p
    case Claimed(current, next) => if next != current then next else -1
    case Passed(next) => next
    case FlagSeen(next) => next
    case GotUid(next, _) => next
    case _ => -1
  }

  ghost predicate Owner(r: Ring, t: int) {
    0 <= t < |r.takers| && Owned(r.takers[t]) >= 0
  }

  ghost predicate Queued(r: Ring, s: int) {
    r.cursor < s <= r.tail
  }

  /** Slot of sequence s holds the id put as s and is marked as takeable. */
  ghost predicate Holds(n: nat, r: Ring, s: int)
    requires r.Shaped(n)
  {
    && 0 <= s < |r.puts|
    && r.flags[Slot(s, n)] == CAN_TAKE_FLAG && r.slots[Slot(s, n)] == r.puts[s]
  }

  /** No queued or claimed-but-unread sequence lives in the slot. */
  ghost predicate SlotUnused(n: nat, r: Ring, i: nat)
    requires n > 0
  {
    && (forall t :: Owner(r, t) ==> Slot(Owned(r.takers[t]), n) != i)
    && (forall s :: Queued(r, s) ==> Slot(s, n) != i)
  }

  ghost predicate LiveOk(n: nat, r: Ring)
    requires r.Shaped(n)
  {
    && (forall t :: Owner(r, t) ==> Owned(r.takers[t]) <= r.cursor && Holds(n, r, Owned(r.takers[t])))
    && (forall t :: Owner(r, t) && r.takers[t].GotUid? ==> r.takers[t].uid == r.puts[Owned(r.takers[t])])
    && (forall s :: Queued(r, s) ==> Holds(n, r, s))
  }

  /** Every slot belongs to at most one live sequence number. */
  ghost predicate SlotsDistinct(n: nat, r: Ring)
    requires n > 0
  {
    && (forall t, t' :: Owner(r, t) && Owner(r, t') && t != t' ==>
          Slot(Owned(r.takers[t]), n) != Slot(Owned(r.takers[t']), n))
    && (forall t, s :: Owner(r, t) && Queued(r, s) ==> Slot(Owned(r.takers[t]), n) != Slot(s, n))
    && (forall s, s' :: Queued(r, s) && Queued(r, s') && s != s' ==> Slot(s, n) != Slot(s', n))
  }

  /** At most n - 1 puts ahead of the cursor (n before the first take). */
  ghost predicate Bounded(n: nat, r: Ring) {
    r.tail - Max(r.cursor, 0) <= n - 1
  }

  ghost predicate ProducerOk(n: nat, r: Ring)
    requires r.Shaped(n)
  {
    match r.producer
    case Free => true
    case SawTail(uid, t) => t == r.tail
    case SawCursor(uid, t, c) => t == r.tail && -1 <= c <= r.cursor && t - Max(c, 0) <= n - 1
    case FlagFree(uid, t, c) => Reserved(n, r, t, c)
    case SlotWritten(uid, t, c) => Reserved(n, r, t, c) && r.slots[Slot(t + 1, n)] == uid
    case FlagSet(uid, t, c) =>
      Reserved(n, r, t, c) && r.slots[Slot(t + 1, n)] == uid && r.flags[Slot(t + 1, n)] == CAN_TAKE_FLAG
  }

  ghost predicate Reserved(n: nat, r: Ring, t: int, c: int)
    requires n > 0
  {
    && t == r.tail && -1 <= c <= r.cursor && t - Max(c, 0) <= n - 2
    && SlotUnused(n, r, Slot(t + 1, n))
  }

  /** Everything handed out is what was put, once each; a claimed number is either still held
      by its claimer or handed out by it. */
  ghost predicate HistoryOk(r: Ring) {
    GivenOk(r.given, r.cursor, r.puts) && NoneOwned(r.given, r.takers) && AllSettled(r)
  }

  ghost predicate GivenOk(given: seq<(nat, int, long)>, cursor: int, puts: seq<long>) {
    && (forall i :: 0 <= i < |given| ==>
          0 <= given[i].1 <= cursor < |puts| && given[i].2 == puts[given[i].1])
    && (forall i, j :: 0 <= i < j < |given| ==> given[i].1 != given[j].1)
  }

  ghost predicate NoneOwned(given: seq<(nat, int, long)>, takers: seq<Taker>) {
    forall i, t :: 0 <= i < |given| && 0 <= t < |takers| ==> Owned(takers[t]) != given[i].1
  }

  ghost predicate AllSettled(r: Ring) {
    forall i :: 0 <= i < |r.claims| ==> Settled(r, r.claims[i])
  }

  ghost predicate Settled(r: Ring, claim: (nat, int)) {
    || (claim.0 < |r.takers| && Owned(r.takers[claim.0]) == claim.1)
    || (0 <= claim.1 < |r.puts| && (claim.0, claim.1, r.puts[claim.1]) in r.given)
  }

  ghost predicate Safe(n: nat, r: Ring) {
    && r.Shaped(n) && |r.puts| == r.tail + 1 && Monotone(r) && InOrder(r)
    && LiveOk(n, r) && SlotsDistinct(n, r) && Bounded(n, r) && ProducerOk(n, r) && HistoryOk(r)
  }

  lemma StartSafe(n: nat, takers: nat)
    requires n > 0
    ensures Safe(n, Start(n, takers))
  {
    hide Slot;
  }

  /** Steps that change no variable, and keep every owner, keep the invariant. */
  lemma SameOwners(n: nat, r: Ring, r': Ring)
    requires Safe(n, r) && r'.Shaped(n) && |r'.takers| == |r.takers| && Monotone(r')
    requires r' == r.(takers := r'.takers)
    requires forall u :: 0 <= u < |r.takers| ==> Owned(r'.takers[u]) == Owned(r.takers[u])
    requires forall u :: 0 <= u < |r.takers| && r'.takers[u].GotUid? ==>
               0 <= Owned(r.takers[u]) < |r.puts| && r'.takers[u].uid == r.puts[Owned(r.takers[u])]
    ensures Safe(n, r')
  {
    hide Slot, Owned, LiveOk, SlotsDistinct, ProducerOk, HistoryOk;
    SameOwnersLive(n, r, r');
    SameOwnersHistory(r, r');
  }

  lemma SameOwnersLive(n: nat, r: Ring, r': Ring)
    requires r.Shaped(n) && r'.Shaped(n) && |r'.takers| == |r.takers|
    requires LiveOk(n, r) && SlotsDistinct(n, r) && ProducerOk(n, r)
    requires r' == r.(takers := r'.takers)
    requires forall u :: 0 <= u < |r.takers| ==> Owned(r'.takers[u]) == Owned(r.takers[u])
    requires forall u :: 0 <= u < |r.takers| && r'.takers[u].GotUid? ==>
               0 <= Owned(r.takers[u]) < |r.puts| && r'.takers[u].uid == r.puts[Owned(r.takers[u])]
    ensures LiveOk(n, r') && SlotsDistinct(n, r') && ProducerOk(n, r')
  {
    hide Slot, Owned, Holds;
    SameHolds(n, r, r');
    assert forall u :: Owner(r', u) <==> Owner(r, u);
    assert forall q :: Queued(r', q) <==> Queued(r, q);
  }

  lemma SameOwnersHistory(r: Ring, r': Ring)
    requires HistoryOk(r) && |r'.takers| == |r.takers| && r' == r.(takers := r'.takers)
    requires forall u :: 0 <= u < |r.takers| ==> Owned(r'.takers[u]) == Owned(r.takers[u])
    ensures HistoryOk(r')
  {
    hide Owned, GivenOk, Settled;
    forall i | 0 <= i < |r'.claims| ensures Settled(r', r'.claims[i]) { SettledBySame(r, r', r.claims[i]); }
    assert AllSettled(r');
  }

  lemma SettledBySame(r: Ring, r': Ring, claim: (nat, int))
    requires Settled(r, claim) && |r'.takers| == |r.takers| && r' == r.(takers := r'.takers)
    requires forall u :: 0 <= u < |r.takers| ==> Owned(r'.takers[u]) == Owned(r.takers[u])
    ensures Settled(r', claim)
  {
    hide Owned;
  }

  lemma SameHolds(n: nat, r: Ring, r': Ring)
    requires r.Shaped(n) && r'.Shaped(n) && r'.slots == r.slots && r'.flags == r.flags && r'.puts == r.puts
    ensures forall s :: Holds(n, r', s) <==> Holds(n, r, s)
  {
  }

  /** Every step of a taker except an advancing claim and the hand-back. */
  lemma QuietTakeSafe(n: nat, r: Ring, t: nat)
    requires Safe(n, r) && t < |r.takers| && !r.takers[t].GotUid? && !StaleOnEmpty(r, Take(t))
    requires r.takers[t].HasTail? ==> r.cursor != r.takers[t].prev || r.takers[t].prev == r.takers[t].seenTail
    ensures Safe(n, TakeStep(n, r, t))
  {
    hide Slot, Owned, LiveOk, SlotsDistinct, ProducerOk, HistoryOk, InOrder, PastReads;
    var r' := TakeStep(n, r, t);
    MonotoneStep(n, r, Take(t));
    QuietTakeOwns(n, r, t);
    SameOwners(n, r, r');
  }

  lemma QuietTakeOwns(n: nat, r: Ring, t: nat)
    requires Safe(n, r) && t < |r.takers| && !r.takers[t].GotUid? && !StaleOnEmpty(r, Take(t))
    requires r.takers[t].HasTail? ==> r.cursor != r.takers[t].prev || r.takers[t].prev == r.takers[t].seenTail
    ensures var r' := TakeStep(n, r, t);
            && r' == r.(takers := r'.takers) && |r'.takers| == |r.takers|
            && (forall u :: 0 <= u < |r.takers| ==> Owned(r'.takers[u]) == Owned(r.takers[u]))
            && (forall u :: 0 <= u < |r.takers| && r'.takers[u].GotUid? ==>
                  0 <= Owned(r.takers[u]) < |r.puts| && r'.takers[u].uid == r.puts[Owned(r.takers[u])])
  {
    hide Slot, SlotsDistinct, ProducerOk, HistoryOk, InOrder, Bounded;
    var r' := TakeStep(n, r, t);
    if r.takers[t].Passed? || r.takers[t].FlagSeen? { assert Owner(r, t); }
    assert Owned(r'.takers[t]) == Owned(r.takers[t]);
    forall u | 0 <= u < |r.takers| && r'.takers[u].GotUid?
      ensures 0 <= Owned(r.takers[u]) < |r.puts| && r'.takers[u].uid == r.puts[Owned(r.takers[u])]
    {
      assert Owner(r, u);
    }
  }

  lemma RetrySafe(n: nat, r: Ring, t: nat)
    requires Safe(n, r)
    ensures Safe(n, Apply(n, r, Retry(t)))
  {
    hide Slot;
    MonotoneStep(n, r, Retry(t));
    forall u | Owner(r, u) ensures Holds(n, r, Owned(r.takers[u])) {}
    SameOwners(n, r, Apply(n, r, Retry(t)));
  }

  /** Claims stay settled when history only grows and no owner lets go. */
  lemma HistoryFrame(r: Ring, r': Ring)
    requires HistoryOk(r) && r'.takers == r.takers && r'.claims == r.claims && r'.given == r.given
    requires r.cursor == r'.cursor && r.puts <= r'.puts
    ensures HistoryOk(r')
  {
    hide GivenOk, NoneOwned, Settled;
    GivenStays(r.given, r.cursor, r.puts, r'.puts);
    forall i | 0 <= i < |r'.claims| ensures Settled(r', r'.claims[i]) { StillSettled(r, r', r.claims[i]); }
    assert AllSettled(r');
  }

  lemma GivenStays(given: seq<(nat, int, long)>, cursor: int, puts: seq<long>, puts': seq<long>)
    requires GivenOk(given, cursor, puts) && puts <= puts'
    ensures GivenOk(given, cursor, puts')
  {
    forall i | 0 <= i < |given| ensures 0 <= given[i].1 <= cursor < |puts'| && given[i].2 == puts'[given[i].1] {
      assert puts'[given[i].1] == puts[given[i].1];
    }
  }

  lemma PutsStay(r: Ring, r': Ring)
    requires r.puts <= r'.puts
    ensures |r.puts| <= |r'.puts| && forall k :: 0 <= k < |r.puts| ==> r'.puts[k] == r.puts[k]
  {
  }

  lemma StillSettled(r: Ring, r': Ring, claim: (nat, int))
    requires Settled(r, claim) && r'.takers == r.takers && r'.given == r.given && r.puts <= r'.puts
    ensures Settled(r', claim)
  {
    hide Owned;
    PutsStay(r, r');
  }

  /** Slots stay with their owners when the producer keeps off them. */
  lemma LiveFrame(n: nat, r: Ring, r': Ring)
    requires r.Shaped(n) && r'.Shaped(n) && LiveOk(n, r) && SlotsDistinct(n, r)
    requires r'.takers == r.takers && r'.cursor == r.cursor && r'.tail == r.tail && r'.puts == r.puts
    requires forall s :: Holds(n, r, s) && (Queued(r, s) || (exists u :: Owner(r, u) && Owned(r.takers[u]) == s)) ==> Holds(n, r', s)
    ensures LiveOk(n, r') && SlotsDistinct(n, r')
  {
    hide Slot, Holds;
    assert forall u :: Owner(r', u) <==> Owner(r, u);
    assert forall q :: Queued(r', q) <==> Queued(r, q);
  }

  /** An advancing claim moves the oldest queued number to the taker. */
  lemma ClaimSafe(n: nat, r: Ring, t: nat)
    requires Safe(n, r) && t < |r.takers| && r.takers[t].HasTail?
    requires r.cursor == r.takers[t].prev != r.takers[t].seenTail
    ensures Safe(n, TakeStep(n, r, t))
  {
    hide Slot, Holds;
    var r' := TakeStep(n, r, t);
    var s := r.cursor + 1;
    MonotoneStep(n, r, Take(t));
    InOrderStep(n, r, Take(t));
    assert Queued(r, s);
    ClaimLive(n, r, t, s);
    assert ProducerOk(n, r') by { ClaimProducer(n, r, t, s); }
    ClaimHistory(n, r, t, s);
  }

  ghost predicate IsClaim(n: nat, r: Ring, r': Ring, t: nat, s: int) {
    && t < |r.takers| && r.takers[t].HasTail? && Queued(r, s) && s == r.cursor + 1 >= 0
    && r' == r.(cursor := s, takers := r'.takers, claims := r.claims + [(t, s)])
    && |r'.takers| == |r.takers| && Owned(r'.takers[t]) == s && r'.takers[t].Claimed?
    && (forall u :: 0 <= u < |r.takers| && u != t ==> r'.takers[u] == r.takers[u])
  }

  lemma ClaimLive(n: nat, r: Ring, t: nat, s: int)
    requires Safe(n, r) && t < |r.takers| && IsClaim(n, r, TakeStep(n, r, t), t, s)
    ensures LiveOk(n, TakeStep(n, r, t)) && SlotsDistinct(n, TakeStep(n, r, t))
  {
    hide Slot;
    var r' := TakeStep(n, r, t);
    OwnersAfterClaim(n, r, t, s);
  }

  lemma OwnersAfterClaim(n: nat, r: Ring, t: nat, s: int)
    requires r.Shaped(n) && t < |r.takers| && IsClaim(n, r, TakeStep(n, r, t), t, s)
    ensures var r' := TakeStep(n, r, t);
            && (forall u :: Owner(r', u) ==> u == t || (Owner(r, u) && r'.takers[u] == r.takers[u]))
            && (forall q :: Queued(r', q) ==> Queued(r, q) && q != s)
            && Owner(r', t) && !Owner(r, t)
  {
  }

  lemma ClaimProducer(n: nat, r: Ring, t: nat, s: int)
    requires Safe(n, r) && t < |r.takers| && IsClaim(n, r, TakeStep(n, r, t), t, s)
    ensures ProducerOk(n, TakeStep(n, r, t))
  {
    hide Slot, LiveOk, SlotsDistinct, HistoryOk, Monotone;
    var r' := TakeStep(n, r, t);
    OwnersAfterClaim(n, r, t, s);
    if r.producer.FlagFree? || r.producer.SlotWritten? || r.producer.FlagSet? {
      assert SlotUnused(n, r', Slot(r.producer.t + 1, n));
    }
  }

  lemma ClaimHistory(n: nat, r: Ring, t: nat, s: int)
    requires Safe(n, r) && t < |r.takers| && IsClaim(n, r, TakeStep(n, r, t), t, s)
    ensures HistoryOk(TakeStep(n, r, t))
  {
    hide Slot, LiveOk, SlotsDistinct, ProducerOk, Monotone;
    var r' := TakeStep(n, r, t);
    OwnersAfterClaim(n, r, t, s);
    forall i | 0 <= i < |r'.claims| ensures Settled(r', r'.claims[i]) {
      if i < |r.claims| { assert Settled(r, r.claims[i]); }
    }
  }

  /** The hand-back frees the slot and records the id. */
  lemma HandBackSafe(n: nat, r: Ring, t: nat)
    requires Safe(n, r) && t < |r.takers| && r.takers[t].GotUid?
    ensures Safe(n, TakeStep(n, r, t))
  {
    hide Slot, LiveOk, SlotsDistinct, ProducerOk, HistoryOk, Bounded;
    MonotoneStep(n, r, Take(t));
    InOrderStep(n, r, Take(t));
    HandBackLive(n, r, t);
    HandBackProducer(n, r, t);
    HandBackHistory(n, r, t);
  }

  lemma OwnersAfterHandBack(n: nat, r: Ring, t: nat)
    requires Safe(n, r) && t < |r.takers| && r.takers[t].GotUid?
    ensures var r' := TakeStep(n, r, t);
            && (forall u :: Owner(r', u) ==> u != t && Owner(r, u) && r'.takers[u] == r.takers[u])
            && (forall q :: Queued(r', q) ==> Queued(r, q))
            && Owner(r, t) && |r'.takers| == |r.takers|
  {
    hide Slot, LiveOk, SlotsDistinct, ProducerOk, HistoryOk;
  }

  lemma HandBackLive(n: nat, r: Ring, t: nat)
    requires Safe(n, r) && t < |r.takers| && r.takers[t].GotUid?
    ensures LiveOk(n, TakeStep(n, r, t)) && SlotsDistinct(n, TakeStep(n, r, t)) && Bounded(n, TakeStep(n, r, t))
  {
    hide Slot, ProducerOk, HistoryOk, Monotone;
    OwnersAfterHandBack(n, r, t);
    var r' := TakeStep(n, r, t);
    var s := r.takers[t].next;
    forall x | Holds(n, r, x) && Slot(x, n) != Slot(s, n) ensures Holds(n, r', x) {}
  }

  lemma HandBackProducer(n: nat, r: Ring, t: nat)
    requires Safe(n, r) && t < |r.takers| && r.takers[t].GotUid?
    ensures ProducerOk(n, TakeStep(n, r, t))
  {
    hide Slot, LiveOk, SlotsDistinct, HistoryOk, Monotone;
    OwnersAfterHandBack(n, r, t);
    var r' := TakeStep(n, r, t);
    if r.producer.FlagFree? || r.producer.SlotWritten? || r.producer.FlagSet? {
      assert SlotUnused(n, r', Slot(r.producer.t + 1, n));
    }
  }

  lemma HandBackHistory(n: nat, r: Ring, t: nat)
    requires Safe(n, r) && t < |r.takers| && r.takers[t].GotUid?
    ensures HistoryOk(TakeStep(n, r, t))
  {
    hide Slot, SlotsDistinct, ProducerOk;
    OwnersAfterHandBack(n, r, t);
    var r' := TakeStep(n, r, t);
    var s := r.takers[t].next;
    OwnersDiffer(n, r);
    assert 0 <= s <= r.cursor < |r.puts| && r.takers[t].uid == r.puts[s];
    assert r'.given == r.given + [(t, s, r.puts[s])];
    forall i | 0 <= i < |r'.claims| ensures Settled(r', r'.claims[i]) {
      assert Settled(r, r.claims[i]);
      assert r'.given[|r.given|] == (t, s, r.puts[s]);
      assert forall x :: x in r.given ==> x in r'.given;
    }
  }

  lemma OwnersDiffer(n: nat, r: Ring)
    requires Safe(n, r)
    ensures forall u, u' :: Owner(r, u) && Owner(r, u') && u != u' ==> Owned(r.takers[u]) != Owned(r.takers[u'])
  {
    hide Slot;
  }

  /** Each step of the holder of the put lock. */
  lemma PutSafe(n: nat, r: Ring)
    requires Safe(n, r)
    ensures Safe(n, PutStep(n, r))
  {
    hide Slot, LiveOk, SlotsDistinct, HistoryOk, ProducerOk;
    var r' := PutStep(n, r);
    MonotoneStep(n, r, PutNext);
    InOrderStep(n, r, PutNext);
    HistoryFrame(r, r');
    if r.producer.FlagSet? {
      PublishSafe(n, r);
    } else {
      PutLive(n, r);
      PutProducer(n, r);
    }
  }

  /** Until it publishes, the producer only touches a slot nobody lives in. */
  lemma PutLive(n: nat, r: Ring)
    requires Safe(n, r) && !r.producer.FlagSet?
    ensures LiveOk(n, PutStep(n, r)) && SlotsDistinct(n, PutStep(n, r))
  {
    hide Slot, HistoryOk, Monotone, InOrder;
    var r' := PutStep(n, r);
    forall s | Holds(n, r, s) && (Queued(r, s) || (exists u :: Owner(r, u) && Owned(r.takers[u]) == s))
      ensures Holds(n, r', s)
    {
    }
    LiveFrame(n, r, r');
  }

  lemma PutProducer(n: nat, r: Ring)
    requires Safe(n, r) && !r.producer.FlagSet?
    ensures ProducerOk(n, PutStep(n, r))
  {
    hide Slot, HistoryOk, InOrder;
    var r' := PutStep(n, r);
    assert forall u :: Owner(r', u) <==> Owner(r, u);
    assert forall q :: Queued(r', q) <==> Queued(r, q);
    if r'.producer.FlagFree? || r'.producer.SlotWritten? || r'.producer.FlagSet? {
      assert SlotUnused(n, r', Slot(r'.producer.t + 1, n));
    }
  }

  lemma PublishSafe(n: nat, r: Ring)
    requires Safe(n, r) && r.producer.FlagSet?
    ensures LiveOk(n, PutStep(n, r)) && SlotsDistinct(n, PutStep(n, r)) && Bounded(n, PutStep(n, r))
    ensures ProducerOk(n, PutStep(n, r))
  {
    hide Slot, HistoryOk, Monotone, InOrder;
    var r' := PutStep(n, r);
    var s := r.producer.t + 1;
    assert forall u :: Owner(r', u) <==> Owner(r, u);
    assert forall q :: Queued(r', q) ==> Queued(r, q) || q == s;
    forall x | Holds(n, r, x) ensures Holds(n, r', x) {}
    assert Holds(n, r', s);
  }

  lemma StepSafe(n: nat, r: Ring, step: Step)
    requires Safe(n, r) && !StaleOnEmpty(r, step)
    ensures Safe(n, Apply(n, r, step))
  {
    hide Slot, LiveOk, SlotsDistinct, ProducerOk, HistoryOk;
    match step
    case Take(t) =>
      if t < |r.takers| {
        if r.takers[t].GotUid? { HandBackSafe(n, r, t); }
        else if r.takers[t].HasTail? && r.cursor == r.takers[t].prev != r.takers[t].seenTail { ClaimSafe(n, r, t); }
        else { QuietTakeSafe(n, r, t); }
      }
    case Retry(t) => RetrySafe(n, r, t);
    case PutBegin(uid) => PutBeginSafe(n, r, uid);
    case PutNext => PutSafe(n, r);
  }

  lemma PutBeginSafe(n: nat, r: Ring, uid: long)
    requires Safe(n, r)
    ensures Safe(n, Apply(n, r, PutBegin(uid)))
  {
    hide Slot, Owned, Holds, LiveOk, SlotsDistinct, HistoryOk;
    var r' := Apply(n, r, PutBegin(uid));
    SameOwnersFrame(n, r, r');
    HistoryFrame(r, r');
  }

  lemma SameOwnersFrame(n: nat, r: Ring, r': Ring)
    requires r.Shaped(n) && LiveOk(n, r) && SlotsDistinct(n, r) && r' == r.(producer := r'.producer)
    ensures LiveOk(n, r') && SlotsDistinct(n, r')
  {
    hide Slot, Owned, Holds;
    SameHolds(n, r, r');
    assert forall u :: Owner(r', u) <==> Owner(r, u);
    assert forall q :: Queued(r', q) <==> Queued(r, q);
  }

  lemma {:induction false} RunSafe(n: nat, r: Ring, steps: seq<Step>)
    requires Safe(n, r) && NeverStale(n, r, steps)
    ensures Safe(n, Run(n, r, steps))
    decreases |steps|
  {
    hide Apply, StaleOnEmpty, LiveOk, SlotsDistinct, ProducerOk, HistoryOk, InOrder, Monotone;
    if |steps| > 0 {
      StepSafe(n, r, steps[0]);
      RunSafe(n, Apply(n, r, steps[0]), steps[1..]);
    }
  }

  /** What the ring promises its users: the id handed out for sequence s is the one put as s, no
      sequence is handed out twice, the claimed numbers are 0, 1, ..., cursor in claim order,
      every claim is handed out or still in progress, live numbers never share a slot, and the
      ring never holds more than its bound. */
  ghost predicate Delivers(n: nat, r: Ring)
    requires n > 0
  {
    && (forall i :: 0 <= i < |r.given| ==>
          0 <= r.given[i].1 < |r.puts| && r.given[i].2 == r.puts[r.given[i].1])
    && (forall i, j :: 0 <= i < j < |r.given| ==> r.given[i].1 != r.given[j].1)
    && InOrder(r) && (forall i :: 0 <= i < |r.claims| ==> Settled(r, r.claims[i]))
    && SlotsDistinct(n, r) && Bounded(n, r) && -1 <= r.cursor <= r.tail == |r.puts| - 1
  }

  /** Every interleaving without such an update delivers. */
  lemma RingIsSafe(n: nat, takers: nat, steps: seq<Step>)
    requires n > 0 && NeverStale(n, Start(n, takers), steps)
    ensures Delivers(n, Run(n, Start(n, takers), steps))
  {
    StartSafe(n, takers);
    RunSafe(n, Start(n, takers), steps);
  }

  /** Main theorem: an interleaving delivers exactly when no taker updates with a stale first
      read on an empty ring. */
  lemma DeliversIff(n: nat, takers: nat, steps: seq<Step>)
    requires n > 0
    ensures Delivers(n, Run(n, Start(n, takers), steps)) <==> NeverStale(n, Start(n, takers), steps)
  {
    hide NeverStale, Run, SlotsDistinct, Bounded, Settled;
    ClaimedOnceIff(n, takers, steps);
    if NeverStale(n, Start(n, takers), steps) { RingIsSafe(n, takers, steps); }
  }

  // ------------------------------------------------------------ what callers can see to

  /** Between the first read of the cursor and the compare-and-set. */
  predicate Claiming(p: Taker) { p.HasRead? || p.HasOld? || p.HasTail? }

  /** The step is not one of a taker while another taker is claiming. */
  predicate ClaimAlone(r: Ring, step: Step) {
    (step.Take? || step.Retry?) && step.t < |r.takers| ==>
      forall t :: 0 <= t < |r.takers| && Claiming(r.takers[t]) ==> t == step.t
  }

  /** Each taker claims without a step of another taker in between; producers may step in. */
  predicate AtomicClaims(n: nat, r: Ring, steps: seq<Step>)
    requires r.Shaped(n)
    decreases |steps|
  {
    |steps| == 0 || (ClaimAlone(r, steps[0]) && AtomicClaims(n, Apply(n, r, steps[0]), steps[1..]))
  }

  /** What claiming takers have read of the cursor is up to date. */
  ghost predicate FreshReads(r: Ring) {
    forall t :: 0 <= t < |r.takers| ==>
      match r.takers[t]
      case HasRead(current) => current == r.cursor
      case HasOld(current, prev) => current == prev == r.cursor
      case HasTail(current, prev, _) => current == prev == r.cursor
      case _ => true
  }

  lemma FreshStep(n: nat, r: Ring, step: Step)
    requires r.Shaped(n) && FreshReads(r) && ClaimAlone(r, step)
    ensures !StaleOnEmpty(r, step) && FreshReads(Apply(n, r, step))
    ensures |Apply(n, r, step).takers| == |r.takers|
  {
    hide Slot;
  }

  /** With atomic claims no update is out of date. */
  lemma {:induction false} AtomicNeverStale(n: nat, r: Ring, steps: seq<Step>)
    requires r.Shaped(n) && FreshReads(r) && AtomicClaims(n, r, steps)
    ensures NeverStale(n, r, steps)
    decreases |steps|
  {
    hide Apply, FreshReads, StaleOnEmpty, ClaimAlone;
    if |steps| > 0 {
      FreshStep(n, r, steps[0]);
      AtomicNeverStale(n, Apply(n, r, steps[0]), steps[1..]);
    }
  }

  /** One taker's claims are atomic in any interleaving with producers. */
  lemma {:induction false} OneTakerAtomic(n: nat, r: Ring, steps: seq<Step>)
    requires r.Shaped(n) && FreshReads(r) && |r.takers| <= 1
    ensures AtomicClaims(n, r, steps)
    decreases |steps|
  {
    hide Apply, FreshReads;
    if |steps| > 0 {
      FreshStep(n, r, steps[0]);
      OneTakerAtomic(n, Apply(n, r, steps[0]), steps[1..]);
    }
  }

  /** The ring delivers if takers serialise their claims, or if there is only one taker. */
  lemma AtomicClaimsDeliver(n: nat, takers: nat, steps: seq<Step>)
    requires n > 0 && (takers <= 1 || AtomicClaims(n, Start(n, takers), steps))
    ensures NeverStale(n, Start(n, takers), steps)
    ensures Delivers(n, Run(n, Start(n, takers), steps))
  {
    hide Delivers;
    if takers <= 1 { OneTakerAtomic(n, Start(n, takers), steps); }
    AtomicNeverStale(n, Start(n, takers), steps);
    RingIsSafe(n, takers, steps);
  }

  // ------------------------------------------------------------ the queue it implements

  ghost function Queue(r: Ring): seq<long>
    requires -1 <= r.cursor < |r.puts|
  {
    Suffix(r.puts, r.cursor + 1)
  }

  /** Each step is a step of a FIFO queue: the publishing step appends the id being put, an
      advancing claim removes the oldest id (the one its claimer will hand out), and every
      other step leaves the queue alone. */
  lemma StepRefinesQueue(n: nat, r: Ring, step: Step)
    requires Safe(n, r) && !StaleOnEmpty(r, step)
    ensures var r' := Apply(n, r, step);
            && -1 <= r'.cursor < |r'.puts|
            && (if step.PutNext? && r.producer.FlagSet? then Queue(r') == Queue(r) + [r.producer.uid]
                else if step.Take? && r'.claims != r.claims then
                  && Queue(r) != [] && Queue(r') == Queue(r)[1..]
                  && r'.claims == r.claims + [(step.t, r'.cursor)] && r.puts[r'.cursor] == Queue(r)[0]
                else Queue(r') == Queue(r))
  {
    hide Slot, Suffix, LiveOk, SlotsDistinct, ProducerOk, HistoryOk;
    MonotoneStep(n, r, step);
    if step.PutNext? && r.producer.FlagSet? {
      SuffixAppend(r.puts, [r.producer.uid], r.cursor + 1);
    } else if step.Take? && Apply(n, r, step).claims != r.claims {
      SuffixNext(r.puts, r.cursor + 1);
    }
  }
}

/** Why more than one taker is too many: on every ring, two takers can claim the same id, and
    both hand it out or one of them throws. */
module StaleClaims {
  import opened JavaLong
  import opened RingBuffer
  import opened ConcurrentRing
  import opened RingProgress

  /** Two takers that may be anywhere, the others idle. */
  ghost function Two(takers: nat, p: Taker, q: Taker): (s: seq<Taker>)
    requires takers >= 2
    ensures |s| == takers && s[0] == p && s[1] == q
  {
    [p, q] + seq(takers - 2, _ => Idle)
  }

  lemma TwoUpdate(takers: nat, p: Taker, q: Taker, x: Taker)
    requires takers >= 2
    ensures Two(takers, p, q)[0 := x] == Two(takers, x, q)
    ensures Two(takers, p, q)[1 := x] == Two(takers, p, x)
  {
  }

  /** A ring into which one id has been put. */
  ghost function Loaded(n: nat, uid: long, cursor: int, takers: seq<Taker>, claims: seq<(nat, int)>): (r: Ring)
    requires n > 0
    ensures r.Shaped(n)
  {
    Ring(seq(n, _ => 0)[0 := uid], seq(n, _ => CAN_PUT_FLAG)[0 := CAN_TAKE_FLAG], 0, cursor,
         takers, Free, [uid], claims, [])
  }

  /** The steps of a taker that change nothing but its own place. */
  ghost predicate Moves(uid: long, cursor: int, p: Taker, p': Taker) {
    match p
    case Idle => p' == HasRead(cursor)
    case HasRead(current) => p' == HasOld(current, cursor)
    case HasOld(current, prev) => p' == HasTail(current, prev, 0)
    case Claimed(current, next) => next != current && p' == Passed(next)
    case Passed(next) => next == 0 && p' == FlagSeen(0)
    case FlagSeen(next) => next == 0 && p' == GotUid(0, uid)
    case _ => false
  }

  lemma Move(n: nat, uid: long, cursor: int, takers: seq<Taker>, claims: seq<(nat, int)>, t: nat, p': Taker)
    requires n > 0 && t < |takers| && Moves(uid, cursor, takers[t], p')
    ensures Apply(n, Loaded(n, uid, cursor, takers, claims), Take(t))
         == Loaded(n, uid, cursor, takers[t := p'], claims)
  {
    hide Slot;
    SlotSmall(0, n);
  }

  /** The compare-and-set that claims number 0, by whichever way the taker read the cursor. */
  lemma ClaimZero(n: nat, uid: long, cursor: int, takers: seq<Taker>, claims: seq<(nat, int)>, t: nat)
    requires n > 0 && t < |takers| && takers[t] == HasTail(-1, cursor, 0) && -1 <= cursor <= 0
    ensures Apply(n, Loaded(n, uid, cursor, takers, claims), Take(t))
         == Loaded(n, uid, 0, takers[t := Claimed(-1, 0)], claims + [(t, 0)])
  {
    hide Slot, PutStep;
  }

  /** Two takers: taker 0 reads the cursor, taker 1 claims the id, taker 0's update finds the ring
      empty, keeps the cursor, and still passes the test against its first read. */
  ghost function TwoClaims(): (steps: seq<Step>)
    ensures |steps| == 8
  {
    [Take(0), Take(1), Take(1), Take(1), Take(1), Take(0), Take(0), Take(0)]
  }

  /** Both takers then read the slot before either hands it back. */
  ghost function BothRead(): (steps: seq<Step>)
    ensures |steps| == 8
  {
    [Take(0), Take(1), Take(0), Take(1), Take(0), Take(1), Take(1), Take(0)]
  }

  /** Or taker 1 hands it back before taker 0 looks at the flag. */
  ghost function OneReads(): (steps: seq<Step>)
    ensures |steps| == 6
  {
    [Take(1), Take(1), Take(1), Take(1), Take(0), Take(0)]
  }

  lemma PutChecks(n: nat, takers: nat, uid: long)
    requires n > 0
    ensures After(n, Start(n, takers), PutOne(uid), 1).producer == SawTail(uid, -1)
    ensures After(n, Start(n, takers), PutOne(uid), 2).producer == SawCursor(uid, -1, -1)
    ensures After(n, Start(n, takers), PutOne(uid), 3) == Start(n, takers).(producer := FlagFree(uid, -1, -1))
  {
    hide Slot, TakeStep;
    var s0 := Start(n, takers);
    SlotSmall(0, n);
    AfterNext(n, s0, PutOne(uid), 0);
    AfterNext(n, s0, PutOne(uid), 1);
    AfterNext(n, s0, PutOne(uid), 2);
    assert After(n, s0, PutOne(uid), 0) == s0;
    hide After;
    assert After(n, s0, PutOne(uid), 1) == s0.(producer := SawTail(uid, -1));
    assert After(n, s0, PutOne(uid), 2) == s0.(producer := SawCursor(uid, -1, -1));
  }

  lemma PutWrites(n: nat, takers: nat, uid: long)
    requires n > 0 && takers >= 2
    ensures After(n, Start(n, takers), PutOne(uid), 4).producer == SlotWritten(uid, -1, -1)
    ensures After(n, Start(n, takers), PutOne(uid), 5).producer == FlagSet(uid, -1, -1)
    ensures After(n, Start(n, takers), PutOne(uid), 6) == Loaded(n, uid, -1, Two(takers, Idle, Idle), [])
  {
    hide Slot, TakeStep, After;
    var s0 := Start(n, takers);
    SlotSmall(0, n);
    PutChecks(n, takers, uid);
    AfterNext(n, s0, PutOne(uid), 3);
    AfterNext(n, s0, PutOne(uid), 4);
    AfterNext(n, s0, PutOne(uid), 5);
    var put := s0.(slots := s0.slots[0 := uid]);
    assert After(n, s0, PutOne(uid), 4) == put.(producer := SlotWritten(uid, -1, -1));
    var flagged := put.(flags := put.flags[0 := CAN_TAKE_FLAG]);
    assert After(n, s0, PutOne(uid), 5) == flagged.(producer := FlagSet(uid, -1, -1));
    assert s0.takers == Two(takers, Idle, Idle);
  }

  /** Taker 1's claim, while taker 0 has only read the cursor. */
  lemma FirstClaim(n: nat, takers: nat, uid: long)
    requires n > 0 && takers >= 2
    ensures After(n, Loaded(n, uid, -1, Two(takers, Idle, Idle), []), TwoClaims(), 5)
         == Loaded(n, uid, 0, Two(takers, HasRead(-1), Claimed(-1, 0)), [(1, 0)])
  {
    hide Apply, Loaded, Two;
    var r, p := Loaded(n, uid, -1, Two(takers, Idle, Idle), []), HasRead(-1);
    assert After(n, r, TwoClaims(), 0) == r;
    AfterNext(n, r, TwoClaims(), 0);
    AfterNext(n, r, TwoClaims(), 1);
    AfterNext(n, r, TwoClaims(), 2);
    AfterNext(n, r, TwoClaims(), 3);
    AfterNext(n, r, TwoClaims(), 4);
    hide After;
    MoveZero(n, takers, uid, -1, Idle, Idle, [], p);
    MoveOne(n, takers, uid, -1, p, Idle, [], p);
    MoveOne(n, takers, uid, -1, p, p, [], HasOld(-1, -1));
    MoveOne(n, takers, uid, -1, p, HasOld(-1, -1), [], HasTail(-1, -1, 0));
    ClaimZero(n, uid, -1, Two(takers, p, HasTail(-1, -1, 0)), [], 1);
    TwoUpdate(takers, p, HasTail(-1, -1, 0), Claimed(-1, 0));
    assert [] + [(1, 0)] == [(1, 0)];
  }

  /** Then taker 0's: number 0 is claimed twice. */
  lemma SecondClaim(n: nat, takers: nat, uid: long)
    requires n > 0 && takers >= 2
    ensures Run(n, Start(n, takers), PutOne(uid)) == Loaded(n, uid, -1, Two(takers, Idle, Idle), [])
    ensures Run(n, Loaded(n, uid, -1, Two(takers, Idle, Idle), []), TwoClaims())
         == Loaded(n, uid, 0, Two(takers, Claimed(-1, 0), Claimed(-1, 0)), [(1, 0), (0, 0)])
  {
    hide After, Apply, Loaded, Two;
    var r, q := Loaded(n, uid, -1, Two(takers, Idle, Idle), []), Claimed(-1, 0);
    PutWrites(n, takers, uid);
    AfterIsRun(n, Start(n, takers), PutOne(uid));
    FirstClaim(n, takers, uid);
    AfterIsRun(n, r, TwoClaims());
    AfterNext(n, r, TwoClaims(), 5);
    AfterNext(n, r, TwoClaims(), 6);
    AfterNext(n, r, TwoClaims(), 7);
    MoveZero(n, takers, uid, 0, HasRead(-1), q, [(1, 0)], HasOld(-1, 0));
    MoveZero(n, takers, uid, 0, HasOld(-1, 0), q, [(1, 0)], HasTail(-1, 0, 0));
    ClaimZero(n, uid, 0, Two(takers, HasTail(-1, 0, 0), q), [(1, 0)], 0);
    TwoUpdate(takers, HasTail(-1, 0, 0), q, q);
    assert [(1, 0)] + [(0, 0)] == [(1, 0), (0, 0)];
  }

  lemma MoveZero(n: nat, takers: nat, uid: long, cursor: int, p: Taker, q: Taker, claims: seq<(nat, int)>, p': Taker)
    requires n > 0 && takers >= 2 && Moves(uid, cursor, p, p')
    ensures Apply(n, Loaded(n, uid, cursor, Two(takers, p, q), claims), Take(0))
         == Loaded(n, uid, cursor, Two(takers, p', q), claims)
  {
    hide Apply, Loaded, Two;
    Move(n, uid, cursor, Two(takers, p, q), claims, 0, p');
    TwoUpdate(takers, p, q, p');
  }

  lemma MoveOne(n: nat, takers: nat, uid: long, cursor: int, p: Taker, q: Taker, claims: seq<(nat, int)>, q': Taker)
    requires n > 0 && takers >= 2 && Moves(uid, cursor, q, q')
    ensures Apply(n, Loaded(n, uid, cursor, Two(takers, p, q), claims), Take(1))
         == Loaded(n, uid, cursor, Two(takers, p, q'), claims)
  {
    hide Apply, Loaded, Two;
    Move(n, uid, cursor, Two(takers, p, q), claims, 1, q');
    TwoUpdate(takers, p, q, q');
  }

  /** The two claimers go on in step until both have read the slot. */
  lemma BothGetUid(n: nat, takers: nat, uid: long, claims: seq<(nat, int)>)
    requires n > 0 && takers >= 2
    ensures After(n, Loaded(n, uid, 0, Two(takers, Claimed(-1, 0), Claimed(-1, 0)), claims), BothRead(), 6)
         == Loaded(n, uid, 0, Two(takers, GotUid(0, uid), GotUid(0, uid)), claims)
  {
    hide Apply, Loaded, Two;
    var r, q := Loaded(n, uid, 0, Two(takers, Claimed(-1, 0), Claimed(-1, 0)), claims), Claimed(-1, 0);
    BothSeeFlag(n, takers, uid, claims);
    AfterNext(n, r, BothRead(), 4);
    AfterNext(n, r, BothRead(), 5);
    hide After;
    MoveZero(n, takers, uid, 0, FlagSeen(0), FlagSeen(0), claims, GotUid(0, uid));
    MoveOne(n, takers, uid, 0, GotUid(0, uid), FlagSeen(0), claims, GotUid(0, uid));
  }

  lemma BothSeeFlag(n: nat, takers: nat, uid: long, claims: seq<(nat, int)>)
    requires n > 0 && takers >= 2
    ensures After(n, Loaded(n, uid, 0, Two(takers, Claimed(-1, 0), Claimed(-1, 0)), claims), BothRead(), 4)
         == Loaded(n, uid, 0, Two(takers, FlagSeen(0), FlagSeen(0)), claims)
  {
    hide Apply, Loaded, Two;
    var r, q := Loaded(n, uid, 0, Two(takers, Claimed(-1, 0), Claimed(-1, 0)), claims), Claimed(-1, 0);
    assert After(n, r, BothRead(), 0) == r;
    AfterNext(n, r, BothRead(), 0);
    AfterNext(n, r, BothRead(), 1);
    AfterNext(n, r, BothRead(), 2);
    AfterNext(n, r, BothRead(), 3);
    hide After;
    MoveZero(n, takers, uid, 0, q, q, claims, Passed(0));
    MoveOne(n, takers, uid, 0, Passed(0), q, claims, Passed(0));
    MoveZero(n, takers, uid, 0, Passed(0), Passed(0), claims, FlagSeen(0));
    MoveOne(n, takers, uid, 0, FlagSeen(0), Passed(0), claims, FlagSeen(0));
  }

  /** On every ring and with any two takers or more: both claimers hand out the same id. */
  lemma SameIdTwice(n: nat, takers: nat, uid: long)
    requires n > 0 && takers >= 2
    ensures var r := Run(n, Start(n, takers), PutOne(uid) + (TwoClaims() + BothRead()));
            r.puts == [uid] && r.given == [(1, 0, uid), (0, 0, uid)]
  {
    hide After, Run, Loaded, Two, PutStep;
    var claims: seq<(nat, int)> := [(1, 0), (0, 0)];
    var r := Loaded(n, uid, 0, Two(takers, Claimed(-1, 0), Claimed(-1, 0)), claims);
    RunAppend(n, Start(n, takers), PutOne(uid), TwoClaims() + BothRead());
    RunAppend(n, Loaded(n, uid, -1, Two(takers, Idle, Idle), []), TwoClaims(), BothRead());
    SecondClaim(n, takers, uid);
    AfterIsRun(n, r, BothRead());
    BothGetUid(n, takers, uid, claims);
    AfterNext(n, r, BothRead(), 6);
    AfterNext(n, r, BothRead(), 7);
    HandBackBoth(n, takers, uid, claims);
  }

  lemma HandBackBoth(n: nat, takers: nat, uid: long, claims: seq<(nat, int)>)
    requires n > 0 && takers >= 2
    ensures var r := Loaded(n, uid, 0, Two(takers, GotUid(0, uid), GotUid(0, uid)), claims);
            var r' := Apply(n, Apply(n, r, Take(1)), Take(0));
            r'.puts == [uid] && r'.given == [(1, 0, uid), (0, 0, uid)]
  {
    hide Slot, PutStep, Two;
    var r := Loaded(n, uid, 0, Two(takers, GotUid(0, uid), GotUid(0, uid)), claims);
    var r1 := Apply(n, r, Take(1));
    assert r1.given == [(1, 0, uid)] && r1.puts == [uid] && r1.takers[0] == GotUid(0, uid);
  }

  /** Different ids put come out as different ids. */
  ghost predicate HandsOutOnce(r: Ring) {
    (forall i, j :: 0 <= i < j < |r.puts| ==> r.puts[i] != r.puts[j]) ==>
      forall i, j :: 0 <= i < j < |r.given| ==> r.given[i].2 != r.given[j].2
  }

  /** So a ring hands out every id at most once in all interleavings exactly when at most one
      thread takes. */
  lemma HandsOutOnceIff(n: nat, takers: nat)
    requires n > 0
    ensures (forall steps :: HandsOutOnce(Run(n, Start(n, takers), steps))) <==> takers <= 1
  {
    hide Run, Start;
    if takers <= 1 {
      forall steps ensures HandsOutOnce(Run(n, Start(n, takers), steps)) {
        AtomicClaimsDeliver(n, takers, steps);
        DeliveredOnce(n, Run(n, Start(n, takers), steps));
      }
    } else {
      SameIdTwice(n, takers, 0);
      GivenTwice(Run(n, Start(n, takers), PutOne(0) + (TwoClaims() + BothRead())), 0);
    }
  }

  lemma DeliveredOnce(n: nat, r: Ring)
    requires n > 0 && Delivers(n, r)
    ensures HandsOutOnce(r)
  {
    hide InOrder, SlotsDistinct, Bounded, Settled;
  }

  lemma GivenTwice(r: Ring, uid: long)
    requires r.puts == [uid] && r.given == [(1, 0, uid), (0, 0, uid)]
    ensures !HandsOutOnce(r)
  {
    assert r.given[0].2 == r.given[1].2;
  }

  /** The same two claims, but taker 1 hands its id back before taker 0 looks at the flag: taker 0
      then throws, and only one id is handed out. So a number claimed twice need not be handed
      out twice. */
  lemma StaleThrows(n: nat, takers: nat, uid: long)
    requires n > 0 && takers >= 2
    ensures !ClaimedOnce(Run(n, Start(n, takers), PutOne(uid) + TwoClaims()).claims)
    ensures var r := Run(n, Start(n, takers), PutOne(uid) + (TwoClaims() + OneReads()));
            r.given == [(1, 0, uid)] && r.takers == Start(n, takers).takers
  {
    hide After, Run, Loaded, Two, Apply;
    var claims: seq<(nat, int)> := [(1, 0), (0, 0)];
    var r := Loaded(n, uid, 0, Two(takers, Claimed(-1, 0), Claimed(-1, 0)), claims);
    RunAppend(n, Start(n, takers), PutOne(uid), TwoClaims());
    RunAppend(n, Start(n, takers), PutOne(uid), TwoClaims() + OneReads());
    RunAppend(n, Loaded(n, uid, -1, Two(takers, Idle, Idle), []), TwoClaims(), OneReads());
    SecondClaim(n, takers, uid);
    LoadedClaims(n, uid, Two(takers, Claimed(-1, 0), Claimed(-1, 0)), claims);
    AfterIsRun(n, r, OneReads());
    OneGetsUid(n, takers, uid, claims);
    AfterNext(n, r, OneReads(), 3);
    AfterNext(n, r, OneReads(), 4);
    AfterNext(n, r, OneReads(), 5);
    OneThrows(n, takers, uid, claims);
  }

  lemma LoadedClaims(n: nat, uid: long, takers: seq<Taker>, claims: seq<(nat, int)>)
    requires n > 0 && claims == [(1, 0), (0, 0)]
    ensures !ClaimedOnce(Loaded(n, uid, 0, takers, claims).claims)
    ensures Loaded(n, uid, 0, takers, claims).takers == takers
  {
    assert claims[0].1 == claims[1].1;
  }

  lemma OneGetsUid(n: nat, takers: nat, uid: long, claims: seq<(nat, int)>)
    requires n > 0 && takers >= 2
    ensures After(n, Loaded(n, uid, 0, Two(takers, Claimed(-1, 0), Claimed(-1, 0)), claims), OneReads(), 3)
         == Loaded(n, uid, 0, Two(takers, Claimed(-1, 0), GotUid(0, uid)), claims)
  {
    hide Apply, Loaded, Two;
    var r, p := Loaded(n, uid, 0, Two(takers, Claimed(-1, 0), Claimed(-1, 0)), claims), Claimed(-1, 0);
    assert After(n, r, OneReads(), 0) == r;
    AfterNext(n, r, OneReads(), 0);
    AfterNext(n, r, OneReads(), 1);
    AfterNext(n, r, OneReads(), 2);
    hide After;
    MoveOne(n, takers, uid, 0, p, p, claims, Passed(0));
    MoveOne(n, takers, uid, 0, p, Passed(0), claims, FlagSeen(0));
    MoveOne(n, takers, uid, 0, p, FlagSeen(0), claims, GotUid(0, uid));
  }

  /** Taker 1 hands back, taker 0 finds the flag reset. */
  lemma OneThrows(n: nat, takers: nat, uid: long, claims: seq<(nat, int)>)
    requires n > 0 && takers >= 2
    ensures var r := Loaded(n, uid, 0, Two(takers, Claimed(-1, 0), GotUid(0, uid)), claims);
            var r' := Apply(n, Apply(n, Apply(n, r, Take(1)), Take(0)), Take(0));
            r'.given == [(1, 0, uid)] && r'.takers == Start(n, takers).takers
  {
    hide Slot, PutStep, Two;
    SlotSmall(0, n);
    var r := Loaded(n, uid, 0, Two(takers, Claimed(-1, 0), GotUid(0, uid)), claims);
    var r1, r2 := Apply(n, r, Take(1)), Apply(n, Apply(n, r, Take(1)), Take(0));
    TwoUpdate(takers, Claimed(-1, 0), GotUid(0, uid), Idle);
    assert r1.given == [(1, 0, uid)] && r1.flags[0] == CAN_PUT_FLAG && r1.takers == Two(takers, Claimed(-1, 0), Idle);
    TwoUpdate(takers, Claimed(-1, 0), Idle, Passed(0));
    assert r2.given == r1.given && r2.flags == r1.flags && r2.takers == Two(takers, Passed(0), Idle);
    TwoUpdate(takers, Passed(0), Idle, Idle);
    TwoIdle(n, takers);
  }

  lemma TwoIdle(n: nat, takers: nat)
    requires n > 0 && takers >= 2
    ensures Two(takers, Idle, Idle) == Start(n, takers).takers
  {
  }
}

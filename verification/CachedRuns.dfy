/** Whole runs of the cached generator: takes and paddings in any order. */
module CachedRuns {
  import opened Bits
  import opened Common
  import opened JavaLong
  import opened BitsAllocator
  import opened DefaultUidGenerator
  import opened CachedUidGenerator

  /** padNow: a padding triggered by this take completes inside it. Pad: one that runs on its
      own (scheduled, or triggered earlier). */
  datatype Op = Take(padNow: bool) | Pad

  /** Ring size and padding threshold, fixed by initRingBuffer. */
  datatype Setup = Setup(config: Config, size: nat, threshold: int) {
    ghost predicate Valid() { config.Valid() && size >= 2 }
  }

  ghost function Step(p: Setup, m: Model, op: Op): (Model, Option<Id>)
    requires p.Valid() && 0 <= m.Room(p.size)
    ensures 0 <= Step(p, m, op).0.Room(p.size)
  {
    match op
    case Take(padNow) => Taken(p.config, p.size, p.threshold, m, padNow)
    case Pad => (Padded(p.config, p.size, m), None)
  }

  /** The ids handed out by a run, in order. */
  ghost function Handed(p: Setup, m: Model, ops: seq<Op>): seq<Id>
    requires p.Valid() && 0 <= m.Room(p.size)
    decreases |ops|
  {
    if ops == [] then []
    else
      var (m', id) := Step(p, m, ops[0]);
      (if id.Some? then [id.value] else []) + Handed(p, m', ops[1..])
  }

  ghost function Final(p: Setup, m: Model, ops: seq<Op>): Model
    requires p.Valid() && 0 <= m.Room(p.size)
    decreases |ops|
  {
    if ops == [] then m else Final(p, Step(p, m, ops[0]).0, ops[1..])
  }

  /** No take of the run is rejected. */
  ghost predicate NoRejection(p: Setup, m: Model, ops: seq<Op>)
    requires p.Valid() && 0 <= m.Room(p.size)
    decreases |ops|
  {
    ops == [] ||
    var (m', id) := Step(p, m, ops[0]);
    (ops[0].Take? ==> id.Some?) && NoRejection(p, m', ops[1..])
  }

  /** Everything queued is later than `prev`, sorted, within the paid seconds and the sequence
      range. */
  ghost predicate Inv(c: Config, m: Model, prev: Id) {
    && Increasing(m.queue) && prev.0 <= m.lastSecond
    && forall i :: 0 <= i < |m.queue| ==>
         && Before(prev, m.queue[i]) && m.queue[i].0 <= m.lastSecond
         && 0 <= m.queue[i].1 <= c.allocator.maxSequence
  }

  lemma StreamIncreasing(c: Config, start: int, n: nat)
    requires c.Valid()
    ensures Increasing(Stream(c, start, n))
    ensures forall i :: 0 <= i < n ==>
              && start <= Stream(c, start, n)[i].0 <= start + SecondsIn(c, n)
              && 0 <= Stream(c, start, n)[i].1 <= c.allocator.maxSequence
  {
    var ids := Stream(c, start, n);
    forall i, j | 0 <= i < j < n ensures Before(ids[i], ids[j]) {
      IdAtOrder(c, start, i, j);
    }
    forall i | 0 <= i < n
      ensures start <= ids[i].0 <= start + SecondsIn(c, n)
    {
      IdAtOrder(c, start, i, n);
    }
  }

  lemma IdAtOrder(c: Config, start: int, i: nat, j: nat)
    requires c.Valid() && i < j
    ensures Before(IdAt(c, start, i), IdAt(c, start, j))
    ensures 0 <= SecondsIn(c, i) <= SecondsIn(c, j)
  {
    var n := SecondSize(c);
    hide SecondSize;
    PositionalOrder(i / n, i % n, j / n, j % n, n);
    DivEq(i, n);
    DivEq(j, n);
  }

  lemma DivEq(x: int, n: nat)
    requires n > 0
    ensures x == (x / n) * n + x % n
  {
  }

  /** Padding keeps the order although it drops the tail of its last second. */
  lemma PaddedInv(c: Config, size: nat, m: Model, prev: Id)
    requires c.Valid() && 0 <= m.Room(size) && Inv(c, m, prev)
    ensures Inv(c, Padded(c, size, m), prev)
  {
    hide Stream, SecondsIn;
    StreamIncreasing(c, m.lastSecond + 1, m.Room(size));
  }

  lemma StepInv(p: Setup, m: Model, op: Op, prev: Id)
    requires p.Valid() && 0 <= m.Room(p.size) && Inv(p.config, m, prev)
    ensures var (m', id) := Step(p, m, op);
            && m'.lastSecond >= m.lastSecond
            && Inv(p.config, m', if id.Some? then id.value else prev)
            && (id.Some? ==> Before(prev, id.value) && id.value.0 <= m.lastSecond
                             && 0 <= id.value.1 <= p.config.allocator.maxSequence)
  {
    hide Stream, SecondsIn, Padded;
    match op
    case Pad =>
      PaddedInv(p.config, p.size, m, prev);
      PaddedIs(p.config, p.size, m, m.Room(p.size));
    case Take(padNow) =>
      var claimed := if m.queue == [] then m else m.(queue := m.queue[1..], started := true);
      var prev' := if m.queue == [] then prev else m.queue[0];
      assert Inv(p.config, claimed, prev');
      PaddedInv(p.config, p.size, claimed, prev');
      PaddedIs(p.config, p.size, claimed, claimed.Room(p.size));
  }

  /** Over every run, each id handed out is later than all before it and within the seconds
      paid for. */
  lemma {:induction false} HandedIncreasing(p: Setup, m: Model, ops: seq<Op>, prev: Id)
    requires p.Valid() && 0 <= m.Room(p.size) && Inv(p.config, m, prev)
    ensures Increasing(Handed(p, m, ops))
    ensures forall i :: 0 <= i < |Handed(p, m, ops)| ==>
              var id := Handed(p, m, ops)[i];
              && Before(prev, id) && id.0 <= Final(p, m, ops).lastSecond
              && 0 <= id.1 <= p.config.allocator.maxSequence
    ensures m.lastSecond <= Final(p, m, ops).lastSecond
    decreases |ops|
  {
    hide Step, Inv;
    if ops != [] {
      var (m', id) := Step(p, m, ops[0]);
      StepInv(p, m, ops[0], prev);
      HandedIncreasing(p, m', ops[1..], if id.Some? then id.value else prev);
    }
  }

  /** The model right after initRingBuffer. */
  ghost function Initial(p: Setup, now: int, boost: nat): Model
    requires p.Valid()
    ensures Initial(p, now, boost).Room(p.size) == 0
  {
    Model(Stream(p.config, now + 1, p.size), false, now + Pow2(boost) + 1)
  }

  lemma InitialInv(p: Setup, now: int, boost: nat)
    requires p.Valid() && p.size == IdsIn(p.config, Pow2(boost))
    ensures Inv(p.config, Initial(p, now, boost), (now, 0))
  {
    hide SecondsIn, Stream, IdsIn, Pow2;
    StreamIncreasing(p.config, now + 1, p.size);
    SecondsCount(p.config, Pow2(boost), 0);
  }

  /** End to end: after initRingBuffer, over every run of takes and paddings, the longs handed
      out are strictly increasing, as long as the borrowed seconds stay in the timestamp range
      (the cached path does not check that). */
  lemma CachedUidsIncreasing(p: Setup, now: int, boost: nat, ops: seq<Op>, i: nat, j: nat)
    requires p.Valid() && p.size == IdsIn(p.config, Pow2(boost))
    requires now - p.config.epochSeconds >= -1 - p.config.allocator.maxDeltaSeconds
    requires Final(p, Initial(p, now, boost), ops).lastSecond - p.config.epochSeconds <= p.config.allocator.maxDeltaSeconds
    requires i < j < |Handed(p, Initial(p, now, boost), ops)|
    ensures UidOf(p.config, Handed(p, Initial(p, now, boost), ops)[i]) < UidOf(p.config, Handed(p, Initial(p, now, boost), ops)[j])
  {
    hide Allocator.Allocate, Handed, Final, Initial, IdsIn, Pow2;
    var m := Initial(p, now, boost);
    InitialInv(p, now, boost);
    HandedIncreasing(p, m, ops, (now, 0));
    var a, b := Handed(p, m, ops)[i], Handed(p, m, ops)[j];
    var e := p.config.epochSeconds;
    AllocateOrder(p.config.allocator, a.0 - e, p.config.workerId, a.1, b.0 - e, p.config.workerId, b.1);
  }

  ghost predicate Prompt(ops: seq<Op>) {
    forall i :: 0 <= i < |ops| && ops[i].Take? ==> ops[i].padNow
  }

  /** If every triggered padding completes inside its take, no take is rejected. */
  lemma {:induction false} PromptNeverRejected(p: Setup, m: Model, ops: seq<Op>)
    requires p.Valid() && 0 <= m.Room(p.size) && m.queue != []
    requires p.threshold >= 1 && Prompt(ops)
    ensures NoRejection(p, m, ops)
    decreases |ops|
  {
    hide Stream, SecondsIn;
    if ops != [] {
      var m' := Step(p, m, ops[0]).0;
      PromptNeverRejected(p, m', ops[1..]);
    }
  }

  /** With a threshold of 0 nothing is ever triggered and the ring runs dry. */
  lemma {:induction false} RunsDry(p: Setup, m: Model, ops: seq<Op>)
    requires p.Valid() && 0 <= m.Room(p.size) && p.threshold <= 0
    requires |ops| == |m.queue| + 1 && forall i :: 0 <= i < |ops| ==> ops[i] == Take(true)
    ensures !NoRejection(p, m, ops)
    decreases |ops|
  {
    if m.queue != [] {
      RunsDry(p, Step(p, m, ops[0]).0, ops[1..]);
    }
  }

  /** So prompt padding prevents starvation exactly when the threshold bufferSize *
      paddingFactor / 100 is positive. */
  lemma StarvationIff(p: Setup, now: int, boost: nat)
    requires p.Valid()
    ensures (forall ops :: Prompt(ops) ==> NoRejection(p, Initial(p, now, boost), ops)) <==> p.threshold >= 1
  {
    var m := Initial(p, now, boost);
    if p.threshold >= 1 {
      forall ops | Prompt(ops) ensures NoRejection(p, m, ops) {
        PromptNeverRejected(p, m, ops);
      }
    } else {
      var ops := seq(|m.queue| + 1, _ => Take(true));
      RunsDry(p, m, ops);
      assert Prompt(ops);
    }
  }

  /** In terms of the settings: what the int product of buffer size and padding factor leaves must
      be at least 100. */
  lemma SettingsStarvationIff(p: Setup, now: int, boost: nat, factor: nat)
    requires p.Valid() && p.threshold == TruncDiv(WrapInt(p.size * factor), 100)
    ensures 0 <= p.size * factor
    ensures (forall ops :: Prompt(ops) ==> NoRejection(p, Initial(p, now, boost), ops))
       <==> 100 <= p.size * factor % 0x1_0000_0000 < 0x8000_0000
  {
    hide NoRejection, Initial;
    ThresholdPositiveIff(p.size, factor);
    StarvationIff(p, now, boost);
  }

  // ------------------------------------------------------------ the generator object

  ghost function SetupOf(g: CachedUidGenerator): Setup {
    Setup(g.config, g.ringBuffer.bufferSize, g.ringBuffer.paddingThreshold)
  }

  lemma ServeStart(p: Setup, m: Model, ops: seq<Op>)
    requires p.Valid() && 0 <= m.Room(p.size)
    ensures [] + Handed(p, m, Suffix(ops, 0)) == Handed(p, m, ops) && Final(p, m, Suffix(ops, 0)) == Final(p, m, ops)
  {
    SuffixAll(ops);
  }

  lemma ServeStep(p: Setup, m: Model, ops: seq<Op>, i: nat, ids: seq<Id>)
    requires p.Valid() && 0 <= m.Room(p.size) && i < |ops|
    ensures var (m', id) := Step(p, m, ops[i]);
            && ids + Handed(p, m, Suffix(ops, i))
               == ids + (if id.Some? then [id.value] else []) + Handed(p, m', Suffix(ops, i + 1))
            && Final(p, m, Suffix(ops, i)) == Final(p, m', Suffix(ops, i + 1))
  {
    hide Step;
    SuffixNext(ops, i);
    var (m', id) := Step(p, m, ops[i]);
    SeqAssoc(ids, if id.Some? then [id.value] else [], Handed(p, m', Suffix(ops, i + 1)));
  }

  lemma ServeEnd(p: Setup, m: Model, ops: seq<Op>, ids: seq<Id>)
    requires p.Valid() && 0 <= m.Room(p.size)
    ensures ids + Handed(p, m, Suffix(ops, |ops|)) == ids && Final(p, m, Suffix(ops, |ops|)) == m
  {
    assert Suffix(ops, |ops|) == [];
  }

  lemma SetupValid(g: CachedUidGenerator)
    requires g.Valid()
    ensures SetupOf(g).Valid() && 0 <= g.Contents().Room(SetupOf(g).size)
  {
    g.ringBuffer.Counts();
  }

  /** Takes and paddings on the object itself: it hands out what the model says. */
  method Serve(g: CachedUidGenerator, ops: seq<Op>) returns (out: seq<long>)
    requires g.Valid()
    modifies g, g.bufferPaddingExecutor, g.ringBuffer, g.ringBuffer.slots, g.ringBuffer.flags
    ensures g.Valid() && old(SetupOf(g).Valid() && 0 <= g.Contents().Room(SetupOf(g).size))
    ensures g.Contents() == Final(SetupOf(g), old(g.Contents()), ops)
    ensures out == Uids(g.config, Handed(SetupOf(g), old(g.Contents()), ops))
  {
    hide UidOf, Uids, Handed, Final, Suffix, Padded, CachedUidGenerator.Valid, CachedUidGenerator.Contents;
    ghost var p, m0, ids := SetupOf(g), g.Contents(), [];
    SetupValid(g);
    ServeStart(p, m0, ops);
    NoUids(g.config);
    out := [];
    for i := 0 to |ops|
      invariant g.Valid() && p.Valid() && 0 <= g.Contents().Room(p.size)
      invariant out == Uids(g.config, ids)
      invariant ids + Handed(p, g.Contents(), Suffix(ops, i)) == Handed(p, m0, ops)
      invariant Final(p, g.Contents(), Suffix(ops, i)) == Final(p, m0, ops)
    {
      ServeStep(p, g.Contents(), ops, i, ids);
      ghost var id := Step(p, g.Contents(), ops[i]).1;
      match ops[i] {
        case Pad => g.Pad();
        case Take(padNow) =>
          var r := g.GetUid(padNow);
          if r.Some? { out := out + [r.value]; }
      }
      if id.Some? {
        UidsOne(g.config, ids, id.value);
        ids := ids + [id.value];
      }
      assert id.None? ==> ids + [] == ids;
      SetupValid(g);
    }
    ServeEnd(p, g.Contents(), ops, ids);
  }

  lemma NoUids(c: Config)
    ensures Uids(c, []) == []
  {
  }

  lemma UidsOne(c: Config, ids: seq<Id>, id: Id)
    ensures Uids(c, ids + [id]) == Uids(c, ids) + [UidOf(c, id)]
  {
    hide UidOf;
  }

  /** From initRingBuffer on: if the settings are good, the longs that the object hands out over any
      list of takes and paddings strictly increase, as long as the seconds spent stay in the
      timestamp range; if triggered paddings run at once and the threshold is positive, every
      take is served. */
  method StartAndServe(c: Config, boost: nat, factor: int, now: int, ops: seq<Op>) returns (out: Option<seq<long>>, g: CachedUidGenerator?)
    requires c.Valid() && now - c.epochSeconds >= -1 - c.allocator.maxDeltaSeconds
    ensures out.Some? <==> Fits(c, boost) && 0 < factor < 100
    ensures out.Some? ==> g != null && g.Valid() && g.config == c
    ensures out.Some? && g.bufferPaddingExecutor.lastSecond - c.epochSeconds <= c.allocator.maxDeltaSeconds ==>
              forall i, j :: 0 <= i < j < |out.value| ==> out.value[i] < out.value[j]
    ensures out.Some? && Prompt(ops) && g.ringBuffer.paddingThreshold >= 1 ==> |out.value| == Takes(ops)
  {
    g := null;
    var started := CachedUidGenerator.Init(c, boost, factor, now);
    if started.None? { return None, null; }
    g := started.value;
    ghost var p := SetupOf(g);
    StartedIs(g, factor, now);
    var longs := Serve(g, ops);
    ghost var m := Initial(p, now, boost % 32);
    hide Handed, Final, Initial, CachedUidGenerator.Valid, UidOf, IdsIn, Stream, BufferSize, Pow2;
    if Prompt(ops) && p.threshold >= 1 { ServedAll(p, m, ops); }
    if g.bufferPaddingExecutor.lastSecond - c.epochSeconds <= c.allocator.maxDeltaSeconds {
      forall i, j | 0 <= i < j < |longs| ensures longs[i] < longs[j] {
        CachedUidsIncreasing(p, now, boost % 32, ops, i, j);
      }
    }
    out := Some(longs);
  }

  lemma StartedIs(g: CachedUidGenerator, factor: int, now: int)
    requires g.Started(factor, now)
    ensures SetupOf(g).Valid() && g.Contents() == Initial(SetupOf(g), now, g.boostPower % 32)
    ensures g.Contents().queue != []
    ensures SetupOf(g).size == IdsIn(g.config, Pow2(g.boostPower % 32))
  {
    BufferSizeValue(g.config, g.boostPower);
  }

  function Takes(ops: seq<Op>): nat {
    if ops == [] then 0 else (if ops[0].Take? then 1 else 0) + Takes(ops[1..])
  }

  /** A run without rejection hands out one id for each take. */
  lemma {:induction false} ServedAll(p: Setup, m: Model, ops: seq<Op>)
    requires p.Valid() && 0 <= m.Room(p.size) && m.queue != [] && p.threshold >= 1 && Prompt(ops)
    ensures |Handed(p, m, ops)| == Takes(ops)
    decreases |ops|
  {
    hide Stream, SecondsIn;
    if ops != [] {
      ServedAll(p, Step(p, m, ops[0]).0, ops[1..]);
    }
  }
}

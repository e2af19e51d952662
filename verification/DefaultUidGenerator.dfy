/** The clock-driven generator: one id per call, a sequence number within each second, a busy
    wait when a second is used up. The clock is an arbitrary sequence of readings; each call
    consumes at least one. */
module DefaultUidGenerator {
  import opened Bits
  import opened Common
  import opened JavaLong
  import opened BitsAllocator

  /** A clock reading in seconds: a long of milliseconds divided by 1000. */
  type seconds = x: int | -0x40_0000_0000_0000 < x < 0x40_0000_0000_0000

  datatype Config = Config(allocator: Allocator, epochSeconds: seconds, workerId: long) {
    /** What afterPropertiesSet leaves: a valid allocator and a worker id that fits it. The
        setters only take positive widths. */
    ghost predicate Valid() {
      && allocator.Valid() && 0 <= workerId <= allocator.maxWorkerId
      && allocator.timestampBits >= 1 && allocator.workerIdBits >= 1 && allocator.sequenceBits >= 1
    }

    predicate Exhausts(reading: seconds) {
      reading - epochSeconds > allocator.maxDeltaSeconds
    }

    function Uid(second: int, sequence: long): long {
      allocator.Allocate(WrapLong(second - epochSeconds), workerId, sequence)
    }
  }

  /** afterPropertiesSet: the allocator must be constructible and the worker id not above its
      maximum. A negative one is let through; worker ids come from a database key, which never
      is. */
  function AfterPropertiesSet(t: nat, w: nat, s: nat, epoch: seconds, workerId: long): (r: Option<Config>)
    requires t >= 1 && w >= 1 && s >= 1
    ensures r.Some? <==> 1 + t + w + s == 64 && workerId < Pow2(w)
    ensures r.Some? ==> (r.value.Valid() <==> workerId >= 0)
  {
    var a := New(t, w, s);
    if a.None? || workerId > a.value.maxWorkerId then None
    else Some(Config(a.value, epoch, workerId))
  }

  /** The volatile fields. */
  datatype State = State(sequence: long, lastSecond: seconds)

  const INITIAL := State(0, -1)

  datatype Outcome =
    | Issued(second: seconds, sequence: long)
    | ClockMovedBack(refused: int)
    | Exhausted(now: seconds)      // thrown by the first reading
    | SpinExhausted(now: seconds)  // thrown while waiting for the next second
    | Waiting                      // the clock readings given end before the call returns

  /** What the caller sees. */
  datatype Reply = Uid(id: long) | Refused(seconds: int) | OutOfTime(now: seconds) | Pending

  function ReplyOf(c: Config, o: Outcome): Reply {
    match o
    case Issued(second, sequence) => Uid(c.Uid(second, sequence))
    case ClockMovedBack(refused) => Refused(refused)
    case Exhausted(now) => OutOfTime(now)
    case SpinExhausted(now) => OutOfTime(now)
    case Waiting => Pending
  }

  datatype Call = Call(state: State, outcome: Outcome, used: nat)

  /** The first reading past `last`, unless an exhausted one comes before it. */
  function Spin(c: Config, last: seconds, clock: seq<seconds>): (r: Call)
    ensures r.used <= |clock|
    ensures r.outcome.Issued? || r.outcome.SpinExhausted? || r.outcome.Waiting?
    ensures r.outcome.Issued? ==> r.outcome.second > last && r.outcome.sequence == 0
    ensures r.outcome.Issued? ==> r.state == State(0, r.outcome.second)
    ensures !r.outcome.Issued? ==> r.state == State(0, last)
    ensures r.outcome.Waiting? ==> r.used == |clock|
  {
    if |clock| == 0 then Call(State(0, last), Waiting, 0)
    else if c.Exhausts(clock[0]) then Call(State(0, last), SpinExhausted(clock[0]), 1)
    else if clock[0] <= last then
      var r := Spin(c, last, clock[1..]);
      r.(used := r.used + 1)
    else Call(State(0, clock[0]), Issued(clock[0], 0), 1)
  }

  /** One call of nextId. */
  function Next(c: Config, st: State, clock: seq<seconds>): (r: Call)
    requires c.Valid() && 0 <= st.sequence <= c.allocator.maxSequence
    ensures r.used <= |clock| && (|clock| > 0 ==> r.used > 0)
    ensures 0 <= r.state.sequence <= c.allocator.maxSequence
  {
    if |clock| == 0 then Call(st, Waiting, 0)
    else
      var now := clock[0];
      if c.Exhausts(now) then Call(st, Exhausted(now), 1)
      else if now < st.lastSecond then Call(st, ClockMovedBack(st.lastSecond - now), 1)
      else if now > st.lastSecond then Call(State(0, now), Issued(now, 0), 1)
      else if st.sequence < c.allocator.maxSequence then
        Call(State(st.sequence + 1, now), Issued(now, st.sequence + 1), 1)
      else
        var r := Spin(c, now, clock[1..]);
        r.(used := r.used + 1)
  }

  /** The busy wait takes the first reading that is past `last` or out of the timestamp range,
      number k, and ends as that reading says; without one (k is the number of readings) it waits
      through all of them. */
  lemma {:induction false} SpinIs(c: Config, last: seconds, clock: seq<seconds>, k: nat)
    requires k <= |clock|
    requires forall j :: 0 <= j < k ==> clock[j] <= last && clock[j] - c.epochSeconds <= c.allocator.maxDeltaSeconds
    requires k < |clock| ==> clock[k] > last || clock[k] - c.epochSeconds > c.allocator.maxDeltaSeconds
    ensures var r := Spin(c, last, clock);
            if k == |clock| then r == Call(State(0, last), Waiting, k)
            else if clock[k] - c.epochSeconds > c.allocator.maxDeltaSeconds then
              r == Call(State(0, last), SpinExhausted(clock[k]), k + 1)
            else r == Call(State(0, clock[k]), Issued(clock[k], 0), k + 1)
    decreases k
  {
    if k > 0 { SpinIs(c, last, clock[1..], k - 1); }
  }

  /** What one call does with its first reading: out of range, before the last second, past it,
      equal to it with a sequence number left. */
  lemma NextIs(c: Config, st: State, clock: seq<seconds>)
    requires c.Valid() && 0 <= st.sequence <= c.allocator.maxSequence && |clock| > 0
    ensures var t, delta, r := clock[0], clock[0] - c.epochSeconds, Next(c, st, clock);
            && (delta > c.allocator.maxDeltaSeconds ==>
                  r == Call(st, Exhausted(t), 1) && ReplyOf(c, r.outcome) == OutOfTime(t))
            && (delta <= c.allocator.maxDeltaSeconds && t < st.lastSecond ==>
                  r.state == st && r.used == 1 && ReplyOf(c, r.outcome) == Refused(st.lastSecond - t))
            && (delta <= c.allocator.maxDeltaSeconds && t > st.lastSecond ==>
                  r == Call(State(0, t), Issued(t, 0), 1)
                  && ReplyOf(c, r.outcome) == Uid(c.allocator.Allocate(delta, c.workerId, 0)))
            && (delta <= c.allocator.maxDeltaSeconds && t == st.lastSecond && st.sequence < c.allocator.maxSequence ==>
                  r == Call(State(st.sequence + 1, t), Issued(t, st.sequence + 1), 1)
                  && ReplyOf(c, r.outcome) == Uid(c.allocator.Allocate(delta, c.workerId, st.sequence + 1)))
  {
    hide Allocator.Allocate;
  }

  /** And when the second is used up: reading k, the first after it that is past the second or
      out of range, decides; without one the call waits. */
  lemma NextWaits(c: Config, st: State, clock: seq<seconds>, k: nat)
    requires c.Valid() && st.sequence == c.allocator.maxSequence && 1 <= k <= |clock|
    requires clock[0] == st.lastSecond
    requires forall j :: 0 <= j < k ==>
               clock[j] <= st.lastSecond && clock[j] - c.epochSeconds <= c.allocator.maxDeltaSeconds
    requires k < |clock| ==> clock[k] > st.lastSecond || clock[k] - c.epochSeconds > c.allocator.maxDeltaSeconds
    ensures var r := Next(c, st, clock);
            if k == |clock| then r == Call(State(0, st.lastSecond), Waiting, k)
            else if clock[k] - c.epochSeconds > c.allocator.maxDeltaSeconds then
              r == Call(State(0, st.lastSecond), SpinExhausted(clock[k]), k + 1)
            else r == Call(State(0, clock[k]), Issued(clock[k], 0), k + 1)
  {
    hide Spin, Allocator.Valid;
    SpinIs(c, st.lastSecond, clock[1..], k - 1);
  }

  /** Masking the incremented sequence wraps it to zero exactly at the maximum. */
  lemma SequenceMask(a: Allocator, s: long)
    requires a.Valid() && a.timestampBits >= 1 && 0 <= s <= a.maxSequence
    ensures LongAnd(Add(s, 1), a.maxSequence) == if s == a.maxSequence then 0 else s + 1
  {
    hide Pow2, And;
    Pow2Words();
    Pow2Mono(a.sequenceBits, 62);
    MaskUpTo(s + 1, a.sequenceBits);
    assert Add(s, 1) == s + 1;
  }

  lemma MaskUpTo(u: nat, k: nat)
    requires u <= Pow2(k)
    ensures And(u, Pow2(k) - 1) == if u == Pow2(k) then 0 else u
  {
    hide Pow2, And;
    AndMask(u, k);
    if u == Pow2(k) { DivModUnique(u, Pow2(k), 1, 0); } else { DivModUnique(u, Pow2(k), 0, u); }
  }

  class Generator {
    const config: Config
    var sequence: long
    var lastSecond: seconds

    constructor (c: Config)
      requires c.Valid()
      ensures config == c && Contents() == INITIAL && Valid()
    {
      config := c;
      sequence := 0;
      lastSecond := -1;
    }

    function Contents(): State
      reads this
    {
      State(sequence, lastSecond)
    }

    ghost predicate Valid()
      reads this
    {
      config.Valid() && 0 <= sequence <= config.allocator.maxSequence
    }

    /** nextId does to the fields, replies and consumes exactly what Next says. */
    method NextId(clock: seq<seconds>) returns (reply: Reply, used: nat)
      requires Valid()
      modifies this
      ensures Valid()
      ensures var r := Next(config, old(Contents()), clock);
              Contents() == r.state && reply == ReplyOf(config, r.outcome) && used == r.used
    {
      hide Allocator.Allocate, LongAnd, Add, Pow2;
      if |clock| == 0 { return Pending, 0; }
      var currentSecond := clock[0];
      if currentSecond - config.epochSeconds > config.allocator.maxDeltaSeconds {
        return OutOfTime(currentSecond), 1;
      }
      if currentSecond < lastSecond {
        return Refused(lastSecond - currentSecond), 1;
      }
      used := 1;
      if currentSecond == lastSecond {
        SequenceMask(config.allocator, sequence);
        sequence := LongAnd(Add(sequence, 1), config.allocator.maxSequence);
        if sequence == 0 {
          var next, n := GetNextSecond(clock[1..]);
          used := 1 + n;
          match next {
            case None => return Pending, used;
            case Some(t) =>
              if config.Exhausts(t) { return OutOfTime(t), used; }
              currentSecond := t;
          }
        }
      } else {
        sequence := 0;
      }
      lastSecond := currentSecond;
      reply := Uid(config.allocator.Allocate(currentSecond - config.epochSeconds, config.workerId, sequence));
    }

    /** Spins until a reading passes lastSecond or is out of range; None when the readings end. */
    method GetNextSecond(clock: seq<seconds>) returns (r: Option<seconds>, used: nat)
      requires Valid()
      ensures used == Spin(config, lastSecond, clock).used
      ensures match Spin(config, lastSecond, clock).outcome
              case Issued(t, _) => r == Some(t) && !config.Exhausts(t)
              case SpinExhausted(t) => r == Some(t) && config.Exhausts(t)
              case _ => r == None
    {
      used := 0;
      while used < |clock|
        invariant used <= |clock|
        invariant var r := Spin(config, lastSecond, clock);
                  r == Spin(config, lastSecond, clock[used..]).(used := r.used)
                  && r.used == used + Spin(config, lastSecond, clock[used..]).used
      {
        var timestamp := clock[used];
        assert clock[used..][1..] == clock[used + 1..];
        used := used + 1;
        if config.Exhausts(timestamp) || timestamp > lastSecond { return Some(timestamp), used; }
      }
      r := None;
    }
  }

  // ---------------------------------------------------------------- whole runs

  /** Calls one after another until the clock readings are used up: the (second, sequence)
      pairs issued, in order. */
  function Run(c: Config, st: State, clock: seq<seconds>): seq<(seconds, long)>
    requires c.Valid() && 0 <= st.sequence <= c.allocator.maxSequence
    decreases |clock|
  {
    if |clock| == 0 then []
    else
      var r := Next(c, st, clock);
      var rest := Run(c, r.state, clock[r.used..]);
      if r.outcome.Issued? then [(r.outcome.second, r.outcome.sequence)] + rest else rest
  }

  function Longs(c: Config, issued: seq<(seconds, long)>): (uids: seq<long>)
    ensures |uids| == |issued|
  {
    seq(|issued|, i requires 0 <= i < |issued| => c.Uid(issued[i].0, issued[i].1))
  }

  /** Calling the object until the readings are used up gives exactly the longs of the run. */
  method Serve(g: Generator, clock: seq<seconds>) returns (uids: seq<long>)
    requires g.Valid()
    modifies g
    ensures g.Valid() && uids == Longs(g.config, Run(g.config, old(g.Contents()), clock))
  {
    hide Next, ReplyOf, Allocator.Allocate, Allocator.Valid, Longs;
    uids := [];
    var read := 0;
    ghost var all := Run(g.config, g.Contents(), clock);
    assert clock[0..] == clock;
    assert uids + Longs(g.config, all) == Longs(g.config, all);
    while read < |clock|
      invariant read <= |clock| && g.Valid()
      invariant uids + Longs(g.config, Run(g.config, g.Contents(), clock[read..])) == Longs(g.config, all)
    {
      var left := clock[read..];
      ghost var st := g.Contents();
      var reply, used := g.NextId(left);
      RunStep(g.config, st, left, uids);
      if reply.Uid? { uids := uids + [reply.id]; }
      assert left[used..] == clock[read + used..];
      read := read + used;
    }
    NothingLeft(g.config, g.Contents(), clock[read..]);
    assert uids + [] == uids;
  }

  lemma RunStep(c: Config, st: State, clock: seq<seconds>, uids: seq<long>)
    requires c.Valid() && 0 <= st.sequence <= c.allocator.maxSequence && |clock| > 0
    ensures var r, all := Next(c, st, clock), uids + Longs(c, Run(c, st, clock));
            && (r.outcome.Issued? ==>
                  all == (uids + [c.Uid(r.outcome.second, r.outcome.sequence)]) + Longs(c, Run(c, r.state, clock[r.used..])))
            && (!r.outcome.Issued? ==> all == uids + Longs(c, Run(c, r.state, clock[r.used..])))
            && (ReplyOf(c, r.outcome).Uid? <==> r.outcome.Issued?)
            && (r.outcome.Issued? ==> ReplyOf(c, r.outcome) == Uid(c.Uid(r.outcome.second, r.outcome.sequence)))
  {
    RunUnfold(c, st, clock);
    hide Next, Longs, Run, Config.Uid, Allocator.Valid;
    var r := Next(c, st, clock);
    if r.outcome.Issued? {
      LongsCons(c, (r.outcome.second, r.outcome.sequence), Run(c, r.state, clock[r.used..]), uids);
    }
  }

  lemma RunUnfold(c: Config, st: State, clock: seq<seconds>)
    requires c.Valid() && 0 <= st.sequence <= c.allocator.maxSequence && |clock| > 0
    ensures var r := Next(c, st, clock);
            var rest := Run(c, r.state, clock[r.used..]);
            Run(c, st, clock)
            == if r.outcome.Issued? then [(r.outcome.second, r.outcome.sequence)] + rest else rest
  {
    hide Next, Allocator.Valid;
  }

  lemma LongsCons(c: Config, p: (seconds, long), rest: seq<(seconds, long)>, uids: seq<long>)
    ensures uids + Longs(c, [p] + rest) == (uids + [c.Uid(p.0, p.1)]) + Longs(c, rest)
  {
    hide Config.Uid;
    assert Longs(c, [p] + rest) == [c.Uid(p.0, p.1)] + Longs(c, rest);
  }

  lemma NothingLeft(c: Config, st: State, clock: seq<seconds>)
    requires c.Valid() && 0 <= st.sequence <= c.allocator.maxSequence && clock == []
    ensures Longs(c, Run(c, st, clock)) == []
  {
  }

  /** Whether the run never asks for an id in a second it already exhausted: after a wait that
      was cut short by exhaustion, and before the next id, the clock does not read lastSecond
      again. `cut` says such a wait has happened since the last id. */
  predicate NoReturn(c: Config, st: State, cut: bool, clock: seq<seconds>)
    requires c.Valid() && 0 <= st.sequence <= c.allocator.maxSequence
    decreases |clock|
  {
    |clock| == 0 ||
    var r := Next(c, st, clock);
    && !(cut && clock[0] == st.lastSecond && !c.Exhausts(clock[0]))
    && NoReturn(c, r.state, r.outcome.SpinExhausted? || (cut && !r.outcome.Issued?), clock[r.used..])
  }

  /** Successive ids: the next sequence of the same second, or sequence 0 of a later one. */
  predicate Follows(p: (int, int), q: (int, int)) {
    q == (p.0, p.1 + 1) || (q.0 > p.0 && q.1 == 0)
  }

  predicate Chain(prev: (int, int), issued: seq<(seconds, long)>)
    decreases |issued|
  {
    |issued| == 0 || (Follows(prev, issued[0]) && Chain(issued[0], issued[1..]))
  }

  /** The fields describe the last id `prev`, or `cut` and the wrapped sequence. */
  ghost predicate Describes(c: Config, st: State, cut: bool, prev: (int, int)) {
    && c.Valid() && 0 <= st.sequence <= c.allocator.maxSequence
    && (if cut then st.sequence == 0 && prev == (st.lastSecond, c.allocator.maxSequence)
        else prev == (st.lastSecond, st.sequence))
  }

  /** While the run does not return, the ids issued form a chain. */
  lemma {:induction false} RunChain(c: Config, st: State, cut: bool, clock: seq<seconds>, prev: (int, int))
    requires Describes(c, st, cut, prev) && NoReturn(c, st, cut, clock)
    ensures Chain(prev, Run(c, st, clock))
    decreases |clock|
  {
    if |clock| > 0 {
      var r := Next(c, st, clock);
      var cut' := r.outcome.SpinExhausted? || (cut && !r.outcome.Issued?);
      if r.outcome.Issued? {
        var p := (r.outcome.second, r.outcome.sequence);
        RunChain(c, r.state, cut', clock[r.used..], p);
        assert Run(c, st, clock)[1..] == Run(c, r.state, clock[r.used..]);
      } else if r.outcome.Waiting? {
        assert clock[r.used..] == [];
      } else {
        RunChain(c, r.state, cut', clock[r.used..], prev);
      }
    }
  }

  /** Lexicographic order on (second, sequence). */
  predicate Before(p: (int, int), q: (int, int)) {
    p.0 < q.0 || (p.0 == q.0 && p.1 < q.1)
  }

  lemma {:induction false} ChainBefore(prev: (int, int), issued: seq<(seconds, long)>, j: nat)
    requires Chain(prev, issued) && j < |issued|
    ensures Before(prev, issued[j])
    decreases j
  {
    if j > 0 { ChainBefore(issued[0], issued[1..], j - 1); }
  }

  lemma {:induction false} ChainSorted(prev: (int, int), issued: seq<(seconds, long)>, i: nat, j: nat)
    requires Chain(prev, issued) && i < j < |issued|
    ensures Before(issued[i], issued[j])
    decreases i
  {
    if i == 0 { ChainBefore(issued[0], issued[1..], j - 1); }
    else { ChainSorted(issued[0], issued[1..], i - 1, j - 1); }
  }

  predicate Increasing(issued: seq<(int, long)>) {
    forall i, j :: 0 <= i < j < |issued| ==> Before(issued[i], issued[j])
  }

  predicate Distinct(issued: seq<(seconds, long)>) {
    forall i, j :: 0 <= i < j < |issued| ==> issued[i] != issued[j]
  }

  /** The ids of the last second that are known to be out already. */
  ghost predicate Recorded(c: Config, st: State, cut: bool, past: seq<(seconds, long)>)
    requires c.Valid()
  {
    var top := if cut then c.allocator.maxSequence else st.sequence;
    forall k: long :: 1 <= k <= top ==> (st.lastSecond, k) in past
  }

  /** When the run does return to an exhausted second, an id is issued twice. */
  lemma {:induction false} ReturnRepeats(c: Config, st: State, cut: bool, clock: seq<seconds>, past: seq<(seconds, long)>)
    requires c.Valid() && 0 <= st.sequence <= c.allocator.maxSequence
    requires cut ==> st.sequence == 0
    requires Recorded(c, st, cut, past) && !NoReturn(c, st, cut, clock)
    ensures !Distinct(past + Run(c, st, clock))
    decreases |clock|
  {
    var r := Next(c, st, clock);
    var rest := Run(c, r.state, clock[r.used..]);
    if cut && clock[0] == st.lastSecond && !c.Exhausts(clock[0]) {
      MaxSequencePositive(c.allocator);
      assert r.outcome == Issued(st.lastSecond, 1);
      var p: (seconds, long) := (st.lastSecond, 1);
      assert p in past;
      var i :| 0 <= i < |past| && past[i] == p;
      var all := past + Run(c, st, clock);
      assert all[i] == all[|past|];
    } else {
      var cut' := r.outcome.SpinExhausted? || (cut && !r.outcome.Issued?);
      var past' := if r.outcome.Issued? then past + [(r.outcome.second, r.outcome.sequence)] else past;
      RecordedStep(c, st, cut, clock, past);
      ReturnRepeats(c, r.state, cut', clock[r.used..], past');
      assert past' + rest == past + Run(c, st, clock);
    }
  }

  lemma MaxSequencePositive(a: Allocator)
    requires a.Valid() && a.sequenceBits >= 1
    ensures a.maxSequence >= 1
  {
    Pow2Mono(1, a.sequenceBits);
    assert Pow2(1) == 2;
  }

  lemma RecordedStep(c: Config, st: State, cut: bool, clock: seq<seconds>, past: seq<(seconds, long)>)
    requires c.Valid() && 0 <= st.sequence <= c.allocator.maxSequence && |clock| > 0
    requires cut ==> st.sequence == 0
    requires Recorded(c, st, cut, past)
    requires !(cut && clock[0] == st.lastSecond && !c.Exhausts(clock[0]))
    ensures var r := Next(c, st, clock);
            var cut' := r.outcome.SpinExhausted? || (cut && !r.outcome.Issued?);
            var past' := if r.outcome.Issued? then past + [(r.outcome.second, r.outcome.sequence)] else past;
            Recorded(c, r.state, cut', past') && (cut' ==> r.state.sequence == 0)
  {
    var r := Next(c, st, clock);
    if r.outcome.Issued? {
      var p: (seconds, long) := (r.outcome.second, r.outcome.sequence);
      var past' := past + [p];
      assert past'[|past|] == p;
      assert forall x :: x in past ==> x in past';
    }
  }

  /** Over every run from start-up and every sequence of clock readings (repeats, jumps,
      backward moves): the ids are strictly increasing, and equally never repeated, exactly
      when the run never returns to a second whose wait was cut short by exhaustion. */
  lemma RunIncreasingIff(c: Config, clock: seq<seconds>)
    requires c.Valid()
    ensures Increasing(Run(c, INITIAL, clock)) <==> NoReturn(c, INITIAL, false, clock)
    ensures Distinct(Run(c, INITIAL, clock)) <==> NoReturn(c, INITIAL, false, clock)
  {
    var issued := Run(c, INITIAL, clock);
    if NoReturn(c, INITIAL, false, clock) {
      RunChain(c, INITIAL, false, clock, (-1, 0));
      forall i, j | 0 <= i < j < |issued| ensures Before(issued[i], issued[j]) {
        ChainSorted((-1, 0), issued, i, j);
      }
    } else {
      ReturnRepeats(c, INITIAL, false, clock, []);
      assert [] + issued == issued;
    }
  }

  predicate Ascending(clock: seq<seconds>) {
    forall i, j :: 0 <= i < j < |clock| ==> clock[i] <= clock[j]
  }

  /** A clock that never goes back does not return: after a wait cut short by exhaustion, all
      readings are exhausted. */
  lemma {:induction false} AscendingNoReturn(c: Config, st: State, cut: bool, clock: seq<seconds>)
    requires c.Valid() && 0 <= st.sequence <= c.allocator.maxSequence && Ascending(clock)
    requires cut ==> forall t :: t in clock ==> c.Exhausts(t)
    ensures NoReturn(c, st, cut, clock)
    decreases |clock|
  {
    if |clock| > 0 {
      var r := Next(c, st, clock);
      LaterReadings(clock, r.used);
      if r.outcome.SpinExhausted? { RestExhausted(c, st, clock); }
      hide Next, Ascending, Config.Exhausts, Allocator.Valid;
      AscendingNoReturn(c, r.state, r.outcome.SpinExhausted? || (cut && !r.outcome.Issued?), clock[r.used..]);
    }
  }

  lemma LaterReadings(clock: seq<seconds>, k: nat)
    requires Ascending(clock) && 0 < k <= |clock|
    ensures Ascending(clock[k..]) && clock[0] in clock && forall t :: t in clock[k..] ==> t in clock && clock[k - 1] <= t
  {
    var rest := clock[k..];
    forall t | t in rest ensures t in clock && clock[k - 1] <= t {
      var i :| 0 <= i < |rest| && rest[i] == t;
      assert rest[i] == clock[k + i];
    }
  }

  lemma RestExhausted(c: Config, st: State, clock: seq<seconds>)
    requires c.Valid() && 0 <= st.sequence <= c.allocator.maxSequence && Ascending(clock) && |clock| > 0
    requires Next(c, st, clock).outcome.SpinExhausted?
    ensures forall t :: t in clock[Next(c, st, clock).used..] ==> c.Exhausts(t)
  {
    hide Ascending, Allocator.Valid, Spin;
    SpinExhausts(c, clock[0], clock[1..]);
    LaterReadings(clock, Next(c, st, clock).used);
  }

  /** A cut-short wait ends with an exhausted reading. */
  lemma {:induction false} SpinExhausts(c: Config, last: seconds, clock: seq<seconds>)
    ensures var r := Spin(c, last, clock);
            r.outcome.SpinExhausted? ==> r.used > 0 && c.Exhausts(clock[r.used - 1])
  {
    if |clock| > 0 && !c.Exhausts(clock[0]) && clock[0] <= last { SpinExhausts(c, last, clock[1..]); }
  }

  lemma {:induction false} SpinInRange(c: Config, last: seconds, clock: seq<seconds>)
    requires forall t :: t in clock ==> !c.Exhausts(t)
    ensures !Spin(c, last, clock).outcome.SpinExhausted?
  {
    if |clock| > 0 {
      assert clock[0] in clock;
      SpinInRange(c, last, clock[1..]);
    }
  }

  /** Nor does a clock whose readings all lie within the timestamp range, in whatever order. */
  lemma {:induction false} InRangeNoReturn(c: Config, st: State, clock: seq<seconds>)
    requires c.Valid() && 0 <= st.sequence <= c.allocator.maxSequence
    requires forall t :: t in clock ==> !c.Exhausts(t)
    ensures NoReturn(c, st, false, clock)
    decreases |clock|
  {
    if |clock| > 0 {
      var r := Next(c, st, clock);
      assert clock[0] in clock;
      SpinInRange(c, clock[0], clock[1..]);
      InRangeNoReturn(c, r.state, clock[r.used..]);
    }
  }

  /** So ids strictly increase on every clock that never goes back, and on every clock that stays
      in range. */
  lemma SteadyClockIncreases(c: Config, clock: seq<seconds>)
    requires c.Valid() && (Ascending(clock) || forall t :: t in clock ==> !c.Exhausts(t))
    ensures Increasing(Run(c, INITIAL, clock))
  {
    if Ascending(clock) {
      AscendingNoReturn(c, INITIAL, false, clock);
    } else {
      InRangeNoReturn(c, INITIAL, clock);
    }
    RunIncreasingIff(c, clock);
  }

  /** Within one second the sequences issued are a contiguous prefix from 0: an id with a
      positive sequence directly follows the id with the previous one. */
  lemma {:induction false} ContiguousPrefix(prev: (int, int), issued: seq<(seconds, long)>, j: nat)
    requires Chain(prev, issued) && j < |issued| && issued[j].1 > 0
    ensures if j > 0 then issued[j - 1] == (issued[j].0, issued[j].1 - 1)
            else prev == (issued[j].0, issued[j].1 - 1)
    decreases j
  {
    if j > 0 { ContiguousPrefix(issued[0], issued[1..], j - 1); }
  }

  lemma RunContiguous(c: Config, clock: seq<seconds>, j: nat)
    requires c.Valid() && NoReturn(c, INITIAL, false, clock)
    requires forall t :: t in clock ==> t >= 0
    requires j < |Run(c, INITIAL, clock)| && Run(c, INITIAL, clock)[j].1 > 0
    ensures j > 0 && Run(c, INITIAL, clock)[j - 1]
                     == (Run(c, INITIAL, clock)[j].0, Run(c, INITIAL, clock)[j].1 - 1)
  {
    RunChain(c, INITIAL, false, clock, (-1, 0));
    ContiguousPrefix((-1, 0), Run(c, INITIAL, clock), j);
    IssuedInRange(c, INITIAL, clock, j);
  }

  /** Every issued second is one of the readings and within the timestamp range. */
  lemma {:induction false} IssuedInRange(c: Config, st: State, clock: seq<seconds>, j: nat)
    requires c.Valid() && 0 <= st.sequence <= c.allocator.maxSequence
    requires j < |Run(c, st, clock)|
    ensures var p := Run(c, st, clock)[j];
            p.0 in clock && !c.Exhausts(p.0) && 0 <= p.1 <= c.allocator.maxSequence
    decreases |clock|
  {
    var r := Next(c, st, clock);
    if r.outcome.Issued? { NextReading(c, st, clock); }
    if r.outcome.Issued? && j > 0 {
      IssuedInRange(c, r.state, clock[r.used..], j - 1);
    } else if !r.outcome.Issued? {
      IssuedInRange(c, r.state, clock[r.used..], j);
    }
  }

  lemma NextReading(c: Config, st: State, clock: seq<seconds>)
    requires c.Valid() && 0 <= st.sequence <= c.allocator.maxSequence
    requires Next(c, st, clock).outcome.Issued?
    ensures Next(c, st, clock).outcome.second in clock && !c.Exhausts(Next(c, st, clock).outcome.second)
  {
    if clock[0] == st.lastSecond && st.sequence == c.allocator.maxSequence {
      SpinReading(c, clock[0], clock[1..]);
    }
  }

  lemma {:induction false} SpinReading(c: Config, last: seconds, clock: seq<seconds>)
    requires Spin(c, last, clock).outcome.Issued?
    ensures Spin(c, last, clock).outcome.second in clock && !c.Exhausts(Spin(c, last, clock).outcome.second)
  {
    if !c.Exhausts(clock[0]) && clock[0] <= last { SpinReading(c, last, clock[1..]); }
  }

  /** The longs themselves are strictly increasing on such a run, as long as the clock is never
      so far before the epoch that the delta no longer fits its field. */
  lemma RunUidsIncreasing(c: Config, clock: seq<seconds>, i: nat, j: nat)
    requires c.Valid() && NoReturn(c, INITIAL, false, clock)
    requires forall t :: t in clock ==> t - c.epochSeconds >= -1 - c.allocator.maxDeltaSeconds
    requires i < j < |Run(c, INITIAL, clock)|
    ensures var issued := Run(c, INITIAL, clock);
            c.Uid(issued[i].0, issued[i].1) < c.Uid(issued[j].0, issued[j].1)
  {
    hide Allocator.Allocate, Run, NoReturn, Chain;
    var issued := Run(c, INITIAL, clock);
    RunChain(c, INITIAL, false, clock, (-1, 0));
    ChainSorted((-1, 0), issued, i, j);
    IssuedInRange(c, INITIAL, clock, i);
    IssuedInRange(c, INITIAL, clock, j);
    var p, q := issued[i], issued[j];
    AllocateOrder(c.allocator, p.0 - c.epochSeconds, c.workerId, p.1, q.0 - c.epochSeconds, c.workerId, q.1);
  }

  /** Generators with distinct worker ids never issue the same long, on any two runs. */
  lemma DistinctWorkersNeverCollide(c: Config, d: Config, clock1: seq<seconds>, clock2: seq<seconds>, i: nat, j: nat)
    requires c.Valid() && d.Valid() && c.allocator == d.allocator && c.epochSeconds == d.epochSeconds
    requires c.workerId != d.workerId
    requires forall t :: t in clock1 || t in clock2 ==> t - c.epochSeconds >= -1 - c.allocator.maxDeltaSeconds
    requires i < |Run(c, INITIAL, clock1)| && j < |Run(d, INITIAL, clock2)|
    ensures var (p, q) := (Run(c, INITIAL, clock1)[i], Run(d, INITIAL, clock2)[j]);
            c.Uid(p.0, p.1) != d.Uid(q.0, q.1)
  {
    hide Allocator.Allocate, Run;
    IssuedInRange(c, INITIAL, clock1, i);
    IssuedInRange(d, INITIAL, clock2, j);
    var p, q := Run(c, INITIAL, clock1)[i], Run(d, INITIAL, clock2)[j];
    AllocateOrder(c.allocator, p.0 - c.epochSeconds, c.workerId, p.1, q.0 - c.epochSeconds, d.workerId, q.1);
  }

  /** A concrete run that repeats an id: one bit of sequence, seconds 0 to 3. The wait of the
      third call is cut short by the reading 4, then the clock steps back to second 1. */
  lemma ReturnExample(c: Config)
    requires c.Valid() && c.epochSeconds == 0
    requires c.allocator.maxDeltaSeconds == 3 && c.allocator.maxSequence == 1
    ensures Run(c, INITIAL, [1, 1, 1, 4, 1]) == [(1, 0), (1, 1), (1, 1)]
  {
    assert [1, 1, 1, 4, 1][1..] == [1, 1, 4, 1];
    assert [1, 1, 4, 1][1..] == [1, 4, 1];
    var wait: seq<seconds> := [4, 1];
    assert [1, 4, 1][1..] == wait;
    assert Spin(c, 1, wait) == Call(State(0, 1), SpinExhausted(4), 1);
    assert Next(c, State(1, 1), [1, 4, 1]) == Call(State(0, 1), SpinExhausted(4), 2);
    assert [1, 4, 1][2..] == [1];
    assert Next(c, State(0, 1), [1]) == Call(State(1, 1), Issued(1, 1), 1);
    assert Run(c, State(0, 1), [1]) == [(1, 1)] + Run(c, State(1, 1), []);
  }
}

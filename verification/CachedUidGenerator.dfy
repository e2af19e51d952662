/** The cached generator: ids are made one second at a time, ahead of the clock, and kept in the
    ring. Here one thread runs at a time; a triggered padding runs inside the take, later, or
    never. Interleavings are in ConcurrentUid. */
module CachedUidGenerator {
  import opened Bits
  import opened Common
  import opened JavaLong
  import opened BitsAllocator
  import opened DefaultUidGenerator
  import opened RingBuffer

  /** An id by its fields. */
  type Id = (int, long)

  function SecondSize(c: Config): (n: nat)
    requires c.Valid()
    ensures n == Pow2(c.allocator.sequenceBits) && n >= 2
  {
    MaxSequencePositive(c.allocator);
    c.allocator.maxSequence + 1
  }

  /** How many ids k seconds hold, and how many whole seconds n ids span. */
  function IdsIn(c: Config, k: nat): (n: nat)
    requires c.Valid()
  {
    MulMono(0, k, SecondSize(c));
    k * SecondSize(c)
  }

  function SecondsIn(c: Config, n: nat): (k: nat)
    requires c.Valid()
  {
    DivLe(n, SecondSize(c));
    n / SecondSize(c)
  }

  lemma SecondsCount(c: Config, k: nat, j: nat)
    requires c.Valid() && j < SecondSize(c)
    ensures SecondsIn(c, IdsIn(c, k) + j) == k && (IdsIn(c, k) + j) % SecondSize(c) == j
    ensures IdsIn(c, k + 1) == IdsIn(c, k) + SecondSize(c)
  {
    DivModUnique(IdsIn(c, k) + j, SecondSize(c), k, j);
    MulDist(k, 1, SecondSize(c));
  }

  /** The i-th id counted from the start of a second, when seconds follow without gaps. */
  function IdAt(c: Config, start: int, i: nat): Id
    requires c.Valid()
  {
    (start + SecondsIn(c, i), i % SecondSize(c))
  }

  /** It starts with sequence 0, counts through the second, and goes on with the next one. */
  lemma IdAtNext(c: Config, start: int, i: nat)
    requires c.Valid()
    ensures IdAt(c, start, 0) == (start, 0) && 0 <= IdAt(c, start, i).1 <= c.allocator.maxSequence
    ensures var (second, k) := IdAt(c, start, i);
            IdAt(c, start, i + 1) == if k < c.allocator.maxSequence then (second, k + 1) else (second + 1, 0)
  {
    hide SecondSize, IdsIn;
    SizeIsMax(c);
    SecondsCount(c, 0, 0);
    var size, k, j := SecondSize(c), SecondsIn(c, i), i % SecondSize(c);
    assert IdsIn(c, 0) == 0 && i == IdsIn(c, k) + j by { CountsOf(c, i); }
    SecondsCount(c, k, j);
    if j + 1 < size { SecondsCount(c, k, j + 1); } else { SecondsCount(c, k + 1, 0); }
  }

  lemma SizeIsMax(c: Config)
    requires c.Valid()
    ensures SecondSize(c) == c.allocator.maxSequence + 1
  {
  }

  lemma CountsOf(c: Config, i: nat)
    requires c.Valid()
    ensures IdsIn(c, 0) == 0 && i == IdsIn(c, SecondsIn(c, i)) + i % SecondSize(c)
  {
    hide SecondSize;
  }

  function Stream(c: Config, start: int, n: nat): (ids: seq<Id>)
    requires c.Valid()
    ensures |ids| == n
  {
    seq(n, i requires 0 <= i < n => IdAt(c, start, i))
  }

  function UidOf(c: Config, id: Id): long {
    c.Uid(id.0, id.1)
  }

  function Uids(c: Config, ids: seq<Id>): (uids: seq<long>)
    ensures |uids| == |ids|
  {
    seq(|ids|, i requires 0 <= i < |ids| => UidOf(c, ids[i]))
  }

  /** The state a user of the generator can tell apart: queued ids, whether a take has happened
      (the ring then holds one id less), and the last second paid out. */
  datatype Model = Model(queue: seq<Id>, started: bool, lastSecond: int) {
    ghost function Room(size: nat): int {
      (if started then size - 1 else size) - |queue|
    }
  }

  /** Padding fills the ring with consecutive ids from the second after the last one, and
      drops the rest of the second it stops in (a whole one if it stops at a boundary). */
  ghost function Padded(c: Config, size: nat, m: Model): Model
    requires c.Valid() && m.Room(size) >= 0
  {
    var room := m.Room(size);
    Model(m.queue + Stream(c, m.lastSecond + 1, room), m.started, m.lastSecond + SecondsIn(c, room) + 1)
  }

  lemma PaddedIs(c: Config, size: nat, m: Model, room: nat)
    requires c.Valid() && m.Room(size) == room
    ensures Padded(c, size, m)
         == Model(m.queue + Stream(c, m.lastSecond + 1, room), m.started, m.lastSecond + SecondsIn(c, room) + 1)
  {
  }

  /** A take: claim, then padding if triggered and run at once, then the id or a rejection. */
  ghost function Taken(c: Config, size: nat, threshold: int, m: Model, padNow: bool): (Model, Option<Id>)
    requires c.Valid() && 0 <= m.Room(size) && size >= 2
  {
    var claimed := if m.queue == [] then m else m.(queue := m.queue[1..], started := true);
    (if padNow && |claimed.queue| < threshold then Padded(c, size, claimed) else claimed,
     if m.queue == [] then None else Some(m.queue[0]))
  }

  /** What a take leaves: the queue without its head; behind it, if fewer ids than the threshold are
      left and the padding runs at once, the ids from the next second on, up to the ring's size
      (one less once an id has been taken), with the second it stopped in spent. */
  lemma TakenIs(c: Config, size: nat, threshold: int, m: Model, padNow: bool)
    requires c.Valid() && 0 <= m.Room(size) && size >= 2
    ensures var left, taken := if m.queue == [] then [] else m.queue[1..], m.started || m.queue != [];
            var more := (if taken then size - 1 else size) - |left|;
            && more >= 0
            && Taken(c, size, threshold, m, padNow)
               == (if padNow && |left| < threshold then
                     Model(left + Stream(c, m.lastSecond + 1, more), taken, m.lastSecond + 1 + SecondsIn(c, more))
                   else Model(left, taken, m.lastSecond),
                   if m.queue == [] then None else Some(m.queue[0]))
  {
    hide Stream, SecondsIn;
  }

  /** The list size nextIdsForOneSecond computes in ints, when it does not wrap. */
  lemma ListSize(c: Config)
    requires c.Valid() && c.allocator.sequenceBits <= 30
    ensures WrapInt(WrapInt(c.allocator.maxSequence) + 1) == SecondSize(c) <= 0x4000_0000
  {
    hide WrapInt, Pow2;
    Pow2Mono(c.allocator.sequenceBits, 30);
    Pow2Words();
    Pow2Step(30);
  }

  lemma UidAtOffset(c: Config, second: int, i: nat)
    requires c.Valid() && i < SecondSize(c)
    ensures i <= c.allocator.maxSequence
    ensures Add(c.allocator.Allocate(WrapLong(second - c.epochSeconds), c.workerId, 0), i) == UidOf(c, (second, i))
  {
    hide Allocator.Allocate, Pow2, Add, WrapLong;
    AllocateOffset(c.allocator, WrapLong(second - c.epochSeconds), c.workerId, i);
  }

  class BufferPaddingExecutor {
    var running: bool
    var lastSecond: int
    const ring: RingBuffer
    const config: Config

    constructor (ring: RingBuffer, config: Config, now: int)
      ensures !running && lastSecond == now && this.ring == ring && this.config == config
    {
      running := false;
      lastSecond := now;
      this.ring := ring;
      this.config := config;
    }

    /** nextIdsForOneSecond: the first id plus an offset is the id at that offset. */
    method Provide(currentSecond: int) returns (uids: seq<long>)
      requires config.Valid() && config.allocator.sequenceBits <= 30
      ensures |uids| == SecondSize(config)
      ensures forall i :: 0 <= i < |uids| ==> uids[i] == UidOf(config, (currentSecond, i))
    {
      hide UidOf, SecondSize, Allocator.Allocate, WrapInt, Pow2, Add, WrapLong, Config.Valid;
      var a := config.allocator;
      ListSize(config);
      var listSize := WrapInt(WrapInt(a.maxSequence) + 1);
      var firstSeqUid := a.Allocate(WrapLong(currentSecond - config.epochSeconds), config.workerId, 0);
      uids := [];
      for offset := 0 to listSize
        invariant |uids| == offset
        invariant forall i :: 0 <= i < offset ==> uids[i] == UidOf(config, (currentSecond, i))
      {
        UidAtOffset(config, currentSecond, offset);
        uids := uids + [Add(firstSeqUid, offset)];
      }
    }

    /** paddingBuffer fills all the room there is and terminates; a padding that finds another
        one running does nothing. */
    method PaddingBuffer()
      requires config.Valid() && config.allocator.sequenceBits <= 30 && ring.Valid()
      modifies this, ring`tail, ring`puts, ring.slots, ring.flags
      ensures ring.Valid() && running == old(running)
      ensures ring.unread ==> ring.Pending() == old(ring.Pending())
      ensures old(running) ==>
        && lastSecond == old(lastSecond)
        && ring.Queue() == old(ring.Queue()) && ring.Room() == old(ring.Room())
      ensures !old(running) ==>
        && ring.Queue() == old(ring.Queue()) + Uids(config, Stream(config, old(lastSecond) + 1, old(ring.Room())))
        && ring.Room() == 0
        && lastSecond == old(lastSecond) + SecondsIn(config, old(ring.Room())) + 1
    {
      hide UidOf, Stream, Uids, SecondSize, IdsIn, SecondsIn, Pow2, Extends, Suffix;
      hide RingBuffer.Valid, RingBuffer.Room, RingBuffer.Queue, RingBuffer.Pending;
      ring.Counts();
      ring.QueueIs();
      if running { return; }
      running := true;
      ghost var start, room, was := lastSecond, ring.Room(), ring.puts;
      var isFullRingBuffer := false;
      ghost var n: nat := 0; // ids put so far
      ExtendsStart(config, was, start + 1);
      while !isFullRingBuffer
        invariant ring.Valid() && running && n + ring.Room() == room
        invariant Extends(config, was, start + 1, n, ring.puts)
        invariant lastSecond >= start
        invariant !isFullRingBuffer ==> n == IdsIn(config, lastSecond - start)
        invariant isFullRingBuffer ==> ring.Room() == 0 && lastSecond == start + SecondsIn(config, n) + 1
        decreases !isFullRingBuffer, ring.Room()
      {
        ghost var k: nat := lastSecond - start;
        lastSecond := lastSecond + 1;
        var uidList := Provide(lastSecond);
        var j := 0;
        while j < |uidList| && !isFullRingBuffer
          invariant 0 <= j <= |uidList| && ring.Valid() && running
          invariant lastSecond == start + k + 1 && n + ring.Room() == room && n == IdsIn(config, k) + j
          invariant Extends(config, was, start + 1, n, ring.puts)
          invariant isFullRingBuffer ==> ring.Room() == 0 && j < |uidList|
          decreases |uidList| - j, !isFullRingBuffer
        {
          var ok := ring.Put(uidList[j]);
          isFullRingBuffer := !ok;
          if ok {
            ExtendsNext(config, was, start + 1, n, ring.puts[..|ring.puts| - 1], k, j);
            n := n + 1;
            j := j + 1;
          }
        }
        SecondsCount(config, k, if isFullRingBuffer then j else 0);
      }
      running := false;
      ring.QueueIs();
      ExtendsEnd(config, was, start + 1, room, ring.puts, ring.cursor);
    }
  }

  /** `puts` is `was` and the first n ids from second `start` on. */
  ghost predicate Extends(c: Config, was: seq<long>, start: int, n: nat, puts: seq<long>)
    requires c.Valid()
  {
    puts == was + Uids(c, Stream(c, start, n))
  }

  lemma ExtendsStart(c: Config, was: seq<long>, start: int)
    requires c.Valid()
    ensures Extends(c, was, start, 0, was) && IdsIn(c, 0) == 0
  {
  }

  /** The n-th id belongs to the k-th second, at offset j. */
  lemma ExtendsNext(c: Config, was: seq<long>, start: int, n: nat, puts: seq<long>, k: nat, j: long)
    requires c.Valid() && 0 <= j < SecondSize(c) && n == IdsIn(c, k) + j
    requires Extends(c, was, start, n, puts)
    ensures Extends(c, was, start, n + 1, puts + [UidOf(c, (start + k, j))])
  {
    hide UidOf, SecondSize, IdsIn;
    SecondsCount(c, k, j);
    assert IdAt(c, start, n) == (start + k, j);
    assert Stream(c, start, n + 1) == Stream(c, start, n) + [(start + k, j)];
    UidsAppend(c, Stream(c, start, n), [(start + k, j)]);
  }

  lemma ExtendsEnd(c: Config, was: seq<long>, start: int, n: nat, puts: seq<long>, cursor: int)
    requires c.Valid() && Extends(c, was, start, n, puts) && -1 <= cursor < |was|
    ensures Suffix(puts, cursor + 1) == Suffix(was, cursor + 1) + Uids(c, Stream(c, start, n))
    ensures cursor >= 0 ==> puts[cursor] == was[cursor]
  {
    SuffixAppend(was, Uids(c, Stream(c, start, n)), cursor + 1);
  }

  lemma StreamUid(c: Config, start: int, n: nat, i: nat)
    requires c.Valid() && i < n
    ensures Uids(c, Stream(c, start, n))[i] == UidOf(c, IdAt(c, start, i))
  {
    hide UidOf, IdAt;
  }

  lemma UidsTail(c: Config, ids: seq<Id>)
    requires ids != []
    ensures Uids(c, ids)[0] == UidOf(c, ids[0]) && Uids(c, ids[1..]) == Uids(c, ids)[1..]
  {
    hide UidOf;
  }

  lemma UidsAppend(c: Config, a: seq<Id>, b: seq<Id>)
    ensures Uids(c, a + b) == Uids(c, a) + Uids(c, b)
  {
    hide UidOf;
  }

  /** Java's shift of an int: the count is taken modulo 32. */
  function ShiftInt(x: int, k: nat): int { WrapInt(x * Pow2(k % 32)) }

  /** initRingBuffer's size: maxSequence + 1 shifted by the boost, in ints. */
  function BufferSize(c: Config, boostPower: nat): int {
    ShiftInt(WrapInt(WrapInt(c.allocator.maxSequence) + 1), boostPower)
  }

  /** The widths for which the int arithmetic gives a buffer. */
  predicate Fits(c: Config, boostPower: nat) {
    c.allocator.sequenceBits + boostPower % 32 <= 30
  }

  /** Then it is the number of ids in 2^(boostPower mod 32) seconds; else it is not positive. */
  lemma BufferSizeValue(c: Config, boostPower: nat)
    requires c.Valid()
    ensures var size, b := BufferSize(c, boostPower), boostPower % 32;
            if Fits(c, boostPower)
            then size == Pow2(c.allocator.sequenceBits + b) == IdsIn(c, Pow2(b)) && 2 <= size <= 0x4000_0000
            else size <= 0
  {
    hide Pow2, IdsIn, WrapInt;
    var s, b := c.allocator.sequenceBits, boostPower % 32;
    ShiftedSize(c, b);
    FirstSize(s);
    ShiftedSmall(s, b);
    ShiftedTop(b);
    WrapSmall();
  }

  /** Shifting a power of two that an int holds. */
  lemma ShiftedSmall(s: nat, b: nat)
    requires 1 <= s
    ensures s <= 30 ==> WrapInt(Pow2(s) * Pow2(b)) == if s + b <= 30 then Pow2(s + b) else if s + b == 31 then -0x8000_0000 else 0
    ensures s + b <= 30 ==> 2 <= Pow2(s + b) <= 0x4000_0000
  {
    hide Pow2, WrapInt;
    Pow2Add(s, b);
    WrapPower(s + b);
    if s + b <= 30 {
      Pow2Mono(1, s + b);
      Pow2Mono(s + b, 30);
      Pow2Words();
      Pow2Step(30);
      Pow2Step(0);
      PowZero();
    }
  }

  lemma PowZero()
    ensures Pow2(0) == 1
  {
  }

  /** Shifting the smallest int. */
  lemma ShiftedTop(b: nat)
    ensures WrapInt(-0x8000_0000 * Pow2(b)) == if b == 0 then -0x8000_0000 else 0
    ensures WrapInt(0 * Pow2(b)) == 0
  {
    hide Pow2, WrapInt;
    Pow2Words();
    Pow2Add(31, b);
    WrapPower(31 + b);
    MulDist(0, 0x8000_0000, Pow2(b));
    MulMono(0, 0, Pow2(b));
    WrapSmall();
  }

  /** (int) maxSequence + 1 */
  lemma FirstSize(s: nat)
    requires 1 <= s
    ensures var x := WrapInt(WrapInt(Pow2(s) - 1) + 1);
            x == if s <= 30 then Pow2(s) else if s == 31 then -0x8000_0000 else 0
  {
    hide Pow2;
    Pow2Words();
    if s <= 31 {
      Pow2Mono(s, 31);
      if s <= 30 {
        Pow2Mono(s, 30);
        Pow2Step(30);
      }
    } else {
      PowerOfWords(s);
    }
  }

  lemma PowerOfWords(e: nat)
    requires e >= 32
    ensures Pow2(e) % 0x1_0000_0000 == 0 && (Pow2(e) - 1) % 0x1_0000_0000 == 0xFFFF_FFFF
    ensures (0 - Pow2(e)) % 0x1_0000_0000 == 0
  {
    hide Pow2;
    Pow2Words();
    Pow2Add(e - 32, 32);
    var q: int := Pow2(e - 32);
    DivModUnique(Pow2(e), 0x1_0000_0000, q, 0);
    DivModUnique(Pow2(e) - 1, 0x1_0000_0000, q - 1, 0xFFFF_FFFF);
    DivModUnique(0 - Pow2(e), 0x1_0000_0000, 0 - q, 0);
  }

  lemma WrapPower(e: nat)
    ensures WrapInt(Pow2(e)) == if e <= 30 then Pow2(e) else if e == 31 then -0x8000_0000 else 0
    ensures e >= 31 ==> WrapInt(0 - Pow2(e)) == if e == 31 then -0x8000_0000 else 0
  {
    hide Pow2;
    Pow2Words();
    if e <= 30 {
      Pow2Mono(e, 30);
      Pow2Step(30);
    } else if e >= 32 {
      PowerOfWords(e);
    }
  }

  lemma WrapSmall()
    ensures WrapInt(0) == 0
  {
  }

  lemma ShiftedSize(c: Config, boostPower: nat)
    requires c.Valid()
    ensures SecondSize(c) * Pow2(boostPower) == Pow2(c.allocator.sequenceBits + boostPower) == IdsIn(c, Pow2(boostPower))
  {
    hide Pow2;
    Pow2Add(c.allocator.sequenceBits, boostPower);
  }

  /** The threshold is the stated percentage of the size exactly when the int product of size and
      factor does not wrap. */
  lemma ThresholdValue(size: nat, factor: nat)
    ensures 0 <= size * factor
    ensures TruncDiv(WrapInt(size * factor), 100) == size * factor / 100 <==> size * factor < 0x8000_0000
  {
    MulMono(0, size, factor);
    ThresholdOf(size * factor);
  }

  lemma ThresholdOf(x: nat)
    ensures TruncDiv(WrapInt(x), 100) == x / 100 <==> x < 0x8000_0000
  {
    if x >= 0x8000_0000 {
      var u := x % 0x1_0000_0000;
      if u < 0x8000_0000 {
        assert x >= u + 0x1_0000_0000;
        assert x / 100 >= u / 100 + 0x1_0000_0000 / 100;
      } else {
        assert WrapInt(x) < 0;
        assert x / 100 > 0;
        assert TruncDiv(WrapInt(x), 100) <= 0;
      }
    }
  }

  /** The int product of size and factor may wrap; the threshold is positive exactly when what is
      left of it is at least 100. */
  lemma ThresholdPositiveIff(size: nat, factor: nat)
    ensures 0 <= size * factor
    ensures TruncDiv(WrapInt(size * factor), 100) >= 1 <==> 100 <= size * factor % 0x1_0000_0000 < 0x8000_0000
  {
    MulMono(0, size, factor);
  }

  class CachedUidGenerator {
    const config: Config
    const boostPower: nat
    const ringBuffer: RingBuffer
    const bufferPaddingExecutor: BufferPaddingExecutor

    /** The fields of the queued ids. */
    ghost var ids: seq<Id>

    /** Between calls, no claimed id waits to be read. */
    ghost predicate Valid()
      reads this, ringBuffer, ringBuffer.slots, ringBuffer.flags, bufferPaddingExecutor
    {
      Consistent() && !ringBuffer.unread
    }

    ghost predicate Consistent()
      reads this, ringBuffer, ringBuffer.slots, ringBuffer.flags, bufferPaddingExecutor
    {
      && config.Valid() && Fits(config, boostPower)
      && ringBuffer.Valid() && ringBuffer.bufferSize == BufferSize(config, boostPower) >= 2
      && ringBuffer.Queue() == Uids(config, ids)
      && bufferPaddingExecutor.ring == ringBuffer && bufferPaddingExecutor.config == config
      && !bufferPaddingExecutor.running
    }

    ghost function Contents(): Model
      reads this, ringBuffer, bufferPaddingExecutor
    {
      Model(ids, ringBuffer.cursor >= 0, bufferPaddingExecutor.lastSecond)
    }

    /** The state that initRingBuffer leaves. */
    ghost predicate Started(paddingFactor: int, now: int)
      reads this, ringBuffer, ringBuffer.slots, ringBuffer.flags, bufferPaddingExecutor
    {
      && Valid()
      && ringBuffer.paddingThreshold == TruncDiv(WrapInt(ringBuffer.bufferSize * paddingFactor), 100)
      && Contents() == Model(Stream(config, now + 1, ringBuffer.bufferSize), false, now + Pow2(boostPower % 32) + 1)
      && forall i :: 0 <= i < ringBuffer.bufferSize ==>
           && i < ringBuffer.slots.Length
           && ringBuffer.slots[i] == UidOf(config, IdAt(config, now + 1, i))
    }

    constructor (c: Config, boost: nat, ring: RingBuffer, executor: BufferPaddingExecutor)
      ensures config == c && boostPower == boost && ringBuffer == ring && bufferPaddingExecutor == executor
    {
      config, boostPower, ringBuffer, bufferPaddingExecutor := c, boost, ring, executor;
    }

    /** initRingBuffer: throws (None) exactly when the int arithmetic gives no positive size or the
        padding factor is out of range. Else the empty ring is padded from the current second;
        slot i then holds the i-th id after it, which makes 2^(boost mod 32) seconds, and one more
        second is spent. */
    static method Init(c: Config, boost: nat, paddingFactor: int, now: int) returns (r: Option<CachedUidGenerator>)
      requires c.Valid()
      ensures r.Some? <==> Fits(c, boost) && 0 < paddingFactor < 100
      ensures r.Some? ==> r.value.config == c && r.value.boostPower == boost && r.value.Started(paddingFactor, now)
      ensures r.Some? ==> fresh(r.value) && fresh(r.value.ringBuffer) && fresh(r.value.bufferPaddingExecutor)
      ensures r.Some? ==> fresh(r.value.ringBuffer.slots) && fresh(r.value.ringBuffer.flags)
    {
      hide UidOf, IdAt, SecondSize, IdsIn, SecondsIn, Pow2, Uids, Stream, BufferSize, BitCount;
      hide RingBuffer.Valid, RingBuffer.Room, RingBuffer.Queue, RingBuffer.Pending;
      BufferSizeValue(c, boost);
      var size := BufferSize(c, boost);
      if !(size > 0) { return None; }
      Pow2BitCount(c.allocator.sequenceBits + boost % 32);
      if BitCount(size) != 1 {
        assert false;
        return None;
      }
      if !(paddingFactor > 0 && paddingFactor < 100) { return None; }
      var ring := new RingBuffer(size, paddingFactor);
      var executor := new BufferPaddingExecutor(ring, c, now);
      ghost var first := Stream(c, now + 1, ring.bufferSize);
      ring.Counts();
      SecondsCount(c, Pow2(boost % 32), 0);
      executor.PaddingBuffer();
      ring.Counts();
      assert ring.Queue() == Uids(c, first);
      forall i | 0 <= i < ring.bufferSize
        ensures i < ring.slots.Length && ring.slots[i] == UidOf(c, IdAt(c, now + 1, i))
      {
        ring.SlotHolds(i);
        StreamUid(c, now + 1, ring.bufferSize, i);
      }
      var g := new CachedUidGenerator(c, boost, ring, executor);
      g.ids := first;
      r := Some(g);
    }

    /** A padding run from outside a take (the schedule, or a delayed trigger). */
    method Pad()
      requires Valid()
      modifies this, bufferPaddingExecutor, ringBuffer`tail, ringBuffer`puts, ringBuffer.slots, ringBuffer.flags
      ensures Valid() && Contents() == Padded(config, ringBuffer.bufferSize, old(Contents()))
      ensures ringBuffer.Room() == 0
    {
      hide Consistent, Padded, RingBuffer.Valid;
      AsyncPadding();
    }

    /** A padding at any moment, also inside a take: a claimed id stays as it is. */
    method AsyncPadding()
      requires Consistent()
      modifies this, bufferPaddingExecutor, ringBuffer`tail, ringBuffer`puts, ringBuffer.slots, ringBuffer.flags
      ensures Consistent() && Contents() == Padded(config, ringBuffer.bufferSize, old(Contents()))
      ensures ringBuffer.Room() == 0
      ensures ringBuffer.unread ==> ringBuffer.Pending() == old(ringBuffer.Pending())
    {
      hide UidOf, Stream, Uids, SecondSize, IdsIn, SecondsIn, Pow2, RingBuffer.Valid, RingBuffer.Queue, RingBuffer.Room, RingBuffer.Pending;
      hide BufferSize;
      hide Padded;
      ringBuffer.Counts();
      PaddedIs(config, ringBuffer.bufferSize, Contents(), ringBuffer.Room());
      ghost var more := Stream(config, bufferPaddingExecutor.lastSecond + 1, ringBuffer.Room());
      bufferPaddingExecutor.PaddingBuffer();
      UidsAppend(config, ids, more);
      ids := ids + more;
      ringBuffer.Counts();
    }

    /** getUID: take from the ring; None stands for the rejection exception. */
    method GetUid(padNow: bool) returns (r: Option<long>)
      requires Valid()
      modifies this, bufferPaddingExecutor, ringBuffer, ringBuffer.slots, ringBuffer.flags
      ensures Valid()
      ensures r == if old(ids) == [] then None else Some(UidOf(config, old(ids)[0]))
      ensures var (m, id) := Taken(config, ringBuffer.bufferSize, ringBuffer.paddingThreshold, old(Contents()), padNow);
              && Contents() == m
              && r == match id case None => None case Some(p) => Some(UidOf(config, p))
    {
      hide UidOf, Uids, Stream, SecondSize, IdsIn, SecondsIn, Pow2, RingBuffer.Valid, RingBuffer.Queue, RingBuffer.Room, RingBuffer.Pending;
      hide BufferSize, Padded;
      ringBuffer.Counts();
      var c := ringBuffer.ClaimNext();
      if c.advanced {
        UidsTail(config, ids);
        ids := ids[1..];
      }
      ringBuffer.Counts();
      if c.trigger && padNow { AsyncPadding(); }
      if !c.advanced { return None; }
      var uid := ringBuffer.Fetch();
      r := Some(uid);
    }
  }
}

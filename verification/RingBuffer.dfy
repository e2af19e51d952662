/** The ring of pre-generated ids, used from one thread at a time. Sequence numbers of puts and
    takes only grow; sequence s lives in slot s mod bufferSize. The interleaved use is in
    ConcurrentRing. */
module RingBuffer {
  import opened Bits
  import opened Common
  import opened JavaLong

  const CAN_PUT_FLAG := 0
  const CAN_TAKE_FLAG := 1

  /** Integer.bitCount */
  function BitCount(n: nat): nat {
    if n == 0 then 0 else n % 2 + BitCount(n / 2)
  }

  lemma {:induction false} BitCountZero(n: nat)
    ensures BitCount(n) == 0 <==> n == 0
  {
    if n > 0 { BitCountZero(n / 2); }
  }

  /** The constructor's power-of-two test is exact. */
  lemma {:induction false} BitCountOne(n: nat) returns (k: nat)
    requires BitCount(n) == 1
    ensures n == Pow2(k)
  {
    if n % 2 == 1 {
      BitCountZero(n / 2);
      k := 0;
    } else {
      var j := BitCountOne(n / 2);
      k := j + 1;
    }
  }

  lemma {:induction false} Pow2BitCount(k: nat)
    ensures BitCount(Pow2(k)) == 1
  {
    if k > 0 { Pow2BitCount(k - 1); } else { assert BitCount(1) == 1 + BitCount(0); }
  }

  function Slot(s: int, n: nat): (i: nat)
    requires n > 0
    ensures i < n
  {
    s % n
  }

  lemma SlotSmall(s: nat, n: nat)
    requires s < n
    ensures Slot(s, n) == s
  {
    DivModUnique(s, n, 0, s);
  }

  lemma SlotNext(s: int, n: nat)
    requires n > 0
    ensures Slot(s + n, n) == Slot(s, n)
  {
    var q := s / n;
    MulDist(q, 1, n);
    DivModUnique(s + n, n, q + 1, s % n);
  }

  /** Within any window of n consecutive sequence numbers, slots are distinct. */
  lemma SlotUnique(s: int, t: int, n: nat)
    requires n > 0 && s <= t < s + n && Slot(s, n) == Slot(t, n)
    ensures s == t
  {
    var q, p := s / n, t / n;
    MulDist(p, q, n);
    if p - q >= 1 { MulMono(1, p - q, n); } else if p - q <= -1 { MulMono(p - q, -1, n); }
  }

  function Max(a: int, b: int): int { if a < b then b else a }

  /** What a take does before it reads the slot. */
  datatype Claim = Claim(advanced: bool, trigger: bool)

  class RingBuffer {
    const bufferSize: nat
    const indexMask: nat
    const paddingThreshold: int
    const slots: array<long>
    const flags: array<int>
    var tail: int
    var cursor: int

    /** Every id ever put, by sequence number. */
    ghost var puts: seq<long>
    /** Whether the sequence at the cursor is claimed but its slot not yet read. */
    ghost var unread: bool
    ghost const power: nat

    ghost function Low(): int
      reads this
    {
      if unread then cursor else cursor + 1
    }

    ghost predicate Valid()
      reads this, slots, flags
    {
      && bufferSize == Pow2(power) && indexMask == bufferSize - 1
      && slots.Length == bufferSize && flags.Length == bufferSize
      && tail == |puts| - 1 && -1 <= cursor <= tail && (unread ==> cursor >= 0)
      && tail - Max(cursor, 0) <= bufferSize - 1
      && (forall s :: Low() <= s <= tail ==>
            flags[Slot(s, bufferSize)] == CAN_TAKE_FLAG && slots[Slot(s, bufferSize)] == puts[s])
      && (forall s :: tail < s < Low() + bufferSize ==> flags[Slot(s, bufferSize)] == CAN_PUT_FLAG)
    }

    /** The ids still to be claimed, oldest first. */
    ghost function Queue(): seq<long>
      reads this, slots, flags
      requires Valid()
    {
      Suffix(puts, cursor + 1)
    }

    /** The id claimed but not yet read. */
    ghost function Pending(): long
      reads this, slots, flags
      requires Valid() && unread
    {
      puts[cursor]
    }

    /** How many more puts succeed. */
    ghost function Room(): nat
      reads this, slots, flags
      requires Valid()
    {
      bufferSize - 1 - (tail - Max(cursor, 0))
    }

    /** Counting the queue and the room. */
    lemma Counts()
      requires Valid()
      ensures -1 <= cursor <= tail == |puts| - 1 && |Queue()| == tail - cursor
      ensures Room() == bufferSize - 1 - (tail - Max(cursor, 0))
    {
    }

    lemma QueueIs()
      requires Valid()
      ensures -1 <= cursor < |puts| && Queue() == Suffix(puts, cursor + 1)
      ensures unread ==> cursor >= 0 && Pending() == puts[cursor]
    {
    }

    /** Before the first take, slot i holds the i-th queued id. */
    lemma SlotHolds(i: nat)
      requires Valid() && cursor == -1 && i <= tail
      ensures i < slots.Length && i < |Queue()| && slots[i] == Queue()[i]
    {
      SlotSmall(i, bufferSize);
    }

    constructor (size: nat, paddingFactor: nat)
      requires 0 < size < 0x8000_0000 && BitCount(size) == 1 && 0 < paddingFactor < 100
      ensures Valid() && fresh(slots) && fresh(flags)
      ensures bufferSize == size && cursor == -1 && puts == [] && !unread && Room() == size
      ensures paddingThreshold == TruncDiv(WrapInt(size * paddingFactor), 100)
    {
      bufferSize := size;
      indexMask := size - 1;
      paddingThreshold := TruncDiv(WrapInt(size * paddingFactor), 100);
      slots := new long[size](_ => 0);
      flags := new int[size];
      tail := -1;
      cursor := -1;
      puts := [];
      unread := false;
      var k := BitCountOne(size);
      power := k;
      new;
      InitFlags();
    }

    method InitFlags()
      modifies flags
      ensures forall i :: 0 <= i < flags.Length ==> flags[i] == CAN_PUT_FLAG
    {
      for i := 0 to flags.Length
        invariant forall j :: 0 <= j < i ==> flags[j] == CAN_PUT_FLAG
      {
        flags[i] := CAN_PUT_FLAG;
      }
    }

    function CalSlotIndex(sequence: nat): (i: nat)
      reads this, slots, flags
      requires Valid()
      ensures i == Slot(sequence, bufferSize)
    {
      AndMask(sequence, power);
      And(sequence, indexMask)
    }

    /** A put appends to the queue exactly when there is room; a rejected put changes nothing.
        The flag check never rejects when nobody else is inside the ring. */
    method Put(uid: long) returns (ok: bool)
      requires Valid()
      modifies this`tail, this`puts, slots, flags
      ensures Valid() && ok == (old(Room()) > 0)
      ensures ok <==> old(tail) - (if old(cursor) < 0 then 0 else old(cursor)) < bufferSize - 1
      ensures puts == if ok then old(puts) + [uid] else old(puts)
      ensures Queue() == if ok then old(Queue()) + [uid] else old(Queue())
      ensures Room() == if ok then old(Room()) - 1 else 0
    {
      hide Slot, Pow2, Suffix;
      var currentTail := tail;
      var currentCursor := cursor;
      var distance := currentTail - (if currentCursor == -1 then 0 else currentCursor);
      if distance == bufferSize - 1 { return false; }
      var nextTailIndex := CalSlotIndex(currentTail + 1);
      if flags[nextTailIndex] != CAN_PUT_FLAG {
        assert false;
        return false;
      }
      forall s | Low() <= s <= tail ensures Slot(s, bufferSize) != nextTailIndex {
        if Slot(s, bufferSize) == nextTailIndex { SlotUnique(s, tail + 1, bufferSize); }
      }
      forall s | tail + 1 < s < Low() + bufferSize ensures Slot(s, bufferSize) != nextTailIndex {
        if Slot(s, bufferSize) == nextTailIndex { SlotUnique(tail + 1, s, bufferSize); }
      }
      slots[nextTailIndex] := uid;
      flags[nextTailIndex] := CAN_TAKE_FLAG;
      tail := tail + 1;
      SuffixAppend(puts, [uid], cursor + 1);
      puts := puts + [uid];
      ok := true;
    }

    /** The first half of take: advance the cursor unless the ring is empty, and say whether
        the padding threshold is reached. */
    method ClaimNext() returns (c: Claim)
      requires Valid() && !unread
      modifies this`cursor, this`unread
      ensures Valid() && puts == old(puts) && unread == c.advanced
      ensures c.advanced == (old(Queue()) != [])
      ensures Queue() == if c.advanced then old(Queue())[1..] else []
      ensures cursor == if c.advanced then old(cursor) + 1 else old(cursor)
      ensures c.advanced ==> Pending() == old(Queue())[0]
      ensures c.trigger == (|Queue()| < paddingThreshold)
    {
      hide Slot, Pow2, Suffix;
      var currentCursor := cursor;
      if cursor != tail {
        SuffixNext(puts, cursor + 1);
        cursor := cursor + 1;
        unread := true;
      }
      var nextCursor := cursor;
      c := Claim(nextCursor != currentCursor, tail - nextCursor < paddingThreshold);
    }

    /** The second half: read the claimed slot and hand it back to the producer. */
    method Fetch() returns (uid: long)
      requires Valid() && unread
      modifies this`unread, flags
      ensures Valid() && !unread && uid == old(Pending())
      ensures Queue() == old(Queue())
    {
      hide Slot, Pow2, Suffix;
      var index := CalSlotIndex(cursor);
      assert flags[index] == CAN_TAKE_FLAG;
      uid := slots[index];
      forall s | cursor < s < cursor + bufferSize ensures Slot(s, bufferSize) != index {
        if Slot(s, bufferSize) == index { SlotUnique(cursor, s, bufferSize); }
      }
      SlotNext(cursor, bufferSize);
      flags[index] := CAN_PUT_FLAG;
      unread := false;
    }
  }
}

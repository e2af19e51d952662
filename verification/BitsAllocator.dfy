/** The 64-bit layout sign(1) | delta seconds | worker id | sequence. */
module BitsAllocator {
  import opened Bits
  import opened Common
  import opened JavaLong

  datatype Allocator = Allocator(
    timestampBits: nat, workerIdBits: nat, sequenceBits: nat,
    maxDeltaSeconds: long, maxWorkerId: long, maxSequence: long,
    timestampShift: nat, workerIdShift: nat)
  {
    /** The three fields side by side, as the source computes them. */
    function Allocate(deltaSeconds: long, workerId: long, sequence: long): long {
      LongOr(LongOr(Shl(deltaSeconds, timestampShift), Shl(workerId, workerIdShift)), sequence)
    }

    /** The three shift expressions of parseUID: (delta seconds, worker id, sequence). */
    function Parse(uid: long): (long, long, long)
      requires workerIdBits <= 64 && sequenceBits <= 64
    {
      (Ushr(uid, workerIdBits + sequenceBits),
       Ushr(Shl(uid, timestampBits + 1), 64 - workerIdBits),
       Ushr(Shl(uid, 64 - sequenceBits), 64 - sequenceBits))
    }

    /** The fields as digits of one positional number (the delta may be negative). */
    function Pack(d: int, w: int, s: int): int {
      var hi := d * Pow2(workerIdBits) + w;
      hi * Pow2(sequenceBits) + s
    }

    /** The delta as it survives the shift: its low timestampBits + 1 bits, read as a two's
        complement number because the top one lands on the sign bit. */
    function WrapDelta(d: int): int {
      var m := d % Pow2(timestampBits + 1);
      if m < Pow2(timestampBits) then m else m - Pow2(timestampBits + 1)
    }

    /** What the constructor establishes. */
    ghost predicate Valid() {
      && timestampBits + workerIdBits + sequenceBits == 63
      && maxDeltaSeconds == Pow2(timestampBits) - 1
      && maxWorkerId == Pow2(workerIdBits) - 1
      && maxSequence == Pow2(sequenceBits) - 1
      && timestampShift == workerIdBits + sequenceBits
      && workerIdShift == sequenceBits
    }

    ghost predicate InRange(d: int, w: int, s: int) {
      0 <= d <= maxDeltaSeconds && 0 <= w <= maxWorkerId && 0 <= s <= maxSequence
    }
  }

  /** The constructor: the widths and the sign bit must fill 64 bits. */
  function New(t: nat, w: nat, s: nat): (r: Option<Allocator>)
    ensures r.Some? <==> 1 + t + w + s == 64
    ensures r.Some? ==> r.value.Valid()
    ensures r.Some? ==> r.value.timestampBits == t && r.value.workerIdBits == w && r.value.sequenceBits == s
  {
    if 1 + t + w + s != 64 then None
    else
      MaxMask(t); MaxMask(w); MaxMask(s);
      Some(Allocator(t, w, s, Not(Shl(-1, t)), Not(Shl(-1, w)), Not(Shl(-1, s)), w + s, s))
  }

  /** ~(-1L << b) is 2^b - 1. */
  lemma MaxMask(b: nat)
    requires b < 64
    ensures Not(Shl(-1, b)) == Pow2(b) - 1
  {
    hide ShiftLeft, Pow2;
    Pow2Words();
    Pow2Mono(b, 63);
    assert b % 64 == b;
    var m := Unsigned(-1);
    assert m == 0x1_0000_0000_0000_0000 - 1;
    WrapMinusOne(m, b);
    assert Shl(-1, b) == Signed(ShiftLeft(m, b) % 0x1_0000_0000_0000_0000);
  }

  lemma WrapMinusOne(m: nat, b: nat)
    requires m == 0x1_0000_0000_0000_0000 - 1 && Pow2(b) <= 0x1_0000_0000_0000_0000
    ensures ShiftLeft(m, b) % 0x1_0000_0000_0000_0000 == 0x1_0000_0000_0000_0000 - Pow2(b)
  {
    var p, w := Pow2(b), 0x1_0000_0000_0000_0000;
    assert ShiftLeft(m, b) == m * p;
    MulDist(w, 1, p);
    MulDist(p, 1, w);
    var x := ShiftLeft(m, b);
    assert x == (p - 1) * w + (w - p);
    DivModUnique(x, w, p - 1, w - p);
  }

  /** Left shift by k keeps the low 64 - k bits and multiplies by 2^k. */
  lemma ShlValue(x: long, k: nat)
    requires k < 64
    ensures Unsigned(Shl(x, k)) == ShiftLeft(x % Pow2(64 - k), k)
    ensures 0 <= x < Pow2(64 - k) ==> Unsigned(Shl(x, k)) == ShiftLeft(x, k)
  {
    hide ShiftLeft, Pow2;
    ShiftWraps(Unsigned(x), k);
    if x < 0 {
      Pow2Words();
      Pow2Add(64 - k, k);
      ModPeriod(x, Pow2(k), Pow2(64 - k));
    } else if x < Pow2(64 - k) {
      DivModUnique(x, Pow2(64 - k), 0, x);
    }
  }

  lemma ModPeriod(x: int, n: nat, m: nat)
    requires m > 0
    ensures (x + m * n) % m == x % m
  {
    var q := x / m;
    MulDist(q, n, m);
    DivModUnique(x + m * n, m, q + n, x % m);
  }

  lemma ShiftWraps(x: nat, k: nat)
    requires k < 64
    ensures ShiftLeft(x, k) % 0x1_0000_0000_0000_0000 == ShiftLeft(x % Pow2(64 - k), k)
  {
    hide ShiftLeft, Pow2;
    var p, h := Pow2(k), Pow2(64 - k);
    Pow2Words();
    Pow2Add(k, 64 - k);
    ModScale(x, p, h);
    ShiftLeftValue(x, k);
    ShiftLeftValue(x % h, k);
  }

  lemma ModScale(x: nat, p: nat, h: nat)
    requires p > 0 && h > 0
    ensures p * h > 0
    ensures x * p % (p * h) == x % h * p
  {
    ScaleRemainder(x, x / h, x % h, p, h);
  }

  /** The positional value of three digits with bases pt, pw, ps. */
  lemma FieldBounds(d: nat, w: nat, s: nat, pt: nat, pw: nat, ps: nat)
    requires d < pt && w < pw && s < ps
    ensures 0 <= w * ps && w * ps + s < pw * ps
    ensures 0 <= d * pw && 0 <= (d * pw + w) * ps
    ensures d * (pw * ps) + w * ps == (d * pw + w) * ps
    ensures (d * pw + w) * ps + s < pt * (pw * ps)
  {
    DigitBound(w, s, pw, ps);
    MulMono(0, d, pw);
    var u := pw * ps;
    MulMono(d, pt - 1, u);
    MulDist(pt, 1, u);
    MulAssoc(d, pw, ps);
    MulDist(d * pw, w, ps);
    MulMono(0, d * pw + w, ps);
  }

  lemma DigitBound(w: nat, s: nat, pw: nat, ps: nat)
    requires w < pw && s < ps
    ensures 0 <= w * ps && w * ps + s < pw * ps
  {
    MulMono(0, w, ps);
    MulMono(w, pw - 1, ps);
    MulDist(pw, 1, ps);
  }

  lemma Widths(a: Allocator)
    requires a.Valid()
    ensures var u := Pow2(a.workerIdBits) * Pow2(a.sequenceBits);
            u == Pow2(a.timestampShift) && Pow2(a.timestampBits) * u == 0x8000_0000_0000_0000
    ensures 64 - a.timestampShift == a.timestampBits + 1
    ensures Pow2(a.workerIdBits) <= Pow2(64 - a.workerIdShift)
  {
    Pow2Words();
    Pow2Add(a.workerIdBits, a.sequenceBits);
    Pow2Add(a.timestampBits, a.timestampShift);
    Pow2Mono(a.workerIdBits, 64 - a.workerIdShift);
  }

  /** allocate, on every delta a long can hold: the positional number with the delta wrapped.
      The cached path never checks maxDeltaSeconds, so this is what it computes beyond it. */
  lemma AllocateWraps(a: Allocator, d: long, w: int, s: int)
    requires a.Valid() && a.InRange(0, w, s)
    ensures a.Allocate(d, w, s) == a.Pack(a.WrapDelta(d), w, s)
  {
    hide ShiftLeft, Or, Pow2, Allocator.Pack, Allocator.Allocate, Allocator.WrapDelta, Shl, LongOr;
    var m := WrapDeltaIs(a, d);
    AllocateUnsigned(a, d, w, s);
    FieldsOr(a, m, w, s);
    PackNegative(a, m, w, s);
    UnsignedPacked(a.Allocate(d, w, s), a.Pack(m, w, s));
  }

  lemma WrapDeltaIs(a: Allocator, d: int) returns (m: nat)
    requires a.Valid()
    ensures m == d % Pow2(a.timestampBits + 1) && m < Pow2(a.timestampBits + 1)
    ensures a.WrapDelta(d) == if m <= a.maxDeltaSeconds then m else m - Pow2(a.timestampBits + 1)
  {
    hide Pow2;
    m := d % Pow2(a.timestampBits + 1);
  }

  lemma UnsignedPacked(x: long, u: int)
    requires Unsigned(x) == u
    ensures x == if u < 0x8000_0000_0000_0000 then u else u - 0x1_0000_0000_0000_0000
  {
  }

  /** The 64 bits of the id, before they are read as a signed number. */
  lemma AllocateUnsigned(a: Allocator, d: long, w: int, s: int)
    requires a.Valid() && a.InRange(0, w, s)
    ensures Unsigned(a.Allocate(d, w, s))
         == Or(Or(ShiftLeft(d % Pow2(a.timestampBits + 1), a.timestampShift), ShiftLeft(w, a.workerIdShift)), s)
  {
    hide ShiftLeft, Or, Pow2, Shl, LongOr;
    assert 64 - a.timestampShift == a.timestampBits + 1;
    WorkerFits(a);
    ShlValue(d, a.timestampShift);
    ShlValue(w, a.workerIdShift);
    var dd, ww := Shl(d, a.timestampShift), Shl(w, a.workerIdShift);
    UnsignedOr(dd, ww);
    UnsignedOr(LongOr(dd, ww), s);
  }

  lemma PackNegative(a: Allocator, m: int, w: int, s: int)
    requires a.Valid()
    ensures a.Pack(m - Pow2(a.timestampBits + 1), w, s) == a.Pack(m, w, s) - 0x1_0000_0000_0000_0000
  {
    hide Pow2;
    var pt, pw, ps := Pow2(a.timestampBits), Pow2(a.workerIdBits), Pow2(a.sequenceBits);
    Pow2Step(a.timestampBits);
    Widths(a);
    MulDist(m, 2 * pt, pw);
    MulDist(m * pw + w, 2 * pt * pw, ps);
    MulAssoc(2 * pt, pw, ps);
    MulAssoc(2, pt, pw * ps);
  }

  lemma WorkerFits(a: Allocator)
    requires a.Valid()
    ensures Pow2(a.workerIdBits) <= Pow2(64 - a.workerIdShift)
  {
    Pow2Mono(a.workerIdBits, 64 - a.workerIdShift);
  }

  /** The two or-operations place three disjoint fields, the delta possibly one bit too wide. */
  lemma FieldsOr(a: Allocator, m: nat, w: nat, s: nat)
    requires a.Valid() && a.InRange(0, w, s) && m < Pow2(a.timestampBits + 1)
    ensures Or(Or(ShiftLeft(m, a.timestampShift), ShiftLeft(w, a.workerIdShift)), s) == a.Pack(m, w, s)
    ensures 0 <= a.Pack(m, w, s) < 0x1_0000_0000_0000_0000
    ensures a.Pack(m, w, s) < 0x8000_0000_0000_0000 <==> m <= a.maxDeltaSeconds
  {
    hide ShiftLeft, Or, Pow2;
    var pt, pw, ps := Pow2(a.timestampBits), Pow2(a.workerIdBits), Pow2(a.sequenceBits);
    Pow2Step(a.timestampBits);
    Widths(a);
    PackBounds(m, w, s, pt, pw, ps);
    FieldBounds(m, w, s, m + 1, pw, ps);
    ShiftLeftValue(w, a.workerIdShift);
    ShiftLeftValue(m, a.timestampShift);
    OrShifted(m, w * ps, a.timestampShift);
    var hi: nat := m * pw + w;
    ShiftLeftValue(hi, a.sequenceBits);
    OrShifted(hi, s, a.sequenceBits);
  }

  /** A packed number with one bit more for its first digit, and when that bit is clear. */
  lemma PackBounds(m: nat, w: nat, s: nat, pt: nat, pw: nat, ps: nat)
    requires m < 2 * pt && w < pw && s < ps
    ensures 0 <= (m * pw + w) * ps + s < 2 * (pt * (pw * ps))
    ensures (m * pw + w) * ps + s < pt * (pw * ps) <==> m < pt
  {
    var u := pw * ps;
    FieldBounds(m, w, s, 2 * pt, pw, ps);
    MulAssoc(2, pt, u);
    if m < pt { FieldBounds(m, w, s, pt, pw, ps); } else { MulMono(pt, m, u); }
  }

  lemma WrapDeltaIdentity(a: Allocator, d: int)
    requires a.Valid() && -1 - a.maxDeltaSeconds <= d <= a.maxDeltaSeconds
    ensures a.WrapDelta(d) == d
  {
    hide Pow2;
    Pow2Step(a.timestampBits);
    var p := Pow2(a.timestampBits);
    if d >= 0 { DivModUnique(d, 2 * p, 0, d); } else { DivModUnique(d, 2 * p, -1, d + 2 * p); }
  }

  /** allocate on in-range fields is the positional sum, and never sets the sign bit. */
  lemma AllocateValue(a: Allocator, d: int, w: int, s: int)
    requires a.Valid() && a.InRange(d, w, s)
    ensures a.Allocate(d, w, s) == a.Pack(d, w, s)
    ensures 0 <= a.Allocate(d, w, s)
  {
    hide Pow2, Allocator.Pack, Allocator.Allocate, Allocator.WrapDelta;
    WrapDeltaIdentity(a, d);
    AllocateWraps(a, d, w, s);
    Pow2Step(a.timestampBits);
    FieldsOr(a, d, w, s);
  }

  lemma PackOrder(a: Allocator, d1: int, w1: int, s1: int, d2: int, w2: int, s2: int)
    requires a.Valid() && a.InRange(0, w1, s1) && a.InRange(0, w2, s2)
    ensures a.Pack(d1, w1, s1) < a.Pack(d2, w2, s2)
       <==> d1 < d2 || (d1 == d2 && (w1 < w2 || (w1 == w2 && s1 < s2)))
    ensures a.Pack(d1, w1, s1) == a.Pack(d2, w2, s2)
       <==> d1 == d2 && w1 == w2 && s1 == s2
  {
    hide Pow2;
    var pw, ps := Pow2(a.workerIdBits), Pow2(a.sequenceBits);
    var h1, h2 := d1 * pw + w1, d2 * pw + w2;
    PositionalOrder(d1, w1, d2, w2, pw);
    PositionalOrder(h1, s1, h2, s2, ps);
    PositionalOrder(d2, w2, d1, w1, pw);
    PositionalOrder(h2, s2, h1, s1, ps);
  }

  /** Deltas for which the shift loses nothing, negative ones (a clock before the epoch)
      included. */
  ghost predicate Representable(a: Allocator, d: int) {
    -1 - a.maxDeltaSeconds <= d <= a.maxDeltaSeconds
  }

  /** allocate is monotone for the lexicographic order of (delta, worker, sequence), in both
      directions, so it is injective. */
  lemma AllocateOrder(a: Allocator, d1: int, w1: int, s1: int, d2: int, w2: int, s2: int)
    requires a.Valid() && a.InRange(0, w1, s1) && a.InRange(0, w2, s2)
    requires Representable(a, d1) && Representable(a, d2)
    ensures a.Allocate(d1, w1, s1) < a.Allocate(d2, w2, s2)
       <==> d1 < d2 || (d1 == d2 && (w1 < w2 || (w1 == w2 && s1 < s2)))
    ensures a.Allocate(d1, w1, s1) == a.Allocate(d2, w2, s2)
       <==> d1 == d2 && w1 == w2 && s1 == s2
  {
    hide Allocator.Pack, Allocator.Allocate, Allocator.WrapDelta;
    WrapDeltaIdentity(a, d1);
    WrapDeltaIdentity(a, d2);
    AllocateWraps(a, d1, w1, s1);
    AllocateWraps(a, d2, w2, s2);
    PackOrder(a, d1, w1, s1, d2, w2, s2);
  }

  /** Without the range check, two deltas give the same id exactly when they agree modulo
      2^(timestampBits + 1). */
  lemma AllocateCollision(a: Allocator, d1: long, d2: long, w: int, s: int)
    requires a.Valid() && a.InRange(0, w, s)
    ensures a.Allocate(d1, w, s) == a.Allocate(d2, w, s)
       <==> d1 % Pow2(a.timestampBits + 1) == d2 % Pow2(a.timestampBits + 1)
  {
    hide Pow2, Allocator.Pack, Allocator.Allocate;
    AllocateWraps(a, d1, w, s);
    AllocateWraps(a, d2, w, s);
    PackOrder(a, a.WrapDelta(d1), w, s, a.WrapDelta(d2), w, s);
    Pow2Step(a.timestampBits);
  }

  /** parseUID's shifts recover exactly the allocated fields, except in an empty field: there
      the shift by 64 - 0 is Java's shift by 0, and the field comes back as 0 only if nothing
      else is left in the word. */
  lemma ParseRecovers(a: Allocator, d: int, w: int, s: int)
    requires a.Valid() && a.InRange(d, w, s)
    ensures a.Parse(a.Allocate(d, w, s)) == (d, w, s)
       <==> (a.workerIdBits >= 1 || s == 0) && (a.sequenceBits >= 1 || (d == 0 && w == 0))
  {
    hide Pow2, Allocator.Allocate, Allocator.Pack, Ushr, Shl, ShiftLeft, ShiftRight;
    var uid := a.Allocate(d, w, s);
    AllocateValue(a, d, w, s);
    PackFields(a, d, w, s);
    EmptyFields(a);
    UshrValue(uid, a.timestampShift);
    if a.workerIdBits >= 1 { ParseWorker(a, uid, w, s); } else { ParseNoWorker(a, uid, s); }
    if a.sequenceBits >= 1 { ParseSequence(a, uid, s); } else { ParseNoSequence(a, uid, d, w); }
  }

  /** A field of no bits holds only 0. */
  lemma EmptyFields(a: Allocator)
    requires a.Valid()
    ensures a.workerIdBits == 0 ==> a.maxWorkerId == 0
    ensures a.sequenceBits == 0 ==> a.maxSequence == 0
  {
  }

  lemma UshrValue(x: nat, k: nat)
    requires x < 0x8000_0000_0000_0000 && k < 64
    ensures Ushr(x, k) == ShiftRight(x, k)
  {
    hide ShiftRight;
  }

  /** Without worker bits the second expression is the sequence moved to the top. */
  lemma ParseNoWorker(a: Allocator, uid: nat, s: nat)
    requires a.Valid() && a.workerIdBits == 0 && uid < 0x8000_0000_0000_0000
    requires uid % Pow2(64 - (64 - a.sequenceBits)) == s
    requires a.sequenceBits == 0 ==> s == 0
    ensures Ushr(Shl(uid, a.timestampBits + 1), 64) == 0 <==> (if a.sequenceBits >= 1 then s == 0 else uid == 0)
  {
    hide Pow2, Shl, Ushr, ShiftLeft, ShiftRight;
    UshrNone(Shl(uid, a.timestampBits + 1), 64);
    if a.sequenceBits >= 1 {
      ShlValue(uid, a.timestampBits + 1);
      ShiftLeftZero(s, a.timestampBits + 1);
      UnsignedZero(Shl(uid, a.timestampBits + 1));
    } else {
      ShlNone(uid, 64);
    }
  }

  /** Without sequence bits the third expression is the whole id. */
  lemma ParseNoSequence(a: Allocator, uid: nat, d: nat, w: nat)
    requires a.Valid() && a.sequenceBits == 0 && uid < 0x8000_0000_0000_0000
    requires a.InRange(d, w, 0) && uid == a.Pack(d, w, 0)
    ensures Ushr(Shl(uid, 64), 64) == 0 <==> d == 0 && w == 0
  {
    hide Pow2, Shl, Ushr, Allocator.Pack;
    ShlNone(uid, 64);
    UshrNone(uid, 64);
    PackZero(a);
    PackOrder(a, d, w, 0, 0, 0, 0);
  }

  lemma PackZero(a: Allocator)
    ensures a.Pack(0, 0, 0) == 0
  {
  }

  lemma ShlNone(x: long, k: nat)
    requires k == 64
    ensures Shl(x, k) == x
  {
    ShiftByZero(Unsigned(x));
  }

  lemma UshrNone(x: long, k: nat)
    requires k == 64
    ensures Ushr(x, k) == x
  {
    ShiftByZero(Unsigned(x));
  }

  lemma ShiftByZero(x: nat)
    ensures ShiftLeft(x, 0) == x && ShiftRight(x, 0) == x
  {
  }

  lemma ShiftLeftZero(x: nat, k: nat)
    ensures ShiftLeft(x, k) == 0 <==> x == 0
  {
    var p := Pow2(k);
    if x > 0 { MulMono(1, x, p); }
  }

  lemma UnsignedZero(x: long)
    ensures Unsigned(x) == 0 <==> x == 0
  {
  }

  lemma ParseWorker(a: Allocator, uid: nat, w: nat, s: nat)
    requires a.Valid() && a.workerIdBits >= 1 && a.InRange(0, w, s) && uid < 0x8000_0000_0000_0000
    requires uid % Pow2(64 - (a.timestampBits + 1)) == ShiftLeft(w, a.sequenceBits) + s
    ensures Ushr(Shl(uid, a.timestampBits + 1), 64 - a.workerIdBits) == w
  {
    WorkerWidths(a, w, s);
    hide *;
    var k, i := a.timestampBits + 1, a.sequenceBits;
    ShlValue(uid, k);
    ShiftRightOfSum(w, s, i, k);
    UshrDefinition(Shl(uid, k), i + k);
    SignedSmall(w);
  }

  lemma UshrDefinition(x: long, k: nat)
    requires k < 64
    ensures Ushr(x, k) == Signed(ShiftRight(Unsigned(x), k))
  {
    hide ShiftRight;
  }

  lemma WorkerWidths(a: Allocator, w: nat, s: nat)
    requires a.Valid() && a.workerIdBits >= 1 && a.InRange(0, w, s)
    ensures 64 - a.workerIdBits == a.sequenceBits + (a.timestampBits + 1) < 64
    ensures w < 0x8000_0000_0000_0000 && s < Pow2(a.sequenceBits)
  {
    hide Pow2;
    Pow2Words();
    Pow2Mono(a.workerIdBits, 63);
  }

  lemma SignedSmall(w: nat)
    requires w < 0x8000_0000_0000_0000
    ensures Signed(w) == w
  {
  }

  lemma ParseSequence(a: Allocator, uid: nat, s: nat)
    requires a.Valid() && a.sequenceBits >= 1 && uid < 0x8000_0000_0000_0000
    requires uid % Pow2(64 - (64 - a.sequenceBits)) == s
    ensures Ushr(Shl(uid, 64 - a.sequenceBits), 64 - a.sequenceBits) == s
  {
    hide ShiftLeft, ShiftRight, Pow2;
    ShlValue(uid, 64 - a.sequenceBits);
    ShiftBack(s, 64 - a.sequenceBits);
  }

  /** Quotient and remainders of a packed value. */
  lemma PackFields(a: Allocator, d: nat, w: nat, s: nat)
    requires a.Valid() && a.InRange(d, w, s)
    ensures 0 <= a.Pack(d, w, s)
    ensures ShiftRight(a.Pack(d, w, s), a.timestampShift) == d
    ensures a.Pack(d, w, s) % Pow2(64 - (a.timestampBits + 1)) == ShiftLeft(w, a.sequenceBits) + s
    ensures a.Pack(d, w, s) % Pow2(64 - (64 - a.sequenceBits)) == s
  {
    hide Pow2, ShiftLeft, ShiftRight;
    var pw, ps := Pow2(a.workerIdBits), Pow2(a.sequenceBits);
    Widths(a);
    ShiftLeftValue(w, a.sequenceBits);
    SplitPacked(a.Pack(d, w, s), d, w, s, pw, ps);
    ShiftRightValue(a.Pack(d, w, s), a.timestampShift);
  }

  lemma SplitPacked(uid: int, d: nat, w: nat, s: nat, pw: nat, ps: nat)
    requires w < pw && s < ps && uid == (d * pw + w) * ps + s
    ensures uid >= 0 && pw * ps > 0
    ensures uid / (pw * ps) == d && uid % (pw * ps) == w * ps + s && uid % ps == s
  {
    FieldBounds(d, w, s, d + 1, pw, ps);
    DivModUnique(uid, pw * ps, d, w * ps + s);
    DivModUnique(uid, ps, d * pw + w, s);
  }

  /** (w * 2^i + s) << k >>> (i + k) is w when s < 2^i. */
  lemma ShiftRightOfSum(w: nat, s: nat, i: nat, k: nat)
    requires s < Pow2(i)
    ensures ShiftRight(ShiftLeft(ShiftLeft(w, i) + s, k), i + k) == w
  {
    hide Pow2;
    var pi, pk := Pow2(i), Pow2(k);
    Pow2Add(i, k);
    FieldBounds(w, s, 0, w + 1, pi, pk);
    MulAssoc(w, pi, pk);
    MulDist(w * pi, s, pk);
    var x, u, v := ShiftLeft(ShiftLeft(w, i) + s, k), pi * pk, s * pk;
    assert x == w * u + v;
    DivModUnique(x, u, w, v);
  }

  lemma ShiftBack(x: nat, k: nat)
    ensures ShiftRight(ShiftLeft(x, k), k) == x
  {
    DivModUnique(ShiftLeft(x, k), Pow2(k), x, 0);
  }

  lemma PositionalOrder(h1: int, l1: int, h2: int, l2: int, p: nat)
    requires 0 <= l1 < p && 0 <= l2 < p
    ensures h1 * p + l1 < h2 * p + l2 <==> h1 < h2 || (h1 == h2 && l1 < l2)
  {
    if h1 < h2 {
      MulMono(h1 + 1, h2, p);
      MulDist(h1, 1, p);
    } else if h2 < h1 {
      MulMono(h2 + 1, h1, p);
      MulDist(h2, 1, p);
    }
  }

  /** The batch generator adds an offset to the first id of a second: that is the id of the
      sequence at the offset, for every delta (checked or not). */
  lemma AllocateOffset(a: Allocator, d: long, w: int, i: int)
    requires a.Valid() && a.InRange(0, w, i)
    ensures Add(a.Allocate(d, w, 0), i) == a.Allocate(d, w, i)
  {
    hide Allocator.Allocate;
    AllocateWraps(a, d, w, 0);
    AllocateWraps(a, d, w, i);
  }
}

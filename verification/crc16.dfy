/**
 CRC-16/CCITT as both EEPROM stores compute it, and the reason it can be trusted to
 notice a half-written record: two messages of the same length that differ only inside
 two adjacent bytes never have the same checksum.

 The facts about single bit-vector operations are small lemmas without a body; the
 lemmas built from them hide the definitions, so the solver never sees both at once.
 */
module Crc16 {
  import opened Bytes

  const INITIAL: bv16 := 0xFFFF

  function Xor(c: bv16, d: bv16): bv16 {
    c ^ d
  }

  /** A byte in the low half of the register. */
  function LowHalf(b: byte): bv16 {
    Bits(b)
  }

  /** A byte in the high half of the register. */
  function HighHalf(b: byte): bv16 {
    LowHalf(b) << 8
  }

  function BitStep(crc: bv16): bv16 {
    if crc & 0x8000 != 0 then (crc << 1) ^ 0x1021 else crc << 1
  }

  function BitSteps(crc: bv16, n: nat): bv16 {
    if n == 0 then crc else BitStep(BitSteps(crc, n - 1))
  }

  function ByteStep(crc: bv16, b: byte): bv16 {
    BitSteps(Xor(crc, HighHalf(b)), 8)
  }

  /** The checksum register after the bytes of `data`, starting from `crc`. */
  function Update(crc: bv16, data: seq<byte>): bv16 {
    if data == [] then crc else ByteStep(Update(crc, data[..|data| - 1]), data[|data| - 1])
  }

  function Checksum(data: seq<byte>): bv16 {
    Update(INITIAL, data)
  }

  /** The two bytes of a stored checksum. */
  function HighByte(crc: bv16): byte {
    (crc >> 8) as int
  }

  function LowByte(crc: bv16): byte {
    (crc & 0xff) as int
  }

  /** crc16_update(): one byte, with the loop over its eight bits. */
  method UpdateWithByte(crc: bv16, b: byte) returns (r: bv16)
    ensures r == ByteStep(crc, b)
  {
    hide Xor, HighHalf, BitStep;
    r := Xor(crc, HighHalf(b));
    ghost var mixed := r;
    for i := 0 to 8
      invariant r == BitSteps(mixed, i)
    {
      BitStepCases(r);
      if r & 0x8000 != 0 {
        r := (r << 1) ^ 0x1021;
      } else {
        r := r << 1;
      }
    }
  }

  /** The loop over the bytes of a buffer. */
  method Compute(data: seq<byte>) returns (crc: bv16)
    ensures crc == Checksum(data)
  {
    hide ByteStep;
    crc := INITIAL;
    for n := 0 to |data|
      invariant crc == Update(INITIAL, data[..n])
    {
      crc := UpdateWithByte(crc, data[n]);
      assert data[..n + 1][..n] == data[..n];
    }
    assert data[..|data|] == data;
  }

  // ---------- Single operations ----------

  lemma BitStepCases(crc: bv16)
    ensures BitStep(crc) == if crc & 0x8000 != 0 then (crc << 1) ^ 0x1021 else crc << 1
  {
  }

  lemma XorCancel(c: bv16, d: bv16, w: bv16)
    requires Xor(c, w) == Xor(d, w) || Xor(w, c) == Xor(w, d)
    ensures c == d
  {
  }

  lemma XorSelf(c: bv16)
    ensures Xor(c, c) == 0
  {
  }

  lemma XorZero(c: bv16, d: bv16)
    requires Xor(c, d) == 0
    ensures c == d
  {
  }

  lemma XorAssociative(c: bv16, d: bv16, e: bv16)
    ensures Xor(Xor(c, d), e) == Xor(c, Xor(d, e))
  {
  }

  lemma BitStepLinearBoth(c: bv16, d: bv16)
    requires c & 0x8000 != 0 && d & 0x8000 != 0
    ensures BitStep(c ^ d) == BitStep(c) ^ BitStep(d)
  {
  }

  lemma BitStepLinearFirst(c: bv16, d: bv16)
    requires c & 0x8000 != 0 && d & 0x8000 == 0
    ensures BitStep(c ^ d) == BitStep(c) ^ BitStep(d)
  {
  }

  lemma BitStepLinearSecond(c: bv16, d: bv16)
    requires c & 0x8000 == 0 && d & 0x8000 != 0
    ensures BitStep(c ^ d) == BitStep(c) ^ BitStep(d)
  {
  }

  lemma BitStepLinearNone(c: bv16, d: bv16)
    requires c & 0x8000 == 0 && d & 0x8000 == 0
    ensures BitStep(c ^ d) == BitStep(c) ^ BitStep(d)
  {
  }

  lemma BitStepLinear(c: bv16, d: bv16)
    ensures BitStep(c ^ d) == BitStep(c) ^ BitStep(d)
  {
    hide *;
    if c & 0x8000 != 0 {
      if d & 0x8000 != 0 {
        BitStepLinearBoth(c, d);
      } else {
        BitStepLinearFirst(c, d);
      }
    } else if d & 0x8000 != 0 {
      BitStepLinearSecond(c, d);
    } else {
      BitStepLinearNone(c, d);
    }
  }

  lemma BitStepKernel(c: bv16)
    ensures BitStep(c) == 0 ==> c == 0
  {
  }

  lemma XorMeaning(c: bv16, d: bv16)
    ensures Xor(c, d) == c ^ d
  {
  }

  lemma HalvesInjective(x: bv16, y: bv16, z: bv16, w: bv16)
    requires x < 0x100 && y < 0x100 && z < 0x100 && w < 0x100
    requires (x << 8) ^ y == (z << 8) ^ w
    ensures x == z && y == w
  {
  }

  lemma NarrowInjective(c: bv16, d: bv16)
    requires c as int == d as int
    ensures c == d
  {
    assert (c as int) as bv16 == c;
  }

  /** The two stored bytes determine the checksum. */
  lemma StoredBytesInjective(c: bv16, d: bv16)
    requires HighByte(c) == HighByte(d) && LowByte(c) == LowByte(d)
    ensures c == d
  {
    NarrowInjective(c >> 8, d >> 8);
    NarrowInjective(c & 0xff, d & 0xff);
  }

  /** Eight bit steps only shift a value without bits in its high half. */
  lemma BitStepsOfByte(x: bv16)
    requires x < 0x100
    ensures BitSteps(x, 8) == x << 8
  {
    assert BitSteps(x, 1) == BitStep(BitSteps(x, 0)) == x << 1;
    assert BitSteps(x, 2) == BitStep(BitSteps(x, 1)) == x << 2;
    assert BitSteps(x, 3) == BitStep(BitSteps(x, 2)) == x << 3;
    assert BitSteps(x, 4) == BitStep(BitSteps(x, 3)) == x << 4;
    assert BitSteps(x, 5) == BitStep(BitSteps(x, 4)) == x << 5;
    assert BitSteps(x, 6) == BitStep(BitSteps(x, 5)) == x << 6;
    assert BitSteps(x, 7) == BitStep(BitSteps(x, 6)) == x << 7;
  }

  lemma LowHalfShifts(b: byte)
    ensures BitSteps(LowHalf(b), 8) == HighHalf(b)
  {
    hide BitSteps, Bits;
    BitsFit(b);
    BitStepsOfByte(Bits(b));
  }

  lemma HalvesDetermineBytes(x: byte, y: byte, z: byte, w: byte)
    requires Xor(HighHalf(x), LowHalf(y)) == Xor(HighHalf(z), LowHalf(w))
    ensures x == z && y == w
  {
    hide Bits;
    BitsFit(x);
    BitsFit(y);
    BitsFit(z);
    BitsFit(w);
    HalvesInjective(Bits(x), Bits(y), Bits(z), Bits(w));
  }

  // ---------- The bit steps are a linear bijection ----------

  lemma StepBoth(c: bv16, d: bv16)
    ensures BitStep(Xor(c, d)) == Xor(BitStep(c), BitStep(d))
    ensures BitStep(c) == BitStep(d) ==> c == d
  {
    hide *;
    XorMeaning(c, d);
    XorMeaning(BitStep(c), BitStep(d));
    BitStepLinear(c, d);
    BitStepKernel(Xor(c, d));
    if BitStep(c) == BitStep(d) {
      XorSelf(BitStep(c));
      XorZero(c, d);
    }
  }

  lemma {:induction false} BitStepsInjective(c: bv16, d: bv16, n: nat)
    requires BitSteps(c, n) == BitSteps(d, n)
    ensures c == d
  {
    hide BitStep;
    if n > 0 {
      StepBoth(BitSteps(c, n - 1), BitSteps(d, n - 1));
      BitStepsInjective(c, d, n - 1);
    }
  }

  lemma {:induction false} BitStepsLinear(c: bv16, d: bv16, n: nat)
    ensures BitSteps(Xor(c, d), n) == Xor(BitSteps(c, n), BitSteps(d, n))
  {
    hide BitStep, Xor;
    if n > 0 {
      BitStepsLinear(c, d, n - 1);
      StepBoth(BitSteps(c, n - 1), BitSteps(d, n - 1));
    }
  }

  lemma {:induction false} BitStepsCompose(c: bv16, m: nat, n: nat)
    ensures BitSteps(BitSteps(c, m), n) == BitSteps(c, m + n)
  {
    hide BitStep;
    if n > 0 {
      BitStepsCompose(c, m, n - 1);
    }
  }

  lemma ByteStepInjective(c: bv16, d: bv16, b: byte)
    requires ByteStep(c, b) == ByteStep(d, b)
    ensures c == d
  {
    hide Xor, HighHalf, BitSteps;
    BitStepsInjective(Xor(c, HighHalf(b)), Xor(d, HighHalf(b)), 8);
    XorCancel(c, d, HighHalf(b));
  }

  /** Two byte steps are sixteen bit steps over the register xor the two bytes. */
  lemma TwoByteSteps(crc: bv16, x: byte, y: byte)
    ensures ByteStep(ByteStep(crc, x), y)
         == BitSteps(Xor(crc, Xor(HighHalf(x), LowHalf(y))), 16)
  {
    hide Xor, HighHalf, LowHalf, BitSteps;
    var mixed := Xor(crc, HighHalf(x));
    LowHalfShifts(y);
    BitStepsLinear(mixed, LowHalf(y), 8);
    BitStepsCompose(Xor(mixed, LowHalf(y)), 8, 8);
    XorAssociative(crc, HighHalf(x), LowHalf(y));
  }

  // ---------- Messages ----------

  lemma {:induction false} UpdateConcat(crc: bv16, a: seq<byte>, b: seq<byte>)
    ensures Update(crc, a + b) == Update(Update(crc, a), b)
  {
    hide ByteStep;
    if b == [] {
      assert a + b == a;
    } else {
      assert (a + b)[..|a + b| - 1] == a + b[..|b| - 1];
      UpdateConcat(crc, a, b[..|b| - 1]);
    }
  }

  /** A common suffix keeps different registers different. */
  lemma {:induction false} UpdateInjective(c: bv16, d: bv16, suffix: seq<byte>)
    requires Update(c, suffix) == Update(d, suffix)
    ensures c == d
  {
    hide ByteStep;
    if suffix != [] {
      var front, last := suffix[..|suffix| - 1], suffix[|suffix| - 1];
      ByteStepInjective(Update(c, front), Update(d, front), last);
      UpdateInjective(c, d, front);
    }
  }

  lemma ChecksumAroundPair(prefix: seq<byte>, x: byte, y: byte, suffix: seq<byte>)
    ensures Checksum(prefix + [x, y] + suffix)
         == Update(ByteStep(ByteStep(Update(INITIAL, prefix), x), y), suffix)
  {
    hide ByteStep;
    UpdateConcat(INITIAL, prefix + [x, y], suffix);
    UpdateConcat(INITIAL, prefix, [x, y]);
    assert [x, y][..1] == [x];
    assert Update(Update(INITIAL, prefix), [x]) == ByteStep(Update(INITIAL, prefix), x);
  }

  /**
   Every error burst inside two adjacent bytes is detected, whatever the length of the
   message and wherever the burst is.
   */
  lemma BurstDetected(prefix: seq<byte>, x: byte, y: byte, z: byte, w: byte, suffix: seq<byte>)
    requires x != z || y != w
    ensures Checksum(prefix + [x, y] + suffix) != Checksum(prefix + [z, w] + suffix)
  {
    hide *;
    var crc := Update(INITIAL, prefix);
    if Checksum(prefix + [x, y] + suffix) == Checksum(prefix + [z, w] + suffix) {
      ChecksumAroundPair(prefix, x, y, suffix);
      ChecksumAroundPair(prefix, z, w, suffix);
      UpdateInjective(ByteStep(ByteStep(crc, x), y), ByteStep(ByteStep(crc, z), w), suffix);
      TwoByteSteps(crc, x, y);
      TwoByteSteps(crc, z, w);
      var first, second := Xor(HighHalf(x), LowHalf(y)), Xor(HighHalf(z), LowHalf(w));
      BitStepsInjective(Xor(crc, first), Xor(crc, second), 16);
      XorCancel(first, second, crc);
      HalvesDetermineBytes(x, y, z, w);
    }
  }

  // ---------- Erased EEPROM ----------

  lemma HighHalfKeepsLowByte(c: bv16, v: bv16)
    ensures (c ^ (v << 8)) & 0xff == c & 0xff
  {
  }

  lemma ErasedSteps()
    ensures ByteStep(0xffff, 0xaa) == 0xf550 && BitSteps(0xe943, 8) == 0x2f07
    ensures ByteStep(0x2f07, 0xff) == 0xcc7d && ByteStep(0xcc7d, 0xff) == 0x7b30
    ensures ByteStep(0x7b30, 0xff) == 0xe10c && ByteStep(0xe10c, 0xff) == 0xffff
    ensures INITIAL == 0xffff && ByteStep(0xffff, 0xa5) == 0x04bf
  {
  }

  /** The register after a marker and a counter cannot be `last` steps of 0xff before 0xffff. */
  lemma CounterStepAvoids(crc: bv16, c: byte, before: bv16)
    requires crc & 0xff != before & 0xff
    ensures ByteStep(crc, c) != BitSteps(before, 8)
  {
    hide BitSteps, Bits;
    if ByteStep(crc, c) == BitSteps(before, 8) {
      BitStepsInjective(Xor(crc, HighHalf(c)), before, 8);
      HighHalfKeepsLowByte(crc, Bits(c));
    }
  }

  lemma UpdateOfFour(crc: bv16, p: byte, q: byte, r: byte, s: byte)
    ensures Update(crc, [p, q, r, s]) == ByteStep(ByteStep(ByteStep(ByteStep(crc, p), q), r), s)
  {
    hide ByteStep;
    assert [p, q, r, s][..3] == [p, q, r];
    assert [p, q, r][..2] == [p, q];
    assert [p, q][..1] == [p];
    UpdateOfOne(crc, p);
    assert Update(crc, [p, q]) == ByteStep(ByteStep(crc, p), q);
    assert Update(crc, [p, q, r]) == ByteStep(ByteStep(ByteStep(crc, p), q), r);
  }

  lemma ChecksumOfPair(x: byte, y: byte, suffix: seq<byte>)
    ensures Checksum([x, y] + suffix) == Update(ByteStep(ByteStep(INITIAL, x), y), suffix)
  {
    hide ByteStep;
    ChecksumAroundPair([], x, y, suffix);
    assert [] + [x, y] + suffix == [x, y] + suffix;
    assert Update(INITIAL, []) == INITIAL;
  }

  lemma AllOnesBytes()
    ensures LowByte(0xffff) == 0xff && HighByte(0xffff) == 0xff
  {
  }

  /** Only the checksum 0xffff is stored as two erased bytes. */
  lemma AllOnes(crc: bv16)
    requires crc != 0xffff
    ensures !(LowByte(crc) == 0xff && HighByte(crc) == 0xff)
  {
    hide LowByte, HighByte;
    if LowByte(crc) == 0xff && HighByte(crc) == 0xff {
      AllOnesBytes();
      StoredBytesInjective(crc, 0xffff);
    }
  }

  /** An AVR block whose bytes after the counter are erased never has the checksum 0xffff. */
  lemma ErasedAvrBlock(c: byte)
    ensures Checksum([0xaa, c] + [0xff, 0xff, 0xff, 0xff]) != 0xffff
  {
    hide *;
    ErasedSteps();
    CounterStepAvoids(0xf550, c, 0xe943);
    UpdateOfFour(0x2f07, 0xff, 0xff, 0xff, 0xff);
    ChecksumOfPair(0xaa, c, [0xff, 0xff, 0xff, 0xff]);
    var crc := ByteStep(0xf550, c);
    if Update(crc, [0xff, 0xff, 0xff, 0xff]) == 0xffff {
      UpdateInjective(crc, 0x2f07, [0xff, 0xff, 0xff, 0xff]);
    }
  }

  /** The value eight bit steps before `v`. */
  function ByteBack(v: bv16): bv16 {
    var x := (v & 0xff) ^ ((v << 5) & 0xff);
    ((x ^ (x >> 4)) << 8) | ((v >> 8) ^ ((x << 4) & 0xff) ^ (x >> 3))
  }

  /** The register before an erased byte that makes it `v`. */
  function ErasedBack(v: bv16): bv16 {
    ByteBack(v) ^ 0xff00
  }

  function EightSteps(v: bv16): bv16 {
    BitStep(BitStep(BitStep(BitStep(BitStep(BitStep(BitStep(BitStep(v))))))))
  }

  lemma ByteBackUndone(v: bv16)
    ensures EightSteps(ByteBack(v)) == v
  {
  }

  lemma EightStepsAre(v: bv16)
    ensures EightSteps(v) == BitSteps(v, 8)
  {
    hide BitStep;
    assert BitSteps(v, 1) == BitStep(BitSteps(v, 0));
    assert BitSteps(v, 2) == BitStep(BitSteps(v, 1));
    assert BitSteps(v, 3) == BitStep(BitSteps(v, 2));
    assert BitSteps(v, 4) == BitStep(BitSteps(v, 3));
    assert BitSteps(v, 5) == BitStep(BitSteps(v, 4));
    assert BitSteps(v, 6) == BitStep(BitSteps(v, 5));
    assert BitSteps(v, 7) == BitStep(BitSteps(v, 6));
  }

  lemma ErasedBackMixed(v: bv16)
    ensures Xor(ErasedBack(v), 0xff00) == ByteBack(v)
  {
  }

  lemma ErasedHigh()
    ensures HighHalf(0xff) == 0xff00
  {
  }

  lemma ErasedBackUndone(v: bv16)
    ensures ByteStep(ErasedBack(v), 0xff) == v == BitSteps(ByteBack(v), 8)
  {
    hide Xor, HighHalf, ErasedBack, ByteBack, BitSteps, EightSteps;
    ErasedHigh();
    ErasedBackMixed(v);
    EightStepsAre(ByteBack(v));
    ByteBackUndone(v);
  }

  /** The register that `n` erased bytes turn into 0xffff. */
  function Orbit(n: nat): bv16 {
    if n == 0 then 0xffff else ErasedBack(Orbit(n - 1))
  }

  /** The next 2 n registers going back from `v` end with `w`, and none has the low byte of the marked register. */
  predicate AvoidsMarker(v: bv16, n: nat, w: bv16)
    decreases n
  {
    if n == 0 then v == w
    else
      var x := ErasedBack(v);
      var y := ErasedBack(x);
      x & 0xff != 0xbf && y & 0xff != 0xbf && AvoidsMarker(y, n - 1, w)
  }

  lemma OrbitChecked1()
    ensures AvoidsMarker(0xffff, 4, 0x46ad)
    ensures AvoidsMarker(0x46ad, 4, 0x23b6)
    ensures AvoidsMarker(0x23b6, 4, 0xe187)
    ensures AvoidsMarker(0xe187, 4, 0x66b1)
    ensures AvoidsMarker(0x66b1, 4, 0x6e62)
    ensures AvoidsMarker(0x6e62, 4, 0xbbff)
    ensures AvoidsMarker(0xbbff, 4, 0x463e)
    ensures AvoidsMarker(0x463e, 4, 0x652b)
  {
  }

  lemma OrbitChecked2()
    ensures AvoidsMarker(0x652b, 4, 0xa944)
    ensures AvoidsMarker(0xa944, 4, 0x4f68)
    ensures AvoidsMarker(0x4f68, 4, 0xce46)
    ensures AvoidsMarker(0xce46, 4, 0xcc39)
    ensures AvoidsMarker(0xcc39, 4, 0x0f60)
    ensures AvoidsMarker(0x0f60, 4, 0xe0b9)
    ensures AvoidsMarker(0xe0b9, 4, 0x3930)
    ensures AvoidsMarker(0x3930, 4, 0x5708)
  {
  }

  lemma OrbitChecked3()
    ensures AvoidsMarker(0x5708, 4, 0xe4f6)
    ensures AvoidsMarker(0xe4f6, 4, 0x9729)
    ensures AvoidsMarker(0x9729, 4, 0x4700)
    ensures AvoidsMarker(0x4700, 4, 0x3aaa)
    ensures AvoidsMarker(0x3aaa, 4, 0x902e)
    ensures AvoidsMarker(0x902e, 4, 0x1061)
    ensures AvoidsMarker(0x1061, 4, 0x1f51)
    ensures AvoidsMarker(0x1f51, 4, 0xee12)
  {
  }

  lemma OrbitChecked4()
    ensures AvoidsMarker(0xee12, 4, 0x9c8e)
    ensures AvoidsMarker(0x9c8e, 4, 0x3fff)
    ensures AvoidsMarker(0x3fff, 4, 0xe717)
    ensures AvoidsMarker(0xe717, 4, 0x8460)
    ensures AvoidsMarker(0x8460, 4, 0x0584)
    ensures AvoidsMarker(0x0584, 4, 0xeb1e)
    ensures AvoidsMarker(0xeb1e, 4, 0x41cf)
    ensures AvoidsMarker(0x41cf, 4, 0x8ab5)
  {
  }

  lemma {:induction false} AvoidsOnOrbit(k: nat, n: nat, w: bv16)
    requires AvoidsMarker(Orbit(k), n, w)
    ensures w == Orbit(k + 2 * n)
    ensures forall j :: k < j <= k + 2 * n ==> Orbit(j) & 0xff != 0xbf
    decreases n
  {
    hide ErasedBack;
    if n > 0 {
      assert Orbit(k + 2) == ErasedBack(Orbit(k + 1));
      AvoidsOnOrbit(k + 2, n - 1, w);
    }
  }

  lemma OrbitStart()
    ensures Orbit(0) == 0xffff
  {
  }

  /** Among the registers that up to 256 erased bytes turn into 0xffff none has the low byte of the marked register. */
  lemma OrbitAvoids(n: nat)
    requires 1 <= n <= 256
    ensures Orbit(n) & 0xff != 0xbf
  {
    hide AvoidsMarker, ErasedBack, Orbit;
    OrbitStart();
    OrbitChecked1();
    OrbitChecked2();
    OrbitChecked3();
    OrbitChecked4();
    AvoidsOnOrbit(0, 4, 0x46ad);
    AvoidsOnOrbit(8, 4, 0x23b6);
    AvoidsOnOrbit(16, 4, 0xe187);
    AvoidsOnOrbit(24, 4, 0x66b1);
    AvoidsOnOrbit(32, 4, 0x6e62);
    AvoidsOnOrbit(40, 4, 0xbbff);
    AvoidsOnOrbit(48, 4, 0x463e);
    AvoidsOnOrbit(56, 4, 0x652b);
    AvoidsOnOrbit(64, 4, 0xa944);
    AvoidsOnOrbit(72, 4, 0x4f68);
    AvoidsOnOrbit(80, 4, 0xce46);
    AvoidsOnOrbit(88, 4, 0xcc39);
    AvoidsOnOrbit(96, 4, 0x0f60);
    AvoidsOnOrbit(104, 4, 0xe0b9);
    AvoidsOnOrbit(112, 4, 0x3930);
    AvoidsOnOrbit(120, 4, 0x5708);
    AvoidsOnOrbit(128, 4, 0xe4f6);
    AvoidsOnOrbit(136, 4, 0x9729);
    AvoidsOnOrbit(144, 4, 0x4700);
    AvoidsOnOrbit(152, 4, 0x3aaa);
    AvoidsOnOrbit(160, 4, 0x902e);
    AvoidsOnOrbit(168, 4, 0x1061);
    AvoidsOnOrbit(176, 4, 0x1f51);
    AvoidsOnOrbit(184, 4, 0xee12);
    AvoidsOnOrbit(192, 4, 0x9c8e);
    AvoidsOnOrbit(200, 4, 0x3fff);
    AvoidsOnOrbit(208, 4, 0xe717);
    AvoidsOnOrbit(216, 4, 0x8460);
    AvoidsOnOrbit(224, 4, 0x0584);
    AvoidsOnOrbit(232, 4, 0xeb1e);
    AvoidsOnOrbit(240, 4, 0x41cf);
    AvoidsOnOrbit(248, 4, 0x8ab5);
  }

  lemma {:induction false} OrbitEnds(n: nat)
    ensures Update(Orbit(n), Erased(n)) == 0xffff
  {
    hide ByteStep, ErasedBack;
    if n > 0 {
      OrbitEnds(n - 1);
      ErasedBackUndone(Orbit(n - 1));
      UpdateOfOne(Orbit(n), 0xff);
      UpdateConcat(Orbit(n), [0xff], Erased(n - 1));
      assert [0xff] + Erased(n - 1) == Erased(n);
    }
  }

  /**
   A PIC sector of any size up to 255 whose bytes after the counter are erased never has the
   checksum 0xffff.
   */
  lemma ErasedPicSector(c: byte, size: nat)
    requires 1 <= size <= 255
    ensures Checksum([0xa5, c] + Erased(size)) != 0xffff
  {
    hide *;
    ErasedSteps();
    ChecksumOfPair(0xa5, c, Erased(size));
    var crc := ByteStep(0x04bf, c);
    if Update(crc, Erased(size)) == 0xffff {
      OrbitEnds(size);
      UpdateInjective(crc, Orbit(size), Erased(size));
      ErasedBackUndone(Orbit(size));
      OrbitAvoids(size + 1);
      OrbitNext(size);
      CounterStepAvoids(0x04bf, c, ByteBack(Orbit(size)));
    }
  }

  lemma OrbitNext(n: nat)
    ensures Orbit(n + 1) & 0xff == ByteBack(Orbit(n)) & 0xff
    ensures (0x04bf as bv16) & 0xff == 0xbf
  {
    hide ByteBack, Orbit;
    assert Orbit(n + 1) == ErasedBack(Orbit(n)) by { OrbitStep(n); }
    HighBitsOnly(ByteBack(Orbit(n)));
  }

  lemma OrbitStep(n: nat)
    ensures Orbit(n + 1) == ErasedBack(Orbit(n))
  {
    hide ErasedBack;
  }

  lemma HighBitsOnly(v: bv16)
    ensures (v ^ 0xff00) & 0xff == v & 0xff
  {
  }

  lemma ErasedTailSteps()
    ensures ByteStep(0x04bf, 0x37) == 0xb930 && ByteStep(0xb930, 0x3d) == 0xe10c
    ensures ByteStep(0xe10c, 0xff) == 0xffff
  {
  }

  lemma UpdateOfTwo(crc: bv16, x: byte, y: byte)
    ensures Update(crc, [x, y]) == ByteStep(ByteStep(crc, x), y)
  {
    hide ByteStep;
    assert [x, y][..1] == [x];
    UpdateOfOne(crc, x);
  }

  /** With the second of two value bytes erased, only one counter and one first byte give the checksum 0xffff. */
  lemma ErasedSecondByte(c: byte, d: byte)
    requires c != 0x37
    ensures Checksum([0xa5, c] + [d, 0xff]) != 0xffff
  {
    hide *;
    ErasedSteps();
    ErasedTailSteps();
    ChecksumOfPair(0xa5, c, [d, 0xff]);
    UpdateOfTwo(ByteStep(0x04bf, c), d, 0xff);
    var crc := ByteStep(ByteStep(0x04bf, c), d);
    if ByteStep(crc, 0xff) == 0xffff {
      ByteStepInjective(crc, 0xe10c, 0xff);
      TwoByteSteps(0x04bf, c, d);
      TwoByteSteps(0x04bf, 0x37, 0x3d);
      var first, second := Xor(HighHalf(c), LowHalf(d)), Xor(HighHalf(0x37), LowHalf(0x3d));
      BitStepsInjective(Xor(0x04bf, first), Xor(0x04bf, second), 16);
      XorCancel(first, second, 0x04bf);
      HalvesDetermineBytes(c, d, 0x37, 0x3d);
    }
  }

  lemma UpdateOfOne(crc: bv16, b: byte)
    ensures Update(crc, [b]) == ByteStep(crc, b)
  {
    hide ByteStep;
    assert [b][..0] == [];
    assert Update(crc, []) == crc;
  }

  // ---------- The last byte ----------

  lemma ShiftedByteShowsBelow(v: bv16)
    requires v & 0xff == 0 && EightSteps(v) & 0xff == 0
    ensures v == 0
  {
  }

  lemma SameLowHalves(c: bv16, d: bv16)
    requires c & 0xff == d & 0xff
    ensures Xor(c, d) & 0xff == 0
  {
  }

  lemma MixedHighHalves(c: bv16, x: bv16, y: bv16)
    requires x & 0xff == 0 && y & 0xff == 0
    ensures Xor(Xor(c, x), Xor(c, y)) & 0xff == 0
    ensures Xor(Xor(c, x), Xor(c, y)) == 0 ==> x == y
  {
  }

  lemma HighHalfIsHigh(b: byte)
    ensures HighHalf(b) & 0xff == 0
  {
    hide Bits;
  }

  lemma HighHalfInjective(x: byte, y: byte)
    requires HighHalf(x) == HighHalf(y)
    ensures x == y
  {
    hide HighHalf;
    HalvesDetermineBytes(x, 0, y, 0);
  }

  /** Another last byte changes the low byte of the checksum. */
  lemma LastByteChangesLowByte(prefix: seq<byte>, x: byte, y: byte)
    requires x != y
    ensures LowByte(Checksum(prefix + [x])) != LowByte(Checksum(prefix + [y]))
  {
    hide *;
    var crc := Update(INITIAL, prefix);
    LastStep(prefix, x);
    LastStep(prefix, y);
    if LowByte(Checksum(prefix + [x])) == LowByte(Checksum(prefix + [y])) {
      SameLowByte(ByteStep(crc, x), ByteStep(crc, y));
      SameLowHalves(ByteStep(crc, x), ByteStep(crc, y));
      var a, b := Xor(crc, HighHalf(x)), Xor(crc, HighHalf(y));
      ByteStepIs(crc, x);
      ByteStepIs(crc, y);
      BitStepsLinear(a, b, 8);
      EightStepsAre(Xor(a, b));
      HighHalfIsHigh(x);
      HighHalfIsHigh(y);
      MixedHighHalves(crc, HighHalf(x), HighHalf(y));
      ShiftedByteShowsBelow(Xor(a, b));
      HighHalfInjective(x, y);
    }
  }

  lemma ByteStepIs(crc: bv16, b: byte)
    ensures ByteStep(crc, b) == BitSteps(Xor(crc, HighHalf(b)), 8)
  {
    hide Xor, HighHalf, BitSteps;
  }

  lemma SameLowByte(c: bv16, d: bv16)
    requires LowByte(c) == LowByte(d)
    ensures c & 0xff == d & 0xff
  {
    NarrowInjective(c & 0xff, d & 0xff);
  }

  lemma LastStep(prefix: seq<byte>, x: byte)
    ensures Checksum(prefix + [x]) == ByteStep(Update(INITIAL, prefix), x)
  {
    hide ByteStep;
    UpdateConcat(INITIAL, prefix, [x]);
    UpdateOfOne(Update(INITIAL, prefix), x);
  }

  // ---------- The residue ----------

  lemma HalvesJoined(crc: bv16, high: bv16, low: bv16)
    requires high == crc >> 8 && low == crc & 0xff
    ensures (high << 8) ^ low == crc
  {
  }

  /** The two bytes of a register make it up again. */
  lemma BytesMakeUp(crc: bv16)
    ensures Xor(HighHalf(HighByte(crc)), LowHalf(LowByte(crc))) == crc
  {
    hide Bits;
    NarrowInjective(Bits(HighByte(crc)), crc >> 8);
    NarrowInjective(Bits(LowByte(crc)), crc & 0xff);
    HalvesJoined(crc, Bits(HighByte(crc)), Bits(LowByte(crc)));
  }

  lemma XorIsZero(c: bv16, d: bv16)
    ensures Xor(c, d) == 0 <==> c == d
  {
  }

  lemma {:induction false} ZeroStays(n: nat)
    ensures BitSteps(0, n) == 0
  {
    if n > 0 {
      ZeroStays(n - 1);
    }
  }

  /** The checksum over a message and two more bytes is zero exactly if they are its checksum, high byte first. */
  lemma ResidueIff(message: seq<byte>, x: byte, y: byte)
    ensures Checksum(message + [x, y]) == 0
      <==> x == HighByte(Checksum(message)) && y == LowByte(Checksum(message))
  {
    hide *;
    var crc, bytes := Checksum(message), Xor(HighHalf(x), LowHalf(y));
    ChecksumWithPair(message, x, y);
    ZeroStays(16);
    if BitSteps(Xor(crc, bytes), 16) == 0 {
      BitStepsInjective(Xor(crc, bytes), 0, 16);
    }
    XorIsZero(crc, bytes);
    BytesMakeUp(crc);
    if crc == bytes {
      HalvesDetermineBytes(x, y, HighByte(crc), LowByte(crc));
    }
  }

  lemma ChecksumWithPair(message: seq<byte>, x: byte, y: byte)
    ensures Checksum(message + [x, y]) == BitSteps(Xor(Checksum(message), Xor(HighHalf(x), LowHalf(y))), 16)
  {
    hide ByteStep, BitSteps, Xor, HighHalf, LowHalf;
    UpdateConcat(INITIAL, message, [x, y]);
    UpdateOfTwo(Checksum(message), x, y);
    TwoByteSteps(Checksum(message), x, y);
  }

  // ---------- A collision over three bytes ----------

  lemma UpdateOfThree(crc: bv16, p: byte, q: byte, r: byte)
    ensures Update(crc, [p, q, r]) == ByteStep(ByteStep(ByteStep(crc, p), q), r)
  {
    hide ByteStep;
    assert [p, q, r][..2] == [p, q];
    assert [p, q][..1] == [p];
    UpdateOfOne(crc, p);
    assert Update(crc, [p, q]) == ByteStep(ByteStep(crc, p), q);
  }

  lemma ZeroSteps()
    ensures ByteStep(0x04bf, 0x00) == 0xff84 && ByteStep(0xff84, 0x00) == 0x9af0 && ByteStep(0x9af0, 0x00) == 0xd2f3
  {
  }

  lemma CollidingSteps()
    ensures ByteStep(0x04bf, 0x10) == 0xedb5 && ByteStep(0xedb5, 0x12) == 0xabf0 && ByteStep(0xabf0, 0x31) == 0xd2f3
  {
  }

  /** Bursts longer than two bytes can go unnoticed. */
  lemma ThreeBytesCanCollide(b: byte)
    ensures Checksum([0xa5, 0x00] + [0x00, 0x00, b]) == Checksum([0xa5, 0x10] + [0x12, 0x31, b])
    ensures Checksum([0xa5, 0x00] + [0x00, 0x00]) == Checksum([0xa5, 0x10] + [0x12, 0x31])
  {
    hide *;
    ErasedSteps();
    ZeroSteps();
    CollidingSteps();
    ChecksumOfPair(0xa5, 0x00, [0x00, 0x00, b]);
    ChecksumOfPair(0xa5, 0x10, [0x12, 0x31, b]);
    UpdateOfThree(0xff84, 0x00, 0x00, b);
    UpdateOfThree(0xedb5, 0x12, 0x31, b);
    ChecksumOfPair(0xa5, 0x00, [0x00, 0x00]);
    ChecksumOfPair(0xa5, 0x10, [0x12, 0x31]);
    UpdateOfTwo(0xff84, 0x00, 0x00);
    UpdateOfTwo(0xedb5, 0x12, 0x31);
  }
}

/** HyperLogLog sketches: 16384 six-bit registers packed into bytes (src/hll.hpp). */
module HLL {
  import opened Keys

  const REGISTERS: int := 16384
  const ARRAY: int := 12288         // the bytes of a sketch
  const BYTES: int := ARRAY + 1     // and the byte behind them, which is not its own

  const BIT_49: int := 0x2_0000_0000_0000
  const BIT_50: int := 0x4_0000_0000_0000
  const BIT_56: int := 0x100_0000_0000_0000

  // ---------- packed registers ----------

  function Pair(lo: bv8, hi: bv8): bv16 {
    (lo as bv16) | ((hi as bv16) << 8)
  }

  function Get(word: bv16, off: nat): bv8
    requires off <= 6
  {
    ((word >> off) & 0x3F) as bv8
  }

  function Put(word: bv16, off: nat, val: bv8): bv16
    requires off <= 6
  {
    var mask := (0x3F as bv16) << off;
    (word & !mask) | (((val & 0x3F) as bv16) << off)
  }

  function Low(word: bv16): bv8 {
    (word & 0xFF) as bv8
  }

  function High(word: bv16): bv8 {
    ((word >> 8) & 0xFF) as bv8
  }

  function BytePos(idx: nat): nat {
    idx * 6 / 8
  }

  function BitOff(idx: nat): nat {
    idx * 6 % 8
  }

  lemma {:induction false} Layout(idx: nat)
    requires idx < REGISTERS
    ensures BytePos(idx) + 1 < BYTES
    ensures BytePos(idx) == 3 * (idx / 4) + (if idx % 4 == 0 || idx % 4 == 1 then 0 else idx % 4 - 1)
    ensures BitOff(idx) == if idx % 4 == 0 then 0 else if idx % 4 == 1 then 6 else if idx % 4 == 2 then 4 else 2
  {
    var g, r := idx / 4, idx % 4;
    assert idx * 6 == 8 * (3 * g) + 6 * r;
  }

  function Register(b: seq<bv8>, idx: nat): bv8
    requires |b| == BYTES && idx < REGISTERS
  {
    Layout(idx);
    var p := BytePos(idx);
    Get(Pair(b[p], b[p+1]), BitOff(idx))
  }

  /** The bytes after val is stored in register idx. */
  function Stored(b: seq<bv8>, idx: nat, val: bv8): seq<bv8>
    requires |b| == BYTES && idx < REGISTERS
  {
    Layout(idx);
    var p := BytePos(idx);
    var word := Put(Pair(b[p], b[p+1]), BitOff(idx), val);
    b[p := Low(word)][p+1 := High(word)]
  }

  lemma {:induction false} PutGet(x: bv8, y: bv8, off: nat, val: bv8)
    requires off == 0 || off == 2 || off == 4 || off == 6
    ensures var w := Put(Pair(x, y), off, val); Get(Pair(Low(w), High(w)), off) == val & 0x3F
  {
    var w := Put(Pair(x, y), off, val);
    WordBytes(w);
    if off == 0 { } else if off == 2 { } else if off == 4 { } else { }
  }

  lemma {:induction false} WordBytes(w: bv16)
    ensures Pair(Low(w), High(w)) == w
  {
  }

  /** Two registers in the same two bytes. */
  lemma {:induction false} SameBytes(x: bv8, y: bv8, val: bv8)
    ensures var w := Put(Pair(x, y), 0, val); Get(Pair(Low(w), High(w)), 6) == Get(Pair(x, y), 6)
    ensures var w := Put(Pair(x, y), 6, val); Get(Pair(Low(w), High(w)), 0) == Get(Pair(x, y), 0)
  {
  }

  /** A register that shares the upper byte of the stored one. */
  lemma {:induction false} NextByte(x: bv8, y: bv8, z: bv8, val: bv8)
    ensures var w := Put(Pair(x, y), 0, val); Get(Pair(High(w), z), 4) == Get(Pair(y, z), 4)
    ensures var w := Put(Pair(x, y), 6, val); Get(Pair(High(w), z), 4) == Get(Pair(y, z), 4)
    ensures var w := Put(Pair(x, y), 4, val); Get(Pair(High(w), z), 2) == Get(Pair(y, z), 2)
    ensures var w := Put(Pair(x, y), 2, val);
      Get(Pair(High(w), z), 0) == Get(Pair(y, z), 0) && Get(Pair(High(w), z), 6) == Get(Pair(y, z), 6)
  {
  }

  /** A register that shares the lower byte of the stored one. */
  lemma {:induction false} PreviousByte(x: bv8, y: bv8, z: bv8, val: bv8)
    ensures var w := Put(Pair(y, z), 4, val);
      Get(Pair(x, Low(w)), 0) == Get(Pair(x, y), 0) && Get(Pair(x, Low(w)), 6) == Get(Pair(x, y), 6)
    ensures var w := Put(Pair(y, z), 2, val); Get(Pair(x, Low(w)), 4) == Get(Pair(x, y), 4)
  {
  }

  lemma {:induction false} PreviousGroup(x: bv8, y: bv8, z: bv8, val: bv8)
    ensures var w := Put(Pair(y, z), 0, val); Get(Pair(x, Low(w)), 2) == Get(Pair(x, y), 2)
    ensures var w := Put(Pair(y, z), 6, val); Get(Pair(x, Low(w)), 2) == Get(Pair(x, y), 2)
  {
  }

  /** Storing changes one register: neighbours that share its bytes keep their value. */
  lemma {:induction false} StoredRegister(b: seq<bv8>, idx: nat, val: bv8, j: nat)
    requires |b| == BYTES && idx < REGISTERS && j < REGISTERS
    ensures Register(Stored(b, idx, val), j) == if j == idx then val & 0x3F else Register(b, j)
  {
    hide Get, Put, Pair, Low, High, BytePos, BitOff;
    Layout(idx);
    Layout(j);
    var p, q := BytePos(idx), BytePos(j);
    if j == idx {
      PutGet(b[p], b[p+1], BitOff(idx), val);
    } else if q == p {
      SameBytes(b[p], b[p+1], val);
    } else if q == p + 1 {
      NextByte(b[p], b[p+1], b[p+2], val);
    } else if q + 1 == p {
      PreviousByte(b[q], b[p], b[p+1], val);
      PreviousGroup(b[q], b[p], b[p+1], val);
    }
  }

  function Value(x: bv8): nat {
    x as nat
  }

  /** Four registers are the 24 bits of three bytes, the least significant ones first. */
  lemma {:induction false} FourRegisters(b: seq<bv8>, g: nat)
    requires |b| == BYTES && 4 * g + 3 < REGISTERS
    ensures 3 * g + 2 < ARRAY
    ensures Value(Register(b, 4 * g)) + 64 * Value(Register(b, 4 * g + 1))
      + 4096 * Value(Register(b, 4 * g + 2)) + 262144 * Value(Register(b, 4 * g + 3))
      == Value(b[3 * g]) + 256 * Value(b[3 * g + 1]) + 65536 * Value(b[3 * g + 2])
  {
    hide *;
    Group(b, g);
    FourFields(b[3*g], b[3*g+1], b[3*g+2], b[3*g+3]);
  }

  lemma {:induction false} Group(b: seq<bv8>, g: nat)
    requires |b| == BYTES && 4 * g + 3 < REGISTERS
    ensures 3 * g + 2 < ARRAY && 3 * g + 3 < |b|
    ensures Register(b, 4 * g) == Get(Pair(b[3*g], b[3*g+1]), 0)
    ensures Register(b, 4 * g + 1) == Get(Pair(b[3*g], b[3*g+1]), 6)
    ensures Register(b, 4 * g + 2) == Get(Pair(b[3*g+1], b[3*g+2]), 4)
    ensures Register(b, 4 * g + 3) == Get(Pair(b[3*g+2], b[3*g+3]), 2)
  {
    hide Get, Pair;
    PastArray(4 * g + 3);
    Layout(4 * g);
    Layout(4 * g + 1);
    Layout(4 * g + 2);
    Layout(4 * g + 3);
    hide BytePos, BitOff;
  }

  lemma {:induction false} FourFields(a: bv8, b: bv8, c: bv8, d: bv8)
    ensures Value(Get(Pair(a, b), 0)) + 64 * Value(Get(Pair(a, b), 6))
      + 4096 * Value(Get(Pair(b, c), 4)) + 262144 * Value(Get(Pair(c, d), 2))
      == Value(a) + 256 * Value(b) + 65536 * Value(c)
  {
    hide *;
    LowField(a, b);
    MiddleField(a, b);
    LastField(b, c);
    HighField(c, d);
  }

  lemma {:induction false} LowField(a: bv8, b: bv8)
    ensures Value(a) == Value(Get(Pair(a, b), 0)) + 64 * Value(a >> 6)
  {
    assert Get(Pair(a, b), 0) == a & 0x3F;
    hide Get, Pair;
  }

  lemma {:induction false} MiddleField(a: bv8, b: bv8)
    ensures Value(Get(Pair(a, b), 6)) == Value(a >> 6) + 4 * Value(b & 0xF)
  {
    var z := Get(Pair(a, b), 6);
    assert z & 3 == a >> 6 && z >> 2 == b & 0xF;
    hide Get, Pair;
    SplitByte(z);
  }

  lemma {:induction false} LastField(b: bv8, c: bv8)
    ensures Value(Get(Pair(b, c), 4)) == Value(b >> 4) + 16 * Value(c & 0x3)
    ensures Value(b) == Value(b & 0xF) + 16 * Value(b >> 4)
  {
    var z := Get(Pair(b, c), 4);
    assert z & 15 == b >> 4 && z >> 4 == c & 0x3;
    hide Get, Pair;
    SplitByte(z);
    SplitByte(b);
  }

  lemma {:induction false} HighField(c: bv8, d: bv8)
    ensures Value(c) == Value(c & 0x3) + 4 * Value(Get(Pair(c, d), 2))
  {
    assert Get(Pair(c, d), 2) == c >> 2;
    hide Get, Pair;
    SplitByte(c);
  }

  lemma {:induction false} SplitByte(a: bv8)
    ensures Value(a) == Value(a & 0x3F) + 64 * Value(a >> 6)
    ensures Value(a) == Value(a & 0xF) + 16 * Value(a >> 4)
    ensures Value(a) == Value(a & 0x3) + 4 * Value(a >> 2)
  {
  }

  // ---------- the byte behind the array ----------

  /** Only the last register is accessed past the end of the array. */
  lemma {:induction false} PastArray(idx: nat)
    requires idx < REGISTERS
    ensures BytePos(idx) + 1 >= ARRAY <==> idx == REGISTERS - 1
    ensures BytePos(idx) < ARRAY && (idx == REGISTERS - 1 ==> BitOff(idx) == 2)
  {
    Layout(idx);
  }

  lemma {:induction false} LowByteOnly(x: bv8, y: bv8, z: bv8, val: bv8)
    ensures Get(Pair(x, y), 2) == Get(Pair(x, z), 2)
    ensures High(Put(Pair(x, y), 2, val)) == y && Low(Put(Pair(x, y), 2, val)) == Low(Put(Pair(x, z), 2, val))
  {
  }

  /** No register depends on that byte, and a store leaves it as it is. */
  lemma {:induction false} ForeignByte(b: seq<bv8>, x: bv8, idx: nat, val: bv8)
    requires |b| == BYTES && idx < REGISTERS
    ensures Register(b[ARRAY := x], idx) == Register(b, idx)
    ensures Stored(b, idx, val)[ARRAY] == b[ARRAY]
    ensures Stored(b[ARRAY := x], idx, val) == Stored(b, idx, val)[ARRAY := x]
  {
    hide Get, Put, Pair, Low, High, BytePos, BitOff;
    Layout(idx);
    PastArray(idx);
    var p := BytePos(idx);
    if p + 1 == ARRAY {
      LowByteOnly(b[p], b[p+1], x, val);
      LowByteOnly(b[p], x, b[p+1], val);
    }
  }

  /** A sketch stays the same whatever is written there. */
  lemma {:induction false} SketchesForeign(b: seq<bv8>, x: bv8, hashes: seq<u64>)
    requires Sketches(b, hashes)
    ensures Sketches(b[ARRAY := x], hashes)
  {
    hide Register, Stored;
    forall i | 0 <= i < REGISTERS ensures Register(b[ARRAY := x], i) == Register(b, i) {
      ForeignByte(b, x, i, 0);
    }
  }

  // ---------- leading zeros ----------

  function Pow2(n: nat): (r: nat)
    ensures r >= 1
  {
    if n == 0 then 1 else 2 * Pow2(n - 1)
  }

  /** The zeros at the head of v, written with width bits. */
  function Zeros(v: nat, width: nat): (n: nat)
    ensures n <= width && (v > 0 && v < Pow2(width) ==> n < width)
  {
    if width == 0 || v >= Pow2(width - 1) then 0 else 1 + Zeros(v, width - 1)
  }

  /** What the count means: the highest set bit of v is number width - 1 - n. */
  lemma {:induction false} ZerosMeaning(v: nat, width: nat)
    requires 0 < v < Pow2(width)
    ensures Pow2(width - 1 - Zeros(v, width)) <= v < Pow2(width - Zeros(v, width))
  {
    if v < Pow2(width - 1) {
      ZerosMeaning(v, width - 1);
    }
  }

  lemma {:induction false} ZerosDouble(v: nat, width: nat)
    requires 0 < v && width > 0 && v < Pow2(width - 1)
    ensures Zeros(v, width) == Zeros(2 * v, width) + 1
  {
    if width > 1 && v < Pow2(width - 2) {
      ZerosDouble(v, width - 1);
    }
  }

  lemma {:induction false} Powers()
    ensures Pow2(49) == BIT_49 && Pow2(50) == BIT_50
  {
    assert Pow2(10) == 1024;
    assert Pow2(20) == 1048576;
    assert Pow2(30) == 1073741824;
    assert Pow2(40) == 1099511627776;
  }

  /** The loop of CountLeadingZeros comes to an end. */
  predicate Countable(value: u64) {
    value == 0 || value % BIT_50 != 0
  }

  /** Bit 49 of a 64-bit number. */
  predicate Bit49(value: u64) {
    value / BIT_49 % 2 == 1
  }

  function Shifted(value: u64): u64 {
    2 * value % U64_LIMIT
  }

  lemma {:induction false} Mod50(x: int, q: int, r: int)
    requires x == q * BIT_50 + r && 0 <= r < BIT_50
    ensures x % BIT_50 == r
  {
  }

  lemma {:induction false} Half(x: int, q: int, r: int)
    requires x == q * BIT_50 + r && 0 <= r < BIT_50
    ensures x / BIT_49 == 2 * q + if r >= BIT_49 then 1 else 0
  {
  }

  lemma {:induction false} BitOfLow(value: u64)
    ensures Bit49(value) <==> value % BIT_50 >= BIT_49
    ensures !Bit49(value) ==> Shifted(value) % BIT_50 == 2 * (value % BIT_50)
  {
    var q, r := value / BIT_50, value % BIT_50;
    Half(value, q, r);
    if r < BIT_49 {
      var k := if 2 * value >= U64_LIMIT then 1 else 0;
      assert Shifted(value) == 2 * value - k * U64_LIMIT;
      Mod50(Shifted(value), 2 * q - 16384 * k, 2 * r);
    }
  }

  function ShiftedBy(value: u64, n: nat): u64 {
    if n == 0 then value else Shifted(ShiftedBy(value, n - 1))
  }

  /** If the low 50 bits are zero, no number of shifts ever sets bit 49. */
  lemma {:induction false} NeverEnds(value: u64, n: nat)
    requires value % BIT_50 == 0
    ensures ShiftedBy(value, n) % BIT_50 == 0 && !Bit49(ShiftedBy(value, n))
  {
    if n > 0 {
      NeverEnds(value, n - 1);
      BitOfLow(ShiftedBy(value, n - 1));
    }
    BitOfLow(ShiftedBy(value, n));
  }

  /** The count returns at once or its loop comes to an end, iff the value is zero or its low 50 bits are not. */
  lemma {:induction false} LoopEnds(value: u64)
    ensures Countable(value) <==> value == 0 || Ends(value)
  {
    if value % BIT_50 == 0 {
      forall n: nat ensures !Bit49(ShiftedBy(value, n)) { NeverEnds(value, n); }
    } else {
      Powers();
      var n := ShiftsNeeded(value, value, 0);
    }
  }

  /** After some number of shifts bit 49 is set. */
  ghost predicate Ends(value: u64) {
    exists n: nat :: Bit49(ShiftedBy(value, n))
  }

  lemma {:induction false} ShiftsNeeded(value: u64, v: u64, k: nat) returns (n: nat)
    requires v == ShiftedBy(value, k) && v % BIT_50 != 0 && Pow2(49) == BIT_49 && Pow2(50) == BIT_50
    ensures Bit49(ShiftedBy(value, n)) && Ends(value)
    decreases Zeros(v % BIT_50, 50)
  {
    BitOfLow(v);
    if Bit49(v) {
      n := k;
    } else {
      ZerosDouble(v % BIT_50, 50);
      assert ShiftedBy(value, k + 1) == Shifted(v);
      n := ShiftsNeeded(value, Shifted(v), k + 1);
    }
  }

  /** A hash that Add never finishes with. */
  lemma {:induction false} EndlessHash()
    ensures !Countable(Counted(BIT_50))
  {
  }

  method CountLeadingZeros(value: u64) returns (count: nat)
    requires Countable(value)
    ensures count == Zeros(value % BIT_50, 50) <= 50
  {
    Powers();
    if value == 0 {
      ZeroOf(50);
      return 50;
    }
    var v: u64 := value;
    count := 0;
    while !Bit49(v)
      invariant 0 < v % BIT_50 && count + Zeros(v % BIT_50, 50) == Zeros(value % BIT_50, 50)
      decreases Zeros(v % BIT_50, 50)
    {
      BitOfLow(v);
      ZerosDouble(v % BIT_50, 50);
      v := Shifted(v);
      count := count + 1;
    }
    BitOfLow(v);
  }

  lemma {:induction false} ZeroOf(width: nat)
    ensures Zeros(0, width) == width
  {
    if width > 0 {
      ZeroOf(width - 1);
    }
  }

  // ---------- sketches ----------

  function Index(hash: u64): (i: nat)
    ensures i < REGISTERS
  {
    hash / BIT_50
  }

  /** The part of the hash that Add counts in: 56 bits, though only 50 of them are looked at. */
  function Counted(hash: u64): u64 {
    hash % BIT_56
  }

  function Rank(hash: u64): (n: nat)
    ensures n <= 50
  {
    Zeros(Counted(hash) % BIT_50, 50)
  }

  /** The register is that of the upper 14 bits; the count is of the zeros at the head of the other 50. */
  lemma {:induction false} HashParts(hash: u64)
    ensures Index(hash) * BIT_50 <= hash < (Index(hash) + 1) * BIT_50
    ensures Rank(hash) == Zeros(hash - Index(hash) * BIT_50, 50)
    ensures Countable(Counted(hash)) <==>
      hash - Index(hash) * BIT_50 > 0 || Index(hash) % 64 == 0
  {
    var i, low := hash / BIT_50, hash % BIT_50;
    assert hash == i * BIT_50 + low;
    assert BIT_56 == 64 * BIT_50;
    var c, q := hash % BIT_56, hash / BIT_56;
    assert hash == q * (64 * BIT_50) + c;
    var k := i - 64 * q;
    assert c == k * BIT_50 + low;
    assert c % BIT_50 == low;
    assert 0 <= k < 64;
    assert i % 64 == k;
  }

  function Max(a: nat, b: nat): nat {
    if a > b then a else b
  }

  /** The register i of the sketch of a sequence of hashes. */
  ghost function Highest(hashes: seq<u64>, i: nat): (n: nat)
    ensures n <= 50
  {
    if hashes == [] then 0
    else Max(Highest(hashes[1..], i), if Index(hashes[0]) == i then Rank(hashes[0]) else 0)
  }

  lemma {:induction false} HighestConcat(a: seq<u64>, b: seq<u64>, i: nat)
    ensures Highest(a + b, i) == Max(Highest(a, i), Highest(b, i))
  {
    if a == [] {
      assert a + b == b;
    } else {
      assert (a + b)[1..] == a[1..] + b;
      HighestConcat(a[1..], b, i);
    }
  }

  lemma {:induction false} HighestAtLeast(a: seq<u64>, i: nat, h: u64)
    requires h in a && Index(h) == i
    ensures Highest(a, i) >= Rank(h)
  {
    if a[0] != h {
      HighestAtLeast(a[1..], i, h);
    }
  }

  lemma {:induction false} HighestFrom(a: seq<u64>, i: nat)
    ensures Highest(a, i) == 0 || exists h :: h in a && Index(h) == i && Rank(h) == Highest(a, i)
  {
    if a != [] {
      HighestFrom(a[1..], i);
    }
  }

  /** A sketch depends on the set of the hashes only: neither on their order nor on repetitions. */
  lemma {:induction false} SketchOfSet(a: seq<u64>, b: seq<u64>, i: nat)
    requires forall h :: h in a <==> h in b
    ensures Highest(a, i) == Highest(b, i)
  {
    HighestFrom(a, i);
    HighestFrom(b, i);
    if Highest(a, i) > 0 {
      var h :| h in a && Index(h) == i && Rank(h) == Highest(a, i);
      HighestAtLeast(b, i, h);
    }
    if Highest(b, i) > 0 {
      var h :| h in b && Index(h) == i && Rank(h) == Highest(b, i);
      HighestAtLeast(a, i, h);
    }
  }

  /** A stored count reads back as itself. */
  lemma {:induction false} SixBits(v: nat)
    requires v < 64
    ensures ((v as bv8) & 0x3F) as nat == v
  {
    assert v < 64 ==> (v as bv8) & 0x3F == v as bv8;
  }

  /** The registers of the sketch of the hashes. */
  ghost predicate Sketches(b: seq<bv8>, hashes: seq<u64>) {
    |b| == BYTES && forall i :: 0 <= i < REGISTERS ==> Register(b, i) as nat == Highest(hashes, i)
  }

  lemma {:induction false} StoredCount(b: seq<bv8>, idx: nat, val: nat, j: nat)
    requires |b| == BYTES && idx < REGISTERS && j < REGISTERS && val < 64
    ensures Register(Stored(b, idx, val as bv8), j) as nat == if j == idx then val else Register(b, j) as nat
  {
    StoredRegister(b, idx, val as bv8, j);
    SixBits(val);
    hide Stored, Register;
  }

  /** One register raised to the maximum: the sketch of one more hash. */
  lemma {:induction false} SketchesAdd(b: seq<bv8>, c: seq<bv8>, hashes: seq<u64>, h: u64)
    requires Sketches(b, hashes) && |c| == BYTES
    requires forall j :: 0 <= j < REGISTERS ==>
      Register(c, j) as nat == Max(Register(b, j) as nat, if j == Index(h) then Rank(h) else 0)
    ensures Sketches(c, hashes + [h])
  {
    hide Register, Rank, Index;
    forall j | 0 <= j < REGISTERS ensures Register(c, j) as nat == Highest(hashes + [h], j) {
      HighestConcat(hashes, [h], j);
      HighestOne(h, j);
    }
  }

  lemma {:induction false} HighestOne(h: u64, j: nat)
    ensures Highest([h], j) == if Index(h) == j then Rank(h) else 0
  {
    assert [h][1..] == [];
  }

  /**
   If the upper 14 bits of the hash are the number i, the register is the maximum of what it was and the zeros at the
   head of the lower 50 bits; otherwise it is what it was.
   */
  ghost predicate RaisedBy(b: seq<bv8>, c: seq<bv8>, hash: u64, i: nat)
    requires |b| == |c| == BYTES && i < REGISTERS
  {
    var x, y := Register(b, i) as nat, Register(c, i) as nat;
    if i * BIT_50 <= hash < (i + 1) * BIT_50 then y == Max(x, Zeros(hash - i * BIT_50, 50)) else y == x
  }

  lemma {:induction false} RaisedIs(b: seq<bv8>, c: seq<bv8>, hash: u64, i: nat)
    requires |b| == |c| == BYTES && i < REGISTERS
    requires Register(c, i) as nat == Max(Register(b, i) as nat, if i == Index(hash) then Rank(hash) else 0)
    ensures RaisedBy(b, c, hash, i)
  {
    HashParts(hash);
    hide Register, Rank, Index, Zeros;
  }

  ghost function Level(b: seq<bv8>, j: nat): nat
    requires |b| == BYTES && j < REGISTERS
  {
    Register(b, j) as nat
  }

  /** The first n registers of c are the maxima of those of a and b, the others are those of a. */
  ghost predicate Merged(a: seq<bv8>, b: seq<bv8>, c: seq<bv8>, n: nat) {
    && |a| == |b| == |c| == BYTES
    && (forall j :: 0 <= j < REGISTERS ==>
        Level(c, j) == if j < n then Max(Level(a, j), Level(b, j)) else Level(a, j))
  }

  lemma {:induction false} MergedNone(a: seq<bv8>, b: seq<bv8>)
    requires |a| == |b| == BYTES
    ensures Merged(a, b, a, 0) && BYTES == ARRAY + 1 && 0 <= ARRAY && 0 <= REGISTERS
  {
    hide Level;
  }

  /** b with the count v in register i. */
  ghost function WithLevel(b: seq<bv8>, i: nat, v: nat): seq<bv8>
    requires |b| == BYTES && i < REGISTERS && v < 256
  {
    Stored(b, i, v as bv8)
  }

  lemma {:induction false} MergedNext(a: seq<bv8>, b: seq<bv8>, c: seq<bv8>, i: nat)
    requires i < REGISTERS && |a| == |b| == |c| == BYTES && Merged(a, b, c, i)
    ensures Level(b, i) < 64 && (a == b ==> Level(b, i) == Level(c, i))
    ensures Merged(a, b, if Level(b, i) > Level(c, i) then WithLevel(c, i, Level(b, i)) else c, i + 1)
  {
    hide *;
    LevelIs(b, i);
    MergedAt(a, b, c, i, i);
    var x, y := Level(c, i), Level(b, i);
    var d := if y > x then WithLevel(c, i, y) else c;
    StoredSize(c, i, y);
    forall j | 0 <= j < REGISTERS
      ensures Level(d, j) == if j < i + 1 then Max(Level(a, j), Level(b, j)) else Level(a, j)
    {
      MergedAt(a, b, c, i, j);
      LevelStored(c, i, y, j);
    }
    MergedOf(a, b, d, i + 1);
  }

  lemma {:induction false} MergedAt(a: seq<bv8>, b: seq<bv8>, c: seq<bv8>, n: nat, j: nat)
    requires Merged(a, b, c, n) && j < REGISTERS && |a| == |b| == |c| == BYTES
    ensures Level(c, j) == if j < n then Max(Level(a, j), Level(b, j)) else Level(a, j)
    ensures Max(Level(a, j), Level(b, j)) == if Level(a, j) > Level(b, j) then Level(a, j) else Level(b, j)
  {
    hide Level;
  }

  lemma {:induction false} MergedOf(a: seq<bv8>, b: seq<bv8>, c: seq<bv8>, n: nat)
    requires |a| == |b| == |c| == BYTES
    requires forall j :: 0 <= j < REGISTERS ==>
      Level(c, j) == if j < n then Max(Level(a, j), Level(b, j)) else Level(a, j)
    ensures Merged(a, b, c, n)
  {
    hide Level;
  }

  lemma {:induction false} StoredSize(b: seq<bv8>, i: nat, v: nat)
    requires |b| == BYTES && i < REGISTERS && v < 256
    ensures |WithLevel(b, i, v)| == BYTES && WithLevel(b, i, v) == Stored(b, i, v as bv8)
  {
  }

  lemma {:induction false} LevelIs(b: seq<bv8>, i: nat)
    requires i < REGISTERS && |b| == BYTES
    ensures Level(b, i) == Register(b, i) as nat < 64
  {
  }

  lemma {:induction false} LevelStored(b: seq<bv8>, idx: nat, val: nat, j: nat)
    requires |b| == BYTES && idx < REGISTERS && j < REGISTERS && val < 64
    ensures |WithLevel(b, idx, val)| == BYTES
    ensures Level(WithLevel(b, idx, val), j) == if j == idx then val else Level(b, j)
  {
    StoredCount(b, idx, val, j);
    StoredSize(b, idx, val);
    hide Stored, Register;
  }

  lemma {:induction false} SketchesSize(b: seq<bv8>, hashes: seq<u64>)
    requires Sketches(b, hashes)
    ensures |b| == BYTES
  {
  }

  lemma {:induction false} SketchesMerge(a: seq<bv8>, b: seq<bv8>, c: seq<bv8>, s: seq<u64>, t: seq<u64>)
    requires Sketches(a, s) && Sketches(b, t) && Merged(a, b, c, REGISTERS)
    ensures Sketches(c, s + t)
  {
    hide Register, Level, Highest;
    forall j | 0 <= j < REGISTERS ensures Register(c, j) as nat == Highest(s + t, j) {
      HighestConcat(s, t, j);
      LevelIs(a, j);
      LevelIs(b, j);
      LevelIs(c, j);
    }
  }

  class HyperLogLog {
    const registers: array<bv8>

    /** next is the byte behind the array, whatever it holds. */
    constructor (next: bv8)
      ensures fresh(registers) && Sketches(registers[..], []) && registers[ARRAY] == next
    {
      registers := new bv8[BYTES](i => if i < ARRAY then 0 else next);
      new;
      ZeroSketch(registers[..]);
    }

    method GetRegister(idx: nat) returns (value: nat)
      requires registers.Length == BYTES && idx < REGISTERS
      ensures value == Register(registers[..], idx) as nat
    {
      Layout(idx);
      var bytePos, bitOff := BytePos(idx), BitOff(idx);
      var word := Pair(registers[bytePos], registers[bytePos+1]);
      value := Get(word, bitOff) as nat;
    }

    method SetRegister(idx: nat, val: nat)
      requires registers.Length == BYTES && idx < REGISTERS && val < 256
      modifies registers
      ensures registers[..] == Stored(old(registers[..]), idx, val as bv8)
      ensures registers[ARRAY] == old(registers[ARRAY])
    {
      ForeignByte(registers[..], 0, idx, val as bv8);
      Layout(idx);
      var bytePos, bitOff := BytePos(idx), BitOff(idx);
      var word := Put(Pair(registers[bytePos], registers[bytePos+1]), bitOff, val as bv8);
      registers[bytePos] := Low(word);
      registers[bytePos+1] := High(word);
    }

    /** Adds one hash.  The count terminates only if the 56 bits it gets are zero or their low 50 are not. */
    method Add(hash: u64, ghost seen: seq<u64>)
      requires Sketches(registers[..], seen) && Countable(Counted(hash))
      modifies registers
      ensures Sketches(registers[..], seen + [hash]) && registers[ARRAY] == old(registers[ARRAY])
      ensures forall i :: 0 <= i < REGISTERS ==> RaisedBy(old(registers[..]), registers[..], hash, i)
    {
      hide Register, Stored, Highest, Counted, RaisedBy;
      ghost var b := registers[..];
      var regIdx := Index(hash);
      var count := CountLeadingZeros(Counted(hash));
      var current := GetRegister(regIdx);
      if count > current {
        SetRegister(regIdx, count);
      }
      forall j | 0 <= j < REGISTERS
        ensures Register(registers[..], j) as nat ==
          Max(Register(b, j) as nat, if j == Index(hash) then Rank(hash) else 0)
      {
        StoredCount(b, regIdx, count, j);
      }
      forall i | 0 <= i < REGISTERS ensures RaisedBy(b, registers[..], hash, i) {
        RaisedIs(b, registers[..], hash, i);
      }
      SketchesAdd(b, registers[..], seen, hash);
    }

    /** Merging gives the sketch of both sequences of hashes together. */
    method Merge(other: HyperLogLog, ghost seen: seq<u64>, ghost others: seq<u64>)
      requires Sketches(registers[..], seen) && Sketches(other.registers[..], others)
      modifies registers
      ensures Sketches(registers[..], seen + others) && registers[ARRAY] == old(registers[ARRAY])
      ensures Merged(old(registers[..]), old(other.registers[..]), registers[..], REGISTERS)
    {
      hide *;
      ghost var a, b := registers[..], other.registers[..];
      SketchesSize(a, seen);
      SketchesSize(b, others);
      MergedNone(a, b);
      for i := 0 to REGISTERS
        invariant registers.Length == other.registers.Length == BYTES && registers[ARRAY] == a[ARRAY]
        invariant other.registers == registers || other.registers[..] == b
        invariant other.registers == registers ==> a == b
        invariant Merged(a, b, registers[..], i)
      {
        ghost var c := registers[..];
        var x := GetRegister(i);
        var y := other.GetRegister(i);
        MergedNext(a, b, c, i);
        LevelIs(c, i);
        LevelIs(b, i);
        StoredSize(c, i, y);
        if y > x {
          SetRegister(i, y);
        }
      }
      SketchesMerge(a, b, registers[..], seen, others);
    }
  }

  lemma {:induction false} ZeroSketch(b: seq<bv8>)
    requires |b| == BYTES && forall i :: 0 <= i < ARRAY ==> b[i] == 0
    ensures Sketches(b, [])
  {
    forall i | 0 <= i < REGISTERS ensures Register(b, i) as nat == 0 {
      ForeignByte(b, 0, i, 0);
      PastArray(i);
      ZeroWord(BitOff(i));
    }
  }

  lemma {:induction false} ZeroWord(off: nat)
    requires off == 0 || off == 2 || off == 4 || off == 6
    ensures Get(Pair(0, 0), off) == 0
  {
  }
}

/**
 The length-prefixed formats shared by the serialisers (src/engine.cpp:13-266), the C interface
 (src/kv_impl.cpp) and the Rust readers (rust/src/lib.rs).  A record is a list of fields; a field is
 a 4-byte little-endian length and that many bytes, or a fixed number of bytes.
 */
module Codec {
  import opened Keys

  datatype Field = Blob | Fixed(size: nat)

  type Layout = seq<Field>
  type Rec = seq<Bytes>

  const MEMBERS: Layout := [Blob]              // list items, set members
  const PAIRS: Layout := [Blob, Blob]          // hash fields, stream fields
  const SCORED: Layout := [Blob, Fixed(8)]     // sorted-set members; a score is its 8 bytes

  function U32(n: u32): (b: Bytes)
    ensures |b| == 4
  {
    [(n % 256) as char, (n / 256 % 256) as char, (n / 65536 % 256) as char, (n / 16777216) as char]
  }

  function FromU32(b: Bytes): u32
    requires |b| >= 4
  {
    b[0] as int + 256 * (b[1] as int) + 65536 * (b[2] as int) + 16777216 * (b[3] as int)
  }

  lemma {:induction false} U32Back(n: u32, rest: Bytes)
    ensures FromU32(U32(n) + rest) == n && (U32(n) + rest)[4..] == rest
  {
    var b := U32(n) + rest;
    assert b[0] == U32(n)[0] && b[1] == U32(n)[1] && b[2] == U32(n)[2] && b[3] == U32(n)[3];
    var q := n / 256;
    assert n == 256 * q + n % 256 && n / 65536 == q / 256 && n / 16777216 == q / 65536;
  }

  /** The number that bytes stand for, the least significant one first. */
  function Le(b: Bytes): nat {
    if b == [] then 0 else b[0] as int + 256 * Le(b[1..])
  }

  /** Both conversions are little-endian, and a length has one form only. */
  lemma {:induction false} LittleEndian(n: u32, b: Bytes)
    requires |b| >= 4
    ensures FromU32(b) == Le(b[..4]) && |U32(n)| == 4 && Le(U32(n)) == n
    ensures Le(b[..4]) == n ==> b[..4] == U32(n)
  {
    LeFour(b[..4]);
    LeFour(U32(n));
    U32Back(n, []);
    assert U32(n) + [] == U32(n);
    var c, d := b[..4], U32(n);
    if Le(c) == n {
      Places(c[0] as int, c[1] as int, c[2] as int, c[3] as int, d[0] as int, d[1] as int, d[2] as int, d[3] as int);
    }
  }

  lemma {:induction false} LeFour(b: Bytes)
    requires |b| == 4
    ensures Le(b) == b[0] as int + 256 * (b[1] as int) + 65536 * (b[2] as int) + 16777216 * (b[3] as int)
  {
    var c := b[1..];
    var d := c[1..];
    var e := d[1..];
    assert e[1..] == [];
    assert Le(e) == b[3] as int;
    assert Le(d) == b[2] as int + 256 * Le(e);
    assert Le(c) == b[1] as int + 256 * Le(d);
  }

  lemma {:induction false} Places(a: int, b: int, c: int, d: int, e: int, f: int, g: int, h: int)
    requires 0 <= a < 256 && 0 <= b < 256 && 0 <= c < 256 && 0 <= d < 256
    requires 0 <= e < 256 && 0 <= f < 256 && 0 <= g < 256 && 0 <= h < 256
    requires a + 256 * b + 65536 * c + 16777216 * d == e + 256 * f + 65536 * g + 16777216 * h
    ensures a == e && b == f && c == g && d == h
  {
  }

  // ---------- writing ----------

  predicate FieldFits(f: Field, x: Bytes) {
    match f
    case Blob => |x| < U32_LIMIT
    case Fixed(n) => |x| == n
  }

  predicate Fits(l: Layout, r: Rec) {
    |r| == |l| && forall i :: 0 <= i < |l| ==> FieldFits(l[i], r[i])
  }

  function WriteField(f: Field, x: Bytes): Bytes
    requires FieldFits(f, x)
  {
    match f
    case Blob => U32(|x|) + x
    case Fixed(_) => x
  }

  function WriteRec(l: Layout, r: Rec): Bytes
    requires Fits(l, r)
  {
    if l == [] then [] else WriteField(l[0], r[0]) + WriteRec(l[1..], r[1..])
  }

  predicate FitsAll(l: Layout, rs: seq<Rec>) {
    forall r :: r in rs ==> Fits(l, r)
  }

  function WriteRecs(l: Layout, rs: seq<Rec>): Bytes
    requires FitsAll(l, rs)
  {
    if rs == [] then [] else WriteRec(l, rs[0]) + WriteRecs(l, rs[1..])
  }

  // ---------- reading ----------

  /** What was read, and the bytes after it. */
  datatype Parsed<T> = Parsed(value: T, rest: Bytes) | TooShort

  function ReadField(f: Field, b: Bytes): (p: Parsed<Bytes>)
    ensures p.Parsed? ==> |p.rest| <= |b| && (f.Blob? ==> |p.rest| < |b|)
  {
    match f
    case Blob =>
      if |b| < 4 || |b| < 4 + FromU32(b) then TooShort
      else Parsed(b[4..4+FromU32(b)], b[4+FromU32(b)..])
    case Fixed(n) =>
      if |b| < n then TooShort else Parsed(b[..n], b[n..])
  }

  function ReadRec(l: Layout, b: Bytes): (p: Parsed<Rec>)
    ensures p.Parsed? ==> |p.rest| <= |b| && (l != [] && l[0].Blob? ==> |p.rest| < |b|)
  {
    if l == [] then Parsed([], b)
    else
      match ReadField(l[0], b)
      case TooShort => TooShort
      case Parsed(x, rest) =>
        match ReadRec(l[1..], rest)
        case TooShort => TooShort
        case Parsed(xs, rest') => Parsed([x] + xs, rest')
  }

  /** Exactly n records. */
  function ReadRecs(l: Layout, n: nat, b: Bytes): Parsed<seq<Rec>> {
    if n == 0 then Parsed([], b)
    else
      match ReadRec(l, b)
      case TooShort => TooShort
      case Parsed(r, rest) =>
        match ReadRecs(l, n - 1, rest)
        case TooShort => TooShort
        case Parsed(rs, rest') => Parsed([r] + rs, rest')
  }

  /** As many records as there are. */
  function ReadAll(l: Layout, b: Bytes): seq<Rec>
    requires l != [] && l[0].Blob?
    decreases |b|
  {
    match ReadRec(l, b)
    case TooShort => []
    case Parsed(r, rest) => [r] + ReadAll(l, rest)
  }

  // ---------- reading what was written, with anything after it ----------

  lemma {:induction false} FieldBack(f: Field, x: Bytes, rest: Bytes)
    requires FieldFits(f, x)
    ensures ReadField(f, WriteField(f, x) + rest) == Parsed(x, rest)
  {
    var b := WriteField(f, x) + rest;
    if f.Blob? {
      assert b == U32(|x|) + (x + rest);
      U32Back(|x|, x + rest);
      assert b[4..] == x + rest;
      assert b[4..4+|x|] == b[4..][..|x|] && b[4+|x|..] == b[4..][|x|..];
    }
  }

  lemma {:induction false} RecBack(l: Layout, r: Rec, rest: Bytes)
    requires Fits(l, r)
    ensures ReadRec(l, WriteRec(l, r) + rest) == Parsed(r, rest)
  {
    if l != [] {
      var x, tail := WriteField(l[0], r[0]), WriteRec(l[1..], r[1..]);
      assert x + tail + rest == x + (tail + rest);
      FieldBack(l[0], r[0], tail + rest);
      RecBack(l[1..], r[1..], rest);
      assert [r[0]] + r[1..] == r;
    }
  }

  lemma {:induction false} RecsBack(l: Layout, rs: seq<Rec>, rest: Bytes)
    requires FitsAll(l, rs)
    ensures ReadRecs(l, |rs|, WriteRecs(l, rs) + rest) == Parsed(rs, rest)
  {
    hide WriteRec, ReadRec, Fits;
    if rs != [] {
      var x, tail := WriteRec(l, rs[0]), WriteRecs(l, rs[1..]);
      assert x + tail + rest == x + (tail + rest);
      RecBack(l, rs[0], tail + rest);
      RecsBack(l, rs[1..], rest);
      assert [rs[0]] + rs[1..] == rs;
    }
  }

  /** The headerless readers get back every record that was packed. */
  lemma {:induction false} AllBack(l: Layout, rs: seq<Rec>)
    requires l != [] && l[0].Blob? && FitsAll(l, rs)
    ensures ReadAll(l, WriteRecs(l, rs)) == rs
  {
    if rs != [] {
      RecBack(l, rs[0], WriteRecs(l, rs[1..]));
      AllBack(l, rs[1..]);
      assert [rs[0]] + rs[1..] == rs;
    } else {
      assert ReadField(l[0], []) == TooShort;
    }
  }

  // ---------- reading is not changed by what follows ----------

  lemma {:induction false} FieldMore(f: Field, b: Bytes, more: Bytes)
    requires ReadField(f, b).Parsed?
    ensures ReadField(f, b + more) == ReadField(f, b).(rest := ReadField(f, b).rest + more)
  {
    if f.Blob? {
      assert (b + more)[0] == b[0] && (b + more)[1] == b[1] && (b + more)[2] == b[2] && (b + more)[3] == b[3];
      var n := FromU32(b);
      assert FromU32(b + more) == n;
      assert (b + more)[4..4+n] == b[4..4+n] && (b + more)[4+n..] == b[4+n..] + more;
    } else {
      assert (b + more)[..f.size] == b[..f.size] && (b + more)[f.size..] == b[f.size..] + more;
    }
  }

  lemma {:induction false} RecMore(l: Layout, b: Bytes, more: Bytes)
    requires ReadRec(l, b).Parsed?
    ensures ReadRec(l, b + more) == ReadRec(l, b).(rest := ReadRec(l, b).rest + more)
  {
    if l != [] {
      FieldMore(l[0], b, more);
      RecMore(l[1..], ReadField(l[0], b).rest, more);
    }
  }

  lemma {:induction false} RecsMore(l: Layout, n: nat, b: Bytes, more: Bytes)
    requires ReadRecs(l, n, b).Parsed?
    ensures ReadRecs(l, n, b + more) == ReadRecs(l, n, b).(rest := ReadRecs(l, n, b).rest + more)
  {
    if n > 0 {
      RecMore(l, b, more);
      RecsMore(l, n - 1, ReadRec(l, b).rest, more);
    }
  }

  // ---------- a whole value: the number of records, then the records ----------

  function Encode(l: Layout, rs: seq<Rec>): Bytes
    requires FitsAll(l, rs) && |rs| < U32_LIMIT
  {
    U32(|rs|) + WriteRecs(l, rs)
  }

  function Decode(l: Layout, data: Bytes): Parsed<seq<Rec>> {
    if |data| < 4 then TooShort else ReadRecs(l, FromU32(data), data[4..])
  }

  lemma {:induction false} RoundTrip(l: Layout, rs: seq<Rec>, rest: Bytes)
    requires FitsAll(l, rs) && |rs| < U32_LIMIT
    ensures Decode(l, Encode(l, rs) + rest) == Parsed(rs, rest)
  {
    var b := Encode(l, rs) + rest;
    assert b == U32(|rs|) + (WriteRecs(l, rs) + rest);
    U32Back(|rs|, WriteRecs(l, rs) + rest);
    RecsBack(l, rs, rest);
  }

  lemma {:induction false} DecodeMore(l: Layout, b: Bytes, more: Bytes)
    requires Decode(l, b).Parsed?
    ensures Decode(l, b + more) == Decode(l, b).(rest := Decode(l, b).rest + more)
  {
    assert (b + more)[0] == b[0] && (b + more)[1] == b[1] && (b + more)[2] == b[2] && (b + more)[3] == b[3];
    assert FromU32(b + more) == FromU32(b) && (b + more)[4..] == b[4..] + more;
    RecsMore(l, FromU32(b), b[4..], more);
  }

  /** No strict prefix of an encoding decodes. */
  lemma {:induction false} PrefixRejected(l: Layout, rs: seq<Rec>, n: nat)
    requires FitsAll(l, rs) && |rs| < U32_LIMIT && n < |Encode(l, rs)|
    ensures Decode(l, Encode(l, rs)[..n]).TooShort?
  {
    var b := Encode(l, rs);
    var p, q := b[..n], b[n..];
    assert p + q == b == b + [];
    RoundTrip(l, rs, []);
    if Decode(l, p).Parsed? {
      NotEmpty(Decode(l, p).rest, q);
      DecodeMore(l, p, q);
    }
  }

  lemma {:induction false} NotEmpty(a: Bytes, b: Bytes)
    ensures b != [] ==> a + b != []
  {
  }
}

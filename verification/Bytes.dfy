/** Machine integers and big-endian byte strings. */
module Bytes {

  const U16_LIMIT := 0x1_0000
  const U32_LIMIT := 0x1_0000_0000
  const U64_LIMIT := 0x1_0000_0000_0000_0000

  type byte = x: int | 0 <= x < 256
  type u16 = x: int | 0 <= x < U16_LIMIT
  type u32 = x: int | 0 <= x < U32_LIMIT
  type u64 = x: int | 0 <= x < U64_LIMIT

  type bytes = seq<byte>

  /** `a.wrapping_sub(b)` on `u32`. */
  function WrappingSub(a: u32, b: u32): u32 {
    if a >= b then a - b else a - b + U32_LIMIT
  }

  /** Subtracting wrapped values gives the difference less whole wraps. */
  lemma WrappingSubModulo(a: int, b: int)
    ensures WrappingSub(a % U32_LIMIT, b % U32_LIMIT) == (a - b) % U32_LIMIT
  {
    var p, s := a / U32_LIMIT, a % U32_LIMIT;
    var q, r := b / U32_LIMIT, b % U32_LIMIT;
    assert a == p * U32_LIMIT + s && b == q * U32_LIMIT + r;
    var wraps := if s >= r then p - q else p - q - 1;
    assert a - b == wraps * U32_LIMIT + WrappingSub(s, r);
  }

  function Be16(v: u16): (r: bytes)
    ensures |r| == 2
  {
    [v / 256, v % 256]
  }

  function Be32(v: u32): (r: bytes)
    ensures |r| == 4
  {
    Be16(v / U16_LIMIT) + Be16(v % U16_LIMIT)
  }

  function Be64(v: u64): (r: bytes)
    ensures |r| == 8
  {
    Be32(v / U32_LIMIT) + Be32(v % U32_LIMIT)
  }

  function ReadBe16(b: bytes, at: nat): u16
    requires at + 2 <= |b|
  {
    b[at] as int * 256 + b[at + 1]
  }

  function ReadBe32(b: bytes, at: nat): u32
    requires at + 4 <= |b|
  {
    ReadBe16(b, at) as int * U16_LIMIT + ReadBe16(b, at + 2)
  }

  function ReadBe64(b: bytes, at: nat): u64
    requires at + 8 <= |b|
  {
    ReadBe32(b, at) as int * U32_LIMIT + ReadBe32(b, at + 4)
  }

  function Concat(parts: seq<bytes>): bytes {
    if parts == [] then [] else parts[0] + Concat(parts[1..])
  }

  lemma Associate<T>(a: seq<T>, b: seq<T>, c: seq<T>)
    ensures a + (b + c) == a + b + c
  {
  }

  /** `part` occurs in `whole` at position `at`. */
  ghost predicate At(whole: bytes, at: nat, part: bytes) {
    at + |part| <= |whole| && whole[at..at + |part|] == part
  }

  lemma AtSplit(whole: bytes, at: nat, left: bytes, right: bytes)
    ensures At(whole, at, left + right) <==> At(whole, at, left) && At(whole, at + |left|, right)
  {
    if At(whole, at, left + right) {
      var both := whole[at..at + |left| + |right|];
      assert whole[at..at + |left|] == both[..|left|];
      assert whole[at + |left|..at + |left| + |right|] == both[|left|..];
    }
    if At(whole, at, left) && At(whole, at + |left|, right) {
      assert whole[at..at + |left| + |right|] == whole[at..at + |left|] + whole[at + |left|..at + |left| + |right|];
    }
  }

  lemma ReadBe16At(whole: bytes, at: nat, v: u16)
    requires At(whole, at, Be16(v))
    ensures ReadBe16(whole, at) == v
  {
    var part := whole[at..at + 2];
    assert part[0] == whole[at] && part[1] == whole[at + 1];
  }

  lemma ReadBe32At(whole: bytes, at: nat, v: u32)
    requires At(whole, at, Be32(v))
    ensures ReadBe32(whole, at) == v
  {
    AtSplit(whole, at, Be16(v / U16_LIMIT), Be16(v % U16_LIMIT));
    ReadBe16At(whole, at, v / U16_LIMIT);
    ReadBe16At(whole, at + 2, v % U16_LIMIT);
  }

  lemma ReadBe64At(whole: bytes, at: nat, v: u64)
    requires At(whole, at, Be64(v))
    ensures ReadBe64(whole, at) == v
  {
    AtSplit(whole, at, Be32(v / U32_LIMIT), Be32(v % U32_LIMIT));
    ReadBe32At(whole, at, v / U32_LIMIT);
    ReadBe32At(whole, at + 4, v % U32_LIMIT);
  }
}

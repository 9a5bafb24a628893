/** The element order of the sorted set (src/zset/bplustree_zset.hpp). */
module Keys {

  const U32_LIMIT: int := 0x1_0000_0000
  const U64_LIMIT: int := 0x1_0000_0000_0000_0000

  type u32 = x: int | 0 <= x < U32_LIMIT
  type u64 = x: int | 0 <= x < U64_LIMIT

  /** A std::string is a sequence of bytes, here of the first 256 characters. */
  type byte = c: char | c as int < 256
  type Bytes = seq<byte>

  datatype Option<+T> = None | Some(value: T)

  /** ScoredMemberCompact: a score and the 64-bit hash of the member. */
  datatype Key = Key(score: real, hash: u64)

  /** ScoredMemberCompact::operator< */
  predicate Lt(a: Key, b: Key) {
    if a.score != b.score then a.score < b.score else a.hash < b.hash
  }

  /** ScoredMemberPolicy::KeyCompareTo */
  function Compare(a: Key, b: Key): int {
    if Lt(a, b) then -1 else if Lt(b, a) then 1 else 0
  }

  ghost predicate Sorted(s: seq<Key>) {
    forall i, j :: 0 <= i < j < |s| ==> Lt(s[i], s[j])
  }
}

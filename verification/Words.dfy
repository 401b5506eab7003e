/**
  Bytes, 32-byte hashes and the machine integers of the server.
  All integers are mathematical; the wrap-free operations of the program
  (`saturating_add`, the clamp to a signed column) are written out here.
*/
module Words {
  type byte = x: int | 0 <= x < 256

  type Bytes = seq<byte>

  type Hash32 = b: seq<byte> | |b| == 32 witness seq(32, _ => 0)

  /** A compressed secp256k1 public key. */
  type PublicKey = b: seq<byte> | |b| == 33 witness seq(33, _ => 0)

  const U64_MAX: int := 0xFFFF_FFFF_FFFF_FFFF
  const I64_MAX: int := 0x7FFF_FFFF_FFFF_FFFF

  type U64 = x: int | 0 <= x <= U64_MAX

  function SatAdd(a: U64, b: U64): U64 {
    if a + b <= U64_MAX then a + b else U64_MAX
  }

  /** Sums that do not fit 64 bits stop at the largest number that does. */
  lemma SatAddMeaning(a: int, b: int)
    requires 0 <= a <= 0xFFFF_FFFF_FFFF_FFFF && 0 <= b <= 0xFFFF_FFFF_FFFF_FFFF
    ensures SatAdd(a, b) == if a + b <= 0xFFFF_FFFF_FFFF_FFFF then a + b else 0xFFFF_FFFF_FFFF_FFFF
  {
  }

  /** What collision resistance means for the byte strings in `inputs`. */
  ghost predicate InjectiveOn(hash: Bytes -> Hash32, inputs: set<Bytes>) {
    forall x, y :: x in inputs && y in inputs && hash(x) == hash(y) ==> x == y
  }
}

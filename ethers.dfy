/**
  The value types the vanity search borrows from ethers-core and k256:
  the 20-byte address `H160` with its bytewise `&`, the 256-bit
  unsigned integer used as a nonce, the secp256k1 signing key, and the
  two deterministic derivations (key to account address, deployer and
  nonce to contract address). The derivations are elliptic-curve and
  Keccak computations outside this model; they are carried around as
  function values, so every statement about the search holds for any
  deterministic derivation.
 */
module Ethers {

  /** Number of bytes in an address. */
  const ADDRESS_LENGTH: nat := 20

  /** Number of bits in an address. */
  const ADDRESS_BITS: nat := 160

  const ZERO_BYTES: seq<bv8> := seq(ADDRESS_LENGTH, _ => 0)

  /** `H160`: a 160-bit address stored as 20 bytes, most significant byte first. */
  type Address = s: seq<bv8> | |s| == ADDRESS_LENGTH witness ZERO_BYTES

  /** The address whose bits are all 0. */
  const ZERO_ADDRESS: Address := ZERO_BYTES

  /** The address whose bits are all 1. */
  const ALL_ONES: Address := seq(ADDRESS_LENGTH, _ => 0xFF)

  /** The byte whose only set bit is bit `j`, counted from the least significant bit. */
  function BitMask(j: nat): bv8
    requires j < 8
  {
    if j == 0 then 0x01 else if j == 1 then 0x02 else if j == 2 then 0x04 else if j == 3 then 0x08
    else if j == 4 then 0x10 else if j == 5 then 0x20 else if j == 6 then 0x40 else 0x80
  }

  /** Bit `j` of a byte. */
  predicate ByteBit(b: bv8, j: nat)
    requires j < 8
  {
    b & BitMask(j) != 0
  }

  /** Byte that holds bit `k` of an address (bit 0 is the least significant bit of the last byte). */
  function ByteOf(k: nat): (i: nat)
    requires k < ADDRESS_BITS
    ensures i < ADDRESS_LENGTH
  {
    ADDRESS_LENGTH - 1 - k / 8
  }

  /** Bit `k` of an address read as a 160-bit big-endian number. */
  predicate Bit(a: Address, k: nat)
    requires k < ADDRESS_BITS
  {
    ByteBit(a[ByteOf(k)], k % 8)
  }

  /** Under byte mask `m`, bytes `x` and `y` agree on bit `j`: if `m` sets it, both have it or neither does. */
  predicate ByteAgreesAt(x: bv8, y: bv8, m: bv8, j: nat)
    requires j < 8
  {
    ByteBit(m, j) ==> (ByteBit(x, j) <==> ByteBit(y, j))
  }

  /** A bit of the AND of two bytes is set exactly when it is set in both. */
  lemma ByteBitAnd(x: bv8, y: bv8, j: nat)
    requires j < 8
    ensures ByteBit(x & y, j) <==> ByteBit(x, j) && ByteBit(y, j)
  {
  }

  /** `H160 & H160`, computed byte by byte: a bit of the result is set exactly when it is set in both operands. */
  function BitAnd(a: Address, b: Address): (r: Address)
    ensures forall k :: 0 <= k < ADDRESS_BITS ==> (Bit(r, k) <==> Bit(a, k) && Bit(b, k))
  {
    var r: Address := seq(ADDRESS_LENGTH, i requires 0 <= i < ADDRESS_LENGTH => a[i] & b[i]);
    assert forall k :: 0 <= k < ADDRESS_BITS ==> (Bit(r, k) <==> Bit(a, k) && Bit(b, k)) by {
      forall k | 0 <= k < ADDRESS_BITS ensures Bit(r, k) <==> Bit(a, k) && Bit(b, k) {
        ByteBitAnd(a[ByteOf(k)], b[ByteOf(k)], k % 8);
      }
    }
    r
  }

  /** Bytes equal under a mask agree on every bit the mask sets. */
  lemma ByteMaskedEqAt(x: bv8, y: bv8, m: bv8, j: nat)
    requires j < 8
    requires x & m == y & m
    ensures ByteAgreesAt(x, y, m, j)
  {
  }

  /** Bytes that agree on all eight bits a mask may set are equal under that mask. */
  lemma ByteAgreesAll(x: bv8, y: bv8, m: bv8)
    requires ByteAgreesAt(x, y, m, 0) && ByteAgreesAt(x, y, m, 1)
    requires ByteAgreesAt(x, y, m, 2) && ByteAgreesAt(x, y, m, 3)
    requires ByteAgreesAt(x, y, m, 4) && ByteAgreesAt(x, y, m, 5)
    requires ByteAgreesAt(x, y, m, 6) && ByteAgreesAt(x, y, m, 7)
    ensures x & m == y & m
  {
  }

  /**
    Two bytes are equal under a byte mask exactly when they agree on
    every bit the mask sets: a 1 bit demands equality, a 0 bit is ignored.
   */
  lemma ByteMaskedEq(x: bv8, y: bv8, m: bv8)
    ensures (x & m == y & m) <==> (forall j :: 0 <= j < 8 ==> ByteAgreesAt(x, y, m, j))
  {
    if x & m == y & m {
      forall j | 0 <= j < 8 ensures ByteAgreesAt(x, y, m, j) {
        ByteMaskedEqAt(x, y, m, j);
      }
    }
    if forall j :: 0 <= j < 8 ==> ByteAgreesAt(x, y, m, j) {
      assert ByteAgreesAt(x, y, m, 0) && ByteAgreesAt(x, y, m, 1);
      assert ByteAgreesAt(x, y, m, 2) && ByteAgreesAt(x, y, m, 3);
      assert ByteAgreesAt(x, y, m, 4) && ByteAgreesAt(x, y, m, 5);
      assert ByteAgreesAt(x, y, m, 6) && ByteAgreesAt(x, y, m, 7);
      ByteAgreesAll(x, y, m);
    }
  }

  /** The signing keys `SigningKey::random` draws: nonzero scalars below the secp256k1 group order. */
  const SECP256K1_ORDER: nat := 0xFFFFFFFF_FFFFFFFF_FFFFFFFF_FFFFFFFE_BAAEDCE6_AF48A03B_BFD25E8C_D0364141

  type SigningKey = k: nat | 0 < k < SECP256K1_ORDER witness 1

  /** `U256`: an unsigned 256-bit integer. */
  const U256_MODULUS: nat := 0x1_00000000_00000000_00000000_00000000_00000000_00000000_00000000_00000000

  type U256 = n: nat | n < U256_MODULUS

  /**
    The cryptographic primitives the search calls: the account address
    of a signing key (`Wallet::from(key).address()`) and the address of
    the contract a deployer creates with a given nonce
    (`get_contract_address`). Both are deterministic.
   */
  datatype Primitives = Primitives(
    addressOf: SigningKey -> Address,
    contractAddress: (Address, U256) -> Address)
}

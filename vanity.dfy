/**
  The vanity contract-address search of `src/main.rs`: draw a random
  signing key, take the account address of that key as the deployer,
  derive the address of the contract that deployer creates with nonce 0,
  and stop at the first such address that agrees with the target on
  every bit the mask sets.

  The random number generator is modelled as the finite stream of keys
  it would produce (`keys`); the search either stops at the first key
  whose contract address matches or reaches the end of the stream.
 */
module Vanity {
  import opened Ethers

  /** Under mask `mask`, addresses `a` and `b` agree on bit `k`. */
  predicate AgreesAt(a: Address, b: Address, mask: Address, k: nat)
    requires k < ADDRESS_BITS
  {
    Bit(mask, k) ==> (Bit(a, k) <==> Bit(b, k))
  }

  /** The address bit that is bit `j` of byte `i`: every (byte, bit) pair is some address bit. */
  function BitIndex(i: nat, j: nat): (k: nat)
    requires i < ADDRESS_LENGTH && j < 8
    ensures k < ADDRESS_BITS && ByteOf(k) == i && k % 8 == j
  {
    8 * (ADDRESS_LENGTH - 1 - i) + j
  }

  /** Masked equality of two addresses, byte by byte and bit by bit. */
  lemma MaskedEqualBitwise(c: Address, t: Address, mask: Address)
    ensures BitAnd(c, mask) == BitAnd(t, mask)
        <==> forall k :: 0 <= k < ADDRESS_BITS ==> AgreesAt(c, t, mask, k)
  {
    var l, r := BitAnd(c, mask), BitAnd(t, mask);
    if l == r {
      forall k | 0 <= k < ADDRESS_BITS ensures AgreesAt(c, t, mask, k) {
        var i := ByteOf(k);
        assert l[i] == r[i];
        ByteMaskedEqAt(c[i], t[i], mask[i], k % 8);
      }
    }
    if forall k :: 0 <= k < ADDRESS_BITS ==> AgreesAt(c, t, mask, k) {
      forall i | 0 <= i < ADDRESS_LENGTH ensures l[i] == r[i] {
        forall j | 0 <= j < 8 ensures ByteAgreesAt(c[i], t[i], mask[i], j) {
          var k := BitIndex(i, j);
          assert AgreesAt(c, t, mask, k);
        }
        ByteMaskedEq(c[i], t[i], mask[i]);
      }
      assert l == r;
    }
  }

  /**
    The `if` test in `main`, `address & mask == target & mask`. The candidate matches
    exactly when it agrees with the target on every bit the mask sets;
    bits the mask clears are ignored.
   */
  function Matches(candidate: Address, target: Address, mask: Address): (r: bool)
    ensures r <==> forall k :: 0 <= k < ADDRESS_BITS ==> AgreesAt(candidate, target, mask, k)
  {
    MaskedEqualBitwise(candidate, target, mask);
    BitAnd(candidate, mask) == BitAnd(target, mask)
  }

  /** Every address matches itself, whatever the mask. */
  lemma MatchesReflexive(a: Address, mask: Address)
    ensures Matches(a, a, mask)
  {
  }

  /** Matching does not depend on which side is the candidate. */
  lemma MatchesSymmetric(a: Address, b: Address, mask: Address)
    ensures Matches(a, b, mask) == Matches(b, a, mask)
  {
  }

  /** For a fixed mask, two addresses that match a third match each other. */
  lemma MatchesTransitive(a: Address, b: Address, c: Address, mask: Address)
    requires Matches(a, b, mask) && Matches(b, c, mask)
    ensures Matches(a, c, mask)
  {
  }

  /** With the all-zero mask every candidate matches every target. */
  lemma ZeroMaskMatchesAll(candidate: Address, target: Address)
    ensures Matches(candidate, target, ZERO_ADDRESS)
  {
  }

  /** With the all-ones mask a candidate matches exactly when it is the target. */
  lemma AllOnesMaskExact(candidate: Address, target: Address)
    ensures Matches(candidate, target, ALL_ONES) <==> candidate == target
  {
    assert BitAnd(candidate, ALL_ONES) == candidate;
    assert BitAnd(target, ALL_ONES) == target;
  }

  /**
    Changing candidate bits where the mask is 0 never changes the
    outcome: two candidates that agree on every bit the mask sets
    match the same targets.
   */
  lemma DontCareBits(c1: Address, c2: Address, target: Address, mask: Address)
    requires forall k :: 0 <= k < ADDRESS_BITS ==> AgreesAt(c1, c2, mask, k)
    ensures Matches(c1, target, mask) == Matches(c2, target, mask)
  {
    if Matches(c1, target, mask) {
      forall k | 0 <= k < ADDRESS_BITS ensures AgreesAt(c2, target, mask, k) {
        assert AgreesAt(c1, c2, mask, k) && AgreesAt(c1, target, mask, k);
      }
    }
    if Matches(c2, target, mask) {
      forall k | 0 <= k < ADDRESS_BITS ensures AgreesAt(c1, target, mask, k) {
        assert AgreesAt(c1, c2, mask, k) && AgreesAt(c2, target, mask, k);
      }
    }
  }

  /** Clearing mask bits only widens the set of matching candidates. */
  lemma WeakerMaskAccepts(candidate: Address, target: Address, mask: Address, weaker: Address)
    requires forall k :: 0 <= k < ADDRESS_BITS && Bit(weaker, k) ==> Bit(mask, k)
    requires Matches(candidate, target, mask)
    ensures Matches(candidate, target, weaker)
  {
  }

  /** Only the target's masked bits matter: the target and `target & mask` accept the same candidates. */
  lemma TargetMaskedBitsOnly(candidate: Address, target: Address, mask: Address)
    ensures Matches(candidate, target, mask) == Matches(candidate, BitAnd(target, mask), mask)
  {
  }

  /** `U256::zero()`: the nonce of the deployer's first contract. */
  const FIRST_NONCE: U256 := 0

  /**
    The candidate a freshly drawn key yields in `main`: the address of
    the contract that the key's account (the deployer) creates with
    nonce 0.
   */
  function Candidate(crypto: Primitives, key: SigningKey): Address
  {
    crypto.contractAddress(crypto.addressOf(key), FIRST_NONCE)
  }

  /** Key `keys[j]` yields a matching candidate. */
  predicate Hit(crypto: Primitives, keys: seq<SigningKey>, target: Address, mask: Address, j: nat)
    requires j < |keys|
  {
    Matches(Candidate(crypto, keys[j]), target, mask)
  }

  /**
    What the search reports: the position in the key stream at which it
    stopped, the key and the matching contract address (the two values
    `main` passes to `dbg!`), or that the stream ran out first.
   */
  datatype Outcome = Found(attempt: nat, key: SigningKey, address: Address) | Exhausted

  /**
    The outcome of searching `keys` from position `from` on: the first
    hit at or after `from`, with its key and that key's candidate, or
    `Exhausted`.
   */
  function FirstMatch(crypto: Primitives, keys: seq<SigningKey>, target: Address, mask: Address, from: nat): (r: Outcome)
    requires from <= |keys|
    ensures r.Found? ==>
      && from <= r.attempt < |keys|
      && Hit(crypto, keys, target, mask, r.attempt)
      && r.key == keys[r.attempt]
      && r.address == Candidate(crypto, r.key)
    decreases |keys| - from
  {
    if from == |keys| then Exhausted
    else if Hit(crypto, keys, target, mask, from) then Found(from, keys[from], Candidate(crypto, keys[from]))
    else FirstMatch(crypto, keys, target, mask, from + 1)
  }

  /**
    A reported match is sound and first: it comes from a key in the
    stream, its address is re-derived from that key, it satisfies the
    predicate, and every earlier key failed.
   */
  lemma {:induction false} FirstMatchFound(crypto: Primitives, keys: seq<SigningKey>, target: Address, mask: Address, from: nat)
    requires from <= |keys|
    requires FirstMatch(crypto, keys, target, mask, from).Found?
    ensures var r := FirstMatch(crypto, keys, target, mask, from);
      && from <= r.attempt < |keys|
      && r.key == keys[r.attempt]
      && r.address == crypto.contractAddress(crypto.addressOf(r.key), 0)
      && Matches(r.address, target, mask)
      && forall j :: from <= j < r.attempt ==> !Hit(crypto, keys, target, mask, j)
    decreases |keys| - from
  {
    if !Hit(crypto, keys, target, mask, from) {
      FirstMatchFound(crypto, keys, target, mask, from + 1);
    }
  }

  /** The search runs out of keys exactly when no key in the stream yields a match. */
  lemma {:induction false} FirstMatchExhausted(crypto: Primitives, keys: seq<SigningKey>, target: Address, mask: Address, from: nat)
    requires from <= |keys|
    ensures FirstMatch(crypto, keys, target, mask, from).Exhausted?
        <==> forall j :: from <= j < |keys| ==> !Hit(crypto, keys, target, mask, j)
    decreases |keys| - from
  {
    if from < |keys| {
      FirstMatchExhausted(crypto, keys, target, mask, from + 1);
    }
  }

  /**
    The outcome is pinned down by the first hit: if key `n` hits and no
    key from position `from` up to `n` does, the search from `from`
    reports key `n`.
   */
  lemma {:induction false} FirstMatchAt(crypto: Primitives, keys: seq<SigningKey>, target: Address, mask: Address, from: nat, n: nat)
    requires from <= n < |keys| && Hit(crypto, keys, target, mask, n)
    requires forall j :: from <= j < n ==> !Hit(crypto, keys, target, mask, j)
    ensures FirstMatch(crypto, keys, target, mask, from) == Found(n, keys[n], Candidate(crypto, keys[n]))
    decreases n - from
  {
    if from < n {
      FirstMatchAt(crypto, keys, target, mask, from + 1, n);
    }
  }

  /**
    The search draws no more keys than it needs: once a stream yields a
    match, appending further keys does not change the outcome.
   */
  lemma {:induction false} FirstMatchExtend(crypto: Primitives, keys: seq<SigningKey>, more: seq<SigningKey>, target: Address, mask: Address, from: nat)
    requires from <= |keys|
    requires FirstMatch(crypto, keys, target, mask, from).Found?
    ensures FirstMatch(crypto, keys + more, target, mask, from) == FirstMatch(crypto, keys, target, mask, from)
    decreases |keys| - from
  {
    assert (keys + more)[from] == keys[from];
    if !Hit(crypto, keys, target, mask, from) {
      FirstMatchExtend(crypto, keys, more, target, mask, from + 1);
    }
  }

  /** With the all-zero mask the first key drawn is reported. */
  lemma ZeroMaskFirstDraw(crypto: Primitives, keys: seq<SigningKey>, target: Address)
    requires |keys| > 0
    ensures FirstMatch(crypto, keys, target, ZERO_ADDRESS, 0) == Found(0, keys[0], Candidate(crypto, keys[0]))
  {
  }

  /**
    With the all-ones mask the search reports a key whose contract
    address is exactly the target, and runs out of keys only when no
    key yields the target.
   */
  lemma AllOnesFindsTarget(crypto: Primitives, keys: seq<SigningKey>, target: Address)
    ensures var r := FirstMatch(crypto, keys, target, ALL_ONES, 0);
      && (r.Found? ==> r.address == target)
      && (r.Exhausted? <==> forall j :: 0 <= j < |keys| ==> Candidate(crypto, keys[j]) != target)
  {
    var r := FirstMatch(crypto, keys, target, ALL_ONES, 0);
    if r.Found? {
      FirstMatchFound(crypto, keys, target, ALL_ONES, 0);
      AllOnesMaskExact(r.address, target);
    }
    FirstMatchExhausted(crypto, keys, target, ALL_ONES, 0);
    forall j | 0 <= j < |keys| ensures Hit(crypto, keys, target, ALL_ONES, j) <==> Candidate(crypto, keys[j]) == target {
      AllOnesMaskExact(Candidate(crypto, keys[j]), target);
    }
  }

  /**
    The `loop` in `main`. Each round draws the next key, derives
    its account and that account's nonce-0 contract address, and stops
    at the first address matching the target under the mask.
   */
  method Search(crypto: Primitives, keys: seq<SigningKey>, target: Address, mask: Address) returns (r: Outcome)
    ensures r == FirstMatch(crypto, keys, target, mask, 0)
    ensures r.Found? ==>
      && r.attempt < |keys|
      && r.key == keys[r.attempt]
      && r.address == crypto.contractAddress(crypto.addressOf(r.key), 0)
      && Matches(r.address, target, mask)
      && forall j :: 0 <= j < r.attempt ==> !Matches(Candidate(crypto, keys[j]), target, mask)
    ensures r.Exhausted? <==> forall j :: 0 <= j < |keys| ==> !Matches(Candidate(crypto, keys[j]), target, mask)
  {
    var i := 0;
    while i < |keys|
      invariant 0 <= i <= |keys|
      invariant forall j :: 0 <= j < i ==> !Matches(Candidate(crypto, keys[j]), target, mask)
      invariant FirstMatch(crypto, keys, target, mask, i) == FirstMatch(crypto, keys, target, mask, 0)
    {
      var signingKey := keys[i];
      var deployer := crypto.addressOf(signingKey);
      var address := crypto.contractAddress(deployer, FIRST_NONCE);
      if Matches(address, target, mask) {
        return Found(i, signingKey, address);
      }
      i := i + 1;
    }
    return Exhausted;
  }
}

# Vanity contract-address search, modelled in Dafny

`address-utils` searches for a "vanity" Ethereum contract address. The
program reads a target address and a mask from the command line. It then
draws random secp256k1 signing keys one at a time. For each key it takes
the key's account address as a deployer. It derives the address of the
contract that deployer would create with nonce 0. It stops at the first
contract address `a` with `a & mask == target & mask` and passes the key
and the address to `dbg!`. A mask bit of 1 means "this bit must equal the target's
bit". A mask bit of 0 means "don't care".

The model has two modules:

- `Ethers` (`ethers.dfy`) holds the value types the program borrows from
  ethers-core and k256. `Address` is `H160`: 20 bytes, most significant
  byte first. `BitAnd` is `H160`'s bytewise `&`. `Bit(a, k)` reads bit
  `k` of the address as a 160-bit big-endian number. `SigningKey` is a
  nonzero scalar below the secp256k1 group order. `U256` is the nonce
  type. `Primitives` bundles the two cryptographic derivations as
  function values: key to account address, and (deployer, nonce) to
  contract address. Every result about the search therefore holds for
  any deterministic derivation.
- `Vanity` (`vanity.dfy`) models `src/main.rs`. It has the match
  predicate and its algebra. It has `FirstMatch`, a recursive
  specification of the search, with lemmas about it. It has `Search`,
  the loop itself, written as a `while` over the key stream. `Search` is
  proved equal to `FirstMatch`.

The random number generator is modelled as the finite sequence of keys it
would produce. The program's `loop` has no exit other than a match. The
model's loop also stops when the sequence runs out, and then reports
`Exhausted`.

## Model

| member | source | states |
|---|---|---|
| `Ethers.BitAnd` | src/main.rs:24 | the `&` of two 20-byte addresses, taken elementwise; a bit of the result is set exactly when it is set in both operands |
| `Vanity.Matches` | src/main.rs:24 | `address & mask == target & mask` holds exactly when, for every bit position `k < 160` that the mask sets, the candidate's bit `k` equals the target's bit `k`; positions the mask clears are ignored |
| `Vanity.MaskedEqualBitwise` | src/main.rs:24 | equality of the bytewise ANDs of two addresses with a mask is equivalent to agreement on every masked bit, in both directions |
| `Vanity.MatchesReflexive` | src/main.rs:24 | every address matches itself under any mask |
| `Vanity.MatchesSymmetric` | src/main.rs:24 | swapping candidate and target does not change the outcome |
| `Vanity.MatchesTransitive` | src/main.rs:24 | for a fixed mask, two addresses that match a common third address match each other |
| `Vanity.ZeroMaskMatchesAll` | src/main.rs:24 | with the all-zero mask every candidate matches every target |
| `Vanity.AllOnesMaskExact` | src/main.rs:24 | with the all-ones mask a candidate matches if and only if it equals the target |
| `Vanity.DontCareBits` | src/main.rs:24 | two candidates that agree on every bit the mask sets get the same outcome, so changing unmasked bits never changes the result |
| `Vanity.WeakerMaskAccepts` | src/main.rs:24 | a candidate that matches under a mask still matches under any mask whose set bits are a subset of it |
| `Vanity.TargetMaskedBitsOnly` | src/main.rs:24 | the target and `target & mask` accept exactly the same candidates, so only the target's masked bits matter |
| `Vanity.Candidate` | src/main.rs:21-23 | the definition, with no contract of its own, of the candidate a key yields: the nonce-0 contract address of the key's account; the contracts of `FirstMatchFound` and `Search` use it |
| `Vanity.FirstMatch` | src/main.rs:20-29 | the outcome of the search from position `from`: the first hit at or after `from`, with its key and that key's candidate, or `Exhausted` |
| `Vanity.FirstMatchFound` | src/main.rs:20-29 | a reported match comes from a key in the stream; its address is that key's nonce-0 contract address; it satisfies the predicate; every earlier key failed it |
| `Vanity.FirstMatchExhausted` | src/main.rs:20-29 | the search runs out of keys exactly when no key in the stream yields a matching contract address |
| `Vanity.FirstMatchAt` | src/main.rs:20-29 | if key `n` yields a match and no earlier key does, the search reports position `n`, key `n` and that key's contract address |
| `Vanity.FirstMatchExtend` | src/main.rs:20-29 | once a stream yields a match, appending more keys does not change the outcome: the outcome does not depend on any key after the first match |
| `Vanity.ZeroMaskFirstDraw` | src/main.rs:20-29 | with the all-zero mask, the search stops at the first key drawn |
| `Vanity.AllOnesFindsTarget` | src/main.rs:20-29 | with the all-ones mask the reported address is exactly the target, and the search runs out of keys exactly when no key yields the target |
| `Vanity.Search` | src/main.rs:19-29 | the loop returns `FirstMatch` of the key stream. On a match it returns the position, the key and the address; the address equals `contractAddress(addressOf(key), 0)` and satisfies the predicate, and every earlier key failed it. It returns `Exhausted` exactly when no key in the stream matches |

## Left out

- Command-line parsing with `clap` (src/main.rs:9-15, 18): the target and mask are parameters. Parsing and validating their hex form is library code outside this model.
- The random number generator (src/main.rs:19, 21): it is replaced by a finite sequence of keys. The program's `loop` ends only with probability 1, so the model bounds it by the end of that sequence and reports `Exhausted` there. The program has no such outcome.
- Key generation and address derivation (`SigningKey::random`, `Wallet`, `wallet.address()`, `get_contract_address` with its RLP and Keccak, src/main.rs:21-23): these are elliptic-curve and hash computations. They appear as the deterministic function fields of `Ethers.Primitives`, so no property of secp256k1 or Keccak is modelled.
- The `dbg!` calls on the key and the address (src/main.rs:25-26): this is I/O. The model returns both values in `Vanity.Outcome.Found` instead.
- A worker pool, a shared shutdown flag, throughput counters, and the direct-address and create2 strategies: they do not appear in src/main.rs, and the first three involve concurrency.

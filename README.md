# Web of trust, proof of work and key mnemonics in Dafny

This project models three small pieces of a web-of-trust experiment:

- **The web-of-trust graph builder** (`wot.py`), in module `WebOfTrust` in `wot.dfy`.
  - `Pubkey` is a class. Its field `signed` lists the keys it has signed.
  - `Pubkey.Sign` appends one entry to `signed`.
  - `MakeG` creates `nPeers` peers. Each peer then draws buddies, and the two sign each other's keys, unless the buddy is the peer itself or has already signed it.
  - `MakeG` is proved against a pure specification, `Network`, which folds the single-draw step `SignPair` over all draws.
  - The lemmas show that every network built this way is reciprocal:
    - every entry names a peer;
    - no peer signs itself;
    - every signature is mirrored;
    - no list repeats a peer.
  - The lemmas also show that the network holds an even number of signatures, at most `2 * nPeers * sigRange.1`.
  - `NetworkLinks` shows who has signed whom. Two distinct peers have signed each other exactly when one of them drew the other.
- **The proof-of-work difficulty test** `check_leading_zeros` (`pow.py`), in module `ProofOfWork` in `pow.dfy`. It tests that the `n` leading bits of a `b`-bit hash value are zero.
- **The word-index extraction** `get_index` (`fishfood.py`), in module `Mnemonic` in `mnemonic.dfy`. It cuts a public key into 12-bit word indices.

Module `Bits` (`bits.dfy`) defines the Python operators that the last two use on non-negative integers: `2 ** k`, `&`, `<<` and `>>`.
- `&` is defined bit by bit.
- The shifts repeat single-bit steps.

`Bits` also proves the field facts that both the test and the extraction rest on. For example, `(x & ((2 ** w - 1) << s)) >> s` is `x // 2 ** s % 2 ** w`.

The random draws of `makeg` are a parameter:
- `draws[p]` lists the buddy indices peer `p` draws;
- `|draws[p]|` is the signature count it drew from `sig_range`.

A peer is named by its position in the peer list, and `signed` holds positions. `makeg` compares peers by object identity. `Distinct` says the peers are distinct objects, so comparing objects is comparing positions.

## Model

| member | source | states |
|---|---|---|
| WebOfTrust.Pubkey.constructor | wot.py:7-9 | A new key has signed nothing. |
| WebOfTrust.Pubkey.Sign | wot.py:15-16 | `ref` is appended at the end of `signed`. The list grows by exactly one and earlier entries are kept. Only this key changes. No duplicate or self check is made, so signing the same `ref` twice leaves two entries. |
| WebOfTrust.NewPeers | wot.py:19-22 | The first loop of `makeg` yields exactly `n` distinct fresh peers, none of which has signed anything. |
| WebOfTrust.SignDraw | wot.py:26-30 | One draw: the heap's signature lists become `SignPair` of the old ones. The buddy and the peer sign each other exactly when the buddy is a different object that has not already signed the peer. |
| WebOfTrust.SignBuddies | wot.py:25-30 | The inner loop for one peer applies its draws in order. The new signature lists are `SignDraws` of the old ones. |
| WebOfTrust.MakeG | wot.py:18-32 | Returns exactly `nPeers` distinct fresh peers whose signature lists are `Network(nPeers, draws)`. By NetworkLinks, `p` has signed `q` exactly when they differ and one drew the other. These lists are reciprocal: no self-signature, mirrored, no duplicates, and every entry is a peer. Their total is even and at most `2 * nPeers * sigRange.1`. |
| WebOfTrust.SignPair | wot.py:28-30 | One draw, as a pure step on the signature lists, keeps one list per peer. What it adds is stated by SignPairLinks, SignPairCount and SignPairReciprocal. |
| WebOfTrust.SignDraws | wot.py:25-30 | One peer's draws, applied in draw order with SignPair, keep one list per peer. SignBuddies is proved to compute it. SignDrawsLinks states exactly which signatures the draws create; SignDrawsInvariant bounds their number. |
| WebOfTrust.SignPeers | wot.py:24-30 | The draws of peers `p`, `p + 1`, ... applied in peer order keep one list per peer. MakeG's loop invariant is stated with it. SignPeersLinks states exactly which signatures the draws create; SignPeersInvariant bounds their number. |
| WebOfTrust.Network | wot.py:18-32 | The network `makeg` builds from `n` peers and the draws has one signature list per peer. MakeG is proved to build exactly it. NetworkLinks states who has signed whom; NetworkProperties states reciprocity and the total. |
| WebOfTrust.SignPairReciprocal | wot.py:28-30 | A draw keeps the network reciprocal: every entry is a peer, there is no self-signature, signing is symmetric, and there are no duplicates. |
| WebOfTrust.SignPairLinks | wot.py:28-30 | On a symmetric network, after a draw of a buddy other than the peer, each has signed the other. Every earlier list is a prefix of its new list and grows by at most one entry. The lists of all other peers are unchanged. Drawing oneself changes nothing. |
| WebOfTrust.SignPairMembers | wot.py:28-30 | On a symmetric network, after `p` draws `buddy`, `q` has signed `t` exactly when it had before or `{q, t}` is `{p, buddy}` with `buddy != p`. |
| WebOfTrust.SignDrawsLinks | wot.py:25-30 | On a reciprocal network, after peer `p`'s draws, `q` has signed `t` exactly when it had before, or `q != t` and one of them is `p` and the other is among its draws. Reciprocity is kept. |
| WebOfTrust.SignPeersLinks | wot.py:24-30 | On a reciprocal network, after the draws of peers `p` onwards, `q` has signed `t` exactly when it had before, or `q != t` and one of them, at position `p` or later, drew the other. |
| WebOfTrust.NetworkLinks | wot.py:18-32 | In the network `makeg` builds, peer `p` has signed peer `q` exactly when `p != q` and `p` drew `q` or `q` drew `p`. Every draw of another peer links the pair, and nothing else links two peers. |
| WebOfTrust.SignPairCount | wot.py:28-30 | A draw adds exactly two signatures when the guard holds and none otherwise. |
| WebOfTrust.TotalUpdate | wot.py:29-30 | Replacing one peer's list changes the total by the difference in lengths. |
| WebOfTrust.SignDrawsInvariant | wot.py:25-30 | One peer's draws keep the network reciprocal and the total even. They add at most two signatures per draw. |
| WebOfTrust.SignPeersInvariant | wot.py:24-30 | The draws of the remaining peers keep the network reciprocal and the total even. They add at most twice the number of draws. |
| WebOfTrust.DrawCountBound | wot.py:25 | When each peer draws at most `hi` buddies, the peers from `p` on draw at most `(n - p) * hi` in all. |
| WebOfTrust.TotalEmpty | wot.py:19-22 | Freshly made peers hold no signatures. |
| WebOfTrust.NetworkProperties | wot.py:24-32 | Every network `makeg` can build is reciprocal. Its total is even and at most `2 * n * hi` when each peer draws at most `hi` buddies. |
| ProofOfWork.CheckLeadingZeros | pow.py:9-16 | The mask-and-shift test is true exactly when the field of `h` at bits `b - n` .. `b - 1` is zero. `n <= b` is required because a negative shift count raises. |
| ProofOfWork.ZeroDifficultyPasses | pow.py:10-14 | With `n = 0` the mask is empty and every hash passes. |
| ProofOfWork.OnlyLeadingFieldMatters | pow.py:13 | Bits below `b - n` and at or above `b` do not matter. A hash passes exactly when bits `b - n` .. `b - 1` are zero. |
| ProofOfWork.PassesIffBelow | pow.py:13 | For `0 <= h < 2 ** b`, the test passes exactly when `h < 2 ** (b - n)`. |
| ProofOfWork.MonotoneInDifficulty | pow.py:10-13 | A hash that passes at difficulty `n` passes at every `m <= n`. |
| ProofOfWork.FullDifficulty | pow.py:13 | With `n = b` the test passes exactly when `h` is a multiple of `2 ** b`. |
| Mnemonic.DictConstants | fishfood.py:7-8 | `DICT_WIDTH` is 12 and `DICT_MASK` is `2 ** 12 - 1 = 4095`. |
| Mnemonic.GetIndex | fishfood.py:18-19 | The result is the `offset`-th 12-bit field of the key, `pubkey // 2 ** (12 * offset) % 4096`, and lies in `0 .. 4095`. A negative offset is excluded because a negative shift count raises. |
| Mnemonic.DefaultOffsetIsLowBits | fishfood.py:18-19 | With the default offset the index is `pubkey % 4096`. |
| Mnemonic.GetIndexNext | fishfood.py:19 | The index at `offset > 0` is the index at `offset - 1` of the key with its lowest word removed. |
| Mnemonic.OnlyFieldMatters | fishfood.py:19 | Bits outside `[12 * offset, 12 * offset + 12)` do not change the index. |
| Mnemonic.ThreeLookupsDisjoint | fishfood.py:24-26 | The display tool's look-ups at offsets 0, 1 and 2 read three disjoint fields. Each returns its own word, whatever the higher bits hold. |
| Mnemonic.WordsOfCompose | fishfood.py:19 | Reading back the words of a key composed from word indices gives those indices. |
| Mnemonic.WordsStep | fishfood.py:19 | The words of a key are its low word followed by the words of the rest of the key. |
| Mnemonic.ComposeOfWords | fishfood.py:19 | Round trip: for `p < 2 ** (12 * m)`, the sum of `get_index(p, i) * 2 ** (12 * i)` over `i < m` is `p`. |
| Bits.Pow2 | fishfood.py:8 | `2 ** k` is at least one. |
| Bits.And | pow.py:13 | `x & y` is at most either operand. |
| Bits.ShiftLeft | pow.py:13 | `x << s` on a natural is never below `x` and is zero only for `x = 0`. ShiftLeftIsMul gives its value `x * 2 ** s`. |
| Bits.ShiftRight | fishfood.py:19 | `x >> s` on a natural is never above `x`. ShiftRightIsDiv gives its value `x // 2 ** s`. |
| Bits.MaskedField | pow.py:13 | `(x & ((2 ** w - 1) << s)) >> s` is the `w`-bit field of `x` at bit `s`. |
| Bits.AndLowMask | fishfood.py:19 | `x & (2 ** n - 1)` keeps the `n` low bits: `x % 2 ** n`. |
| Bits.AndShifted | fishfood.py:19 | Masking with `m << s` is masking `x >> s` with `m` and shifting back. |
| Bits.ShiftRightIsDiv | pow.py:13 | `x >> s` on a non-negative `x` is `x // 2 ** s`. |
| Bits.ShiftLeftIsMul | fishfood.py:19 | `x << s` is `x * 2 ** s`. |
| Bits.FieldZeroIffBelow | pow.py:13 | For `x < 2 ** (s + w)`, the field at bit `s` is zero exactly when `x < 2 ** s`. |
| Bits.FieldZeroNarrows | pow.py:10-13 | A zero field stays zero when its low bits are dropped. |
| Bits.FieldOf | fishfood.py:19 | The field at bit `s` of a number assembled from high bits, a field value and low bits is that field value. |

## Left out

- The graph functions the drivers call are not part of this model, because `wot.py` does not define them:
  - `scc`, `amsd`, `msd`, `ss_artic` and `addg` (sybil.py:16-42);
  - `bfs` (test.py:29);
  - the constructor argument in `Pubkey(label=...)` (test.py:6), which `Pubkey.__init__` (wot.py:7) does not accept.
- `sybil.py` and `test.py` are demo drivers that only print. They are not part of this model.
- `uuid.uuid4()` ids and `Pubkey.__str__` (wot.py:8, wot.py:11-13) are identity labels and formatting only.
- The module-level `g = makeg(10)` and its printing (wot.py:34-35) are side effects only.
- The random number generator in `makeg` is replaced by the `draws` parameter (wot.py:25-26).
  - A signature count outside `sig_range`, or a buddy outside `0 .. n_peers - 1`, cannot be drawn, so these are preconditions of `MakeG`.
  - A negative or reversed `sig_range` is not modelled: counts are natural numbers.
- WebOfTrust.MakeG: the exact who-signed-whom relation is not its own `ensures`. It is proved about `Network` (NetworkLinks), which MakeG's `ensures` equates with the peers' lists.
- WebOfTrust.MakeG: `nPeers` is a natural number. A negative `n_peers` is not modelled; for it, `makeg` makes no peer and returns `[]` (wot.py:21, wot.py:24). Every call of `makeg` passes a positive count.
- WebOfTrust.Pubkey.Sign: `signed` holds peer positions, not references to `Pubkey` objects. The two agree because the peers of one network are distinct objects (`Distinct`).
- In `pow.py`, these are not modelled (pow.py:18-34): the `Cert` record, `random.getrandbits`, the SHA-1 digest, and the search loop that raises `counter` until the test passes. The digest is a foreign hash, and the loop need not terminate.
- ProofOfWork.CheckLeadingZeros:
  - `h` is a natural number: Python's `&` on a negative hash value is not modelled.
  - The precondition `n <= b` excludes `n > b`. There `b - n` is a negative shift count, which Python rejects (pow.py:13).
  - `n` and `b` are natural numbers. A negative `n` is not modelled: `2 ** n` is then a float, and `<<` on it raises `TypeError` (pow.py:10, pow.py:13).
- Mnemonic.GetIndex:
  - `pubkey` and `offset` are natural numbers: Python's `&` on a negative key is not modelled.
  - A negative offset, which raises in Python, is excluded.
- The following `fishfood.py` parts are input, output and randomness (fishfood.py:10-16, fishfood.py:21-29):
  - reading the word lists;
  - the random key;
  - printing the indices and the words.

  `KEY_LEN` belongs only to the random key.

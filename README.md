# toychain ledger core in Dafny

This project models the two sequential ledger cores of the toychain C++
backend and proves their contracts.

- **UTXO data model** (`toychain/backend/src/utxo.h`, `utxo.cpp`), in module `Utxo`:
  - `TxInput`, `TxOutput` and `UtxoTransaction` are immutable datatypes.
  - A transaction's id is the lowercase hex text of the SHA-256 digest of
    the canonical text of its inputs and outputs. The forced-id constructor
    is the datatype constructor itself.
  - `UtxoSet` is a class whose `utxos` map, keyed by `txId + ":" + index`,
    is updated in place by `AddUTXO` and `RemoveUTXO`.
  - The balance and per-address filter loops walk the map in an unspecified
    order, chosen nondeterministically with `:|`, and are proved against an
    order-independent sum.
- **Account-style proof-of-work chain** (`src/block.cpp` with `include/block.h`,
  `src/blockchain.cpp` with `include/blockchain.h`, `src/transaction.cpp`):
  - The transfer (`Transfers.Transaction`) is a datatype. Its text feeds the
    block hash.
  - `Blocks.Block` is a class. Index, timestamp, transactions and previous
    hash are `const`. `hash` and `nonce` change only in the constructor and
    in `Mine`.
  - `Chain.Blockchain` is a class holding the chain, the pending list and the
    difficulty.
  - `isChainValid` is a predicate, `ChainValid`, plus a loop method proved
    equal to it.

Helper modules: `Decimal` covers `std::to_string` and `operator<<` on
integers, together with the parsing that shows the text determines the
number. `Hex` covers fixed-width zero-padded lowercase hex and its parsing.
`Options` holds the `Option` type.

The two hash primitives are foreign. Each is a function-typed parameter
that the model knows nothing about beyond its range:

- `Utxo.Sha256` is `string -> Digest`, where a digest is exactly 32 bytes.
- `Blocks.StdHash` is `string -> Word64`, a value below 2^64.

Facts about the code that shape the model:

- The genesis block holds one transfer, `network->genesis:0`, and takes its
  timestamp from the clock.
- `isChainValid` checks every block against the difficulty in force now.
  Blocks carry no difficulty of their own.
- Mining appends the reward transfer after the pending transfers. Afterwards
  the reward transfer is the only thing left pending.
- There is no difficulty adjustment, no coinbase entropy, no double-spend
  guard on pending transfers, no fork handling and no UTXO application when
  a block is added. The account chain and the UTXO table are not connected.
- `utxo.cpp` defines a forced-id constructor and `getAllUTXOs`, and
  `utxo.h` declares neither. Both are modelled as `utxo.cpp` defines them.
- `Block` declares `hash_` before `nonce_` (include/block.h:29-30), and C++
  initialises members in declaration order. So the constructor's
  `hash_(calculateHash())` reads `nonce_` before its `{0}` initialiser
  runs. `Blocks.Block.AsDeclared` models this with a parameter for the value
  read, and the chain uses it (see "## Findings").

## Model

| member | source | states |
|---|---|---|
| Decimal.NatToDecimal | toychain/backend/src/block.cpp:62 | The decimal text of a size_t is nonempty, made of digits only, and parses back to the number. |
| Decimal.IntToDecimal | toychain/backend/src/utxo.cpp:107 | `std::to_string(int)` text is nonempty, made of '-' and digits only, and parses back to the integer, negative ones included. |
| Decimal.LastSeparatorBeforeDecimal | toychain/backend/src/utxo.cpp:105-108 | In `p + sep + decimal(i)`, with a separator that is not '-' or a digit, the last `sep` is the one before the number, whatever `p` contains. |
| Decimal.TrailingIntRoundTrip | toychain/backend/src/transaction.cpp:23 | The integer written after a final separator reads back exactly from after the last occurrence of that separator. |
| Hex.ToHexFixed | toychain/backend/src/block.cpp:12 | `setw(w)`, `setfill('0')` and hex output of a value below 16^w gives exactly w lowercase hex digits that parse back to the value. |
| Hex.HexTextRoundTrip | toychain/backend/src/block.cpp:9-14 | The converse: every lowercase hex string of width w is the fixed-width text of exactly one value below 16^w. |
| Hex.DigestToHex | toychain/backend/src/utxo.cpp:36-42 | Two hex digits per digest byte gives text twice as long, all lowercase hex, that decodes back to the same bytes. |
| Transfers.ToString | toychain/backend/src/transaction.cpp:21-25 | `sender->recipient:amount` starts with the sender and "->", and the amount reads back from after the last ':' even if the addresses contain ':'. |
| Utxo.TxId | toychain/backend/src/utxo.cpp:18-43 | The id is exactly 64 lowercase hex characters and decodes to the SHA-256 digest of the canonical input/output text. |
| Utxo.WriteInputs | toychain/backend/src/utxo.cpp:22-25 | The input loop writes `txId:outputIndex:signature` for every input, in order. |
| Utxo.WriteOutputs | toychain/backend/src/utxo.cpp:27-30 | The output loop writes `amount:address` for every output, in order. |
| Utxo.WritePreimage | toychain/backend/src/utxo.cpp:20-32 | The stream holds the inputs' text, then the bar character, then the outputs' text. |
| Utxo.WriteDigest | toychain/backend/src/utxo.cpp:36-40 | The digest loop writes each byte as two zero-padded hex digits, in order. |
| Utxo.CalculateHash | toychain/backend/src/utxo.cpp:18-43 | `calculateHash` returns the transaction id defined by the canonical text and the digest encoding. |
| Utxo.NewTransaction | toychain/backend/src/utxo.cpp:6-10 | The plain constructor stores inputs and outputs as given and sets the id to the computed hash, so equal contents give equal ids. |
| Utxo.ToString | toychain/backend/src/utxo.cpp:45-51 | The text starts with "TX[" and the id's first (up to) 8 characters, and ends with the number of outputs, which reads back after the last space. |
| Utxo.MakeKey | toychain/backend/src/utxo.cpp:105-108 | `txId + ":" + to_string(index)` parses back to exactly (txId, index), even when txId contains ':'. |
| Utxo.MakeKeyInjective | toychain/backend/src/utxo.h:48-49 | Two (txId, index) pairs share a key if and only if they are equal, so the table holds at most one output per pair. |
| Utxo.LookupAfterAdd | toychain/backend/src/utxo.cpp:54-57 | After storing o under (t, i), (t, i) finds o, overwriting any old entry, and every other pair finds what it found before. |
| Utxo.LookupAfterRemove | toychain/backend/src/utxo.cpp:59-62 | After erasing (t, i), (t, i) finds nothing and every other pair finds what it found before. |
| Utxo.SumForRemove | toychain/backend/src/utxo.cpp:77-83 | The balance sum does not depend on the order the map is walked in: any entry can be taken first. |
| Utxo.SumForAgree | toychain/backend/src/utxo.cpp:74-85 | Two tables that agree on a set of keys have the same per-address sum over those keys. |
| Utxo.BalanceAfterPut | toychain/backend/src/utxo.cpp:56 | Storing an output under a key changes each address's balance by the new amount minus the overwritten one. |
| Utxo.BalanceAfterErase | toychain/backend/src/utxo.cpp:61 | Erasing a key takes its amount out of its address's balance and leaves the other balances alone. |
| Utxo.UtxoSet.constructor | toychain/backend/src/utxo.h:45-49 | A new table is empty. |
| Utxo.UtxoSet.AddUTXO | toychain/backend/src/utxo.cpp:54-57 | The map becomes the old map with the key of (txId, index) set to the output. That pair then finds the output and no other pair changes. Every key stays one that `makeKey` built. |
| Utxo.UtxoSet.RemoveUTXO | toychain/backend/src/utxo.cpp:59-62 | Returns true if and only if the pair was present. The key is then gone and no other pair changes. |
| Utxo.UtxoSet.HasUTXO | toychain/backend/src/utxo.cpp:64-67 | True if and only if the pair has an entry. |
| Utxo.UtxoSet.GetUTXO | toychain/backend/src/utxo.cpp:69-72 | Returns the entry of the pair. For a missing pair it returns None, which stands for the exception `at` throws. |
| Utxo.UtxoSet.GetBalance | toychain/backend/src/utxo.cpp:74-85 | The loop, in any walk order, returns the sum of the amounts of exactly the entries paid to the address. The result is 0 for an empty table. |
| Utxo.UtxoSet.GetUTXOsForAddress | toychain/backend/src/utxo.cpp:87-98 | Returns exactly the (key, output) entries paid to the address, each once. Their amounts add up to the address's balance, and every key is one that `makeKey` built. |
| Utxo.UtxoSet.GetAllUTXOs | toychain/backend/src/utxo.cpp:100-103 | Returns the whole table. |
| Blocks.HashToHex | toychain/backend/src/block.cpp:9-14 | `hashToHex` gives exactly 16 (2 × sizeof(size_t)) zero-padded lowercase hex digits that parse back to the hashed value. |
| Blocks.HexTextIsHashText | toychain/backend/src/block.cpp:12 | Every 16-digit lowercase hex string is `hashToHex` of some 64-bit value. |
| Blocks.MeetsDifficultyIff | toychain/backend/src/block.cpp:51-52 | `hash.substr(0, d) == string(d, '0')` holds if and only if the hash has at least d characters and the first d are '0'. |
| Blocks.NoHashMeetsAbove16 | toychain/backend/src/block.cpp:52 | No block hash meets a difficulty above 16, because `substr` truncates to the 16 characters. For such a difficulty `mine` never exits. |
| Blocks.MeetsLowerDifficulty | toychain/backend/src/blockchain.cpp:49 | A hash meeting a difficulty meets every lower one. |
| Blocks.HigherDifficultyCanFail | toychain/backend/src/blockchain.cpp:49 | Some 16-digit block hash text meets difficulty 2 and fails difficulty 3. |
| Blocks.WriteTransactions | toychain/backend/src/block.cpp:63-66 | The loop writes every transaction's `toString()`, in order. |
| Blocks.Block.HashForNonce | toychain/backend/src/block.cpp:59-68 | The block hash for a nonce is 16 hex digits and depends only on index, timestamp, previous hash, nonce and the in-order transaction texts. |
| Blocks.HashOf | toychain/backend/src/block.cpp:59-68 | The hash of a block's fields at a nonce is 16 hex digits that read back as `std::hash` of the written text. |
| Blocks.ZeroHashText | toychain/backend/src/block.cpp:9-14 | The hash text of 0 is sixteen '0's. |
| Hex.ZeroHexText | toychain/backend/src/block.cpp:12 | Zero written with `setw(w)` and `setfill('0')` is w '0' digits. |
| Blocks.PreimagesDifferInNonce | toychain/backend/src/block.cpp:62 | The text hashed at nonce 0 differs from the text hashed at nonce 1, whatever the other fields are. |
| Blocks.UninitialisedNonceCanMismatch | toychain/backend/src/block.cpp:17-22 | For any block fields, some hash function and some nonce value read before initialisation give a first hash that meets difficulty 2 and differs from the hash at nonce 0. |
| Blocks.Block.AsDeclared | toychain/backend/src/block.cpp:17-22 | Stores index, transactions, previous hash and timestamp. The hash is computed from the nonce value read before `nonce_{0}` runs (include/block.h:29-30), and the nonce is then 0. The block is consistent if and only if the read value gives the same hash as nonce 0. |
| Blocks.Block.constructor | toychain/backend/src/block.cpp:17-22 | The constructor with the nonce initialised before the hash: nonce 0 and a hash that `hasValidHash` accepts. |
| Blocks.Block.CalculateHash | toychain/backend/src/block.cpp:59-68 | Returns the hash of the current fields at the current nonce. |
| Blocks.Block.HasValidHash | toychain/backend/src/block.cpp:70-73 | True if and only if the recomputed hash equals the stored one. |
| Blocks.Block.Mine | toychain/backend/src/block.cpp:49-57 | Each attempt adds 1 to the nonce, wrapping as a size_t, and recomputes the hash. Mining stops at the first qualifying nonce, and the final hash has d leading '0's. A hash that already qualifies, always so for d = 0, is left with its nonce untouched. A consistent hash stays consistent. Nothing else changes. |
| Chain.CreateGenesisBlock | toychain/backend/src/blockchain.cpp:60-65 | Genesis has index 0, previous hash "0", the single transfer `network->genesis:0` and nonce 0. Its hash is the one for the nonce value read before initialisation, so it is consistent if and only if that gives the hash at nonce 0. |
| Chain.ValidAtLowerDifficulty | toychain/backend/src/blockchain.cpp:38-54 | A chain valid at some difficulty is valid at every lower one. |
| Chain.RaiseByOne | toychain/backend/src/blockchain.cpp:38-54 | A chain valid at difficulty d is valid at d + 1 if and only if every block after genesis has a '0' at position d. |
| Chain.AppendKeepsValid | toychain/backend/src/blockchain.cpp:30-32 | Appending a block that links to the tail and has the required zeros keeps a valid chain valid if and only if the block's hash is consistent. |
| Chain.MineNewBlock | toychain/backend/src/blockchain.cpp:30-31 | Builds the block on top of the tail and mines it. When mining succeeds, the hash has the zeros and is the first hash kept or a consistent one. When it fails, neither the first hash nor the hash at any nonce from 1 to the fuel bound has the zeros. |
| Chain.Blockchain.constructor | toychain/backend/src/blockchain.cpp:5-7 | A fresh chain holds exactly the genesis block, nothing is pending, and the difficulty is 2 (include/blockchain.h:25). The genesis hash is the one for the nonce value read before initialisation. The chain is valid whatever that hash is, since genesis is never checked. Every block of the chain hashes with the chain's one hash function. |
| Chain.Blockchain.SetDifficulty | toychain/backend/src/blockchain.cpp:9-11 | Stores 1 for 0 and any positive value as given, so the difficulty stays at least 1. Chain and pending are unchanged. Lowering keeps a valid chain valid. Raising by one keeps it valid if and only if every block after genesis has one more leading '0'. |
| Chain.Blockchain.GetDifficulty | toychain/backend/src/blockchain.cpp:13-15 | Returns the stored difficulty. |
| Chain.Blockchain.AddTransaction | toychain/backend/src/blockchain.cpp:17-19 | Appends to the end of the pending list and changes nothing else. |
| Chain.Blockchain.MinePendingTransactions | toychain/backend/src/blockchain.cpp:21-36 | With nothing pending, nothing changes. Otherwise mining either appends one fresh block or changes nothing, and it changes nothing only when neither the first hash nor the hash at any nonce from 1 to the fuel bound has the zeros. The new block's index is the old length and it links to the old tail's hash. It holds the old pending list followed by `network->miner:10`, hashes with the chain's hash function, and has the required zeros. If the first hash, built from the nonce value read before initialisation, already had the zeros, the block keeps nonce 0 and that hash. Otherwise its hash is consistent, and it is also consistent when the read value gives the hash at nonce 0. Pending becomes exactly the reward transfer. A valid chain stays valid if and only if the new block's hash is consistent. |
| Chain.Blockchain.IsChainValid | toychain/backend/src/blockchain.cpp:38-54 | The early-return loop returns true if and only if every block after genesis links to its predecessor's hash, passes `hasValidHash`, and starts with the current difficulty's zeros. |
| Chain.Blockchain.GetChain | toychain/backend/src/blockchain.cpp:56-58 | Returns the blocks in chain order. |

## Findings

| source | as written | input that shows it | evidently intended | confidence | as-written member | corrected member |
|---|---|---|---|---|---|---|
| toychain/backend/include/block.h:29-30 with toychain/backend/src/block.cpp:22 | `hash_` is declared before `nonce_`, so `hash_(calculateHash())` reads `nonce_` before `nonce_{0}` runs. The block then stores nonce 0 with a hash computed from another value. | A nonce value read as 1 and a hash function that maps the nonce-1 text to 0 and the nonce-0 text to 1. The first hash is sixteen '0's, so `mine` does nothing. The block is appended, `hasValidHash` is false, and `isChainValid` returns false. | The new block's hash is the one for nonce 0, so the block is consistent and mining keeps a valid chain valid. | not executed | Blocks.Block.AsDeclared, Blocks.UninitialisedNonceCanMismatch | Blocks.Block.constructor |

The chain keeps the constructor as written, so `Chain.Blockchain` states
its outcomes in terms of the value read. The intended behaviour is the case
where that value gives the hash at nonce 0. There `MinePendingTransactions`
ensures the new block is consistent, and the chain stays valid.

## Left out

- The server, the SQLite store, the React frontend and the demo driver are
  I/O plumbing. They are not part of this model (`server.cpp`,
  `db/Database.cpp`, `db/Database.hpp`, `frontend/`, `main.cpp`).
- The older header variants `src/block.h`, `src/blockchain.h` and
  `src/transaction.h` have no implementation. Their difficulty adjustment,
  per-block difficulty and balances are not modelled.
- Amounts are `double` in the code and whole numbers here.
  - An amount is written as the decimal text of the integer.
  - `operator<<` on a `double` prints at most 6 significant digits, which
    differs for fractional amounts and for amounts of 10^6 or more.
  - Floating-point rounding in `getBalance` is not modelled.
- SHA-256 and `std::hash` are uninterpreted parameters. SHA-256 is applied
  to the string's characters, not to its encoded bytes.
- The wall-clock timestamp of a new block is a parameter
  (`getCurrentTimestamp`, block.cpp:75-88).
- The getters of `Block`, `Transaction`, `TxInput`, `TxOutput` and
  `UTXOTransaction` are reads of fields here. `getChain`'s read-only view
  is not enforced, since Dafny has no const references.
- `std::cout` output of `minePendingTransactions` is not modelled.
- Block indices and the difficulty are unbounded naturals, without the
  size_t wrap-around, which no realistic chain reaches. The nonce does wrap
  modulo 2^64. `outputIndex` is an unbounded integer, and every property
  proved for it holds for all 32-bit values.
- Blocks.Block.Mine: the C++ loop has no bound and need not terminate,
  because the hash is foreign. Here a `fuel` bound stops it, and `found`
  is false only when the fuel runs out, a case the C++ loop never returns
  from.
- Chain.Blockchain.MinePendingTransactions: passes `fuel` on to `Mine`. When
  the fuel runs out, where the C++ call would still be running, it leaves
  the chain and the pending list unchanged, and no nonce from 1 to `fuel`
  gave a qualifying hash.

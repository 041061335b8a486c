/** A proof-of-work block (toychain/backend/src/block.cpp with
    toychain/backend/include/block.h). Index, timestamp, transactions and the
    previous hash are set by the constructor and have no setters, so they are
    `const` here; `hash` and `nonce` change only in the constructor and in
    `Mine`. The getters of the C++ class are reads of these fields. */
module Blocks {

  import opened Decimal
  import opened Hex
  import opened Transfers

  const Word64Modulus: nat := 0x1_0000_0000_0000_0000

  /** A `std::size_t` on a 64-bit target. */
  type Word64 = x: nat | x < 0x1_0000_0000_0000_0000

  /** `std::hash<std::string>`: foreign and unspecified, so the model takes it
      as a parameter and knows only that it yields a 64-bit value. */
  type StdHash = string -> Word64

  lemma Pow16Of16()
    ensures Pow16(16) == Word64Modulus
  {
    assert Pow16(4) == 0x1_0000;
    assert Pow16(8) == 0x1_0000_0000;
    assert Pow16(12) == 0x1_0000_0000_0000;
  }

  /** `hashToHex`: `2 * sizeof(size_t)` = 16 lowercase hex digits,
      zero-padded, that read back as the hashed value. */
  function HashToHex(v: Word64): (r: string)
    ensures |r| == 16 && IsHex(r)
    ensures ParseHex(r) == v
  {
    Pow16Of16();
    ToHexFixed(v, 16)
  }

  /** Every 16-digit lowercase hex string is the text of some hash value. */
  lemma {:induction false} HexTextIsHashText(s: string)
    requires |s| == 16 && IsHex(s)
    ensures ParseHex(s) < Word64Modulus && HashToHex(ParseHex(s)) == s
  {
    HexTextRoundTrip(s);
    Pow16Of16();
  }

  function Zeros(d: nat): (z: string)
    ensures |z| == d && forall i :: 0 <= i < d ==> z[i] == '0'
  {
    seq(d, _ => '0')
  }

  /** `hash.substr(0, d) == std::string(d, '0')`; `substr` stops at the end
      of the string. */
  predicate MeetsDifficulty(hash: string, d: nat) {
    hash[..Min(d, |hash|)] == Zeros(d)
  }

  /** The hash meets difficulty `d` exactly when it has at least `d`
      characters and the first `d` are all '0'. */
  lemma MeetsDifficultyIff(hash: string, d: nat)
    ensures MeetsDifficulty(hash, d) <==> d <= |hash| && forall i :: 0 <= i < d ==> hash[i] == '0'
  {
    if d <= |hash| && forall i :: 0 <= i < d ==> hash[i] == '0' {
      assert hash[..d] == Zeros(d);
    }
  }

  /** A 16-digit hash text never meets a difficulty above 16, so `mine`
      cannot return for such a difficulty. */
  lemma NoHashMeetsAbove16(v: Word64, d: nat)
    requires d > 16
    ensures !MeetsDifficulty(HashToHex(v), d)
  {
    MeetsDifficultyIff(HashToHex(v), d);
  }

  /** A hash that meets a difficulty meets every lower one. */
  lemma MeetsLowerDifficulty(hash: string, d: nat, lower: nat)
    requires MeetsDifficulty(hash, d) && lower <= d
    ensures MeetsDifficulty(hash, lower)
  {
    MeetsDifficultyIff(hash, d);
    MeetsDifficultyIff(hash, lower);
  }

  /** ... but not every higher one: the hash text of 2^52,
      "0010000000000000", meets difficulty 2 and fails difficulty 3. */
  lemma HigherDifficultyCanFail()
    ensures exists v: Word64 :: MeetsDifficulty(HashToHex(v), 2) && !MeetsDifficulty(HashToHex(v), 3)
  {
    var s := "0010000000000000";
    HexTextIsHashText(s);
    var v: Word64 := ParseHex(s);
    MeetsDifficultyIff(s, 2);
    MeetsDifficultyIff(s, 3);
    assert s[2] != '0';
    assert MeetsDifficulty(HashToHex(v), 2) && !MeetsDifficulty(HashToHex(v), 3);
  }

  /** The `toString()` of every transaction, in order. */
  function TransactionsText(txs: seq<Transaction>): string {
    if txs == [] then "" else TransactionsText(txs[..|txs| - 1]) + ToString(txs[|txs| - 1])
  }

  lemma TransactionsTextStep(txs: seq<Transaction>, i: nat)
    requires i < |txs|
    ensures TransactionsText(txs[..i + 1]) == TransactionsText(txs[..i]) + ToString(txs[i])
  {
    assert txs[..i + 1][..i] == txs[..i];
  }

  /** The loop of `calculateHash` that writes each transaction's text. */
  method WriteTransactions(txs: seq<Transaction>) returns (text: string)
    ensures text == TransactionsText(txs)
  {
    text := "";
    var i := 0;
    while i < |txs|
      invariant 0 <= i <= |txs|
      invariant text == TransactionsText(txs[..i])
    {
      TransactionsTextStep(txs, i);
      text := text + ToString(txs[i]);
      i := i + 1;
    }
    assert txs[..i] == txs;
  }

  /** The text `calculateHash` hashes: index, timestamp, previous hash and
      nonce written one after another, then every transaction's text. */
  function BlockPreimage(index: nat, timestamp: string, previousHash: string, nonce: Word64, txs: seq<Transaction>): string {
    NatToDecimal(index) + timestamp + previousHash + NatToDecimal(nonce) + TransactionsText(txs)
  }

  /** `calculateHash` as a function of everything it reads. */
  function HashOf(hasher: StdHash, index: nat, timestamp: string, previousHash: string, nonce: Word64, txs: seq<Transaction>): (h: string)
    ensures |h| == 16 && IsHex(h)
    ensures ParseHex(h) == hasher(BlockPreimage(index, timestamp, previousHash, nonce, txs))
  {
    HashToHex(hasher(BlockPreimage(index, timestamp, previousHash, nonce, txs)))
  }

  /** The hash text of 0 is sixteen '0's, so it meets every difficulty up
      to 16. */
  lemma ZeroHashText()
    ensures HashToHex(0) == Zeros(16)
  {
    Pow16Of16();
    ZeroHexText(16);
  }

  /** The text hashed at nonce 0 differs from the text hashed at nonce 1. */
  lemma PreimagesDifferInNonce(index: nat, timestamp: string, previousHash: string, txs: seq<Transaction>)
    ensures BlockPreimage(index, timestamp, previousHash, 0, txs) != BlockPreimage(index, timestamp, previousHash, 1, txs)
  {
    var head := NatToDecimal(index) + timestamp + previousHash;
    var tail := TransactionsText(txs);
    assert NatToDecimal(0) == "0" && NatToDecimal(1) == "1";
    assert BlockPreimage(index, timestamp, previousHash, 0, txs)[|head|] == '0';
    assert BlockPreimage(index, timestamp, previousHash, 1, txs)[|head|] == '1';
  }

  /** Whatever the block's fields, some hash function makes the hash built
      from an unread, nonzero nonce meet the initial difficulty while
      differing from the hash at nonce 0. Such a block leaves `mine` at once
      and is stored with a hash that `hasValidHash` rejects. */
  lemma UninitialisedNonceCanMismatch(index: nat, timestamp: string, previousHash: string, txs: seq<Transaction>)
    ensures exists hasher: StdHash, nonceRead: Word64 ::
      && MeetsDifficulty(HashOf(hasher, index, timestamp, previousHash, nonceRead, txs), 2)
      && HashOf(hasher, index, timestamp, previousHash, nonceRead, txs) != HashOf(hasher, index, timestamp, previousHash, 0, txs)
  {
    var atZero := BlockPreimage(index, timestamp, previousHash, 0, txs);
    PreimagesDifferInNonce(index, timestamp, previousHash, txs);
    var hasher: StdHash := s => if s == atZero then 1 else 0;
    var read := HashOf(hasher, index, timestamp, previousHash, 1, txs);
    var zero := HashOf(hasher, index, timestamp, previousHash, 0, txs);
    assert ParseHex(read) == 0 && ParseHex(zero) == 1;
    ZeroHashText();
    assert read == Zeros(16);
    MeetsDifficultyIff(read, 2);
  }

  /** The nonce after `steps` increments of a `std::size_t`, which wraps. */
  function NonceAfter(start: Word64, steps: nat): Word64 {
    (start + steps) % Word64Modulus
  }

  lemma NonceAfterStep(start: Word64, steps: nat)
    ensures NonceAfter(start, steps + 1) == (NonceAfter(start, steps) + 1) % Word64Modulus
  {
  }

  class Block {
    const hasher: StdHash
    const index: nat
    const timestamp: string
    const transactions: seq<Transaction>
    const previousHash: string
    var hash: string
    var nonce: Word64

    /** The hash `calculateHash` gives when the nonce is `n`: it depends on
        the index, timestamp, previous hash, nonce and the in-order
        transaction texts and on nothing else. */
    function HashForNonce(n: Word64): (h: string)
      ensures |h| == 16 && IsHex(h)
    {
      HashOf(hasher, index, timestamp, previousHash, n, transactions)
    }

    /** The stored hash is the one recomputed from the stored fields. */
    predicate HashIsConsistent()
      reads this
    {
      hash == HashForNonce(nonce)
    }

    /** The block constructor as the C++ class declares it. Members are
        initialised in declaration order, and `hash_` is declared before
        `nonce_`, so `hash_(calculateHash())` reads `nonce_` before its
        `{0}` initialiser runs. `nonceRead` stands for that unspecified
        value. The stored hash is the one for `nonceRead` while the nonce is
        0, so the block is consistent only when both nonces give one hash.
        The timestamp, which the C++ code takes from the wall clock, is a
        parameter. */
    constructor AsDeclared(hasher: StdHash, index: nat, transactions: seq<Transaction>, previousHash: string, timestamp: string, nonceRead: Word64)
      ensures this.hasher == hasher && this.index == index && this.transactions == transactions
      ensures this.previousHash == previousHash && this.timestamp == timestamp
      ensures nonce == 0 && hash == HashForNonce(nonceRead)
      ensures HashIsConsistent() <==> HashForNonce(nonceRead) == HashForNonce(0)
    {
      this.hasher := hasher;
      this.index := index;
      this.timestamp := timestamp;
      this.transactions := transactions;
      this.previousHash := previousHash;
      nonce := nonceRead;
      hash := "";
      new;
      hash := CalculateHash();
      nonce := 0;
    }

    /** The constructor with `nonce_` initialised before `hash_`: nonce 0
        and the hash computed from the fields, so the new block passes
        `HasValidHash` at once. */
    constructor (hasher: StdHash, index: nat, transactions: seq<Transaction>, previousHash: string, timestamp: string)
      ensures this.hasher == hasher && this.index == index && this.transactions == transactions
      ensures this.previousHash == previousHash && this.timestamp == timestamp
      ensures nonce == 0 && HashIsConsistent()
    {
      this.hasher := hasher;
      this.index := index;
      this.timestamp := timestamp;
      this.transactions := transactions;
      this.previousHash := previousHash;
      nonce := 0;
      hash := "";
      new;
      hash := CalculateHash();
    }

    /** `calculateHash`: writes the fields, then each transaction's text,
        and hashes the result. */
    method CalculateHash() returns (h: string)
      ensures h == HashForNonce(nonce)
    {
      var txsText := WriteTransactions(transactions);
      var text := NatToDecimal(index) + timestamp + previousHash + NatToDecimal(nonce) + txsText;
      h := HashToHex(hasher(text));
    }

    /** `hasValidHash`: true exactly when recomputing the hash gives the
        stored one. */
    method HasValidHash() returns (valid: bool)
      ensures valid <==> HashIsConsistent()
    {
      var h := CalculateHash();
      valid := h == hash;
    }

    /** How a block built from `nonceRead` stands after `mine` returned with
        a hash that meets `d`: if the first hash already met `d`, nothing
        moved and the stored hash is the one for `nonceRead` at nonce 0;
        otherwise mining recomputed it, so it is consistent. Either way it is
        consistent when `nonceRead` and 0 give the same hash. */
    predicate MinedFrom(nonceRead: Word64, d: nat)
      reads this
    {
      && (MeetsDifficulty(HashForNonce(nonceRead), d) ==> nonce == 0 && hash == HashForNonce(nonceRead))
      && (!MeetsDifficulty(HashForNonce(nonceRead), d) ==> HashIsConsistent())
      && (HashForNonce(nonceRead) == HashForNonce(0) ==> HashIsConsistent())
    }

    /** The `Mine` outcome, from a block as `AsDeclared` leaves it, gives
        `MinedFrom`. */
    lemma MinedFromOutcome(nonceRead: Word64, d: nat, steps: nat)
      requires MeetsDifficulty(hash, d)
      requires nonce == NonceAfter(0, steps)
      requires MeetsDifficulty(HashForNonce(nonceRead), d) ==> steps == 0
      requires steps == 0 ==> hash == HashForNonce(nonceRead)
      requires steps > 0 ==> HashIsConsistent()
      ensures MinedFrom(nonceRead, d)
    {
    }

    /** Neither the first hash, built from `nonceRead`, nor the hash at any
        of the nonces 1 to `fuel` meets `d`. */
    predicate NoneQualifies(nonceRead: Word64, d: nat, fuel: nat) {
      && !MeetsDifficulty(HashForNonce(nonceRead), d)
      && forall j :: 1 <= j <= fuel ==> !MeetsDifficulty(HashForNonce(NonceAfter(0, j)), d)
    }

    /** A `Mine` call that runs out of fuel, on a block as `AsDeclared`
        leaves it, tried every nonce up to `fuel` in vain. */
    lemma FailedOutcome(nonceRead: Word64, d: nat, fuel: nat)
      requires !MeetsDifficulty(hash, d)
      requires nonce == NonceAfter(0, fuel)
      requires MeetsDifficulty(HashForNonce(nonceRead), d) ==> fuel == 0
      requires fuel == 0 ==> hash == HashForNonce(nonceRead)
      requires fuel > 0 ==> HashIsConsistent()
      requires NoEarlierSuccess(0, fuel, d)
      ensures NoneQualifies(nonceRead, d, fuel)
    {
    }

    /** None of the first `steps - 1` nonces after `start` gave a hash that
        meets difficulty `d`. */
    predicate NoEarlierSuccess(start: Word64, steps: nat, d: nat) {
      forall j :: 0 < j < steps ==> !MeetsDifficulty(HashForNonce(NonceAfter(start, j)), d)
    }

    /** `mine`: while the hash does not start with `difficulty` zeros,
        increment the nonce and recompute the hash. The C++ loop has no bound;
        here it stops after `fuel` attempts, `found` says whether the hash
        qualifies, and the ghost `steps` counts the increments. Mining stops
        at the first qualifying nonce, leaves the hash consistent, and does
        nothing at all when the hash already qualifies (always so for 0). */
    method Mine(difficulty: nat, fuel: nat) returns (found: bool, ghost steps: nat)
      modifies this
      ensures found <==> MeetsDifficulty(hash, difficulty)
      ensures steps <= fuel && (!found ==> steps == fuel)
      ensures nonce == NonceAfter(old(nonce), steps)
      ensures MeetsDifficulty(old(hash), difficulty) ==> steps == 0
      ensures steps == 0 ==> hash == old(hash)
      ensures steps > 0 ==> HashIsConsistent()
      ensures old(HashIsConsistent()) ==> HashIsConsistent()
      ensures NoEarlierSuccess(old(nonce), steps, difficulty)
    {
      var attempts: nat := 0;
      while !MeetsDifficulty(hash, difficulty) && attempts < fuel
        invariant attempts <= fuel
        invariant nonce == NonceAfter(old(nonce), attempts)
        invariant attempts == 0 ==> hash == old(hash)
        invariant attempts > 0 ==> HashIsConsistent() && !MeetsDifficulty(old(hash), difficulty)
        invariant old(HashIsConsistent()) ==> HashIsConsistent()
        invariant NoEarlierSuccess(old(nonce), attempts, difficulty)
        decreases fuel - attempts
      {
        NonceAfterStep(old(nonce), attempts);
        nonce := (nonce + 1) % Word64Modulus;
        hash := CalculateHash();
        attempts := attempts + 1;
      }
      steps := attempts;
      found := MeetsDifficulty(hash, difficulty);
    }
  }
}

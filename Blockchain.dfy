/** The account-style proof-of-work chain (toychain/backend/src/blockchain.cpp
    with toychain/backend/include/blockchain.h): the chain of blocks, the list
    of pending transfers, the difficulty and the fixed mining reward. */
module Chain {

  import opened Transfers
  import opened Blocks

  /** `difficulty_{2}` */
  const InitialDifficulty: nat := 2

  /** `miningReward_{10.0}`; the class has no setter for it. */
  const MiningReward: int := 10

  /** The transfer that pays the mining reward to `minerAddress`. */
  function RewardFor(minerAddress: string): Transaction {
    Transaction("network", minerAddress, MiningReward)
  }

  /** `createGenesisBlock`: index 0, previous hash "0" and the single
      transfer `network->genesis:0`; it is not mined. Its hash is built from
      the nonce value the constructor reads before initialising it. */
  method CreateGenesisBlock(hasher: StdHash, timestamp: string, nonceRead: Word64) returns (genesis: Block)
    ensures fresh(genesis) && genesis.hasher == hasher
    ensures genesis.index == 0 && genesis.previousHash == "0" && genesis.timestamp == timestamp
    ensures genesis.transactions == [Transaction("network", "genesis", 0)]
    ensures genesis.nonce == 0 && genesis.hash == genesis.HashForNonce(nonceRead)
    ensures genesis.HashIsConsistent() <==> genesis.HashForNonce(nonceRead) == genesis.HashForNonce(0)
  {
    genesis := new Block.AsDeclared(hasher, 0, [Transaction("network", "genesis", 0)], "0", timestamp, nonceRead);
  }

  /** Builds the block of transfers `txs` at `index` on top of
      `previousHash` and mines it for `difficulty`. When `found`, the hash
      has the zeros and stands as `MinedFrom` says; otherwise no nonce up to
      `fuel` qualified. */
  method MineNewBlock(hasher: StdHash, index: nat, txs: seq<Transaction>, previousHash: string, timestamp: string,
                      nonceRead: Word64, difficulty: nat, fuel: nat) returns (block: Block, found: bool)
    ensures fresh(block)
    ensures block.hasher == hasher && block.index == index && block.transactions == txs
    ensures block.previousHash == previousHash && block.timestamp == timestamp
    ensures found ==> MeetsDifficulty(block.hash, difficulty) && block.MinedFrom(nonceRead, difficulty)
    ensures !found ==> block.NoneQualifies(nonceRead, difficulty, fuel)
  {
    block := new Block.AsDeclared(hasher, index, txs, previousHash, timestamp, nonceRead);
    ghost var steps: nat;
    found, steps := block.Mine(difficulty, fuel);
    if found {
      block.MinedFromOutcome(nonceRead, difficulty, steps);
    } else {
      block.FailedOutcome(nonceRead, difficulty, fuel);
    }
  }

  /** Block `i` links to block `i - 1`, carries its own recomputed hash, and
      that hash starts with `d` zeros. */
  predicate BlockValidAt(blocks: seq<Block>, i: nat, d: nat)
    requires 1 <= i < |blocks|
    reads blocks
  {
    && blocks[i].previousHash == blocks[i - 1].hash
    && blocks[i].HashIsConsistent()
    && MeetsDifficulty(blocks[i].hash, d)
  }

  /** Every block after the genesis block is valid for difficulty `d`; the
      genesis block is never checked. */
  predicate ChainValidAt(blocks: seq<Block>, d: nat)
    reads blocks
  {
    forall i :: 1 <= i < |blocks| ==> BlockValidAt(blocks, i, d)
  }

  /** A chain valid at some difficulty is valid at every lower one. */
  lemma ValidAtLowerDifficulty(blocks: seq<Block>, d: nat, lower: nat)
    requires ChainValidAt(blocks, d) && lower <= d
    ensures ChainValidAt(blocks, lower)
  {
    forall i | 1 <= i < |blocks|
      ensures BlockValidAt(blocks, i, lower)
    {
      assert BlockValidAt(blocks, i, d);
      MeetsLowerDifficulty(blocks[i].hash, d, lower);
    }
  }

  /** Appending a block that links to the tail and has the zeros keeps a
      valid chain valid exactly when the block's hash is consistent. */
  lemma AppendKeepsValid(blocks: seq<Block>, b: Block, d: nat)
    requires ChainValidAt(blocks, d) && |blocks| >= 1
    requires b.previousHash == blocks[|blocks| - 1].hash && MeetsDifficulty(b.hash, d)
    ensures ChainValidAt(blocks + [b], d) <==> b.HashIsConsistent()
  {
    var grown := blocks + [b];
    if b.HashIsConsistent() {
      forall k | 1 <= k < |grown|
        ensures BlockValidAt(grown, k, d)
      {
        if k < |blocks| {
          assert BlockValidAt(blocks, k, d);
        }
      }
    } else {
      assert !BlockValidAt(grown, |blocks|, d);
    }
  }

  /** Raising the difficulty by one keeps a valid chain valid exactly when
      every block after genesis also has '0' at the next position. */
  lemma RaiseByOne(blocks: seq<Block>, d: nat)
    requires ChainValidAt(blocks, d)
    ensures ChainValidAt(blocks, d + 1) <==> forall i :: 1 <= i < |blocks| ==> d < |blocks[i].hash| && blocks[i].hash[d] == '0'
  {
    forall i | 1 <= i < |blocks|
      ensures BlockValidAt(blocks, i, d + 1) <==> d < |blocks[i].hash| && blocks[i].hash[d] == '0'
    {
      assert BlockValidAt(blocks, i, d);
      MeetsDifficultyIff(blocks[i].hash, d);
      MeetsDifficultyIff(blocks[i].hash, d + 1);
    }
  }

  class Blockchain {
    const hasher: StdHash
    var chain: seq<Block>
    var pending: seq<Transaction>
    var difficulty: nat

    /** The chain always has its genesis block, `setDifficulty` never
        stores 0, and every block hashes with the chain's one `std::hash`. */
    ghost predicate Valid()
      reads this
    {
      && |chain| >= 1
      && difficulty >= 1
      && forall i :: 0 <= i < |chain| ==> chain[i].hasher == hasher
    }

    /** What `isChainValid` decides: validity against the difficulty in force
        now, not the one each block was mined with. */
    predicate ChainValid()
      reads this, chain
    {
      ChainValidAt(chain, difficulty)
    }

    /** A fresh chain holds only the genesis block, nothing is pending, the
        difficulty is 2, and the chain is valid whatever the genesis hash,
        since the genesis block is never checked. */
    constructor (hasher: StdHash, genesisTimestamp: string, genesisNonceRead: Word64)
      ensures Valid() && this.hasher == hasher
      ensures |chain| == 1 && fresh(chain[0]) && chain[0].hasher == hasher
      ensures chain[0].index == 0 && chain[0].previousHash == "0" && chain[0].timestamp == genesisTimestamp
      ensures chain[0].transactions == [Transaction("network", "genesis", 0)]
      ensures chain[0].nonce == 0 && chain[0].hash == chain[0].HashForNonce(genesisNonceRead)
      ensures pending == [] && difficulty == InitialDifficulty
      ensures ChainValid()
    {
      this.hasher := hasher;
      var genesis := CreateGenesisBlock(hasher, genesisTimestamp, genesisNonceRead);
      chain := [genesis];
      pending := [];
      difficulty := InitialDifficulty;
    }

    /** `setDifficulty`: 0 is stored as 1, anything else as given. Lowering
        the difficulty keeps a valid chain valid; raising it by one keeps it
        valid exactly when every block after genesis has one more '0'. */
    method SetDifficulty(d: nat)
      requires Valid()
      modifies this
      ensures Valid()
      ensures difficulty == if d > 0 then d else 1
      ensures chain == old(chain) && pending == old(pending)
      ensures old(ChainValid()) && difficulty <= old(difficulty) ==> ChainValid()
      ensures old(ChainValid()) && difficulty == old(difficulty) + 1 ==>
        (ChainValid() <==> forall i :: 1 <= i < |chain| ==> old(difficulty) < |chain[i].hash| && chain[i].hash[old(difficulty)] == '0')
    {
      var stored := if d > 0 then d else 1;
      if ChainValid() && stored <= difficulty {
        ValidAtLowerDifficulty(chain, difficulty, stored);
      }
      if ChainValid() && stored == difficulty + 1 {
        RaiseByOne(chain, difficulty);
      }
      difficulty := stored;
    }

    method GetDifficulty() returns (d: nat)
      ensures d == difficulty
    {
      d := difficulty;
    }

    /** `addTransaction`: appends to the end of the pending list and changes
        nothing else. */
    method AddTransaction(t: Transaction)
      requires Valid()
      modifies this
      ensures Valid()
      ensures pending == old(pending) + [t]
      ensures chain == old(chain) && difficulty == old(difficulty)
    {
      pending := pending + [t];
    }

    /** `minePendingTransactions`. With nothing pending it does nothing.
        Otherwise it mines one block holding the pending transfers followed
        by the reward, linked to the current tail, appends it, and leaves only
        the reward pending, so the next call is never a no-op. The C++ mining
        loop has no bound; `fuel` bounds it here, and when it runs out (where
        the C++ call would still be running) nothing changes. The new block's
        first hash is built from `nonceRead`, the value its constructor reads
        before initialising the nonce. When that hash already has the zeros,
        `mine` does nothing and the block is stored with nonce 0 and that
        hash, which is consistent only if it equals the hash at nonce 0; in
        every other case the block's hash is consistent. A valid chain stays
        valid exactly when the new block's hash is consistent. */
    method MinePendingTransactions(minerAddress: string, timestamp: string, nonceRead: Word64, fuel: nat) returns (mined: bool)
      requires Valid()
      modifies this
      ensures Valid() && difficulty == old(difficulty)
      ensures old(pending) == [] ==> !mined
      ensures !mined ==> chain == old(chain) && pending == old(pending)
      ensures mined ==> |chain| == |old(chain)| + 1 && chain[..|old(chain)|] == old(chain)
      ensures mined ==> fresh(chain[|chain| - 1])
      ensures mined ==>
        var b := chain[|chain| - 1];
        && b.index == |old(chain)|
        && b.previousHash == chain[|chain| - 2].hash
        && b.transactions == old(pending) + [RewardFor(minerAddress)]
        && b.timestamp == timestamp
        && b.hasher == hasher
        && MeetsDifficulty(b.hash, difficulty)
      ensures mined ==> chain[|chain| - 1].MinedFrom(nonceRead, difficulty)
      ensures mined ==> pending == [RewardFor(minerAddress)]
      ensures old(pending) != [] && !mined ==>
        var txs := old(pending) + [RewardFor(minerAddress)];
        var prev := old(chain[|chain| - 1].hash);
        && !MeetsDifficulty(HashOf(hasher, |old(chain)|, timestamp, prev, nonceRead, txs), difficulty)
        && forall j :: 1 <= j <= fuel ==> !MeetsDifficulty(HashOf(hasher, |old(chain)|, timestamp, prev, NonceAfter(0, j), txs), difficulty)
      ensures old(ChainValid()) && mined ==> (ChainValid() <==> chain[|chain| - 1].HashIsConsistent())
    {
      if pending == [] {
        return false;
      }
      var transactions := pending + [RewardFor(minerAddress)];
      var tail := chain[|chain| - 1];
      var block, found := MineNewBlock(hasher, |chain|, transactions, tail.hash, timestamp, nonceRead, difficulty, fuel);
      if !found {
        return false;
      }
      if ChainValid() {
        AppendKeepsValid(chain, block, difficulty);
      }
      chain := chain + [block];
      pending := [RewardFor(minerAddress)];
      mined := true;
    }

    /** `isChainValid`: walks the chain from the second block and returns
        false at the first broken link, inconsistent hash or hash without the
        required zeros. */
    method IsChainValid() returns (valid: bool)
      requires Valid()
      ensures valid == ChainValid()
    {
      var i := 1;
      while i < |chain|
        invariant 1 <= i <= |chain|
        invariant forall k :: 1 <= k < i ==> BlockValidAt(chain, k, difficulty)
      {
        var current := chain[i];
        var previous := chain[i - 1];
        if current.previousHash != previous.hash {
          assert !BlockValidAt(chain, i, difficulty);
          return false;
        }
        var consistent := current.HasValidHash();
        if !consistent {
          assert !BlockValidAt(chain, i, difficulty);
          return false;
        }
        if !MeetsDifficulty(current.hash, difficulty) {
          assert !BlockValidAt(chain, i, difficulty);
          return false;
        }
        i := i + 1;
      }
      return true;
    }

    /** `getChain`: the blocks, in order. */
    method GetChain() returns (blocks: seq<Block>)
      ensures blocks == chain
    {
      blocks := chain;
    }

  }
}

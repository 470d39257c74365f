/** `src/app.rs`: block and chain validation, and the `App` ledger that owns the chain. */
module Ledger {
  import opened Wrappers
  import opened Integers
  import opened Digest
  import opened Blocks
  import Hex

  /** `is_block_valid(block, previous_block)`. The four checks run in order and the
      first failure decides: linkage, difficulty of the decoded hash, id sequence,
      and the recomputed hash. A hash that is not hex, and `previous_block.id + 1`
      past `u64::MAX`, are panics in the source and `Err` here. */
  function IsBlockValid(hasher: HashFn, block: Block, previous: Block): (r: Result<bool, Panic>)
    ensures block.previousHash != previous.hash ==> r == Ok(false)
    ensures block.previousHash == previous.hash && Hex.Decode(block.hash).None? ==> r == Err(HashNotHex)
    ensures r.Err? ==> block.previousHash == previous.hash
    ensures r.Err? ==> r.error == HashNotHex || r.error == IdOverflow
    ensures r == Err(IdOverflow) <==>
      block.previousHash == previous.hash && Hex.Decode(block.hash).Some?
      && MeetsDifficulty(Hex.Decode(block.hash).value) && previous.id == U64_MAX
  {
    if block.previousHash != previous.hash then Ok(false)
    else
      match Hex.Decode(block.hash)
      case None => Err(HashNotHex)
      case Some(bytes) =>
        if !MeetsDifficulty(bytes) then Ok(false)
        else if previous.id == U64_MAX then Err(IdOverflow)
        else if block.id != previous.id + 1 then Ok(false)
        else Ok(Hex.Encode(DigestOf(hasher, block)) == block.hash)
  }

  /** What a good successor is, stated without hex decoding or bit strings: it links
      to its predecessor, is numbered next, carries the hex of its own digest, and
      that digest starts with two zero bytes. */
  predicate Extends(hasher: HashFn, block: Block, previous: Block) {
    var d := DigestOf(hasher, block);
    block.previousHash == previous.hash && block.id == previous.id + 1
    && block.hash == Hex.Encode(d) && d[0] == 0 && d[1] == 0
  }

  /** `is_block_valid` accepts exactly the good successors. */
  lemma IsBlockValidIff(hasher: HashFn, block: Block, previous: Block)
    ensures IsBlockValid(hasher, block, previous) == Ok(true) <==> Extends(hasher, block, previous)
  {
    var d := DigestOf(hasher, block);
    Hex.DecodeEncode(d);
    MeetsDifficultyIff(d);
    var decoded := Hex.Decode(block.hash);
    if decoded.Some? {
      MeetsDifficultyIff(decoded.value);
      if block.hash == Hex.Encode(d) {
        assert decoded.value == d;
      }
    }
  }

  /** An accepted hash begins with four '0' hex digits. */
  lemma AcceptedHashLeadsWithZeros(hasher: HashFn, block: Block, previous: Block)
    requires IsBlockValid(hasher, block, previous) == Ok(true)
    ensures |block.hash| >= 4 && block.hash[..4] == "0000"
  {
    var bytes := Hex.Decode(block.hash).value;
    MeetsDifficultyIff(bytes);
    Hex.LeadingZeroBytes(block.hash);
  }

  /** Mining agrees with validation: a block whose nonce and hash are what
      `mine_block` returns, numbered next and linked to `previous`, is accepted. */
  lemma MinedBlockIsValid(hasher: HashFn, block: Block, previous: Block)
    requires block.previousHash == previous.hash && block.id == previous.id + 1
    requires MeetsDifficulty(DigestOf(hasher, block))
    requires block.hash == Hex.Encode(DigestOf(hasher, block))
    ensures IsBlockValid(hasher, block, previous) == Ok(true)
  {
    Hex.DecodeEncode(DigestOf(hasher, block));
  }

  /** Changing the hashed fields of an accepted block without recomputing its hash
      gets it rejected, whenever the change changes the digest. */
  lemma TamperedBlockRejected(hasher: HashFn, block: Block, tampered: Block, previous: Block)
    requires IsBlockValid(hasher, block, previous) == Ok(true)
    requires tampered.hash == block.hash && tampered.previousHash == block.previousHash && tampered.id == block.id
    requires DigestOf(hasher, tampered) != DigestOf(hasher, block)
    ensures IsBlockValid(hasher, tampered, previous) == Ok(false)
  {
    IsBlockValidIff(hasher, block, previous);
    if Hex.Encode(DigestOf(hasher, tampered)) == block.hash {
      Hex.EncodeInjective(DigestOf(hasher, tampered), DigestOf(hasher, block));
    }
  }

  /** The pair `is_chain_valid` checks at index `i`, with the arguments as the source
      passes them: the EARLIER block as the candidate, the later as its predecessor. */
  function PairAsWritten(hasher: HashFn, chain: seq<Block>, i: int): Result<bool, Panic>
    requires 1 <= i < |chain|
  {
    IsBlockValid(hasher, chain[i - 1], chain[i])
  }

  /** Block `i` checked as the successor of block `i - 1`. */
  function PairIntended(hasher: HashFn, chain: seq<Block>, i: int): Result<bool, Panic>
    requires 1 <= i < |chain|
  {
    IsBlockValid(hasher, chain[i], chain[i - 1])
  }

  /** Every block after the first is accepted against the one before it. */
  predicate ChainLinked(hasher: HashFn, chain: seq<Block>) {
    forall i | 1 <= i < |chain| :: PairIntended(hasher, chain, i) == Ok(true)
  }

  /** `is_chain_valid(chain)` as written: walks the pairs from index 1 and returns at
      the first pair that is not accepted (a panic propagates). */
  method IsChainValid(hasher: HashFn, chain: seq<Block>) returns (r: Result<bool, Panic>)
    ensures r == Ok(true) <==> forall i | 1 <= i < |chain| :: PairAsWritten(hasher, chain, i) == Ok(true)
    ensures r != Ok(true) ==>
      exists i | 1 <= i < |chain| :: PairAsWritten(hasher, chain, i) == r
        && forall j | 1 <= j < i :: PairAsWritten(hasher, chain, j) == Ok(true)
  {
    var i := 1;
    while i < |chain|
      invariant 1 <= i
      invariant forall j | 1 <= j < i && j < |chain| :: PairAsWritten(hasher, chain, j) == Ok(true)
    {
      var verdict := IsBlockValid(hasher, chain[i - 1], chain[i]);
      if verdict != Ok(true) {
        assert PairAsWritten(hasher, chain, i) == verdict;
        return verdict;
      }
      i := i + 1;
    }
    return Ok(true);
  }

  /** Because the source swaps the roles, a chain of two or more blocks whose first
      successor really extends the genesis block is never reported valid. */
  lemma AsWrittenRejectsLinkedChain(hasher: HashFn, chain: seq<Block>)
    requires |chain| >= 2 && ChainLinked(hasher, chain)
    ensures PairAsWritten(hasher, chain, 1) != Ok(true)
  {
    assert PairIntended(hasher, chain, 1) == Ok(true);
    IsBlockValidIff(hasher, chain[1], chain[0]);
    IsBlockValidIff(hasher, chain[0], chain[1]);
  }

  /** `is_chain_valid` with the pair check the right way round. */
  method IsChainValidIntended(hasher: HashFn, chain: seq<Block>) returns (r: Result<bool, Panic>)
    ensures r == Ok(true) <==> ChainLinked(hasher, chain)
    ensures r != Ok(true) ==>
      exists i | 1 <= i < |chain| :: PairIntended(hasher, chain, i) == r
        && forall j | 1 <= j < i :: PairIntended(hasher, chain, j) == Ok(true)
  {
    var i := 1;
    while i < |chain|
      invariant 1 <= i
      invariant forall j | 1 <= j < i && j < |chain| :: PairIntended(hasher, chain, j) == Ok(true)
    {
      var verdict := IsBlockValid(hasher, chain[i], chain[i - 1]);
      if verdict != Ok(true) {
        assert PairIntended(hasher, chain, i) == verdict;
        return verdict;
      }
      i := i + 1;
    }
    return Ok(true);
  }

  /** Along a linked chain the ids count up by one from the first block. */
  lemma {:induction false} LinkedChainIds(hasher: HashFn, chain: seq<Block>, i: nat)
    requires ChainLinked(hasher, chain) && i < |chain|
    ensures chain[i].id == chain[0].id + i
  {
    if i > 0 {
      LinkedChainIds(hasher, chain, i - 1);
      assert PairIntended(hasher, chain, i) == Ok(true);
      IsBlockValidIff(hasher, chain[i], chain[i - 1]);
    }
  }

  /** A chain with one more block is linked exactly when the old chain is and the new
      block is accepted against the old tip: a rejected block cannot be appended
      without breaking the chain, and it leaves the old chain as it was. */
  lemma ChainLinkedAppend(hasher: HashFn, chain: seq<Block>, block: Block)
    requires chain != []
    ensures ChainLinked(hasher, chain + [block])
      <==> ChainLinked(hasher, chain) && IsBlockValid(hasher, block, chain[|chain| - 1]) == Ok(true)
  {
    var longer := chain + [block];
    if ChainLinked(hasher, longer) {
      forall i | 1 <= i < |chain| ensures PairIntended(hasher, chain, i) == Ok(true) {
        assert PairIntended(hasher, longer, i) == Ok(true);
      }
      assert PairIntended(hasher, longer, |chain|) == Ok(true);
    }
    if ChainLinked(hasher, chain) && IsBlockValid(hasher, block, chain[|chain| - 1]) == Ok(true) {
      forall i | 1 <= i < |longer| ensures PairIntended(hasher, longer, i) == Ok(true) {
        if i < |chain| {
          assert PairIntended(hasher, chain, i) == Ok(true);
        }
      }
    }
  }

  /** `App`: the ledger that owns the chain. The hash function is fixed for its life. */
  class App {
    var blocks: seq<Block>
    const hasher: HashFn

    /** `App::new()` */
    constructor (hasher: HashFn)
      ensures blocks == [] && this.hasher == hasher
    {
      blocks := [];
      this.hasher := hasher;
    }

    /** `genesis()`: mines a block with payload "hello" and pushes it, whatever the
        chain already holds. */
    method Genesis(keeper: IdKeeper, previousHash: string, now: i64) returns (r: Result<(), Panic>)
      modifies this, keeper
      ensures keeper.next == NextId(old(keeper.next))
      ensures r.Ok? ==> |blocks| == |old(blocks)| + 1 && blocks[..|old(blocks)|] == old(blocks)
      ensures r.Ok? ==>
        var g := blocks[|blocks| - 1];
        g.id == old(keeper.next) && g.previousHash == previousHash && g.data == "hello" && g.timestamp == now
        && MeetsDifficulty(DigestOf(hasher, g)) && g.hash == Hex.Encode(DigestOf(hasher, g))
        && forall n: u64 | n < g.nonce :: !MeetsDifficulty(hasher(g.id, now, previousHash, "hello", n))
      ensures r.Err? ==> r == Err(NonceOverflow) && blocks == old(blocks)
      ensures r.Err? ==> forall n: u64 :: !MeetsDifficulty(hasher(old(keeper.next), now, previousHash, "hello", n))
    {
      var block := NewBlock(keeper, hasher, previousHash, "hello", now);
      match block
      case Ok(b) =>
        blocks := blocks + [b];
        r := Ok(());
      case Err(e) =>
        r := Err(e);
    }

    /** `try_add_block(block)`: appends the block when it is accepted against the
        tip, and otherwise leaves the chain as it was. */
    method TryAddBlock(block: Block) returns (r: Result<(), Panic>)
      modifies this
      ensures old(blocks) == [] ==> r == Err(EmptyChain) && blocks == old(blocks)
      ensures old(blocks) != [] && IsBlockValid(hasher, block, old(blocks)[|old(blocks)| - 1]) == Ok(true)
        ==> r == Ok(()) && blocks == old(blocks) + [block]
      ensures old(blocks) != [] && IsBlockValid(hasher, block, old(blocks)[|old(blocks)| - 1]) == Ok(false)
        ==> r == Ok(()) && blocks == old(blocks)
      ensures old(blocks) != [] && IsBlockValid(hasher, block, old(blocks)[|old(blocks)| - 1]).Err?
        ==> r == Err(IsBlockValid(hasher, block, old(blocks)[|old(blocks)| - 1]).error) && blocks == old(blocks)
      ensures ChainLinked(hasher, old(blocks)) ==> ChainLinked(hasher, blocks)
    {
      if blocks == [] {
        return Err(EmptyChain);
      }
      var latest := blocks[|blocks| - 1];
      var verdict := IsBlockValid(hasher, block, latest);
      match verdict
      case Ok(true) =>
        ChainLinkedAppend(hasher, blocks, block);
        blocks := blocks + [block];
        r := Ok(());
      case Ok(false) =>
        r := Ok(());
      case Err(e) =>
        r := Err(e);
    }
  }
}

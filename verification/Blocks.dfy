/** `src/block.rs`: the block record, the id counter, and mining.
    The clock (`Utc::now()`) is a `timestamp` parameter; the process-wide atomic
    `ID_KEEPER` is an `IdKeeper` object that callers pass in. */
module Blocks {
  import opened Wrappers
  import opened Integers
  import opened Digest
  import Hex

  datatype Block = Block(
    id: u64,
    hash: string,
    previousHash: string,
    timestamp: i64,
    data: string,
    nonce: u64)

  /** The ways the Rust code panics instead of returning. */
  datatype Panic =
    | HashNotHex     // `hex::decode(..).expect(..)` on a hash that is not hex
    | IdOverflow     // `previous_block.id + 1` past `u64::MAX`
    | NonceOverflow  // `nonce += 1` past `u64::MAX`
    | EmptyChain     // `self.blocks.last().expect(..)` on an empty chain

  /** What `mine_block` returns: the nonce and the hex-encoded digest. */
  datatype Mined = Mined(nonce: u64, hash: string)

  /** The digest of a block's own fields, as validation recomputes it. */
  function DigestOf(hasher: HashFn, b: Block): Hash32 {
    hasher(b.id, b.timestamp, b.previousHash, b.data, b.nonce)
  }

  /** `AtomicU64::fetch_add(1)` wraps around at the top of the range. */
  function NextId(id: u64): (next: u64)
    ensures id < U64_MAX ==> next == id + 1
    ensures id == U64_MAX ==> next == 0
  {
    (id + 1) % U64_MODULUS
  }

  /** The ids that `k` successive `fetch_add` calls hand out, starting from `start`. */
  function IdSequence(start: u64, k: nat): seq<u64>
    decreases k
  {
    if k == 0 then [] else [start] + IdSequence(NextId(start), k - 1)
  }

  /** The `i`-th id handed out is `start + i`, modulo 2^64. */
  lemma {:induction false} IdSequenceAt(start: u64, k: nat, i: nat)
    requires i < k
    ensures |IdSequence(start, k)| == k
    ensures IdSequence(start, k)[i] == (start + i) % U64_MODULUS
    decreases k
  {
    if i == 0 {
      IdSequenceLength(start, k);
    } else {
      IdSequenceAt(NextId(start), k - 1, i - 1);
    }
  }

  lemma {:induction false} IdSequenceLength(start: u64, k: nat)
    ensures |IdSequence(start, k)| == k
    decreases k
  {
    if k > 0 {
      IdSequenceLength(NextId(start), k - 1);
    }
  }

  /** Until the counter wraps, successive blocks get strictly increasing ids; and
      any 2^64 successive calls give pairwise distinct ids. */
  lemma IdsIncreaseAndDiffer(start: u64, k: nat, i: nat, j: nat)
    requires i < j < k
    ensures |IdSequence(start, k)| == k
    ensures start + k <= U64_MODULUS ==> IdSequence(start, k)[i] < IdSequence(start, k)[j]
    ensures k <= U64_MODULUS ==> IdSequence(start, k)[i] != IdSequence(start, k)[j]
  {
    IdSequenceAt(start, k, i);
    IdSequenceAt(start, k, j);
    if k <= U64_MODULUS {
      WrapOnce(start + i);
      WrapOnce(start + j);
    }
  }

  lemma WrapOnce(x: int)
    requires 0 <= x < 2 * U64_MODULUS
    ensures x % U64_MODULUS == if x < U64_MODULUS then x else x - U64_MODULUS
  {
  }

  /** The `ID_KEEPER` counter. */
  class IdKeeper {
    var next: u64

    constructor ()
      ensures next == 0
    {
      next := 0;
    }

    /** `ID_KEEPER.fetch_add(1, ..)`: returns the old value and advances. */
    method FetchAdd() returns (id: u64)
      modifies this
      ensures id == old(next)
      ensures next == NextId(old(next))
    {
      id := next;
      next := NextId(next);
    }
  }

  /** `k` successive `Block::new` calls take their ids from the counter in turn:
      the ids they receive are `IdSequence` from the counter's starting value. */
  method FetchAddMany(keeper: IdKeeper, k: nat) returns (ids: seq<u64>)
    modifies keeper
    ensures ids == IdSequence(old(keeper.next), k)
  {
    ids := [];
    for i := 0 to k
      invariant ids + IdSequence(keeper.next, k - i) == IdSequence(old(keeper.next), k)
    {
      ghost var before := keeper.next;
      var id := keeper.FetchAdd();
      assert IdSequence(before, k - i) == [id] + IdSequence(keeper.next, k - i - 1);
      assert ids + [id] + IdSequence(keeper.next, k - i - 1) == ids + IdSequence(before, k - i);
      ids := ids + [id];
    }
    assert ids + IdSequence(keeper.next, 0) == ids;
  }

  /** `mine_block`: tries nonces 0, 1, 2, ... and stops at the first whose digest
      meets the difficulty prefix. Past `u64::MAX` the increment panics. */
  method MineBlock(hasher: HashFn, id: u64, timestamp: i64, previousHash: string, data: string)
    returns (r: Result<Mined, Panic>)
    ensures r.Ok? ==> MeetsDifficulty(hasher(id, timestamp, previousHash, data, r.value.nonce))
    ensures r.Ok? ==> r.value.hash == Hex.Encode(hasher(id, timestamp, previousHash, data, r.value.nonce))
    ensures r.Ok? ==> forall n: u64 | n < r.value.nonce :: !MeetsDifficulty(hasher(id, timestamp, previousHash, data, n))
    ensures r.Err? ==> r.error == NonceOverflow
    ensures r.Err? ==> forall n: u64 :: !MeetsDifficulty(hasher(id, timestamp, previousHash, data, n))
  {
    var nonce: u64 := 0;
    while true
      invariant forall n: u64 | n < nonce :: !MeetsDifficulty(hasher(id, timestamp, previousHash, data, n))
      decreases U64_MAX - nonce
    {
      var hash := hasher(id, timestamp, previousHash, data, nonce);
      var binaryHash := HashToBinaryRepresentation(hash);
      if StartsWith(binaryHash, DIFFICULTY_PREFIX) {
        return Ok(Mined(nonce, Hex.Encode(hash)));
      }
      if nonce == U64_MAX {
        return Err(NonceOverflow);
      }
      nonce := nonce + 1;
    }
  }

  /** `Block::new(previous_hash, data)`, with the clock reading `now` and the
      counter `keeper`: takes the next id, mines, and fills in the record. */
  method NewBlock(keeper: IdKeeper, hasher: HashFn, previousHash: string, data: string, now: i64)
    returns (r: Result<Block, Panic>)
    modifies keeper
    ensures keeper.next == NextId(old(keeper.next))
    ensures r.Ok? ==> r.value.id == old(keeper.next)
    ensures r.Ok? ==> r.value.previousHash == previousHash && r.value.data == data && r.value.timestamp == now
    ensures r.Ok? ==> MeetsDifficulty(DigestOf(hasher, r.value)) && r.value.hash == Hex.Encode(DigestOf(hasher, r.value))
    ensures r.Ok? ==> forall n: u64 | n < r.value.nonce :: !MeetsDifficulty(hasher(r.value.id, now, previousHash, data, n))
    ensures r.Err? ==> r.error == NonceOverflow
    ensures r.Err? ==> forall n: u64 :: !MeetsDifficulty(hasher(old(keeper.next), now, previousHash, data, n))
  {
    var id := keeper.FetchAdd();
    var mined := MineBlock(hasher, id, now, previousHash, data);
    match mined
    case Ok(m) =>
      r := Ok(Block(id, m.hash, previousHash, now, data, m.nonce));
    case Err(e) =>
      r := Err(e);
  }
}

/** A single block of the ledger: its content, its digest and proof-of-work sealing. */
module Blocks {
  import opened Records

  /** What a block carries: the genesis block a text, every later block the ballots it seals. */
  datatype BlockData = Text(text: string) | Ballots(votes: seq<Vote>, miner: string)

  const GENESIS_TEXT: string := "Genesis Block"
  const MINER: string := "AutoMiner"

  /**
   * The ballots a block carries. A block whose data is text holds none: the only text block is
   * the genesis block, and "Genesis Block" does not contain the substring "votes".
   */
  function VotesOf(d: BlockData): seq<Vote> {
    match d
    case Text(_) => []
    case Ballots(vs, _) => vs
  }

  /** The five fields the digest is computed over. */
  datatype Content = Content(index: nat, timestamp: string, data: BlockData, previousHash: string, nonce: nat)

  /** The digest (SHA-256 in hex), left uninterpreted: any function of the five fields. */
  type Hasher = Content -> string

  /** The target string of `difficulty` zero characters. */
  function Zeros(d: nat): string {
    seq(d, _ => '0')
  }

  /** The loop test of the miner: the first `d` characters of `h` (all of `h` if shorter) equal the target. */
  predicate HasLeadingZeros(h: string, d: nat) {
    (if d <= |h| then h[..d] else h) == Zeros(d)
  }

  lemma LeadingZerosMeaning(h: string, d: nat)
    ensures HasLeadingZeros(h, d) <==> d <= |h| && forall i | 0 <= i < d :: h[i] == '0'
  {
    assert |Zeros(d)| == d;
    if d <= |h| && forall i | 0 <= i < d :: h[i] == '0' {
      assert h[..d] == Zeros(d);
    }
  }

  /** With difficulty 0 every digest already meets the target. */
  lemma ZeroDifficultyAlwaysMet(h: string)
    ensures HasLeadingZeros(h, 0)
  {
  }

  /** Nonce `n` seals content `c` (whatever nonce `c` currently holds) at difficulty `d`. */
  ghost predicate NonceSeals(hasher: Hasher, c: Content, n: nat, d: nat) {
    HasLeadingZeros(hasher(c.(nonce := n)), d)
  }

  /** Mining `c` terminates: some nonce from the current one upward seals it. */
  ghost predicate Minable(hasher: Hasher, c: Content, d: nat) {
    exists n: nat :: n >= c.nonce && NonceSeals(hasher, c, n, d)
  }

  /** Proof-of-work is feasible for every content: the hypothesis under which the miner terminates. */
  ghost predicate PowFeasible(hasher: Hasher, d: nat) {
    forall c: Content :: Minable(hasher, c, d)
  }

  class Block {
    const index: nat
    const timestamp: string
    const data: BlockData
    const previousHash: string
    const hasher: Hasher
    var nonce: nat
    var hash: string

    /** A new block: nonce 0 and a digest of its own fields. */
    constructor (index: nat, timestamp: string, data: BlockData, previousHash: string, hasher: Hasher)
      ensures this.index == index && this.timestamp == timestamp && this.data == data
      ensures this.previousHash == previousHash && this.hasher == hasher
      ensures nonce == 0 && hash == CalculateHash()
    {
      this.index := index;
      this.timestamp := timestamp;
      this.data := data;
      this.previousHash := previousHash;
      this.hasher := hasher;
      nonce := 0;
      hash := hasher(Content(index, timestamp, data, previousHash, 0));
    }

    /** The digest input; of the mutable fields it reads the nonce only, never the stored hash. */
    function Fields(): Content
      reads this`nonce
    {
      Content(index, timestamp, data, previousHash, nonce)
    }

    function CalculateHash(): string
      reads this`nonce
    {
      hasher(Fields())
    }

    /**
     * Increments the nonce until the digest starts with `difficulty` zeros. The nonce found is the
     * first one from the starting nonce that seals the block; if the digest already meets the
     * target (in particular at difficulty 0) nothing changes.
     */
    method MineBlock(difficulty: nat)
      requires hash == CalculateHash()
      requires Minable(hasher, Fields(), difficulty)
      modifies this`nonce, this`hash
      ensures hash == CalculateHash() && HasLeadingZeros(hash, difficulty)
      ensures old(nonce) <= nonce
      ensures forall k | old(nonce) <= k < nonce :: !NonceSeals(hasher, old(Fields()), k, difficulty)
      ensures HasLeadingZeros(old(hash), difficulty) ==> nonce == old(nonce) && hash == old(hash)
      ensures difficulty == 0 ==> nonce == old(nonce) && hash == old(hash)
    {
      ghost var start := Fields();
      ghost var bound: nat :| bound >= nonce && NonceSeals(hasher, start, bound, difficulty);
      while !HasLeadingZeros(hash, difficulty)
        invariant old(nonce) <= nonce <= bound
        invariant Fields() == start.(nonce := nonce)
        invariant hash == CalculateHash()
        invariant nonce == old(nonce) ==> hash == old(hash)
        invariant forall k | old(nonce) <= k < nonce :: !NonceSeals(hasher, start, k, difficulty)
        decreases bound - nonce
      {
        nonce := nonce + 1;
        hash := CalculateHash();
      }
      if nonce != old(nonce) {
        assert start.(nonce := old(nonce)) == start;
        assert !NonceSeals(hasher, start, old(nonce), difficulty);
      }
    }
  }

  /** The digest depends on the five fields only: blocks with equal fields have equal digests. */
  lemma HashDeterministic(a: Block, b: Block)
    requires a.hasher == b.hasher && a.index == b.index && a.timestamp == b.timestamp
    requires a.data == b.data && a.previousHash == b.previousHash && a.nonce == b.nonce
    ensures a.CalculateHash() == b.CalculateHash()
  {
  }
}

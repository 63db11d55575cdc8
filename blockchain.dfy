/** The vote ledger: a hash-linked chain of blocks, a pending pool and the voting flag. */
module Ledger {
  import opened Records
  import opened Blocks
  import opened Roster
  import opened Votes

  /** The genesis block as `create_genesis_block` builds it: index 0, text data, sentinel link, unmined. */
  ghost predicate IsGenesis(b: Block)
    reads b
  {
    b.index == 0 && b.data == Text(GENESIS_TEXT) && b.previousHash == "0" && b.nonce == 0
  }

  class Blockchain {
    const hasher: Hasher
    const difficulty: nat
    var chain: seq<Block>
    var pendingVotes: seq<Vote>
    var isVotingActive: bool

    /**
     * Chain validity (the ledger itself never checks it): a genesis block first; every block sits at
     * its own index, carries the digest of its fields, and every later block links to its
     * predecessor's digest and meets the mining difficulty.
     */
    ghost predicate Linked()
      reads this, chain
    {
      && PowFeasible(hasher, difficulty)
      && |chain| >= 1
      && IsGenesis(chain[0])
      && (forall i | 0 <= i < |chain| :: Sealed(chain[i], i))
      && (forall i | 1 <= i < |chain| :: Follows(chain[i - 1], chain[i]))
    }

    /** Block `b` sits at index `i`, uses the ledger's digest and carries the digest of its fields. */
    ghost predicate Sealed(b: Block, i: nat)
      reads b
    {
      b.index == i && b.hasher == hasher && b.hash == b.CalculateHash()
    }

    /** Block `b` links to `prev`'s digest and meets the mining difficulty. */
    ghost predicate Follows(prev: Block, b: Block)
      reads prev, b
    {
      b.previousHash == prev.hash && HasLeadingZeros(b.hash, difficulty)
    }

    /** Between operations the pool is empty (every admitted ballot is mined at once) and no key voted twice. */
    ghost predicate Valid()
      reads this, chain
    {
      Linked() && pendingVotes == [] && DistinctVoters(ChainVotes(chain))
    }

    /** A ledger holding only the genesis block, with voting off and mining difficulty 2. */
    constructor (hasher: Hasher, now: string)
      requires PowFeasible(hasher, 2)
      ensures Valid()
      ensures difficulty == 2 && !isVotingActive && |chain| == 1 && chain[0].timestamp == now
      ensures this.hasher == hasher && ChainVotes(chain) == []
    {
      this.hasher := hasher;
      difficulty := 2;
      chain := [];
      pendingVotes := [];
      isVotingActive := false;
      new;
      CreateGenesisBlock(now);
      ChainVotesAppend([], chain[0]);
      assert chain == [] + [chain[0]];
    }

    /** Appends a fresh, unmined genesis block. */
    method CreateGenesisBlock(now: string)
      modifies this
      ensures |chain| == |old(chain)| + 1 && chain[..|old(chain)|] == old(chain)
      ensures fresh(chain[|chain| - 1]) && chain[|chain| - 1].timestamp == now
      ensures IsGenesis(chain[|chain| - 1]) && chain[|chain| - 1].hasher == hasher
      ensures chain[|chain| - 1].hash == chain[|chain| - 1].CalculateHash()
      ensures pendingVotes == old(pendingVotes) && isVotingActive == old(isVotingActive)
    {
      var genesis := new Block(0, now, Text(GENESIS_TEXT), "0", hasher);
      chain := chain + [genesis];
    }

    /** `chain[-1]`: the block a new block links to. */
    function GetLatestBlock(): (b: Block)
      reads this
      requires |chain| > 0
      ensures b in chain
      ensures Linked() ==> b.index == |chain| - 1
    {
      chain[|chain| - 1]
    }

    /**
     * Seals the pending ballots into one new block at the end of the chain and empties the pool;
     * with no pending ballots nothing happens.
     */
    method MinePendingVotes(now: string)
      requires Linked()
      modifies this
      ensures Linked()
      ensures isVotingActive == old(isVotingActive) && pendingVotes == []
      ensures old(pendingVotes) == [] ==> chain == old(chain)
      ensures old(pendingVotes) != [] ==>
        && |chain| == |old(chain)| + 1 && chain[..|old(chain)|] == old(chain)
        && var b := chain[|chain| - 1];
        && fresh(b) && b.index == |old(chain)| && b.timestamp == now
        && b.previousHash == old(chain[|chain| - 1].hash)
        && b.data == Ballots(old(pendingVotes), MINER)
      ensures ChainVotes(chain) == ChainVotes(old(chain)) + old(pendingVotes)
    {
      if pendingVotes == [] {
        return;
      }
      var block := SealNewBlock(Ballots(pendingVotes, MINER), now);
      ChainVotesAppend(chain, block);
      chain := chain + [block];
      pendingVotes := [];
    }

    /**
     * The block `mine_pending_votes` builds: the next index, a link to the latest block's digest,
     * mined to the ledger's difficulty. Only the new block is touched.
     */
    method SealNewBlock(data: BlockData, now: string) returns (block: Block)
      requires Linked()
      ensures fresh(block)
      ensures block.timestamp == now && block.data == data
      ensures block.previousHash == chain[|chain| - 1].hash
      ensures Sealed(block, |chain|) && Follows(chain[|chain| - 1], block)
    {
      var index := |chain|;
      var previousHash := GetLatestBlock().hash;
      block := new Block(index, now, data, previousHash, hasher);
      assert Minable(hasher, block.Fields(), difficulty);
      block.MineBlock(difficulty);
    }

    /**
     * `validate_vote_data`: scans every block's ballots for the voter's key, then checks the
     * candidate id against the roster.
     */
    method ValidateVoteData(vote: Vote, candidates: seq<Candidate>) returns (verdict: Verdict)
      ensures verdict == Screen(ChainVotes(chain), vote, candidates)
    {
      var b := 0;
      while b < |chain|
        invariant 0 <= b <= |chain|
        invariant !Cast(ChainVotes(chain[..b]), vote.publicKey)
      {
        ghost var before := ChainVotes(chain[..b]);
        ChainVotesStep(chain, b);
        if chain[b].data.Ballots? {
          var votes := chain[b].data.votes;
          assert ChainVotes(chain[..b + 1]) == before + votes;
          ghost var scanned := before;
          var j := 0;
          while j < |votes|
            invariant 0 <= j <= |votes|
            invariant scanned == before + votes[..j]
            invariant !Cast(scanned, vote.publicKey)
          {
            ScanStep(before, votes, j);
            if votes[j].publicKey == vote.publicKey {
              assert (before + votes)[|before| + j] == votes[j];
              CastInPrefix(chain, b + 1, vote.publicKey);
              verdict := Rejected(DoubleVote);
              return;
            }
            NotCastStep(scanned, votes[j], vote.publicKey);
            scanned := scanned + [votes[j]];
            j := j + 1;
          }
          assert votes[..j] == votes;
        } else {
          assert ChainVotes(chain[..b + 1]) == before + [] == before;
        }
        b := b + 1;
      }
      assert chain[..b] == chain;
      if vote.candidateId !in IdSet(candidates) {
        verdict := Rejected(UnknownCandidate);
        return;
      }
      verdict := Accepted;
    }

    /**
     * `add_vote`: refuses when voting is off, then as `validate_vote_data` says; otherwise queues the
     * ballot and mines it into a block of its own at once.
     */
    method AddVote(vote: Vote, candidates: seq<Candidate>, now: string) returns (verdict: Verdict)
      requires Valid()
      modifies this
      ensures Valid()
      ensures verdict == Admission(old(isVotingActive), ChainVotes(old(chain)), vote, candidates)
      ensures isVotingActive == old(isVotingActive)
      ensures verdict.Rejected? ==> chain == old(chain)
      ensures verdict.Accepted? ==>
        && |chain| == |old(chain)| + 1 && chain[..|old(chain)|] == old(chain)
        && fresh(chain[|chain| - 1]) && chain[|chain| - 1].timestamp == now
        && chain[|chain| - 1].data == Ballots([vote], MINER)
      ensures ChainVotes(chain) == ChainVotes(old(chain)) + (if verdict.Accepted? then [vote] else [])
    {
      if !isVotingActive {
        return Rejected(VotingNotActive);
      }
      verdict := ValidateVoteData(vote, candidates);
      if verdict.Accepted? {
        ghost var cast := ChainVotes(chain);
        AdmittedKeepsVotersDistinct(isVotingActive, cast, vote, candidates);
        pendingVotes := pendingVotes + [vote];
        assert pendingVotes == [vote];
        MinePendingVotes(now);
        assert ChainVotes(chain) == cast + [vote];
        assert DistinctVoters(ChainVotes(chain));
      }
    }

    /**
     * `get_vote_counts`: one entry per roster id, each the number of ballots on the chain for that
     * id; ballots for ids not on the roster are skipped and not included in the total.
     */
    method GetVoteCounts(candidates: seq<Candidate>) returns (counts: map<int, nat>, total: nat)
      ensures counts.Keys == IdSet(candidates)
      ensures forall id | id in counts :: counts[id] == Count(ChainVotes(chain), id)
      ensures total == CountIn(ChainVotes(chain), IdSet(candidates))
    {
      var ids := IdSet(candidates);
      counts := map id | id in ids :: 0;
      total := 0;
      TallyOfMeaning([], ids);
      var b := 0;
      while b < |chain|
        invariant 0 <= b <= |chain|
        invariant counts == TallyOf(ChainVotes(chain[..b]), ids)
        invariant total == CountIn(ChainVotes(chain[..b]), ids)
      {
        ghost var before := ChainVotes(chain[..b]);
        ChainVotesStep(chain, b);
        if chain[b].data.Ballots? {
          counts, total := CountBallots(chain[b].data.votes, ids, counts, total, before);
          assert ChainVotes(chain[..b + 1]) == before + chain[b].data.votes;
        } else {
          assert ChainVotes(chain[..b + 1]) == before + [] == before;
        }
        b := b + 1;
      }
      assert chain[..b] == chain;
      TallyOfMeaning(ChainVotes(chain), ids);
    }
  }

  /**
   * The inner loop of `get_vote_counts` over one block's ballots: each ballot whose id is a key of
   * `counts` adds one to that entry and to the total. Starting from the tally of the ballots `seen`
   * so far, it yields the tally of `seen` followed by `votes`.
   */
  method CountBallots(votes: seq<Vote>, ids: set<int>, counts: map<int, nat>, total: nat, ghost seen: seq<Vote>)
    returns (counts': map<int, nat>, total': nat)
    requires counts == TallyOf(seen, ids) && total == CountIn(seen, ids)
    ensures counts' == TallyOf(seen + votes, ids) && total' == CountIn(seen + votes, ids)
  {
    counts', total' := counts, total;
    ghost var scanned := seen;
    var j := 0;
    while j < |votes|
      invariant 0 <= j <= |votes|
      invariant scanned == seen + votes[..j]
      invariant counts' == TallyOf(scanned, ids) && total' == CountIn(scanned, ids)
    {
      TallyStep(scanned, votes[j], ids, counts');
      ScanStep(seen, votes, j);
      var candidateId := votes[j].candidateId;
      if candidateId in counts' {
        counts' := counts'[candidateId := counts'[candidateId] + 1];
        total' := total' + 1;
      }
      scanned := scanned + [votes[j]];
      j := j + 1;
    }
    assert votes[..j] == votes;
  }

  /**
   * A first election on a fresh ledger with a two-candidate roster: once voting is on, voter "V1"
   * votes for candidate 1 and is admitted; the tally is {1: 1, 2: 0} with total 1; a second ballot
   * from "V1" is refused as a double vote and leaves the chain as it was.
   */
  method FirstElection(hasher: Hasher, t0: string, t1: string, t2: string, t3: string)
    returns (first: Verdict, counts: map<int, nat>, total: nat, second: Verdict, blocks: nat)
    requires PowFeasible(hasher, 2)
    ensures first == Accepted && second == Rejected(DoubleVote)
    ensures counts == map[1 := 1, 2 := 0] && total == 1
    ensures blocks == 2
  {
    var roster := [Candidate("A", "Progressive", 1), Candidate("B", "Conservative", 2)];
    var ledger := new Blockchain(hasher, t0);
    ledger.isVotingActive := true;
    OneVoterScenario(roster, t1, t2);
    first := ledger.AddVote(Vote("V1", 1, t1), roster, t1);
    counts, total := ledger.GetVoteCounts(roster);
    second := ledger.AddVote(Vote("V1", 2, t2), roster, t3);
    blocks := |ledger.chain|;
  }
}

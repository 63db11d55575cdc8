/** What the chain's ballots mean: who has voted, the admission rules and the tally. */
module Votes {
  import opened Records
  import opened Blocks
  import opened Roster

  /** All ballots on a chain, block by block, in chain order. */
  function ChainVotes(blocks: seq<Block>): seq<Vote> {
    if blocks == [] then []
    else ChainVotes(blocks[..|blocks| - 1]) + VotesOf(blocks[|blocks| - 1].data)
  }

  /** The ballots of the first k + 1 blocks: those of the first k, then block k's. */
  lemma ChainVotesStep(blocks: seq<Block>, k: nat)
    requires k < |blocks|
    ensures ChainVotes(blocks[..k + 1]) == ChainVotes(blocks[..k]) + VotesOf(blocks[k].data)
  {
    assert blocks[..k + 1][..k] == blocks[..k];
  }

  lemma ChainVotesAppend(blocks: seq<Block>, b: Block)
    ensures ChainVotes(blocks + [b]) == ChainVotes(blocks) + VotesOf(b.data)
  {
    assert (blocks + [b])[..|blocks|] == blocks;
  }

  /** The ballots of a prefix of the chain are a prefix of the chain's ballots. */
  lemma {:induction false} ChainVotesPrefix(blocks: seq<Block>, k: nat)
    requires k <= |blocks|
    ensures ChainVotes(blocks[..k]) <= ChainVotes(blocks)
  {
    if k < |blocks| {
      ChainVotesPrefix(blocks[..|blocks| - 1], k);
      assert blocks[..|blocks| - 1][..k] == blocks[..k];
    } else {
      assert blocks[..k] == blocks;
    }
  }

  /** Extending a scanned prefix by the next ballot. */
  lemma ScanStep(before: seq<Vote>, votes: seq<Vote>, j: nat)
    requires j < |votes|
    ensures (before + votes[..j]) + [votes[j]] == before + votes[..j + 1]
  {
    assert votes[..j + 1] == votes[..j] + [votes[j]];
  }

  /** Some ballot in `votes` carries public key `key`. */
  predicate Cast(votes: seq<Vote>, key: string) {
    exists i | 0 <= i < |votes| :: votes[i].publicKey == key
  }

  /** No public key appears on two ballots. */
  predicate DistinctVoters(votes: seq<Vote>) {
    forall i, j | 0 <= i < j < |votes| :: votes[i].publicKey != votes[j].publicKey
  }

  /** Scanning one more ballot that does not carry `key` keeps `key` absent. */
  lemma NotCastStep(scanned: seq<Vote>, v: Vote, key: string)
    requires !Cast(scanned, key) && v.publicKey != key
    ensures !Cast(scanned + [v], key)
  {
    assert forall i | 0 <= i < |scanned| :: (scanned + [v])[i] == scanned[i];
  }

  /** A key found among the ballots of the first k blocks is found among the chain's ballots. */
  lemma CastInPrefix(blocks: seq<Block>, k: nat, key: string)
    requires k <= |blocks| && Cast(ChainVotes(blocks[..k]), key)
    ensures Cast(ChainVotes(blocks), key)
  {
    ChainVotesPrefix(blocks, k);
    var i :| 0 <= i < |ChainVotes(blocks[..k])| && ChainVotes(blocks[..k])[i].publicKey == key;
    assert ChainVotes(blocks)[i] == ChainVotes(blocks[..k])[i];
  }

  datatype Rejection = VotingNotActive | DoubleVote | UnknownCandidate
  datatype Verdict = Accepted | Rejected(reason: Rejection)

  /** `validate_vote_data`: the double-vote scan comes first, then the candidate check. */
  function Screen(cast: seq<Vote>, vote: Vote, candidates: seq<Candidate>): Verdict {
    if Cast(cast, vote.publicKey) then Rejected(DoubleVote)
    else if vote.candidateId !in IdSet(candidates) then Rejected(UnknownCandidate)
    else Accepted
  }

  /** `add_vote`'s decision: the voting flag is checked before everything else. */
  function Admission(active: bool, cast: seq<Vote>, vote: Vote, candidates: seq<Candidate>): Verdict {
    if !active then Rejected(VotingNotActive) else Screen(cast, vote, candidates)
  }

  /** A ballot is admitted exactly when voting is on, its key is new and its candidate is on the roster. */
  lemma AdmissionAccepts(active: bool, cast: seq<Vote>, vote: Vote, candidates: seq<Candidate>)
    ensures Admission(active, cast, vote, candidates) == Accepted <==>
      && active
      && (forall i | 0 <= i < |cast| :: cast[i].publicKey != vote.publicKey)
      && exists c | c in candidates :: c.id == vote.candidateId
  {
  }

  /** Admitting a ballot never puts a public key on the chain twice. */
  lemma AdmittedKeepsVotersDistinct(active: bool, cast: seq<Vote>, vote: Vote, candidates: seq<Candidate>)
    requires DistinctVoters(cast)
    requires Admission(active, cast, vote, candidates) == Accepted
    ensures DistinctVoters(cast + [vote])
  {
    forall i, j | 0 <= i < j < |cast + [vote]|
      ensures (cast + [vote])[i].publicKey != (cast + [vote])[j].publicKey
    {
      if j == |cast| {
        assert (cast + [vote])[i] == cast[i];
      }
    }
  }

  /** Once a key is on the chain, every later ballot with that key is refused as a double vote. */
  lemma SecondVoteRejected(cast: seq<Vote>, first: Vote, later: seq<Vote>, again: Vote, candidates: seq<Candidate>)
    requires again.publicKey == first.publicKey
    ensures Admission(true, cast + [first] + later, again, candidates) == Rejected(DoubleVote)
  {
    assert (cast + [first] + later)[|cast|] == first;
  }

  /** Number of ballots for candidate `id`. */
  function Count(votes: seq<Vote>, id: int): (n: nat)
    ensures n <= |votes|
    ensures n == 0 <==> forall i | 0 <= i < |votes| :: votes[i].candidateId != id
  {
    if votes == [] then 0
    else Count(votes[..|votes| - 1], id) + (if votes[|votes| - 1].candidateId == id then 1 else 0)
  }

  /** Number of ballots whose candidate id is in `ids`: `total_votes`. */
  function CountIn(votes: seq<Vote>, ids: set<int>): (n: nat)
    ensures n <= |votes|
    ensures n == 0 <==> forall i | 0 <= i < |votes| :: votes[i].candidateId !in ids
  {
    if votes == [] then 0
    else CountIn(votes[..|votes| - 1], ids) + (if votes[|votes| - 1].candidateId in ids then 1 else 0)
  }

  /** The `counts` dictionary: every roster id, mapped to its number of ballots. */
  function TallyOf(votes: seq<Vote>, ids: set<int>): map<int, nat> {
    map id | id in ids :: Count(votes, id)
  }

  lemma TallyOfMeaning(votes: seq<Vote>, ids: set<int>)
    ensures TallyOf(votes, ids).Keys == ids
    ensures forall id | id in ids :: TallyOf(votes, ids)[id] == Count(votes, id)
  {
  }

  /**
   * One step of the counting loop: one more ballot adds one to its candidate's entry and to the
   * total when its id is a key, and changes nothing otherwise.
   */
  lemma TallyStep(seen: seq<Vote>, v: Vote, ids: set<int>, counts: map<int, nat>)
    requires counts == TallyOf(seen, ids)
    ensures v.candidateId in counts <==> v.candidateId in ids
    ensures TallyOf(seen + [v], ids) ==
      if v.candidateId in counts then counts[v.candidateId := counts[v.candidateId] + 1] else counts
    ensures CountIn(seen + [v], ids) == CountIn(seen, ids) + (if v.candidateId in counts then 1 else 0)
  {
    var after := TallyOf(seen + [v], ids);
    var expected := if v.candidateId in counts then counts[v.candidateId := counts[v.candidateId] + 1] else counts;
    forall id | id in ids ensures after[id] == expected[id] {
      CountExtend(seen, v, id);
    }
    assert after.Keys == expected.Keys;
    CountInExtend(seen, v, ids);
  }

  /**
   * A ballot for an id that is not on the roster is skipped: every entry of the tally and the
   * total stay as they were, however many such ballots arrive.
   */
  lemma {:induction false} OffRosterBallotsIgnored(seen: seq<Vote>, extra: seq<Vote>, ids: set<int>)
    requires forall k | 0 <= k < |extra| :: extra[k].candidateId !in ids
    ensures TallyOf(seen + extra, ids) == TallyOf(seen, ids)
    ensures CountIn(seen + extra, ids) == CountIn(seen, ids)
  {
    if extra != [] {
      var init := extra[..|extra| - 1];
      var v := extra[|extra| - 1];
      assert seen + extra == (seen + init) + [v];
      OffRosterBallotsIgnored(seen, init, ids);
      TallyStep(seen + init, v, ids, TallyOf(seen + init, ids));
    } else {
      assert seen + extra == seen;
    }
  }

  lemma {:induction false} CountInExtend(votes: seq<Vote>, v: Vote, ids: set<int>)
    ensures CountIn(votes + [v], ids) == CountIn(votes, ids) + (if v.candidateId in ids then 1 else 0)
  {
    assert (votes + [v])[..|votes|] == votes;
  }

  lemma {:induction false} CountExtend(votes: seq<Vote>, v: Vote, id: int)
    ensures Count(votes + [v], id) == Count(votes, id) + (if v.candidateId == id then 1 else 0)
  {
    assert (votes + [v])[..|votes|] == votes;
  }

  /** Sum of the counts of the ids listed in `ids`. */
  function SumCounts(votes: seq<Vote>, ids: seq<int>): nat {
    if ids == [] then 0 else Count(votes, ids[0]) + SumCounts(votes, ids[1..])
  }

  predicate DistinctIds(ids: seq<int>) {
    forall i, j | 0 <= i < j < |ids| :: ids[i] != ids[j]
  }

  /** Adding one ballot adds one to the sum exactly when its candidate is listed once. */
  lemma {:induction false} SumCountsExtend(votes: seq<Vote>, v: Vote, ids: seq<int>)
    requires DistinctIds(ids)
    ensures SumCounts(votes + [v], ids) == SumCounts(votes, ids) + (if v.candidateId in ids then 1 else 0)
  {
    assert (votes + [v])[..|votes|] == votes;
    if ids != [] {
      assert DistinctIds(ids[1..]) by {
        forall i, j | 0 <= i < j < |ids[1..]| ensures ids[1..][i] != ids[1..][j] {
          assert ids[1..][i] == ids[i + 1] && ids[1..][j] == ids[j + 1];
        }
      }
      SumCountsExtend(votes, v, ids[1..]);
      assert v.candidateId in ids <==> v.candidateId == ids[0] || v.candidateId in ids[1..] by {
        assert ids == [ids[0]] + ids[1..];
      }
      if v.candidateId == ids[0] {
        assert ids[0] !in ids[1..] by {
          forall k | 0 <= k < |ids[1..]| ensures ids[1..][k] != ids[0] {
            assert ids[1..][k] == ids[k + 1];
          }
        }
      }
    }
  }

  /** `total_votes` equals the sum of the per-candidate counts when the roster ids are distinct. */
  lemma {:induction false} TotalIsSumOfCounts(votes: seq<Vote>, ids: seq<int>)
    requires DistinctIds(ids)
    ensures CountIn(votes, set id | id in ids) == SumCounts(votes, ids)
  {
    if votes == [] {
      SumCountsOfNoVotes(ids);
    } else {
      var init := votes[..|votes| - 1];
      var v := votes[|votes| - 1];
      assert votes == init + [v];
      TotalIsSumOfCounts(init, ids);
      SumCountsExtend(init, v, ids);
      CountInExtend(init, v, set id | id in ids);
    }
  }

  lemma {:induction false} SumCountsOfNoVotes(ids: seq<int>)
    ensures SumCounts([], ids) == 0
  {
    if ids != [] {
      SumCountsOfNoVotes(ids[1..]);
    }
  }

  /**
   * A two-candidate election on a chain with no ballots yet: voter "V1" votes for id 1 and is
   * admitted, the tally is {1: 1, 2: 0} with total 1, and a second ballot from "V1" for id 2 is
   * refused as a double vote, leaving that tally unchanged.
   */
  lemma {:induction false} OneVoterScenario(roster: seq<Candidate>, t1: string, t2: string)
    requires roster == [Candidate("A", "Progressive", 1), Candidate("B", "Conservative", 2)]
    ensures Admission(true, [], Vote("V1", 1, t1), roster) == Accepted
    ensures TallyOf([Vote("V1", 1, t1)], IdSet(roster)) == map[1 := 1, 2 := 0]
    ensures CountIn([Vote("V1", 1, t1)], IdSet(roster)) == 1
    ensures Admission(true, [Vote("V1", 1, t1)], Vote("V1", 2, t2), roster) == Rejected(DoubleVote)
  {
    var first := Vote("V1", 1, t1);
    assert roster[0] in roster && roster[1] in roster;
    assert IdSet(roster) == {1, 2};
    CountExtend([], first, 1);
    CountExtend([], first, 2);
    CountInExtend([], first, {1, 2});
    assert [] + [first] == [first];
    var tally := TallyOf([first], {1, 2});
    assert tally.Keys == {1, 2};
    assert tally == map[1 := 1, 2 := 0];
    assert [first][0] == first;
  }
}

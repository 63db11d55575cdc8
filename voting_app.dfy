/**
 * The voting application's session state: the ledger, the voter register and the candidate
 * roster, with the host's and the voters' operations on them.
 */
module VotingApp {
  import opened Records
  import opened Blocks
  import opened Roster
  import opened Votes
  import opened Ledger
  import Registration

  /** Why adding a candidate did nothing, or the id it received. */
  datatype CandidateOutcome = VotingLocked | RosterFull | MissingField | Added(id: int)

  /** What the voting booth did with a submission. */
  datatype BoothOutcome =
    | Inactive
    | NoCandidates
    | InvalidCredentials
    | Submitted(voter: nat, verdict: Verdict)

  /** Voter `v` is the holder of the key pair `pub`, `priv`. */
  predicate Holds(v: Voter, pub: string, priv: string) {
    v.publicKey == pub && v.privateKey == priv
  }

  /** The host's add-candidate decision: the voting lock, then the capacity, then the two required fields. */
  function CandidateDecision(active: bool, count: nat, name: string, party: string): (r: CandidateOutcome)
    ensures r.Added? <==> !active && count < MAX_CANDIDATES && name != "" && party != ""
    ensures r.Added? ==> r.id == count + 1
  {
    if active then VotingLocked
    else if count >= MAX_CANDIDATES then RosterFull
    else if name == "" || party == "" then MissingField
    else Added(count + 1)
  }

  /** Appending a candidate with id n + 1 to a roster numbered 1..n keeps it numbered. */
  lemma AppendKeepsNumbered(cs: seq<Candidate>, c: Candidate)
    requires Numbered(cs) && c.id == |cs| + 1
    ensures Numbered(cs + [c])
  {
    assert forall i | 0 <= i < |cs| :: (cs + [c])[i] == cs[i];
  }

  /** The ids of a roster numbered 1..n, in roster order, are distinct and are the roster's ids. */
  lemma NumberedIdsDistinct(cs: seq<Candidate>)
    requires Numbered(cs)
    ensures DistinctIds(IdList(cs))
    ensures (set id | id in IdList(cs)) == IdSet(cs)
  {
    var ids := IdList(cs);
    forall id | id in IdSet(cs) ensures id in ids {
      var c :| c in cs && c.id == id;
      var k :| 0 <= k < |cs| && cs[k] == c;
      assert ids[k] == id;
    }
  }

  /**
   * The renumbering after a removal, against ballots already on the chain: with candidate t
   * (1 <= t < n) removed from a roster numbered 1..n, every survivor that stood after it moves up
   * one place and is credited with the ballots cast for the candidate that stood before it in the
   * old roster, so the ballots for the removed candidate go to its successor, and the ballots for
   * the old last id n are no longer counted at all.
   */
  lemma RenumberingShiftsCredit(cs: seq<Candidate>, t: int, votes: seq<Vote>)
    requires Numbered(cs) && 1 <= t < |cs|
    ensures var r := Renumbered(Without(cs, t));
      && |r| == |cs| - 1
      && (forall i | t - 1 <= i < |r| ::
            && r[i].name == cs[i + 1].name && r[i].party == cs[i + 1].party
            && TallyOf(votes, IdSet(r))[r[i].id] == Count(votes, cs[i].id))
      && |cs| !in TallyOf(votes, IdSet(r))
  {
    RemoveAndRenumber(cs, t);
    var r := Renumbered(Without(cs, t));
    NumberedIds(r, |cs|);
    TallyOfMeaning(votes, IdSet(r));
    forall i | t - 1 <= i < |r| ensures r[i].id in IdSet(r) {
      assert r[i] in r;
    }
  }

  /** The demonstration roster the session seeds whenever its roster is empty. */
  const DEMO_CANDIDATES: seq<Candidate> :=
    [Candidate("John Doe", "Progressive", 1), Candidate("Jane Ray", "Conservative", 2)]

  /**
   * The roster as the next run of the script leaves it: the session start-up re-seeds an empty
   * roster with the demonstration candidates and keeps any other roster as it is.
   */
  function Reseeded(cs: seq<Candidate>): seq<Candidate> {
    if cs == [] then DEMO_CANDIDATES else cs
  }

  class Session {
    const ledger: Blockchain
    var voters: seq<Voter>
    var candidates: seq<Candidate>

    /**
     * The session invariant: a valid ledger; a roster numbered 1..n of at most MAX_CANDIDATES; at
     * most MAX_VOTERS voters, no two with the same name (ignoring case) and date of birth; and every
     * voter marked as having voted has a ballot on the chain.
     */
    ghost predicate Valid()
      reads this, ledger, ledger.chain
    {
      && ledger.Valid()
      && Numbered(candidates) && |candidates| <= MAX_CANDIDATES
      && |voters| <= MAX_VOTERS && Registration.DistinctRegistrations(voters)
      && forall i | 0 <= i < |voters| :: voters[i].hasVoted ==> Cast(ChainVotes(ledger.chain), voters[i].publicKey)
    }

    /**
     * A fresh session: a new ledger with voting off, the demonstration voter Alice Smith (born
     * 1985-05-15) holding the key pair given, and the two demonstration candidates.
     */
    constructor (hasher: Hasher, now: string, alicePrivateKey: string, alicePublicKey: string)
      requires PowFeasible(hasher, 2)
      ensures Valid() && fresh(ledger) && !ledger.isVotingActive && |ledger.chain| == 1
      ensures ledger.hasher == hasher && ledger.difficulty == 2 && ledger.chain[0].timestamp == now
      ensures voters == [Voter("Alice Smith", Date(1985, 5, 15), alicePrivateKey, alicePublicKey, false)]
      ensures candidates == DEMO_CANDIDATES
    {
      ledger := new Blockchain(hasher, now);
      voters := [Voter("Alice Smith", Date(1985, 5, 15), alicePrivateKey, alicePublicKey, false)];
      candidates := DEMO_CANDIDATES;
    }

    /** The host starts the election; the button only acts while voting is off. */
    method StartVoting()
      requires Valid()
      modifies ledger`isVotingActive
      ensures Valid() && ledger.isVotingActive
    {
      if !ledger.isVotingActive {
        ledger.isVotingActive := true;
      }
    }

    /** The host ends the election; the button only acts while voting is on. */
    method EndVoting()
      requires Valid()
      modifies ledger`isVotingActive
      ensures Valid() && !ledger.isVotingActive
    {
      if ledger.isVotingActive {
        ledger.isVotingActive := false;
      }
    }

    /**
     * The host adds a candidate: refused while voting is on, when the roster is full, or when the
     * name or the party is empty; otherwise appended with the next id.
     */
    method AddCandidate(name: string, party: string) returns (outcome: CandidateOutcome)
      requires Valid()
      modifies this
      ensures Valid()
      ensures outcome == CandidateDecision(ledger.isVotingActive, |old(candidates)|, name, party)
      ensures voters == old(voters)
      ensures candidates ==
        if outcome.Added? then old(candidates) + [Candidate(name, party, outcome.id)] else old(candidates)
    {
      outcome := CandidateDecision(ledger.isVotingActive, |candidates|, name, party);
      if outcome.Added? {
        AppendKeepsNumbered(candidates, Candidate(name, party, outcome.id));
        candidates := candidates + [Candidate(name, party, outcome.id)];
      }
    }

    /**
     * The host removes the candidate with id `target` and renumbers the survivors 1..n in their
     * order; while voting is on the roster cannot be changed. The removal is followed by a rerun of
     * the script, whose start-up re-seeds a roster left empty with the demonstration candidates.
     */
    method RemoveCandidate(target: int)
      requires Valid()
      modifies this
      ensures Valid()
      ensures voters == old(voters)
      ensures candidates ==
        if ledger.isVotingActive then old(candidates) else Reseeded(Renumbered(Without(old(candidates), target)))
      ensures !ledger.isVotingActive ==> candidates != []
    {
      if ledger.isVotingActive {
        return;
      }
      var roster := Without(candidates, target);
      ghost var kept := roster;
      var i := 0;
      while i < |roster|
        invariant 0 <= i <= |roster| == |kept|
        invariant roster[..i] == Renumbered(kept)[..i]
        invariant roster[i..] == kept[i..]
      {
        assert roster[i] == kept[i];
        roster := roster[i := roster[i].(id := i + 1)];
        i := i + 1;
      }
      assert roster == Renumbered(kept);
      RenumberedIsNumbered(kept);
      if 1 <= target <= |candidates| {
        RemoveAndRenumber(candidates, target);
      } else {
        WithoutOutOfRange(candidates, target);
      }
      if roster == [] {
        roster := DEMO_CANDIDATES;
      }
      candidates := roster;
    }

    /**
     * Registration of the name typed in (stripped of surrounding whitespace) with a date of birth,
     * on `today`, with the key pair generated for the new voter.
     */
    method Register(rawName: string, dob: Date, today: Date, privateKey: string, publicKey: string)
      returns (outcome: Registration.Outcome)
      requires Valid()
      modifies this
      ensures Valid()
      ensures outcome == Registration.Decide(old(voters), Registration.Strip(rawName), dob, today)
      ensures candidates == old(candidates)
      ensures voters == if outcome.Registered?
        then old(voters) + [Voter(Registration.Strip(rawName), dob, privateKey, publicKey, false)]
        else old(voters)
    {
      var name := Registration.Strip(rawName);
      outcome := Registration.Decide(voters, name, dob, today);
      if outcome.Registered? {
        var v := Voter(name, dob, privateKey, publicKey, false);
        Registration.RegisteredKeepsDistinct(voters, v, today);
        voters := voters + [v];
      }
    }

    /** The credential search: the first registered voter holding both keys, if any. */
    method FindVoter(publicKey: string, privateKey: string) returns (found: Option<nat>)
      ensures found.Some? ==> found.value < |voters| && Holds(voters[found.value], publicKey, privateKey)
      ensures found.Some? ==> forall k | 0 <= k < found.value :: !Holds(voters[k], publicKey, privateKey)
      ensures found.None? ==> forall k | 0 <= k < |voters| :: !Holds(voters[k], publicKey, privateKey)
    {
      found := None;
      var i := 0;
      while i < |voters|
        invariant 0 <= i <= |voters|
        invariant forall k | 0 <= k < i :: !Holds(voters[k], publicKey, privateKey)
      {
        if voters[i].publicKey == publicKey && voters[i].privateKey == privateKey {
          found := Some(i);
          break;
        }
        i := i + 1;
      }
    }

    /**
     * The embedded ledger's `add_vote`, with the roster taken from the session: the ballot is
     * admitted and mined exactly as `Admission` decides.
     */
    method SubmitVote(vote: Vote, now: string) returns (verdict: Verdict)
      requires Valid()
      modifies ledger
      ensures Valid()
      ensures ledger.isVotingActive == old(ledger.isVotingActive)
      ensures verdict == Admission(ledger.isVotingActive, ChainVotes(old(ledger.chain)), vote, candidates)
      ensures verdict.Rejected? ==> ledger.chain == old(ledger.chain)
      ensures ChainVotes(ledger.chain) == ChainVotes(old(ledger.chain)) + (if verdict.Accepted? then [vote] else [])
    {
      ghost var before := ChainVotes(ledger.chain);
      verdict := ledger.AddVote(vote, candidates, now);
      assert before <= ChainVotes(ledger.chain);
      forall i | 0 <= i < |voters| && voters[i].hasVoted
        ensures Cast(ChainVotes(ledger.chain), voters[i].publicKey)
      {
        var k :| 0 <= k < |before| && before[k].publicKey == voters[i].publicKey;
        assert ChainVotes(ledger.chain)[k] == before[k];
      }
    }

    /**
     * The embedded ledger's `get_vote_counts` over the session roster: one entry per candidate id,
     * each the number of ballots on the chain for that id, and a total that is the sum of the
     * entries.
     */
    method Tally() returns (counts: map<int, nat>, total: nat)
      requires Valid()
      ensures counts.Keys == IdSet(candidates)
      ensures forall i | 0 <= i < |candidates| :: counts[candidates[i].id] == Count(ChainVotes(ledger.chain), i + 1)
      ensures total == SumCounts(ChainVotes(ledger.chain), IdList(candidates))
    {
      counts, total := ledger.GetVoteCounts(candidates);
      NumberedIdsDistinct(candidates);
      TotalIsSumOfCounts(ChainVotes(ledger.chain), IdList(candidates));
      forall i | 0 <= i < |candidates| ensures candidates[i].id in counts {
        assert candidates[i] in candidates;
      }
    }

    /**
     * The voting booth: refused while voting is off or the roster is empty; otherwise the selected
     * name is mapped to its id, the credentials to the first matching voter, and the ballot goes to
     * the ledger. Only an admitted ballot marks its voter as having voted.
     */
    method VotingBooth(publicKey: string, privateKey: string, selectedName: string, castAt: string, minedAt: string)
      returns (outcome: BoothOutcome)
      requires Valid()
      requires candidates == [] || selectedName in Names(candidates)
      modifies this, ledger
      ensures Valid()
      ensures candidates == old(candidates)
      ensures outcome.Inactive? <==> old(!ledger.isVotingActive)
      ensures outcome.NoCandidates? <==> old(ledger.isVotingActive) && candidates == []
      ensures outcome.InvalidCredentials? <==>
        && old(ledger.isVotingActive) && candidates != []
        && forall k | 0 <= k < |old(voters)| :: !Holds(old(voters)[k], publicKey, privateKey)
      ensures outcome.Submitted? ==>
        && outcome.voter < |old(voters)| && Holds(old(voters)[outcome.voter], publicKey, privateKey)
        && (forall k | 0 <= k < outcome.voter :: !Holds(old(voters)[k], publicKey, privateKey))
        && var vote := Vote(publicKey, IdForName(candidates, selectedName).value, castAt);
           outcome.verdict == Admission(true, ChainVotes(old(ledger.chain)), vote, candidates)
      ensures outcome.Submitted? && old(voters)[outcome.voter].hasVoted ==> outcome.verdict == Rejected(DoubleVote)
      ensures voters == if outcome.Submitted? && outcome.verdict.Accepted?
        then old(voters)[outcome.voter := old(voters)[outcome.voter].(hasVoted := true)]
        else old(voters)
      ensures ledger.isVotingActive == old(ledger.isVotingActive)
      ensures !(outcome.Submitted? && outcome.verdict.Accepted?) ==> ledger.chain == old(ledger.chain)
      ensures outcome.Submitted? && outcome.verdict.Accepted? ==>
        ChainVotes(ledger.chain) ==
          ChainVotes(old(ledger.chain)) + [Vote(publicKey, IdForName(candidates, selectedName).value, castAt)]
    {
      if !ledger.isVotingActive {
        return Inactive;
      }
      if candidates == [] {
        return NoCandidates;
      }
      IdForNameOnRoster(candidates, selectedName);
      var selectedId := IdForName(candidates, selectedName).value;
      var found := FindVoter(publicKey, privateKey);
      if found.None? {
        return InvalidCredentials;
      }
      var vote := Vote(publicKey, selectedId, castAt);
      var verdict := CastBallot(found.value, vote, minedAt);
      outcome := Submitted(found.value, verdict);
    }

    /**
     * The booth's last step for the voter at position `i`: the ballot goes to the ledger, and only
     * if the ledger admits it is the voter marked as having voted. A voter already marked is
     * refused as a double vote.
     */
    method CastBallot(i: nat, vote: Vote, minedAt: string) returns (verdict: Verdict)
      requires Valid() && i < |voters| && voters[i].publicKey == vote.publicKey
      modifies this, ledger
      ensures Valid()
      ensures candidates == old(candidates) && ledger.isVotingActive == old(ledger.isVotingActive)
      ensures verdict == Admission(ledger.isVotingActive, ChainVotes(old(ledger.chain)), vote, candidates)
      ensures old(voters)[i].hasVoted ==>
        verdict == Rejected(if ledger.isVotingActive then DoubleVote else VotingNotActive)
      ensures voters == if verdict.Accepted? then old(voters)[i := old(voters)[i].(hasVoted := true)] else old(voters)
      ensures verdict.Rejected? ==> ledger.chain == old(ledger.chain)
      ensures ChainVotes(ledger.chain) == ChainVotes(old(ledger.chain)) + (if verdict.Accepted? then [vote] else [])
    {
      if voters[i].hasVoted {
        assert Cast(ChainVotes(ledger.chain), vote.publicKey);
      }
      verdict := SubmitVote(vote, minedAt);
      if verdict.Accepted? {
        assert ChainVotes(ledger.chain)[|ChainVotes(ledger.chain)| - 1] == vote;
        voters := voters[i := voters[i].(hasVoted := true)];
      }
    }
  }
}

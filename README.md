# Vote ledger: a Dafny model

This project models the core of a small blockchain voting application. The core is an in-memory
ledger of hash-linked blocks (`blockchain.py`, copied into `voting_app.py`). The voting application
adds its rules around that ledger: voter registration, the candidate roster and the voting booth
(`voting_app.py`).

**Ledger.** A `Block` carries an index, a timestamp, its data, the previous block's digest, a nonce
and its own digest. Mining raises the nonce until the digest starts with `difficulty` zero
characters. A `Blockchain` starts with a genesis block and keeps a pool of pending ballots and a
voting flag. A ballot is admitted in three checks, and the first that fails decides:

1. voting must be on;
2. the voter's public key must not already be on the chain (double vote);
3. the candidate id must be on the roster.

An admitted ballot is mined at once into a block of its own. The tally counts the chain's ballots
per roster id.

**Application.** The session holds:

- the ledger;
- the register of voters, each with name, date of birth, key pair and a has-voted mark;
- the roster of candidates, numbered 1..n.

It enforces these rules:

- The host starts and ends the election.
- Candidates can be added (at most 10, name and party required) and removed only while voting is
  off. A removal renumbers the survivors 1..n. The rerun that follows a removal re-seeds an empty
  roster with the two demonstration candidates, so the roster is never left empty.
- Registration strips the name. It is refused when:
  - 100 voters are registered;
  - the applicant is under 18;
  - someone with the same name (ignoring case) and date of birth is registered.
- The booth maps the chosen candidate name to an id and finds the first voter holding both keys.
  It then submits the ballot. Only an admitted ballot marks the voter as having voted.

**How it is modelled.**

- The digest (SHA-256) is a function parameter `Hasher` of the five hashed fields, left
  uninterpreted.
- Clock readings and generated keys are parameters.
- Blocks, the ledger and the session are classes whose methods change their fields as the source
  does. Ballots, candidates and voters are values.
- The chain invariant `Linked` holds for every ledger operation:
  - a genesis block first;
  - every block at its index, carrying the digest of its fields;
  - every later block linked to its predecessor's digest and meeting the difficulty.
- The ledger invariant `Valid` adds an empty pool and no public key on two ballots.
- The session invariant adds four facts to the ledger's:
  - the roster is numbered 1..n and holds at most 10 candidates;
  - the register holds at most 100 voters;
  - no two voters share a name (ignoring case) and a date of birth;
  - every voter marked as having voted has a ballot on the chain.
- The mining loop terminates under an explicit hypothesis (`PowFeasible`): from any nonce upward,
  some nonce seals the block.
- The admission order follows the code: the double-vote scan comes before the candidate check.
- One quirk is stated rather than fixed. Removing a candidate renumbers the survivors while the
  ballots on the chain keep their old ids. A later tally therefore credits each survivor after the
  removed one with its predecessor's ballots: the removed candidate's ballots go to its successor,
  and the ballots for the old last id stop being counted (`RenumberingShiftsCredit`).
  When the last candidate is removed, the re-seeded demonstration candidates take ids 1 and 2, and
  any earlier ballots for those ids are credited to them.

## Model

| member | source | states |
|---|---|---|
| `Blocks.Block.constructor` | blockchain.py:8-14 | a new block holds the given fields, nonce 0, and the digest of its own five fields |
| `Blocks.Block.CalculateHash` | blockchain.py:16-19 | the digest of the block's five hashed fields under the block's digest function; `Blocks.HashDeterministic` states what it depends on |
| `Blocks.HashDeterministic` | blockchain.py:16-19 | blocks with equal index, timestamp, data, previous hash and nonce (and the same digest function) have equal digests |
| `Blocks.LeadingZerosMeaning` | blockchain.py:23-24 | the miner's target test passes exactly when the digest has at least d characters and its first d are all '0' |
| `Blocks.ZeroDifficultyAlwaysMet` | blockchain.py:23-24 | at difficulty 0 every digest already meets the target |
| `Blocks.Block.MineBlock` | blockchain.py:21-26 | on exit the stored digest is the digest of the current fields and meets the target; the nonce only grew, and no nonce between the start and the final one seals the block; only nonce and digest change; at difficulty 0, or when the digest already met the target, neither changes |
| `Ledger.Blockchain.constructor` | blockchain.py:31-36 | a chain holding only a genesis block and no ballots, digest function as given, difficulty 2, voting off, empty pool; the ledger invariant holds |
| `Ledger.Blockchain.CreateGenesisBlock` | blockchain.py:38-40 | appends one fresh block with index 0, text data "Genesis Block", link "0", nonce 0 and the digest of its fields; nothing else changes |
| `Ledger.Blockchain.GetLatestBlock` | blockchain.py:42-44 | the block returned is on the chain, and on a linked chain its index is the chain length minus one |
| `Ledger.Blockchain.MinePendingVotes` | blockchain.py:61-75 | with an empty pool nothing changes; otherwise exactly one fresh block is appended with index = old length, link = old last block's digest and data = the old pool mined by "AutoMiner"; the pool is empty afterwards; the chain invariant is kept and the chain's ballots are the old ones followed by the old pool |
| `Ledger.Blockchain.SealNewBlock` | blockchain.py:66-72 | the block built for the pool is fresh, sits at the next index, links to the latest digest and is sealed at the ledger's difficulty; no existing object changes |
| `Ledger.Blockchain.ValidateVoteData` | blockchain.py:77-95 | the verdict is a double vote exactly when the public key is on some ballot of the chain, otherwise an unknown candidate exactly when the id is not on the roster, otherwise acceptance; the chain is not changed |
| `Ledger.Blockchain.AddVote` | blockchain.py:46-59 | the verdict follows the order inactive, double vote, unknown candidate; a rejection leaves the chain unchanged; an acceptance appends exactly one fresh block whose ballots are [vote]; the ledger invariant, including "no public key on two ballots", is kept |
| `Ledger.Blockchain.GetVoteCounts` | blockchain.py:97-108 | the keys are exactly the roster ids; each entry is the number of ballots on the chain for that id; the total counts the ballots whose id is on the roster and ignores the others; the chain is not changed |
| `Ledger.CountBallots` | blockchain.py:103-107 | the inner tally loop turns the tally of the ballots seen so far into the tally of those ballots followed by one block's ballots |
| `Votes.ChainVotes` | blockchain.py:83-86 | every ballot on the chain, block by block in chain order; text blocks contribute none |
| `Votes.ChainVotesStep` | blockchain.py:101-103 | the ballots of the first k+1 blocks are those of the first k followed by block k's |
| `Votes.ChainVotesAppend` | blockchain.py:74 | appending a block appends exactly its ballots to the chain's ballots |
| `Votes.ChainVotesPrefix` | blockchain.py:83-85 | the ballots of a prefix of the chain are a prefix of the chain's ballots |
| `Votes.NotCastStep` | blockchain.py:85-86 | scanning a ballot with another key keeps the voter's key unseen |
| `Votes.CastInPrefix` | blockchain.py:83-88 | a key found in the first k blocks is on the chain |
| `Votes.Screen` | blockchain.py:77-95 | the verdict of `validate_vote_data`: a double vote when the key is among the ballots, else an unknown candidate when the id is off the roster, else acceptance; `Ledger.Blockchain.ValidateVoteData` is proved to compute it |
| `Votes.Admission` | blockchain.py:46-53 | the verdict of `add_vote`: refused while voting is off, otherwise the screening verdict; `Votes.AdmissionAccepts` states when it accepts |
| `Votes.AdmissionAccepts` | blockchain.py:46-53 | a ballot is admitted exactly when voting is on, no ballot carries its key and some roster candidate has its id |
| `Votes.AdmittedKeepsVotersDistinct` | blockchain.py:55-59 | appending an admitted ballot keeps every public key on at most one ballot |
| `Votes.SecondVoteRejected` | blockchain.py:83-88 | once a key is on the chain, any later ballot with that key is refused as a double vote, whatever its candidate |
| `Votes.Count` | blockchain.py:104-106 | a candidate's count never exceeds the number of ballots, and it is zero exactly when no ballot names that id |
| `Votes.CountIn` | blockchain.py:105-107 | the total never exceeds the number of ballots, and it is zero exactly when no ballot names a roster id |
| `Votes.TallyOf` | blockchain.py:99-107 | the `counts` dictionary the loop builds: every roster id mapped to the number of ballots naming it; its loop step is `Votes.TallyStep` |
| `Votes.OffRosterBallotsIgnored` | blockchain.py:105-107 | ballots whose id is not on the roster change neither any tally entry nor the total, however many arrive |
| `Votes.TallyStep` | blockchain.py:104-107 | one more ballot adds one to its candidate's entry and to the total when its id is a key, and changes nothing otherwise |
| `Votes.CountInExtend` | blockchain.py:105-107 | one more ballot raises the total by one exactly when its id is on the roster |
| `Votes.CountExtend` | blockchain.py:105-106 | one more ballot raises a candidate's count by one exactly when it names that candidate |
| `Votes.SumCountsExtend` | blockchain.py:105-107 | with distinct ids, one more ballot raises the sum of the counts by one exactly when its id is listed |
| `Votes.TotalIsSumOfCounts` | blockchain.py:97-108 | with distinct roster ids, the total equals the sum of the per-candidate counts |
| `Votes.SumCountsOfNoVotes` | blockchain.py:99 | with no ballots every count, and so their sum, is zero |
| `Ledger.FirstElection` | blockchain.py:46-108 | on a fresh ledger with voting on and a two-candidate roster, a first ballot for id 1 is admitted; the counts are {1: 1, 2: 0} with total 1; a second ballot with the same key is refused as a double vote and the chain keeps its two blocks |
| `Votes.OneVoterScenario` | blockchain.py:46-108 | in a two-candidate election with no ballots, a first ballot for id 1 is admitted; the tally is {1: 1, 2: 0} with total 1; a second ballot with the same key is a double vote |
| `Roster.IdSet` | blockchain.py:91 | the set of ids on the roster, against which a ballot's candidate id is checked; `Roster.NumberedIds` says which ids it holds |
| `Roster.IdList` | blockchain.py:91 | the roster's ids in roster order, one per candidate |
| `Roster.NumberedIds` | voting_app.py:235 | on a roster numbered 1..n, an id is on the roster exactly when it lies in 1..n |
| `Roster.LastNamed` | voting_app.py:380 | the position of the last candidate with the name, with no later candidate so named, or -1 |
| `Roster.IdForName` | voting_app.py:380-386 | the lookup fails exactly when no candidate has the name; otherwise it yields the id of the last candidate with that name |
| `Roster.IdForNameOnRoster` | voting_app.py:380-386 | the lookup succeeds exactly for names on the roster and always yields an id on the roster |
| `Roster.Without` | voting_app.py:254 | the filtered roster is never longer than the roster |
| `Roster.WithoutMembers` | voting_app.py:254 | the filtered roster holds exactly the candidates whose id differs from the target |
| `Roster.WithoutConcat` | voting_app.py:254 | filtering distributes over concatenation |
| `Roster.WithoutAbsent` | voting_app.py:254 | filtering an id nobody holds changes nothing |
| `Roster.WithoutOnNumbered` | voting_app.py:254 | on a roster numbered 1..n, removing id t in 1..n drops exactly position t-1 and keeps the order of the rest |
| `Roster.WithoutOutOfRange` | voting_app.py:254 | on a roster numbered 1..n, removing an id outside 1..n changes nothing |
| `Roster.Renumbered` | voting_app.py:256-257 | the roster with the candidate at position i given id i+1; `Roster.RenumberedIsNumbered` states its meaning |
| `Roster.RenumberedIsNumbered` | voting_app.py:256-257 | renumbering keeps every candidate's name and party in place and numbers the roster 1..n |
| `Roster.RemoveAndRenumber` | voting_app.py:253-257 | removing id t from a roster numbered 1..n and renumbering leaves n-1 candidates numbered 1..n-1: those before t unchanged, those after t moved up one place |
| `Registration.LeadingSpaces` | voting_app.py:328 | the count of leading whitespace characters: all of them whitespace, and the next one is not |
| `Registration.TrailingSpaces` | voting_app.py:328 | the count of trailing whitespace characters: all of them whitespace, and the one before is not |
| `Registration.Strip` | voting_app.py:328 | the name without leading and trailing whitespace; `Registration.StripMeaning` states its meaning |
| `Registration.StripMeaning` | voting_app.py:328 | the stripped name is a slice of the input; only whitespace was cut on either side, and it neither starts nor ends with whitespace |
| `Registration.StripIdempotent` | voting_app.py:328 | stripping a stripped name changes nothing |
| `Registration.LowerMeaning` | voting_app.py:343 | lower-casing keeps the length, maps every upper-case letter to its lower-case partner, leaves no upper-case letter and is idempotent |
| `Registration.Lower` | voting_app.py:343 | the name lower-cased, ASCII letters only; `Registration.LowerMeaning` states its meaning |
| `Registration.Age` | voting_app.py:336 | the age in whole years: the difference of the years, less one while this year's birthday is still ahead |
| `Registration.AgeAtLeast` | voting_app.py:335-337 | the computed age is at least n exactly when the n-th birthday is not after today |
| `Registration.AgeMonotone` | voting_app.py:336 | a later day never gives a smaller age |
| `Registration.Decide` | voting_app.py:323-348 | the registration outcome: closed at 100 voters, then underage, then duplicate, else registered; `Registration.RegisteredKeepsDistinct` and `Registration.DuplicateRefused` state what it guarantees |
| `Registration.IsDuplicate` | voting_app.py:342-345 | true exactly when some registered voter has the same name ignoring case and the same date of birth |
| `Registration.RegisteredKeepsDistinct` | voting_app.py:323-352 | an accepted registration comes from an applicant whose 18th birthday has passed; appending the voter keeps name and date-of-birth pairs distinct and the register within 100 |
| `Registration.DuplicateRefused` | voting_app.py:342-348 | an applicant whose name (ignoring case) and date of birth are already registered is never registered |
| `VotingApp.CandidateDecision` | voting_app.py:222-236 | a candidate is added exactly when voting is off, fewer than 10 candidates exist and name and party are non-empty; the new id is the roster length plus one |
| `VotingApp.AppendKeepsNumbered` | voting_app.py:235-236 | appending a candidate with id n+1 to a roster numbered 1..n keeps it numbered |
| `VotingApp.NumberedIdsDistinct` | voting_app.py:254-257 | the ids of a roster numbered 1..n are distinct and are its id set |
| `VotingApp.RenumberingShiftsCredit` | voting_app.py:254-257 | after removing candidate t < n and renumbering, each later survivor keeps its name and party but is credited with the ballots cast for its old predecessor, and the old last id has no tally entry |
| `VotingApp.Session.constructor` | voting_app.py:140-161 | a fresh ledger over the given digest function, with difficulty 2, a genesis block stamped with the given time and voting off; the voter Alice Smith (1985-05-15), the candidates John Doe (1) and Jane Ray (2); the session invariant holds |
| `VotingApp.Session.StartVoting` | voting_app.py:195-199 | voting is on afterwards; only the flag may change |
| `VotingApp.Session.EndVoting` | voting_app.py:204-208 | voting is off afterwards; only the flag may change |
| `VotingApp.Session.AddCandidate` | voting_app.py:222-237 | the outcome is the decision above; only an addition changes the roster, by appending the candidate with id length+1; the roster stays numbered and within its cap |
| `VotingApp.Reseeded` | voting_app.py:159-161 | an empty roster becomes the two demonstration candidates; any other roster stays as it is |
| `VotingApp.Session.RemoveCandidate` | voting_app.py:248-259 | while voting is on nothing changes; otherwise the roster becomes the survivors renumbered 1..n, re-seeded with the demonstration candidates when none survive, so it is never empty; the voters are untouched |
| `VotingApp.Session.Register` | voting_app.py:319-352 | the outcome follows the order capacity, age, duplicate; only an accepted registration appends a voter, with the stripped name, not yet voted; the register stays distinct and within 100 |
| `VotingApp.Session.FindVoter` | voting_app.py:389-398 | returns the first voter holding both keys, or none when no voter holds both |
| `VotingApp.Session.SubmitVote` | voting_app.py:57-106 | the embedded ledger's admission against the session roster: the verdict, the chain's ballots and the session invariant as for the ledger |
| `VotingApp.Session.Tally` | voting_app.py:108-119 | one entry per roster id, the entry for position i counting the ballots for id i+1; the total is the sum of the entries |
| `VotingApp.Session.VotingBooth` | voting_app.py:361-412 | the answer is "inactive" exactly when voting is off, and "no candidates" exactly when voting is on and the roster is empty; then credentials are checked; the ballot uses the first matching voter and the id of the chosen name; a voter already marked is refused as a double vote; only an admitted ballot marks the voter, and it extends the chain's ballots by exactly that ballot; the voting flag is unchanged |
| `VotingApp.Session.CastBallot` | voting_app.py:402-410 | the ballot's verdict is the ledger's admission; the voter is marked as having voted exactly when it is accepted; an accepted ballot is appended to the chain's ballots and a rejection leaves the chain unchanged |

## Left out

- The Streamlit interface is not modelled: pages, tabs, navigation, messages, the host password
  login (voting_app.py:165-181), the voter database and private-key tabs including voter removal
  (voting_app.py:263-317), and the results and ledger views (voting_app.py:414-593).
  Messages are modelled as outcome values.
- The percentages in the results table (voting_app.py:438) are floating point and are not modelled.
- SHA-256 is not modelled. The digest is an uninterpreted function of the five hashed fields;
  the string rendering of the fields that feeds it is part of that function.
- Termination of the mining loop is not proved outright. It rests on the hypothesis
  `PowFeasible`, which the ledger and session constructors require and which the chain invariant
  carries.
- Wall-clock readings are parameters: the block timestamps, the ballot timestamp and today's
  date. The ballot's timestamp and the mining timestamp are separate readings.
- Key generation (`secrets.token_hex` and SHA-256 of the private key) is not modelled; keys are
  parameters.
- wallet.py (elliptic-curve keys and signatures), data_models.py (constants and records) and
  database.py (an empty table) are not part of this model. No signature is checked anywhere in
  the ledger code.
- Registration.Lower, Registration.LowerMeaning: fold only the ASCII letters A-Z, whereas Python's `str.lower` also folds
  other alphabets, so the case-insensitive duplicate test is modelled for ASCII names only.
- Dates of birth are calendar dates, not `YYYY-MM-DD` strings. Equal strings are equal dates for
  four-digit years. The date picker's bounds (1900-01-01 to today) and the 100-character limit on
  the name field are not modelled.
- VotingApp.Session.VotingBooth: requires the chosen name to be on a non-empty roster, because
  the radio widget only offers roster names and preselects the first. The source's path where
  the lookup yields no id is therefore not modelled.
- Roster.Without: its own contract only bounds the length. Which candidates survive is stated
  by `Roster.WithoutMembers` and `Roster.WithoutOnNumbered`.
- The inner loop of `get_vote_counts` is a separate method (`Ledger.CountBallots`) called once
  per block that has ballots. The counting is the same.
- A block's text data never holds ballots. The only text block is the genesis block, and
  "Genesis Block" does not contain "votes". Every ballot has a public key and a candidate id, so
  the source's `.get` on a missing field is not modelled.
- The start-up also re-seeds an empty register with a fresh Alice Smith. The register only empties
  through voter removal, which is not modelled, so this re-seed is not modelled either.
- Python object identity is not modelled. Voters and candidates are values in the session's
  sequences, since each object is reachable only through its list.
- Persistence, reload, reset, a chain `validate()` and concurrency are not modelled; the code
  has none of them. Chain validity is the ghost predicate `Linked`.

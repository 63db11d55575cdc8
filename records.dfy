/** Plain records shared by the ledger and the voting application. */
module Records {

  /** Maximum number of candidates the host may register. */
  const MAX_CANDIDATES: nat := 10

  /** Maximum number of voters that may register. */
  const MAX_VOTERS: nat := 100

  datatype Option<T> = None | Some(value: T)

  /** A ballot as the voting booth builds it: who voted (public key), for whom, and when. */
  datatype Vote = Vote(publicKey: string, candidateId: int, timestamp: string)

  /** A candidate on the roster; `id` is the number voters' ballots refer to. */
  datatype Candidate = Candidate(name: string, party: string, id: int)

  /** A calendar date; `dob.strftime("%Y-%m-%d")` is represented by the date itself. */
  datatype Date = Date(year: int, month: int, day: int)

  /** A registered voter with the key pair handed out at registration. */
  datatype Voter = Voter(name: string, dob: Date, privateKey: string, publicKey: string, hasVoted: bool)
}

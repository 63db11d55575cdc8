/** The voter-registration rules: name normalisation, the age test and the uniqueness test. */
module Registration {
  import opened Records

  /** The characters Python's `str.isspace` accepts, which `str.strip()` removes at both ends. */
  predicate IsSpace(c: char) {
    || ('\t' <= c <= '\r')
    || ('\U{1C}' <= c <= ' ')
    || c == '\U{85}' || c == '\U{A0}' || c == '\U{1680}'
    || ('\U{2000}' <= c <= '\U{200A}')
    || c == '\U{2028}' || c == '\U{2029}' || c == '\U{202F}' || c == '\U{205F}' || c == '\U{3000}'
  }

  /** Number of whitespace characters at the start of `s`. */
  function LeadingSpaces(s: string): (n: nat)
    ensures n <= |s|
    ensures forall k | 0 <= k < n :: IsSpace(s[k])
    ensures n < |s| ==> !IsSpace(s[n])
  {
    if s == [] || !IsSpace(s[0]) then 0 else 1 + LeadingSpaces(s[1..])
  }

  /** Number of whitespace characters at the end of `s`. */
  function TrailingSpaces(s: string): (n: nat)
    ensures n <= |s|
    ensures forall k | |s| - n <= k < |s| :: IsSpace(s[k])
    ensures n < |s| ==> !IsSpace(s[|s| - n - 1])
  {
    if s == [] || !IsSpace(s[|s| - 1]) then 0 else 1 + TrailingSpaces(s[..|s| - 1])
  }

  /** `str.strip()`: `s` without its leading and trailing whitespace. */
  function Strip(s: string): string {
    var t := s[LeadingSpaces(s)..];
    t[..|t| - TrailingSpaces(t)]
  }

  /**
   * The stripped name is a slice of the input that neither starts nor ends with whitespace, and
   * only whitespace was cut away on either side.
   */
  lemma StripMeaning(s: string)
    ensures exists i, j | 0 <= i <= j <= |s| ::
      && Strip(s) == s[i..j]
      && (forall k | 0 <= k < i :: IsSpace(s[k]))
      && (forall k | j <= k < |s| :: IsSpace(s[k]))
    ensures Strip(s) != [] ==> !IsSpace(Strip(s)[0]) && !IsSpace(Strip(s)[|Strip(s)| - 1])
  {
    var i := LeadingSpaces(s);
    var t := s[i..];
    var j := i + |t| - TrailingSpaces(t);
    assert Strip(s) == s[i..j];
    forall k | j <= k < |s| ensures IsSpace(s[k]) {
      assert s[k] == t[k - i];
    }
    if Strip(s) != [] {
      assert Strip(s)[0] == t[0];
    }
  }

  /** Stripping twice is stripping once. */
  lemma StripIdempotent(s: string)
    ensures Strip(Strip(s)) == Strip(s)
  {
    StripMeaning(s);
    var r := Strip(s);
    if r != [] {
      assert LeadingSpaces(r) == 0;
      assert r[0..] == r;
      assert TrailingSpaces(r) == 0;
      assert r[..|r|] == r;
    }
  }

  /** `str.lower()` on one character, restricted to the ASCII letters. */
  function LowerChar(c: char): char {
    if 'A' <= c <= 'Z' then (c as int + 32) as char else c
  }

  function Lower(s: string): string {
    seq(|s|, k requires 0 <= k < |s| => LowerChar(s[k]))
  }

  /** Lower-casing is idempotent, keeps the length, and maps upper- and lower-case letters alike. */
  lemma LowerMeaning(s: string)
    ensures |Lower(s)| == |s| && Lower(Lower(s)) == Lower(s)
    ensures forall k | 0 <= k < |s| :: 'A' <= s[k] <= 'Z' ==> Lower(s)[k] == (s[k] as int + 32) as char
    ensures forall k | 0 <= k < |s| :: Lower(s)[k] !in "ABCDEFGHIJKLMNOPQRSTUVWXYZ"
  {
  }

  /** The earlier of two dates, comparing (year, month, day) lexicographically as Python's tuples do. */
  predicate Before(a: Date, b: Date) {
    a.year < b.year || (a.year == b.year && (a.month < b.month || (a.month == b.month && a.day < b.day)))
  }

  /** `(m1, d1) < (m2, d2)` on Python tuples: the lexicographic order on (month, day). */
  predicate MonthDayBefore(m1: int, d1: int, m2: int, d2: int) {
    m1 < m2 || (m1 == m2 && d1 < d2)
  }

  /** Age in whole years: the difference of the years, less one if this year's birthday is still ahead. */
  function Age(dob: Date, today: Date): int {
    today.year - dob.year - (if MonthDayBefore(today.month, today.day, dob.month, dob.day) then 1 else 0)
  }

  /** A voter is at least n years old exactly when their n-th birthday is not after today. */
  lemma AgeAtLeast(dob: Date, today: Date, n: int)
    ensures Age(dob, today) >= n <==> !Before(today, Date(dob.year + n, dob.month, dob.day))
  {
  }

  /** The age only grows as time passes. */
  lemma AgeMonotone(dob: Date, earlier: Date, later: Date)
    requires !Before(later, earlier)
    ensures Age(dob, earlier) <= Age(dob, later)
  {
  }

  const VOTING_AGE: int := 18

  /** Existing voter `v` blocks a registration of `name`, `dob`: same name ignoring case, same date of birth. */
  predicate SameRegistration(v: Voter, name: string, dob: Date) {
    Lower(v.name) == Lower(name) && v.dob == dob
  }

  /** `any(...)` over the voter list, one voter at a time. */
  function IsDuplicate(voters: seq<Voter>, name: string, dob: Date): (r: bool)
    ensures r <==> exists i | 0 <= i < |voters| :: SameRegistration(voters[i], name, dob)
  {
    if voters == [] then false
    else
      assert forall i | 1 <= i < |voters| :: voters[1..][i - 1] == voters[i];
      SameRegistration(voters[0], name, dob) || IsDuplicate(voters[1..], name, dob)
  }

  /** No two registered voters share a case-folded name and a date of birth. */
  predicate DistinctRegistrations(voters: seq<Voter>) {
    forall i, j | 0 <= i < j < |voters| :: !SameRegistration(voters[j], voters[i].name, voters[i].dob)
  }

  datatype Outcome = Closed | Underage | Duplicate | Registered

  /** The registration decision: the capacity check, then the age check, then the uniqueness check. */
  function Decide(voters: seq<Voter>, name: string, dob: Date, today: Date): Outcome {
    if |voters| >= MAX_VOTERS then Closed
    else if Age(dob, today) < VOTING_AGE then Underage
    else if IsDuplicate(voters, name, dob) then Duplicate
    else Registered
  }

  /**
   * An accepted registration comes from an applicant who has turned 18; appending the accepted
   * voter keeps the registrations distinct and the register within its capacity.
   */
  lemma RegisteredKeepsDistinct(voters: seq<Voter>, v: Voter, today: Date)
    requires DistinctRegistrations(voters)
    requires Decide(voters, v.name, v.dob, today) == Registered
    ensures DistinctRegistrations(voters + [v]) && |voters + [v]| <= MAX_VOTERS
    ensures !Before(today, Date(v.dob.year + VOTING_AGE, v.dob.month, v.dob.day))
  {
    AgeAtLeast(v.dob, today, VOTING_AGE);
    var w := voters + [v];
    forall i, j | 0 <= i < j < |w| ensures !SameRegistration(w[j], w[i].name, w[i].dob) {
      if j == |voters| {
        assert !SameRegistration(voters[i], v.name, v.dob);
        assert w[i] == voters[i];
      } else {
        assert w[i] == voters[i] && w[j] == voters[j];
      }
    }
  }

  /** Whatever the applicant's age, a name and date of birth already registered is refused. */
  lemma DuplicateRefused(voters: seq<Voter>, i: nat, name: string, dob: Date, today: Date)
    requires i < |voters| && Lower(voters[i].name) == Lower(name) && voters[i].dob == dob
    ensures Decide(voters, name, dob, today) != Registered
  {
  }
}

/** The candidate roster: ids, name lookup, removal and renumbering. */
module Roster {
  import opened Records

  /** `[c.id for c in candidates]` as a set: the ids a ballot may name. */
  function IdSet(cs: seq<Candidate>): set<int> {
    set c | c in cs :: c.id
  }

  /** `[c.id for c in candidates]`, in roster order. */
  function IdList(cs: seq<Candidate>): (ids: seq<int>)
    ensures |ids| == |cs| && forall i | 0 <= i < |cs| :: ids[i] == cs[i].id
  {
    if cs == [] then [] else IdList(cs[..|cs| - 1]) + [cs[|cs| - 1].id]
  }

  function Names(cs: seq<Candidate>): set<string> {
    set c | c in cs :: c.name
  }

  /** The roster invariant of the application: the i-th candidate has id i + 1. */
  predicate Numbered(cs: seq<Candidate>) {
    forall i | 0 <= i < |cs| :: cs[i].id == i + 1
  }

  lemma NumberedIds(cs: seq<Candidate>, id: int)
    requires Numbered(cs)
    ensures id in IdSet(cs) <==> 1 <= id <= |cs|
  {
    if 1 <= id <= |cs| {
      assert cs[id - 1] in cs;
    }
  }

  /** Position of the last candidate named `name`, or -1 if there is none. */
  function LastNamed(cs: seq<Candidate>, name: string): (k: int)
    ensures -1 <= k < |cs|
    ensures k >= 0 ==> cs[k].name == name
    ensures forall j | k < j < |cs| :: cs[j].name != name
  {
    if cs == [] then -1
    else if cs[|cs| - 1].name == name then |cs| - 1
    else LastNamed(cs[..|cs| - 1], name)
  }

  /**
   * `{c.name: c.id for c in candidates}.get(name)`: later entries overwrite earlier ones, so a
   * name held by several candidates selects the id of the last of them.
   */
  function IdForName(cs: seq<Candidate>, name: string): (r: Option<int>)
    ensures r.None? <==> forall i | 0 <= i < |cs| :: cs[i].name != name
    ensures r.Some? ==> exists i | 0 <= i < |cs| ::
      && cs[i].name == name && cs[i].id == r.value
      && forall j | i < j < |cs| :: cs[j].name != name
  {
    var k := LastNamed(cs, name);
    if k < 0 then None else Some(cs[k].id)
  }

  /** A name lookup succeeds exactly for the names on the roster, and yields an id on the roster. */
  lemma IdForNameOnRoster(cs: seq<Candidate>, name: string)
    ensures IdForName(cs, name).None? <==> name !in Names(cs)
    ensures IdForName(cs, name).Some? ==> IdForName(cs, name).value in IdSet(cs)
  {
    if name in Names(cs) {
      var c :| c in cs && c.name == name;
    }
    if IdForName(cs, name).Some? {
      var i :| 0 <= i < |cs| && cs[i].name == name && cs[i].id == IdForName(cs, name).value;
      assert cs[i] in cs;
    }
  }

  /** `[c for c in candidates if c.id != target]`. */
  function Without(cs: seq<Candidate>, target: int): (r: seq<Candidate>)
    ensures |r| <= |cs|
  {
    if cs == [] then []
    else if cs[0].id == target then Without(cs[1..], target)
    else [cs[0]] + Without(cs[1..], target)
  }

  /** The roster after `c.id = i + 1` for every position i: same candidates, ids 1..n. */
  function Renumbered(cs: seq<Candidate>): seq<Candidate> {
    seq(|cs|, i requires 0 <= i < |cs| => cs[i].(id := i + 1))
  }

  lemma RenumberedIsNumbered(cs: seq<Candidate>)
    ensures |Renumbered(cs)| == |cs| && Numbered(Renumbered(cs))
    ensures forall i | 0 <= i < |cs| ::
      Renumbered(cs)[i].name == cs[i].name && Renumbered(cs)[i].party == cs[i].party
  {
  }

  /** The survivors of a removal: exactly the candidates whose id is not the target. */
  lemma {:induction false} WithoutMembers(cs: seq<Candidate>, target: int)
    ensures forall c | c in Without(cs, target) :: c in cs && c.id != target
    ensures forall c | c in cs && c.id != target :: c in Without(cs, target)
  {
    if cs != [] {
      WithoutMembers(cs[1..], target);
      assert forall c | c in cs :: c == cs[0] || c in cs[1..];
    }
  }

  /** Removal distributes over concatenation. */
  lemma {:induction false} WithoutConcat(a: seq<Candidate>, b: seq<Candidate>, target: int)
    ensures Without(a + b, target) == Without(a, target) + Without(b, target)
  {
    if a == [] {
      assert a + b == b;
    } else {
      assert (a + b)[0] == a[0] && (a + b)[1..] == a[1..] + b;
      WithoutConcat(a[1..], b, target);
    }
  }

  /** Removing an id no candidate holds changes nothing. */
  lemma {:induction false} WithoutAbsent(cs: seq<Candidate>, target: int)
    requires forall i | 0 <= i < |cs| :: cs[i].id != target
    ensures Without(cs, target) == cs
  {
    if cs != [] {
      WithoutAbsent(cs[1..], target);
      assert [cs[0]] + cs[1..] == cs;
    }
  }

  /**
   * On a roster numbered 1..n, removing id t drops exactly the candidate at position t - 1 and
   * keeps the others in their order.
   */
  lemma WithoutOnNumbered(cs: seq<Candidate>, t: int)
    requires Numbered(cs)
    requires 1 <= t <= |cs|
    ensures Without(cs, t) == cs[..t - 1] + cs[t..]
  {
    var front, mid, back := cs[..t - 1], [cs[t - 1]], cs[t..];
    assert cs == front + mid + back;
    assert forall i | 0 <= i < |front| :: front[i].id != t by {
      forall i | 0 <= i < |front| ensures front[i].id != t {
        assert front[i] == cs[i];
      }
    }
    assert forall i | 0 <= i < |back| :: back[i].id != t by {
      forall i | 0 <= i < |back| ensures back[i].id != t {
        assert back[i] == cs[t + i];
      }
    }
    WithoutAbsent(front, t);
    WithoutAbsent(back, t);
    assert Without(mid, t) == [];
    WithoutConcat(front, mid, t);
    WithoutConcat(front + mid, back, t);
    assert front + [] == front;
  }

  /** On a roster numbered 1..n, removing an id outside 1..n removes nothing. */
  lemma WithoutOutOfRange(cs: seq<Candidate>, t: int)
    requires Numbered(cs)
    requires !(1 <= t <= |cs|)
    ensures Without(cs, t) == cs
  {
    WithoutAbsent(cs, t);
  }

  /**
   * Removing candidate t from a roster numbered 1..n and renumbering yields n - 1 candidates,
   * numbered 1..n-1, in the survivors' original order.
   */
  lemma RemoveAndRenumber(cs: seq<Candidate>, t: int)
    requires Numbered(cs)
    requires 1 <= t <= |cs|
    ensures var r := Renumbered(Without(cs, t));
      && |r| == |cs| - 1 && Numbered(r)
      && (forall i | 0 <= i < t - 1 :: r[i] == cs[i])
      && (forall i | t - 1 <= i < |r| :: r[i] == cs[i + 1].(id := i + 1))
  {
    WithoutOnNumbered(cs, t);
    var w := Without(cs, t);
    assert |w| == |cs| - 1;
    forall i | 0 <= i < |w| ensures w[i] == if i < t - 1 then cs[i] else cs[i + 1] {
    }
    RenumberedIsNumbered(w);
  }
}

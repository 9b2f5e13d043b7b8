/**
  The class-level queries of a token-owning model: `find_token`, `find_by_token`
  and `find_by_valid_token`. Each is a read of the table and changes nothing.
 */
module Lookup {
  import opened Wrappers
  import opened TokenModel

  /** The `tokenizable_id` key of a query: absent, or present with an id (None is
      the `nil` id of an unsaved owner, which no stored row carries). */
  datatype IdFilter = AnyOwner | OwnerIdIs(id: Option<int>)

  /** The `:name`, `:token` and `:tokenizable_id` keys of a query. */
  datatype Criteria = Criteria(name: string, value: string, ownerId: IdFilter)

  /** The two call forms of `find_token`: `(name, value)` or one options hash. */
  datatype FindArgs = Positional(name: string, value: string) | Keyed(criteria: Criteria)

  /** The criteria the call queries with:  the positional form builds a hash from
      its two arguments, the hash form uses the caller's hash as it is. */
  function CriteriaOf(args: FindArgs): Criteria
  {
    match args
    case Positional(name, value) => Criteria(name, value, AnyOwner)
    case Keyed(c) => c
  }

  predicate IdMatches(f: IdFilter, id: int)
  {
    f.AnyOwner? || f.id == Some(id)
  }

  /** The row satisfies the query of class `ownerType` with criteria `c`. */
  predicate Matches(t: Token, ownerType: string, c: Criteria)
  {
    t.ownerType == ownerType && t.name == c.name && t.value == c.value && IdMatches(c.ownerId, t.ownerId)
  }

  /** Class-level `find_token`: some row of this owner class with the given name and
      value (and owner id, when asked), or None when no row matches. Which of several
      matching rows comes back is the table's order; the model takes the first. */
  function FindToken(rows: seq<Token>, ownerType: string, args: FindArgs): (r: Option<Token>)
    ensures r.None? <==> forall i | 0 <= i < |rows| :: !Matches(rows[i], ownerType, CriteriaOf(args))
    ensures r.Some? ==> r.value in rows && Matches(r.value, ownerType, CriteriaOf(args))
  {
    if rows == [] then None
    else if Matches(rows[0], ownerType, CriteriaOf(args)) then Some(rows[0])
    else
      var r := FindToken(rows[1..], ownerType, args);
      assert forall i | 1 <= i < |rows| :: rows[1..][i - 1] == rows[i];
      r
  }

  /** `find_by_token`: the owner of the row with this name and value, expired or
      not, or None when there is no such row. */
  function FindByToken(rows: seq<Token>, ownerType: string, name: string, value: string): (r: Option<OwnerRef>)
    ensures r.None? <==> forall i | 0 <= i < |rows| :: !Matches(rows[i], ownerType, Criteria(name, value, AnyOwner))
    ensures r.Some? ==> r.value.ownerType == ownerType
    ensures r.Some? ==> exists i | 0 <= i < |rows| ::
              Matches(rows[i], ownerType, Criteria(name, value, AnyOwner)) && OwnerOf(rows[i]) == r.value
  {
    match FindToken(rows, ownerType, Keyed(Criteria(name, value, AnyOwner)))
    case None => None
    case Some(t) => Some(OwnerOf(t))
  }

  /** `find_by_valid_token`: as `find_by_token`, but None when the matched row has
      expired at `now`. The expired row stays in the table. */
  function FindByValidToken(rows: seq<Token>, ownerType: string, name: string, value: string, now: int)
    : (r: Option<OwnerRef>)
    ensures r.Some? ==> r == FindByToken(rows, ownerType, name, value)
    ensures r.Some? ==> exists i | 0 <= i < |rows| ::
              Matches(rows[i], ownerType, Criteria(name, value, AnyOwner)) && !Expired(rows[i], now) &&
              OwnerOf(rows[i]) == r.value
    ensures r.None? && FindByToken(rows, ownerType, name, value).Some? ==>
              exists i | 0 <= i < |rows| :: Matches(rows[i], ownerType, Criteria(name, value, AnyOwner)) && Expired(rows[i], now)
  {
    match FindToken(rows, ownerType, Keyed(Criteria(name, value, AnyOwner)))
    case None => None
    case Some(t) => if Expired(t, now) then None else Some(OwnerOf(t))
  }

  /** With distinct values a name and value identify at most one row, so the
      answers of all three queries are determined, whatever the table's order. */
  lemma MatchedRowDecides(rows: seq<Token>, ownerType: string, name: string, value: string, now: int, i: nat)
    requires DistinctValues(rows)
    requires i < |rows| && Matches(rows[i], ownerType, Criteria(name, value, AnyOwner))
    ensures FindToken(rows, ownerType, Positional(name, value)) == Some(rows[i])
    ensures FindByToken(rows, ownerType, name, value) == Some(OwnerOf(rows[i]))
    ensures FindByValidToken(rows, ownerType, name, value, now) ==
            if Expired(rows[i], now) then None else Some(OwnerOf(rows[i]))
  {
    var c := Criteria(name, value, AnyOwner);
    var t := FindToken(rows, ownerType, Keyed(c)).value;
    var j :| 0 <= j < |rows| && rows[j] == t;
    assert j == i;
    var u := FindToken(rows, ownerType, Positional(name, value)).value;
    var k :| 0 <= k < |rows| && rows[k] == u;
    assert k == i;
  }

  /** An expired token is still found, and its owner still resolves through
      `find_by_token`, but not through `find_by_valid_token`. */
  lemma ExpiredTokenStillFound(rows: seq<Token>, ownerType: string, name: string, value: string, now: int, i: nat)
    requires DistinctValues(rows)
    requires i < |rows| && Matches(rows[i], ownerType, Criteria(name, value, AnyOwner))
    requires Expired(rows[i], now)
    ensures FindToken(rows, ownerType, Positional(name, value)) == Some(rows[i])
    ensures FindByToken(rows, ownerType, name, value) == Some(OwnerOf(rows[i]))
    ensures FindByValidToken(rows, ownerType, name, value, now).None?
  {
    MatchedRowDecides(rows, ownerType, name, value, now, i);
  }
}

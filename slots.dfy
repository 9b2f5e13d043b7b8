/**
  The instance methods of a token-owning record, as functions from the table
  before a call to the answer or to the table after it: `find_token`,
  `find_token_by_name`, `remove_token`, `add_token`, and the cascade that
  destroying the owner triggers.
 */
module Slots {
  import opened Wrappers
  import opened TokenModel
  import opened Generation
  import opened Lookup

  /** Where the slot `name` of (ownerType, ownerId) sits in the table, if it is filled. */
  function SlotIndex(rows: seq<Token>, ownerType: string, ownerId: int, name: string): (r: Option<nat>)
    ensures r.Some? ==> r.value < |rows| && InSlot(rows[r.value], ownerType, ownerId, name)
    ensures r.None? <==> forall j | 0 <= j < |rows| :: !InSlot(rows[j], ownerType, ownerId, name)
  {
    if rows == [] then None
    else if InSlot(rows[0], ownerType, ownerId, name) then Some(0)
    else
      match SlotIndex(rows[1..], ownerType, ownerId, name)
      case None =>
        assert forall j | 1 <= j < |rows| :: rows[1..][j - 1] == rows[j];
        None
      case Some(k) => Some(k + 1)
  }

  /** `find_token_by_name`: the owner's token of that name, or None; an unsaved
      owner has no tokens. */
  function FindTokenByName(rows: seq<Token>, owner: Owner, name: string): (r: Option<Token>)
    ensures r.Some? ==> owner.id.Some? && r.value in rows && InSlot(r.value, owner.ownerType, owner.id.value, name)
    ensures r.None? <==> owner.id.None? ||
                         forall j | 0 <= j < |rows| :: !InSlot(rows[j], owner.ownerType, owner.id.value, name)
  {
    if owner.id.None? then None
    else
      match SlotIndex(rows, owner.ownerType, owner.id.value, name)
      case None => None
      case Some(i) => Some(rows[i])
  }

  /** Instance `find_token`: the class-level query narrowed to this owner's id. */
  function FindOwnToken(rows: seq<Token>, owner: Owner, name: string, value: string): (r: Option<Token>)
    ensures r.Some? ==> r.value in rows && owner.id == Some(r.value.ownerId) &&
                        InSlot(r.value, owner.ownerType, r.value.ownerId, name) && r.value.value == value
    ensures r.None? <==> forall i | 0 <= i < |rows| ::
                           !(owner.id == Some(rows[i].ownerId) &&
                             InSlot(rows[i], owner.ownerType, rows[i].ownerId, name) && rows[i].value == value)
    ensures owner.id.None? ==> r.None?
  {
    FindToken(rows, owner.ownerType, Keyed(Criteria(name, value, OwnerIdIs(owner.id))))
  }

  /** The table after `remove_token(name)`: nothing happens for an unsaved owner or an
      empty slot; otherwise the slot's row is destroyed. */
  function RemovedToken(rows: seq<Token>, owner: Owner, name: string): (r: seq<Token>)
    ensures FindTokenByName(rows, owner, name).None? ==> r == rows
  {
    if owner.id.None? then rows
    else
      match SlotIndex(rows, owner.ownerType, owner.id.value, name)
      case None => rows
      case Some(i) => rows[..i] + rows[i + 1..]
  }

  /** After a removal the slot is empty, so a second removal changes nothing. */
  lemma RemoveClearsSlot(rows: seq<Token>, owner: Owner, name: string)
    requires UniqueSlots(rows)
    ensures FindTokenByName(RemovedToken(rows, owner, name), owner, name).None?
    ensures RemovedToken(RemovedToken(rows, owner, name), owner, name) == RemovedToken(rows, owner, name)
  {
    if owner.id.Some? {
      var id := owner.id.value;
      match SlotIndex(rows, owner.ownerType, id, name)
      case None =>
      case Some(i) =>
        var r := rows[..i] + rows[i + 1..];
        forall j | 0 <= j < |r| ensures !InSlot(r[j], owner.ownerType, id, name) {
          var jj := if j < i then j else j + 1;
          assert r[j] == rows[jj];
        }
    }
  }

  /** A removal keeps both table invariants, and keeps every row outside the slot. */
  lemma RemoveKeepsOthers(rows: seq<Token>, owner: Owner, name: string)
    requires WellFormed(rows)
    ensures WellFormed(RemovedToken(rows, owner, name))
    ensures forall t :: t in RemovedToken(rows, owner, name) <==>
                        t in rows && !(owner.id.Some? && InSlot(t, owner.ownerType, owner.id.value, name))
  {
    if owner.id.Some? {
      var id := owner.id.value;
      match SlotIndex(rows, owner.ownerType, id, name)
      case None =>
      case Some(i) =>
        DeleteAtPreserves(rows, i);
        DeleteAtKeeps(rows, i);
        RemoveClearsSlot(rows, owner, name);
        var r := RemovedToken(rows, owner, name);
        forall t | t in rows && t != rows[i] ensures !InSlot(t, owner.ownerType, id, name) {
          var k :| 0 <= k < |rows| && rows[k] == t;
        }
        forall t | t in r ensures !InSlot(t, owner.ownerType, id, name) {
          var k :| 0 <= k < |r| && r[k] == t;
        }
    }
  }

  /** The `options` keys of `add_token`; a key that is absent is None, so that an
      explicit `:expires_at => nil` (Some(None)) is told apart from no key at all. */
  datatype AddOptions = AddOptions(expiresAt: Option<Option<int>>, size: Option<nat>, data: Option<Option<string>>)

  /** The options once the defaults are merged in. */
  datatype Settings = Settings(expiresAt: Option<int>, size: nat, data: Option<string>)

  const NO_OPTIONS := AddOptions(None, None, None)
  const DEFAULT_SIZE: nat := 12
  /** `2.days`, in seconds. */
  const DEFAULT_LIFETIME: int := 2 * 24 * 60 * 60

  /** `options.reverse_merge!(defaults)`: every key the caller gave wins, even when its
      value is nil; only missing keys take the defaults. */
  function ResolveOptions(opts: AddOptions, now: int): (s: Settings)
    ensures opts.expiresAt.None? ==> s.expiresAt == Some(now + DEFAULT_LIFETIME)
    ensures opts.expiresAt.Some? ==> s.expiresAt == opts.expiresAt.value
    ensures opts.size.None? ==> s.size == DEFAULT_SIZE
    ensures opts.size.Some? ==> s.size == opts.size.value
    ensures opts.data.None? ==> s.data.None?
    ensures opts.data.Some? ==> s.data == opts.data.value
  {
    Settings(
      match opts.expiresAt case Some(e) => e case None => Some(now + DEFAULT_LIFETIME),
      match opts.size case Some(n) => n case None => DEFAULT_SIZE,
      match opts.data case Some(d) => d case None => None)
  }

  /** Why `add_token` raises: the digest stream ran out before a free value was
      drawn, or the owner is unsaved, so `tokens.create!` refuses to insert. */
  datatype AddError = GenerationExhausted | OwnerNotSaved

  /** The table after `add_token(name, opts)` and what the call returns: first the
      old token of that name is removed, then a value is generated against the
      table as it then is, then the new row is appended. */
  function AddedToken(rows: seq<Token>, owner: Owner, name: string, opts: AddOptions, now: int,
                      digests: seq<HexDigest>): (r: (seq<Token>, Result<Token, AddError>))
    ensures r.1 == Err(GenerationExhausted) <==>
            FirstFree(RemovedToken(rows, owner, name), digests, ResolveOptions(opts, now).size).None?
    ensures r.1 == Err(OwnerNotSaved) <==>
            owner.id.None? && FirstFree(RemovedToken(rows, owner, name), digests, ResolveOptions(opts, now).size).Some?
    ensures r.1.Ok? <==>
            owner.id.Some? && FirstFree(RemovedToken(rows, owner, name), digests, ResolveOptions(opts, now).size).Some?
    ensures r.1.Ok? ==> r.0 == RemovedToken(rows, owner, name) + [r.1.value]
    ensures r.1.Err? ==> r.0 == RemovedToken(rows, owner, name)
  {
    var s := ResolveOptions(opts, now);
    var base := RemovedToken(rows, owner, name);
    match FirstFree(base, digests, s.size)
    case None => (base, Err(GenerationExhausted))
    case Some(v) =>
      if owner.id.None? then (base, Err(OwnerNotSaved))
      else
        var t := Token(name, v, owner.ownerType, owner.id.value, s.expiresAt, s.data);
        (base + [t], Ok(t))
  }

  /** After a successful `add_token` the slot holds exactly one token: the one just
      created, with a fresh value of the requested length and the resolved expiry
      and data. */
  lemma AddFillsSlot(rows: seq<Token>, owner: Owner, name: string, opts: AddOptions, now: int,
                     digests: seq<HexDigest>)
    requires WellFormed(rows)
    requires AddedToken(rows, owner, name, opts, now, digests).1.Ok?
    ensures var (after, res) := AddedToken(rows, owner, name, opts, now, digests);
            var t := res.value;
            var s := ResolveOptions(opts, now);
            && owner.id.Some?
            && t == Token(name, t.value, owner.ownerType, owner.id.value, s.expiresAt, s.data)
            && Some(t.value) == FirstFree(RemovedToken(rows, owner, name), digests, s.size)
            && |t.value| == Min(s.size, DIGEST_LENGTH) && IsHex(t.value)
            && !HoldsValue(RemovedToken(rows, owner, name), t.value)
            && FindTokenByName(after, owner, name) == Some(t)
            && forall j | 0 <= j < |after| && InSlot(after[j], owner.ownerType, owner.id.value, name) :: after[j] == t
  {
    var (after, res) := AddedToken(rows, owner, name, opts, now, digests);
    var s := ResolveOptions(opts, now);
    var base := RemovedToken(rows, owner, name);
    RemoveClearsSlot(rows, owner, name);
    var v := FirstFree(base, digests, s.size).value;
    assert res.value == Token(name, v, owner.ownerType, owner.id.value, s.expiresAt, s.data);
    assert after == base + [res.value];
    assert !HoldsValue(base, v) && |v| == Min(s.size, DIGEST_LENGTH) && IsHex(v);
    assert forall j | 0 <= j < |base| :: after[j] == base[j];
    assert after[|base|] == res.value;
    var k := SlotIndex(after, owner.ownerType, owner.id.value, name).value;
    assert after[k] == res.value;
  }

  /** `add_token` keeps both table invariants, whether it succeeds or raises. */
  lemma AddKeepsWellFormed(rows: seq<Token>, owner: Owner, name: string, opts: AddOptions, now: int,
                           digests: seq<HexDigest>)
    requires WellFormed(rows)
    ensures WellFormed(AddedToken(rows, owner, name, opts, now, digests).0)
  {
    var (after, res) := AddedToken(rows, owner, name, opts, now, digests);
    var base := RemovedToken(rows, owner, name);
    RemoveKeepsOthers(rows, owner, name);
    RemoveClearsSlot(rows, owner, name);
    if res.Ok? {
      AppendPreserves(base, res.value);
    }
  }

  /** Right after a successful `add_token`, every lookup by the new value finds the
      new token and resolves to its owner. */
  lemma AddThenLookUp(rows: seq<Token>, owner: Owner, name: string, opts: AddOptions, now: int,
                      digests: seq<HexDigest>)
    requires WellFormed(rows)
    requires AddedToken(rows, owner, name, opts, now, digests).1.Ok?
    ensures var (after, res) := AddedToken(rows, owner, name, opts, now, digests);
            var t := res.value;
            && owner.id.Some?
            && FindOwnToken(after, owner, name, t.value) == Some(t)
            && FindToken(after, owner.ownerType, Positional(name, t.value)) == Some(t)
            && FindByToken(after, owner.ownerType, name, t.value) == Some(OwnerRef(owner.ownerType, owner.id.value))
            && FindByValidToken(after, owner.ownerType, name, t.value, now) ==
                 if Expired(t, now) then None else Some(OwnerRef(owner.ownerType, owner.id.value))
  {
    var (after, res) := AddedToken(rows, owner, name, opts, now, digests);
    AddFillsSlot(rows, owner, name, opts, now, digests);
    AddKeepsWellFormed(rows, owner, name, opts, now, digests);
    var i := |after| - 1;
    assert after[i] == res.value;
    MatchedRowDecides(after, owner.ownerType, name, res.value.value, now, i);
    var u := FindOwnToken(after, owner, name, res.value.value).value;
    var k :| 0 <= k < |after| && after[k] == u;
    assert k == i;
  }

  /** Rows of other names and other owners are untouched by `add_token`. */
  lemma AddKeepsOthers(rows: seq<Token>, owner: Owner, name: string, opts: AddOptions, now: int,
                       digests: seq<HexDigest>, u: Token)
    requires WellFormed(rows)
    requires !(owner.id.Some? && InSlot(u, owner.ownerType, owner.id.value, name))
    ensures u in AddedToken(rows, owner, name, opts, now, digests).0 <==> u in rows
  {
    RemoveKeepsOthers(rows, owner, name);
  }

  /** The two ways `add_token` raises. The old token is gone in both, and an unsaved
      owner's call leaves the table exactly as it was. */
  lemma AddFailure(rows: seq<Token>, owner: Owner, name: string, opts: AddOptions, now: int,
                   digests: seq<HexDigest>)
    ensures var (after, res) := AddedToken(rows, owner, name, opts, now, digests);
            var base := RemovedToken(rows, owner, name);
            && (res == Err(GenerationExhausted) <==>
                forall k | 0 <= k < |digests| ::
                  HoldsValue(base, Candidate(digests[k], ResolveOptions(opts, now).size)))
            && (res == Err(OwnerNotSaved) <==>
                owner.id.None? && exists k | 0 <= k < |digests| ::
                  !HoldsValue(base, Candidate(digests[k], ResolveOptions(opts, now).size)))
            && (owner.id.Some? && res.Err? ==> res == Err(GenerationExhausted))
            && (res.Err? ==> after == base)
            && (owner.id.None? ==> res.Err? && after == rows)
  {
    var base := RemovedToken(rows, owner, name);
    FirstFreeNoneIff(base, digests, ResolveOptions(opts, now).size);
  }

  /** The replaced token's value is free again once that token is removed, so the
      new token may carry the same value as the one it replaces: here the old token
      holds the first 12 digits of the only digest drawn. */
  lemma ReplacementMayReuseValue(d: HexDigest, now: int)
    ensures var prior := Token("api_key", d[..12], "User", 1, None, None);
            var (after, res) := AddedToken([prior], Owner("User", Some(1)), "api_key", NO_OPTIONS, now, [d]);
            res.Ok? && res.value.value == prior.value && after == [res.value]
  {
    var prior := Token("api_key", d[..12], "User", 1, None, None);
    assert SlotIndex([prior], "User", 1, "api_key") == Some(0);
    assert RemovedToken([prior], Owner("User", Some(1)), "api_key") == [];
    assert ResolveOptions(NO_OPTIONS, now).size == 12;
    assert !HoldsValue([], Candidate(d, 12));
  }

  /** The table after the owner (ownerType, ownerId) is destroyed: `:dependent =>
      :destroy` deletes every token of that owner and no other. */
  function DestroyedOwner(rows: seq<Token>, ownerType: string, ownerId: int): (r: seq<Token>)
    ensures forall t :: t in r <==> t in rows && !(t.ownerType == ownerType && t.ownerId == ownerId)
  {
    if rows == [] then []
    else
      var rest := DestroyedOwner(rows[1..], ownerType, ownerId);
      assert rows == [rows[0]] + rows[1..];
      if rows[0].ownerType == ownerType && rows[0].ownerId == ownerId then rest else [rows[0]] + rest
  }

  /** The cascade keeps both table invariants. */
  lemma {:induction false} DestroyedOwnerPreserves(rows: seq<Token>, ownerType: string, ownerId: int)
    requires WellFormed(rows)
    ensures WellFormed(DestroyedOwner(rows, ownerType, ownerId))
  {
    if rows != [] {
      DeleteAtPreserves(rows, 0);
      assert rows[..0] + rows[1..] == rows[1..];
      DestroyedOwnerPreserves(rows[1..], ownerType, ownerId);
      if !(rows[0].ownerType == ownerType && rows[0].ownerId == ownerId) {
        ConsPreserves(rows, DestroyedOwner(rows[1..], ownerType, ownerId));
      }
    }
  }

  /** Putting the head row back in front of a subset of the other rows keeps the invariants. */
  lemma ConsPreserves(rows: seq<Token>, rest: seq<Token>)
    requires WellFormed(rows) && rows != [] && WellFormed(rest)
    requires forall t | t in rest :: t in rows[1..]
    ensures WellFormed([rows[0]] + rest)
  {
    var r := [rows[0]] + rest;
    forall p, q | 0 <= p < |r| && 0 <= q < |r| && p != q
      ensures r[p].value != r[q].value
      ensures !InSlot(r[q], r[p].ownerType, r[p].ownerId, r[p].name)
    {
      if p > 0 && q > 0 {
        assert r[p] == rest[p - 1] && r[q] == rest[q - 1];
      } else {
        var o := if p == 0 then q else p;
        assert r[o] == rest[o - 1];
        assert r[o] in rows[1..];
        var k :| 0 <= k < |rows[1..]| && rows[1..][k] == r[o];
        assert rows[k + 1] == r[o];
      }
    }
  }
}

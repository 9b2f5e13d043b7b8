/**
  The token table: one `Token` row per issued token, owned polymorphically by an
  (owner type, owner id) pair, and the two invariants the named-slot engine keeps.
 */
module TokenModel {
  import opened Wrappers

  /** A row of the token table: `name`, `token`, `tokenizable_type`, `tokenizable_id`,
      `expires_at` (None is SQL NULL: never expires) and the opaque `data` payload. */
  datatype Token = Token(
    name: string,
    value: string,
    ownerType: string,
    ownerId: int,
    expiresAt: Option<int>,
    data: Option<string>)

  /** An owning record: its class name and its id, which is None while the record
      has not been saved (`new_record?`). */
  datatype Owner = Owner(ownerType: string, id: Option<int>)

  /** The (type, id) pair a token's `tokenizable` association resolves to. */
  datatype OwnerRef = OwnerRef(ownerType: string, id: int)

  function OwnerOf(t: Token): OwnerRef
  {
    OwnerRef(t.ownerType, t.ownerId)
  }

  /** `Token#expired?`: a token with an expiry time is expired once that time is
      strictly in the past; a token without one never expires. */
  predicate Expired(t: Token, now: int)
  {
    t.expiresAt.Some? && t.expiresAt.value < now
  }

  /** The token occupies the named slot `name` of the owner (ownerType, ownerId). */
  predicate InSlot(t: Token, ownerType: string, ownerId: int, name: string)
  {
    t.ownerType == ownerType && t.ownerId == ownerId && t.name == name
  }

  /** Some row of the table already holds `v` as its value. */
  predicate HoldsValue(rows: seq<Token>, v: string)
  {
    exists i | 0 <= i < |rows| :: rows[i].value == v
  }

  /** At most one token per (ownerType, ownerId, name). */
  ghost predicate UniqueSlots(rows: seq<Token>)
  {
    forall i, j | 0 <= i < |rows| && 0 <= j < |rows| && i != j ::
      !InSlot(rows[j], rows[i].ownerType, rows[i].ownerId, rows[i].name)
  }

  /** No two tokens share a value. */
  ghost predicate DistinctValues(rows: seq<Token>)
  {
    forall i, j | 0 <= i < |rows| && 0 <= j < |rows| && i != j :: rows[i].value != rows[j].value
  }

  ghost predicate WellFormed(rows: seq<Token>)
  {
    UniqueSlots(rows) && DistinctValues(rows)
  }

  /** Deleting one row keeps both invariants. */
  lemma DeleteAtPreserves(rows: seq<Token>, i: nat)
    requires WellFormed(rows) && i < |rows|
    ensures WellFormed(rows[..i] + rows[i + 1..])
  {
    var r := rows[..i] + rows[i + 1..];
    forall p, q | 0 <= p < |r| && 0 <= q < |r| && p != q
      ensures r[p].value != r[q].value
      ensures !InSlot(r[q], r[p].ownerType, r[p].ownerId, r[p].name)
    {
      var pp := if p < i then p else p + 1;
      var qq := if q < i then q else q + 1;
      assert r[p] == rows[pp] && r[q] == rows[qq];
    }
  }

  /** Deleting one row keeps every other row; as values are distinct, the deleted
      row has no copy left. */
  lemma DeleteAtKeeps(rows: seq<Token>, i: nat)
    requires DistinctValues(rows) && i < |rows|
    ensures forall t :: t in rows[..i] + rows[i + 1..] <==> t in rows && t != rows[i]
  {
    var r := rows[..i] + rows[i + 1..];
    assert rows == rows[..i] + [rows[i]] + rows[i + 1..];
    forall t ensures t in r <==> t in rows && t != rows[i] {
      if t in r {
        var p :| 0 <= p < |r| && r[p] == t;
        var pp := if p < i then p else p + 1;
        assert r[p] == rows[pp];
      }
    }
  }

  /** Appending a row whose value is new and whose slot is free keeps both invariants. */
  lemma AppendPreserves(rows: seq<Token>, t: Token)
    requires WellFormed(rows)
    requires !HoldsValue(rows, t.value)
    requires forall j | 0 <= j < |rows| :: !InSlot(rows[j], t.ownerType, t.ownerId, t.name)
    ensures WellFormed(rows + [t])
  {
    var r := rows + [t];
    forall p, q | 0 <= p < |r| && 0 <= q < |r| && p != q
      ensures r[p].value != r[q].value
      ensures !InSlot(r[q], r[p].ownerType, r[p].ownerId, r[p].name)
    {
      if p < |rows| && q < |rows| {
        assert r[p] == rows[p] && r[q] == rows[q];
      } else if p < |rows| {
        assert r[p] == rows[p] && r[q] == t;
      } else {
        assert r[q] == rows[q] && r[p] == t;
      }
    }
  }
}

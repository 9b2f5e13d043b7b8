/**
  The token table as mutable state: the operations that change it (`remove_token`,
  `add_token`, the owner cascade), and `generate_token`'s retry loop, which reads it.
  Each method is tied to the function in `Slots` or `Generation` that says what
  it does, and keeps both table invariants.
 */
module TokenStore {
  import opened Wrappers
  import opened TokenModel
  import opened Generation
  import opened Slots

  class TokenTable {
    var rows: seq<Token>

    ghost predicate Valid()
      reads this
    {
      WellFormed(rows)
    }

    constructor ()
      ensures Valid() && rows == []
    {
      rows := [];
    }

    /** `generate_token(size)`: draw candidates from the digest stream, in order, until
        one is held by no row. None means the stream ran out first. */
    method GenerateToken(size: nat, digests: seq<HexDigest>) returns (token: Option<string>)
      ensures token == FirstFree(rows, digests, size)
      ensures token.Some? ==> !HoldsValue(rows, token.value)
      ensures token.Some? ==> |token.value| == Min(size, DIGEST_LENGTH) && IsHex(token.value)
    {
      var i := 0;
      while i < |digests|
        invariant 0 <= i <= |digests|
        invariant FirstFree(rows, digests[i..], size) == FirstFree(rows, digests, size)
      {
        var candidate := Candidate(digests[i], size);
        if !HoldsValue(rows, candidate) {
          return Some(candidate);
        }
        assert digests[i..][1..] == digests[i + 1..];
        i := i + 1;
      }
      return None;
    }

    /** `remove_token(name)`. */
    method RemoveToken(owner: Owner, name: string)
      requires Valid()
      modifies this
      ensures Valid()
      ensures rows == RemovedToken(old(rows), owner, name)
    {
      RemoveKeepsOthers(rows, owner, name);
      if owner.id.None? {
        return;
      }
      var i := SlotIndex(rows, owner.ownerType, owner.id.value, name);
      if i.Some? {
        rows := rows[..i.value] + rows[i.value + 1..];
      }
    }

    /** `add_token(name, options)`: resolve the options, remove the old token of that
        name, generate a value, then insert the new row. */
    method AddToken(owner: Owner, name: string, opts: AddOptions, now: int, digests: seq<HexDigest>)
      returns (result: Result<Token, AddError>)
      requires Valid()
      modifies this
      ensures Valid()
      ensures (rows, result) == AddedToken(old(rows), owner, name, opts, now, digests)
    {
      AddKeepsWellFormed(rows, owner, name, opts, now, digests);
      var settings := ResolveOptions(opts, now);
      RemoveToken(owner, name);
      var value := GenerateToken(settings.size, digests);
      if value.None? {
        return Err(GenerationExhausted);
      }
      if owner.id.None? {
        return Err(OwnerNotSaved);
      }
      var token := Token(name, value.value, owner.ownerType, owner.id.value, settings.expiresAt, settings.data);
      rows := rows + [token];
      result := Ok(token);
    }

    /** Destroying the owner (ownerType, ownerId) destroys all of its tokens. */
    method DestroyOwner(ownerType: string, ownerId: int)
      requires Valid()
      modifies this
      ensures Valid()
      ensures rows == DestroyedOwner(old(rows), ownerType, ownerId)
    {
      DestroyedOwnerPreserves(rows, ownerType, ownerId);
      rows := DestroyedOwner(rows, ownerType, ownerId);
    }
  }
}

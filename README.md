# Tokens: a verified model of the token lifecycle engine

The Ruby library `tokens` (`lib/tokens.rb`) lets an ActiveRecord model call
`has_tokens`, which gives it named, expiring tokens such as activation codes or API
keys. The tokens live in one table. Each row has a `name`, a `token` value, a
polymorphic owner (`tokenizable_type`, `tokenizable_id`), an optional `expires_at`
and an opaque `data` payload.

This project models that engine in Dafny, over an in-memory table (`seq<Token>`).
The caller supplies the time as an integer `now`.

- `TokenModel` (token_model.dfy): the row, the owner, `expired?`, and the two table invariants. The invariants are one token per (owner type, owner id, name) slot, and all values pairwise distinct.
- `Generation` (generation.dfy): `generate_token`'s candidates and the value its retry loop settles on.
- `Lookup` (lookup.dfy): the class-level queries `find_token`, `find_by_token` and `find_by_valid_token`.
- `Slots` (slots.dfy): the instance methods as functions of the table: `find_token`, `find_token_by_name`, `remove_token`, `add_token` with its option defaults, and the owner cascade. This module also holds the lemmas about these functions.
- `TokenStore` (token_store.dfy): the class `TokenTable`, whose field `rows` is the table. Its methods `RemoveToken`, `AddToken` and `DestroyOwner` change it in place; `GenerateToken` runs the retry loop over it. Each method is proved equal to the matching function in `Slots` or `Generation`, and each keeps `Valid()`, the two invariants.
- `Wrappers` (wrappers.dfy): `Option` and `Result`.

Modelling choices:

- Randomness: the SHA-1 digest of the `rand`/`Time.now` seed is replaced by a finite stream of 40-character lower-case hex digests that the caller passes in. The loop draws them in order. If the stream runs out, `add_token` fails with `GenerationExhausted`. The source loop has no bound, so this is where the model bounds it.
- Expiry: `expired?` is defined in `lib/tokens/token.rb`, which is not part of this model. The model assumes a token is expired when `expiresAt < now`. So a token is still valid at exactly its expiry time, and a token with no `expires_at` never expires.
- Time: `2.days.from_now` is `now + 172800`.
- Saved owners: an owner that is not yet saved (`new_record?`) has no id (`Owner.id == None`). On such an owner, `add_token` skips the removal and still generates a value. It then fails with `OwnerNotSaved`, because ActiveRecord's `tokens.create!` refuses to insert under a parent that has not been saved. The table is left unchanged.
- Ordering: where several rows match, `.first` depends on the storage order, which nothing fixes. The model takes the first row in sequence order. The lemmas about results assume the table invariants, and under them at most one row can match, so no lemma depends on that choice.

Differences between the code and its evident intent (the model follows the intent):

- `lib/tokens.rb:43-44`: the hash form of `find_token` evaluates `args.first` and never assigns it to `options`. As written, line 52 then calls `merge!` on `nil`, so every hash call raises. That includes the calls from `find_by_token`, `find_by_valid_token` and the instance `find_token`. The model queries with the caller's hash.
- `lib/tokens.rb:53`: `.include(:tokenizable)` is meant to be `.includes`, which is only eager loading. The model leaves it out.
- `lib/tokens.rb:72-73`: `find_by_valid_token` reads an undefined `t` instead of `token`. The model uses the looked-up token.

Where the code differs from the design (the model follows the code):

- Replacing a token does not always yield a different value. `add_token` removes the old row before generating, so the old value is free again and may be drawn. `Slots.ReplacementMayReuseValue` exhibits such a case.
- No instance method filters by validity: only `find_by_valid_token` checks expiry.

## Model

| member | source | states |
|---|---|---|
| Generation.Candidate | lib/tokens.rb:30 | a candidate is a prefix of the 40-hex-digit digest, of length min(size, 40), made only of `0-9a-f` |
| Generation.FirstFree | lib/tokens.rb:26-31 | the value the loop settles on is held by no row, has length min(size, 40) and is hex |
| Generation.FirstFreeNoneIff | lib/tokens.rb:26-31 | the loop gives up (no value) exactly when every candidate drawn is already held by some row |
| Generation.FirstFreeIsFirstAccepted | lib/tokens.rb:28-31 | the returned value is one of the candidates, and every earlier candidate failed the uniqueness check |
| TokenStore.TokenTable.GenerateToken | lib/tokens.rb:25-34 | the retry loop returns exactly `FirstFree` of the current table, so its value is fresh, hex and of length min(size, 40) |
| Lookup.FindToken | lib/tokens.rb:42-54 | absent iff no row of this owner class has the given name, value and (if asked) owner id; a returned row is in the table and matches all of them |
| Lookup.FindByToken | lib/tokens.rb:60-64 | absent iff no row matches (type, name, value); otherwise the owner of a matching row, whatever its expiry |
| Lookup.FindByValidToken | lib/tokens.rb:70-74 | an answer agrees with `find_by_token` and comes from an unexpired matching row; absent while `find_by_token` answers only when the matched row has expired |
| Lookup.MatchedRowDecides | lib/tokens.rb:53-74 | with distinct values, a matching row is the one `find_token` returns; `find_by_token` gives its owner, and `find_by_valid_token` gives its owner exactly when it has not expired |
| Lookup.ExpiredTokenStillFound | lib/tokens.rb:60-74 | an expired token is still found by `find_token` and `find_by_token`, but `find_by_valid_token` gives nothing |
| Slots.SlotIndex | lib/tokens.rb:91 | finds a row in the owner's named slot, and is absent iff that slot is empty |
| Slots.FindTokenByName | lib/tokens.rb:90-92 | a returned token belongs to this saved owner and has this name; absent iff the owner is unsaved or holds no token of that name |
| Slots.FindOwnToken | lib/tokens.rb:82-87 | as class-level `find_token`, narrowed to `tokenizable_id = self.id`; always absent for an unsaved owner |
| Slots.RemovedToken | lib/tokens.rb:98-102 | `remove_token` leaves the table unchanged when the owner is unsaved or holds no token of that name |
| Slots.RemoveClearsSlot | lib/tokens.rb:98-102 | after `remove_token`, `find_token_by_name` is absent, and a second `remove_token` changes nothing |
| Slots.RemoveKeepsOthers | lib/tokens.rb:98-102 | `remove_token` keeps both invariants; a row is kept iff it was in the table and is not this owner's token of that name |
| Slots.ResolveOptions | lib/tokens.rb:111-115 | each missing key takes its default (`expires_at` now + 2 days, `size` 12, `data` nil); each key the caller gave wins, including an explicit `expires_at => nil` |
| Slots.AddedToken | lib/tokens.rb:110-126 | `add_token` raises `GenerationExhausted` iff no drawn candidate is free after the removal, raises `OwnerNotSaved` iff the owner is unsaved and a value was drawn, and otherwise succeeds; on success the table is the post-removal table plus the new row, on failure the post-removal table |
| Slots.AddFillsSlot | lib/tokens.rb:117-125 | after a successful `add_token`, the new token is the only one in the slot; its value is the one the generation loop settles on (fresh, hex, length min(size, 40)), it carries the resolved expiry and data, and `find_token_by_name` returns it |
| Slots.AddKeepsWellFormed | lib/tokens.rb:117-125 | `add_token` keeps one token per slot and pairwise distinct values, on success and on failure |
| Slots.AddThenLookUp | lib/tokens.rb:110-125 | right after `add_token`, both forms of `find_token` return the new token; `find_by_token` returns its owner, and `find_by_valid_token` does too unless the token has already expired |
| Slots.AddKeepsOthers | lib/tokens.rb:117-125 | a row of another name or another owner is in the table after `add_token` iff it was before |
| Slots.AddFailure | lib/tokens.rb:117-125 | `add_token` fails with `GenerationExhausted` iff every candidate is held, and with `OwnerNotSaved` iff the owner is unsaved and some candidate is free; a saved owner's call fails only by exhaustion; a failure leaves the table with only the old token removed; an unsaved owner's call leaves it unchanged |
| Slots.ReplacementMayReuseValue | lib/tokens.rb:117-120 | for any digest, replacing a token whose value is that digest's first 12 digits yields a new token with that same value: the removed value is free again |
| Slots.DestroyedOwner | lib/tokens.rb:17 | destroying an owner keeps a row iff it belongs to another owner |
| Slots.DestroyedOwnerPreserves | lib/tokens.rb:17 | the cascade keeps one token per slot and pairwise distinct values |
| TokenStore.TokenTable.RemoveToken | lib/tokens.rb:98-102 | changes the table to `RemovedToken` of the old table and keeps `Valid()` |
| TokenStore.TokenTable.AddToken | lib/tokens.rb:110-126 | changes the table, and returns the result as given by `AddedToken` of the old table (remove, generate, insert), and keeps `Valid()` |
| TokenStore.TokenTable.DestroyOwner | lib/tokens.rb:17 | changes the table to `DestroyedOwner` of the old table and keeps `Valid()` |

## Left out

- The mixin wiring (`self.included`, `class_eval`, `ActiveRecord::Base.send :include`, lines 5-7 and 130): framework registration with no behaviour of its own.
- SQL, eager loading and polymorphic resolution of `tokenizable`: owners appear only as (type, id) pairs, and a lookup returns that pair rather than a loaded record. Single-table-inheritance subclasses, whose `self.name` differs from the stored base class name, are not modelled.
- `Digest::SHA1`, `rand` and `Time.now`: their output is the caller-supplied digest stream and `now`.
- The debug `p attrs` (line 124): diagnostic output.
- Concurrency: generation checks the value and then creates the row, and `add_token` removes and then inserts, neither atomically. The model is sequential, so it cannot show another caller inserting the same value in between, or a reader seeing the slot briefly empty.
- The validations and `expired?` of `lib/tokens/token.rb`, which is not part of this model; storage failures raised by `create!` or `destroy` other than the unsaved owner.
- `add_token` changes the caller's `options` hash in place (`reverse_merge!`). The model computes the merged settings as a value, and the caller's hash is not represented.
- `find_token` with one positional argument, and hash queries missing `:token` or holding extra keys: the model's criteria always hold a name and a value, plus an optional owner id.
- Option values of the wrong type: a negative `:size` (Ruby's slice returns `nil`) or `:size => nil` (raises). `size` is a natural number.

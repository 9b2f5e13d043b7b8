/**
  `generate_token`: each draw is the hexadecimal SHA-1 digest of a time-and-random
  seed, cut to the requested size; draws repeat until no row holds the candidate.
  The digests themselves come from the caller as a finite stream, so that the
  model is deterministic; running out of digests is how the model ends a loop
  that the source leaves unbounded.
 */
module Generation {
  import opened Wrappers
  import opened TokenModel

  /** A SHA-1 hex digest has 40 characters. */
  const DIGEST_LENGTH: nat := 40

  predicate IsHexChar(c: char)
  {
    '0' <= c <= '9' || 'a' <= c <= 'f'
  }

  predicate IsHex(s: string)
  {
    forall i | 0 <= i < |s| :: IsHexChar(s[i])
  }

  /** What `Digest::SHA1.hexdigest` returns: 40 lower-case hex digits. */
  type HexDigest = s: string | |s| == DIGEST_LENGTH && IsHex(s)
    witness "0000000000000000000000000000000000000000"

  function Min(a: int, b: int): int
  {
    if a <= b then a else b
  }

  /** `hexdigest(seed)[0, size]`: Ruby's slice stops at the end of the string, so
      sizes above 40 give the whole digest. */
  function Candidate(digest: HexDigest, size: nat): (c: string)
    ensures |c| == Min(size, DIGEST_LENGTH)
    ensures IsHex(c)
    ensures c <= digest
  {
    digest[..Min(size, DIGEST_LENGTH)]
  }

  /** The value the retry loop settles on: the first candidate no row holds, or
      None when every digest in the stream yields a value already taken. */
  function FirstFree(rows: seq<Token>, digests: seq<HexDigest>, size: nat): (r: Option<string>)
    ensures r.Some? ==> !HoldsValue(rows, r.value)
    ensures r.Some? ==> |r.value| == Min(size, DIGEST_LENGTH) && IsHex(r.value)
    decreases |digests|
  {
    if digests == [] then None
    else
      var c := Candidate(digests[0], size);
      if !HoldsValue(rows, c) then Some(c) else FirstFree(rows, digests[1..], size)
  }

  /** The loop gives up only when every candidate drawn is already held. */
  lemma {:induction false} FirstFreeNoneIff(rows: seq<Token>, digests: seq<HexDigest>, size: nat)
    ensures FirstFree(rows, digests, size).None? <==>
            forall k | 0 <= k < |digests| :: HoldsValue(rows, Candidate(digests[k], size))
    decreases |digests|
  {
    if digests != [] {
      FirstFreeNoneIff(rows, digests[1..], size);
      assert forall k | 1 <= k < |digests| :: digests[1..][k - 1] == digests[k];
    }
  }

  /** The value returned is one of the candidates, and every earlier candidate was
      rejected by the uniqueness check. */
  lemma {:induction false} FirstFreeIsFirstAccepted(rows: seq<Token>, digests: seq<HexDigest>, size: nat)
    requires FirstFree(rows, digests, size).Some?
    ensures exists k | 0 <= k < |digests| ::
              FirstFree(rows, digests, size).value == Candidate(digests[k], size) &&
              forall j | 0 <= j < k :: HoldsValue(rows, Candidate(digests[j], size))
    decreases |digests|
  {
    var v := FirstFree(rows, digests, size).value;
    if HoldsValue(rows, Candidate(digests[0], size)) {
      FirstFreeIsFirstAccepted(rows, digests[1..], size);
      var k :| 0 <= k < |digests[1..]| && v == Candidate(digests[1..][k], size) &&
               forall j | 0 <= j < k :: HoldsValue(rows, Candidate(digests[1..][j], size));
      assert v == Candidate(digests[k + 1], size);
      forall j | 0 <= j < k + 1 ensures HoldsValue(rows, Candidate(digests[j], size)) {
        if j > 0 { assert digests[1..][j - 1] == digests[j]; }
      }
    } else {
      assert v == Candidate(digests[0], size);
    }
  }
}

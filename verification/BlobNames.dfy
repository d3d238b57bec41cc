/**
  Names inside the content-addressed store: the digest text, the path derived from it, and the
  suffix that marks a file as staged rather than published.
 */
module BlobNames {
  import opened Decimals

  const DIGEST_PREFIX: string := "sha256:"
  const DIGEST_HEX_LENGTH := 64
  const BUCKET_NAME_LENGTH := 2

  datatype BlobRejection =
    | InvalidDigest
    | SourceNotPermitted
    | UnsafePath
    | LimitExceeded
    | StagingCollision
    | StagedVerificationFailed
    | CorruptStoredBlob
    | MissingBlob
    | StoreIoFailure

  datatype PathResult = Path(path: string) | NoPath(rejection: BlobRejection)

  predicate IsLowercaseHex(c: char) {
    '0' <= c <= '9' || 'a' <= c <= 'f'
  }

  predicate IsHexText(s: string) {
    forall i | 0 <= i < |s| :: IsLowercaseHex(s[i])
  }

  /** `sha256:` followed by exactly sixty-four lowercase hexadecimal characters. */
  predicate IsDigest(digest: string) {
    && |digest| == |DIGEST_PREFIX| + DIGEST_HEX_LENGTH
    && DIGEST_PREFIX <= digest
    && IsHexText(digest[|DIGEST_PREFIX|..])
  }

  /** The character-by-character gate every derived path goes through. */
  method ValidateBlobDigest(digest: string) returns (ok: bool)
    ensures ok <==> IsDigest(digest)
  {
    if |digest| != |DIGEST_PREFIX| + DIGEST_HEX_LENGTH {
      return false;
    }
    if !(DIGEST_PREFIX <= digest) {
      return false;
    }
    var hex := digest[|DIGEST_PREFIX|..];
    for i := 0 to |hex|
      invariant IsHexText(hex[..i])
    {
      if !IsLowercaseHex(hex[i]) {
        return false;
      }
    }
    assert hex[..|hex|] == hex;
    return true;
  }

  /** Where the blob named by a digest lives: `root/sha256/<2 hex>/<62 hex>`. */
  function Destination(root: string, digest: string): string
    requires IsDigest(digest)
  {
    var hex := digest[|DIGEST_PREFIX|..];
    root + "/sha256/" + hex[..BUCKET_NAME_LENGTH] + "/" + hex[BUCKET_NAME_LENGTH..]
  }

  method PathFor(root: string, digest: string) returns (result: PathResult)
    ensures result == if IsDigest(digest) then Path(Destination(root, digest)) else NoPath(InvalidDigest)
    ensures result.Path? <==> && |digest| == 71 && digest[..7] == "sha256:"
                              && forall i | 7 <= i < 71 :: '0' <= digest[i] <= '9' || 'a' <= digest[i] <= 'f'
    ensures result.Path? ==> result.path == root + "/sha256/" + digest[7..9] + "/" + digest[9..]
    ensures result.NoPath? ==> result.rejection == InvalidDigest
  {
    var valid := ValidateBlobDigest(digest);
    if |digest| >= 7 {
      assert forall i | 7 <= i < |digest| :: digest[i] == digest[7..][i - 7];
      assert forall k | 0 <= k < |digest| - 7 :: digest[7..][k] == digest[k + 7];
    }
    if !valid {
      return NoPath(InvalidDigest);
    }
    return Path(Destination(root, digest));
  }

  function StagingSuffix(process: nat, ordinal: nat, attempt: nat): string {
    "." + Decimal(process) + "." + Decimal(ordinal) + "." + Decimal(attempt) + ".tmp"
  }

  function StagedName(root: string, digest: string, process: nat, ordinal: nat, attempt: nat): string
    requires IsDigest(digest)
  {
    Destination(root, digest) + StagingSuffix(process, ordinal, attempt)
  }

  /** Longer than every derived path under this root. */
  predicate IsStagedShaped(root: string, name: string) {
    |name| > |root| + 73
  }

  /** Two digests share a path only when they are the same digest. */
  lemma DestinationsAreInjective(root: string, left: string, right: string)
    requires IsDigest(left) && IsDigest(right)
    requires Destination(root, left) == Destination(root, right)
    ensures left == right
  {
    var l, r := left[7..], right[7..];
    var middle := root + "/sha256/";
    var pathL, pathR := Destination(root, left), Destination(root, right);
    assert pathL[|middle|..][..2] == l[..2] && pathR[|middle|..][..2] == r[..2];
    assert pathL[|middle| + 3..] == l[2..] && pathR[|middle| + 3..] == r[2..];
    assert l == l[..2] + l[2..] && r == r[..2] + r[2..];
    assert left == left[..7] + l && right == right[..7] + r;
  }

  /** Whatever process, counter and attempt it was made from, a staged name is no blob's path. */
  lemma StagedNamesAreNeverDestinations(
    root: string, digest: string, other: string, process: nat, ordinal: nat, attempt: nat)
    requires IsDigest(digest) && IsDigest(other)
    ensures IsStagedShaped(root, StagedName(root, digest, process, ordinal, attempt))
    ensures !IsStagedShaped(root, Destination(root, other))
    ensures StagedName(root, digest, process, ordinal, attempt) != Destination(root, other)
  {
    assert |StagingSuffix(process, ordinal, attempt)| > 0;
    assert |Destination(root, digest)| == |root| + 73 == |Destination(root, other)|;
  }
}

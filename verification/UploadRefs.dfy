/** Upload references and the ownership check by the text of the reference and the facts of the stored
    object (apps/answer-service/server.py). */
module UploadRefs {
  import opened Common
  import opened Percent
  import opened TenantKeys

  /** The bytes of an ASCII text. */
  function Ascii(s: string): (r: seq<Byte>)
    requires forall i | 0 <= i < |s| :: s[i] as int < 128
    ensures |r| == |s|
  {
    seq(|s|, i requires 0 <= i < |s| => s[i] as int)
  }

  /** The encoded tenant id, or its first 180 bytes. */
  function Marker(tenant: seq<Byte>): seq<Byte> {
    if |Quote(tenant)| > 180 then Quote(tenant)[..180] else Quote(tenant)
  }

  /** A key is a tenant's own exactly when it starts with `tenants/`, the tenant's marker and
      `/uploads/`. */
  lemma OwnedExactly(key: seq<Byte>, tenant: seq<Byte>)
    ensures OwnedBy(key, tenant) <==> Ascii("tenants/") + Marker(tenant) + Ascii("/uploads/") <= key
    ensures TenantMarker(tenant) == Marker(tenant)
  {
    assert Ascii("tenants/") == TENANTS;
    assert Ascii("/uploads/") == UPLOADS;
  }

  /** `s3://`, a bucket, one slash or more, a key, and possibly a query or a fragment. */
  ghost predicate Refers(reference: seq<Byte>, bucket: seq<Byte>, slashes: seq<Byte>, key: seq<Byte>, rest: seq<Byte>) {
    && reference == Ascii("s3://") + bucket + slashes + key + rest
    && bucket != [] && (forall b | b in bucket :: b != '/' as int && b != '?' as int && b != '#' as int)
    && slashes != [] && (forall b | b in slashes :: b == '/' as int)
    && key != [] && key[0] != '/' as int && (forall b | b in key :: b != '?' as int && b != '#' as int)
    && (rest == [] || rest[0] == '?' as int || rest[0] == '#' as int)
  }

  lemma ParsesReferenceExactly(reference: seq<Byte>, bucket: seq<Byte>, key: seq<Byte>)
    ensures ParseS3Ref(reference) == Some((bucket, key)) <==>
            exists slashes, rest :: Refers(reference, bucket, slashes, key, rest)
  {
    hide Refers, ParseS3Ref;
    if ParseS3Ref(reference) == Some((bucket, key)) { var slashes, rest := Parsed(reference, bucket, key); }
    if slashes, rest :| Refers(reference, bucket, slashes, key, rest) { Parses(reference, bucket, slashes, key, rest); }
  }

  lemma SchemeText()
    ensures Ascii("s3://") == S3
  {
  }

  lemma {:induction false} LeadingSlashes(s: seq<Byte>) returns (slashes: seq<Byte>)
    ensures s == slashes + StripSlashes(s) && forall b | b in slashes :: b == SLASH
  {
    if s != [] && s[0] == SLASH {
      var more := LeadingSlashes(s[1..]);
      slashes := [SLASH] + more;
      var left := StripSlashes(s[1..]);
      assert StripSlashes(s) == left;
      hide StripSlashes;
      assert s == [SLASH] + (more + left);
      assert [SLASH] + (more + left) == slashes + left;
    } else {
      slashes := [];
    }
  }

  /** Where the bucket, the path and the key of a parsed reference lie. */
  lemma ParsedParts(reference: seq<Byte>) returns (n: nat, m: nat)
    requires ParseS3Ref(reference).Some?
    ensures S3 <= reference
    ensures var tail := reference[|S3|..];
      && n <= |tail| && m <= |tail[n..]|
      && ParseS3Ref(reference).value == (tail[..n], StripSlashes(tail[n..][..m]))
      && (tail[n..] != [] ==> tail[n..][0] in {SLASH, QUESTION, HASH})
      && (tail[n..][m..] == [] || tail[n..][m..][0] in {QUESTION, HASH})
  {
    hide StripSlashes;
    var tail := reference[|S3|..];
    n := Until(tail, {SLASH, QUESTION, HASH});
    m := Until(tail[n..], {QUESTION, HASH});
    hide Until;
  }

  lemma Parsed(reference: seq<Byte>, bucket: seq<Byte>, key: seq<Byte>) returns (slashes: seq<Byte>, rest: seq<Byte>)
    requires ParseS3Ref(reference) == Some((bucket, key))
    ensures Refers(reference, bucket, slashes, key, rest)
  {
    hide *;
    ParsedIsPlain(reference);
    var n, m := ParsedParts(reference);
    var tail := reference[|S3|..];
    slashes := LeadingSlashes(tail[n..][..m]);
    rest := tail[n..][m..];
    Reassembled(S3, tail, n, m, slashes, key);
    assert reference == S3 + tail;
    PlainKeyStart(key);
    RefersTo(reference, bucket, slashes, key, rest);
  }

  lemma PlainKeyStart(key: seq<Byte>)
    requires PlainKey(key)
    ensures key != [] && key[0] !in {SLASH, QUESTION, HASH}
  {
    assert key[0] in key;
  }

  lemma RefersTo(reference: seq<Byte>, bucket: seq<Byte>, slashes: seq<Byte>, key: seq<Byte>, rest: seq<Byte>)
    requires reference == S3 + bucket + slashes + key + rest && PlainBucket(bucket) && PlainKey(key)
    requires slashes != [] && (forall b | b in slashes :: b == SLASH) && (rest == [] || rest[0] in {QUESTION, HASH})
    ensures Refers(reference, bucket, slashes, key, rest)
  {
    SchemeText();
    hide Ascii;
  }

  lemma Reassembled(scheme: seq<Byte>, tail: seq<Byte>, n: nat, m: nat, slashes: seq<Byte>, key: seq<Byte>)
    requires n <= |tail| && m <= |tail[n..]| && tail[n..][..m] == slashes + key
    ensures scheme + tail == scheme + tail[..n] + slashes + key + tail[n..][m..]
    ensures slashes == [] && key != [] ==> tail[n..] != [] && tail[n..][0] == key[0]
  {
    assert tail == tail[..n] + tail[n..] && tail[n..] == slashes + key + tail[n..][m..];
  }

  lemma {:induction false} StripsSlashes(slashes: seq<Byte>, key: seq<Byte>)
    requires (forall b | b in slashes :: b == SLASH) && (key == [] || key[0] != SLASH)
    ensures StripSlashes(slashes + key) == key
  {
    if slashes == [] {
      assert slashes + key == key;
    } else {
      assert slashes[0] in slashes && forall b :: b in slashes[1..] ==> b in slashes;
      assert (slashes + key)[1..] == slashes[1..] + key;
      StripsSlashes(slashes[1..], key);
    }
  }

  lemma Parses(reference: seq<Byte>, bucket: seq<Byte>, slashes: seq<Byte>, key: seq<Byte>, rest: seq<Byte>)
    requires Refers(reference, bucket, slashes, key, rest)
    ensures ParseS3Ref(reference) == Some((bucket, key))
  {
    SchemeText();
    hide Until, Ascii, StripSlashes;
    var path := slashes + key;
    var tail := bucket + (path + rest);
    assert reference == S3 + tail && S3 <= reference && reference[|S3|..] == tail;
    assert slashes[0] in slashes && (path + rest)[0] == SLASH;
    forall i | 0 <= i < |bucket| ensures bucket[i] !in {SLASH, QUESTION, HASH} { assert bucket[i] in bucket; }
    UntilOf(bucket, path + rest, {SLASH, QUESTION, HASH});
    forall i | 0 <= i < |path| ensures path[i] !in {QUESTION, HASH} {
      if i < |slashes| { assert slashes[i] in slashes; } else { assert path[i] == key[i - |slashes|] && key[i - |slashes|] in key; }
    }
    UntilOf(path, rest, {QUESTION, HASH});
    assert tail[|bucket|..] == path + rest && tail[..|bucket|] == bucket && (path + rest)[..|path|] == path;
    StripsSlashes(slashes, key);
  }

  /** A reference passes for a tenant exactly when it is no S3 reference, or names an object under the
      tenant's own prefix in an allowed bucket that exists, is not too large and carries the tenant's
      marker and an upload id. */
  lemma VerifiesExactly(storage: Storage, reference: seq<Byte>, tenant: seq<Byte>)
    ensures VerifyUploadS3Ref(storage, reference, tenant).Ok? <==>
            || !(Ascii("s3://") <= reference)
            || exists bucket, slashes, key, rest ::
                 && Refers(reference, bucket, slashes, key, rest)
                 && bucket in storage.allowedBuckets
                 && Ascii("tenants/") + Marker(tenant) + Ascii("/uploads/") <= key
                 && storage.objectInfo(reference).Some?
                 && IsTenantUpload(storage, storage.objectInfo(reference).value, tenant)
  {
    SchemeText();
    hide Refers, ParseS3Ref, OwnedBy, TenantMarker, Ascii, Marker;
    OwnedExactly([], tenant);
    if S3 <= reference && VerifyUploadS3Ref(storage, reference, tenant).Ok? {
      var (bucket, key) := ParseS3Ref(reference).value;
      OwnedExactly(key, tenant);
      ParsesReferenceExactly(reference, bucket, key);
    }
    if bucket, slashes, key, rest :|
      && Refers(reference, bucket, slashes, key, rest)
      && bucket in storage.allowedBuckets
      && Ascii("tenants/") + Marker(tenant) + Ascii("/uploads/") <= key
      && storage.objectInfo(reference).Some?
      && IsTenantUpload(storage, storage.objectInfo(reference).value, tenant)
    {
      OwnedExactly(key, tenant);
      ParsesReferenceExactly(reference, bucket, key);
    }
  }

  /** Which check fails first for an object under this key of this bucket. */
  predicate Refused(storage: Storage, reference: seq<Byte>, bucket: seq<Byte>, key: seq<Byte>, tenant: seq<Byte>, e: VerifyError) {
    var allowed := bucket in storage.allowedBuckets;
    var own := Ascii("tenants/") + Marker(tenant) + Ascii("/uploads/") <= key;
    var info := storage.objectInfo(reference);
    || (e == NoBucketConfigured && storage.allowedBuckets == {})
    || (e == BucketNotAllowed && storage.allowedBuckets != {} && !allowed)
    || (e == NotOwned && allowed && !own)
    || (e == CannotVerify && allowed && own && info == None)
    || (allowed && own && info.Some?
        && (|| (e == TooLarge && info.value.contentLength > storage.maxBytes)
            || (e == MarkerMismatch && info.value.contentLength <= storage.maxBytes && info.value.tenantMarker != Some(Marker(tenant)))
            || (e == MissingUploadId && info.value.contentLength <= storage.maxBytes
                && info.value.tenantMarker == Some(Marker(tenant)) && info.value.uploadId == [])))
  }

  /** Why an S3 reference is refused: it names no object, or else the first check fails that does. */
  lemma RefusedExactly(storage: Storage, reference: seq<Byte>, tenant: seq<Byte>, e: VerifyError)
    requires Ascii("s3://") <= reference
    ensures VerifyUploadS3Ref(storage, reference, tenant) == Err(e) <==>
            || (e == InvalidRef && forall bucket, slashes, key, rest :: !Refers(reference, bucket, slashes, key, rest))
            || exists bucket, slashes, key, rest ::
                 Refers(reference, bucket, slashes, key, rest) && Refused(storage, reference, bucket, key, tenant, e)
  {
    SchemeText();
    hide Refers, ParseS3Ref, Ascii, VerifyUploadS3Ref, Refused;
    if ParseS3Ref(reference).Some? {
      var (bucket, key) := ParseS3Ref(reference).value;
      ParsesReferenceExactly(reference, bucket, key);
      RefusedFor(storage, reference, tenant, bucket, key, e);
    } else {
      NamesNothing(storage, reference, tenant);
    }
    forall bucket, slashes, key, rest | Refers(reference, bucket, slashes, key, rest)
      ensures ParseS3Ref(reference) == Some((bucket, key))
    {
      ParsesReferenceExactly(reference, bucket, key);
    }
  }

  lemma NamesNothing(storage: Storage, reference: seq<Byte>, tenant: seq<Byte>)
    requires S3 <= reference && ParseS3Ref(reference) == None
    ensures VerifyUploadS3Ref(storage, reference, tenant) == Err(InvalidRef)
  {
    hide ParseS3Ref;
  }

  lemma RefusedFor(storage: Storage, reference: seq<Byte>, tenant: seq<Byte>, bucket: seq<Byte>, key: seq<Byte>, e: VerifyError)
    requires S3 <= reference && ParseS3Ref(reference) == Some((bucket, key))
    ensures VerifyUploadS3Ref(storage, reference, tenant) == Err(e) <==> Refused(storage, reference, bucket, key, tenant, e)
  {
    hide ParseS3Ref, OwnedBy, TenantMarker, Ascii, Marker;
    OwnedExactly(key, tenant);
  }

  predicate IsTenantUpload(storage: Storage, info: ObjectInfo, tenant: seq<Byte>) {
    info.contentLength <= storage.maxBytes && info.tenantMarker == Some(Marker(tenant)) && info.uploadId != []
  }
}

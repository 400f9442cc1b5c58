/** Tenant upload prefixes and the ownership check on S3 references (apps/answer-service/server.py). */
module TenantKeys {
  import opened Common
  import opened Percent

  const TENANTS: seq<Byte> := [0x74, 0x65, 0x6E, 0x61, 0x6E, 0x74, 0x73, SLASH]
  const UPLOADS: seq<Byte> := [SLASH, 0x75, 0x70, 0x6C, 0x6F, 0x61, 0x64, 0x73, SLASH]
  const S3: seq<Byte> := [0x73, 0x33, 0x3A, SLASH, SLASH]
  const QUESTION: Byte := 0x3F
  const HASH: Byte := 0x23
  const MARKER_LIMIT: nat := 180

  function Truncated(s: seq<Byte>): (r: seq<Byte>)
    ensures |r| <= MARKER_LIMIT && r <= s
  {
    if |s| <= MARKER_LIMIT then s else s[..MARKER_LIMIT]
  }

  /** The marker of a tenant: its percent-encoded id, cut at 180 characters. */
  function TenantMarker(tenant: seq<Byte>): seq<Byte> {
    Truncated(Quote(tenant))
  }

  function TenantUploadPrefix(tenant: seq<Byte>): seq<Byte> {
    TENANTS + TenantMarker(tenant) + UPLOADS
  }

  predicate OwnedBy(key: seq<Byte>, tenant: seq<Byte>) {
    TenantUploadPrefix(tenant) <= key
  }

  lemma MarkerSlashFree(tenant: seq<Byte>)
    ensures SLASH !in TenantMarker(tenant)
  {
    QuoteSlashFree(tenant);
  }

  lemma FirstSlash(a: seq<Byte>, b: seq<Byte>, key: seq<Byte>)
    requires SLASH !in a && SLASH !in b
    requires TENANTS + a + UPLOADS <= key && TENANTS + b + UPLOADS <= key
    requires |a| <= |b|
    ensures a == b
  {
    var n := |TENANTS|;
    assert forall i {:trigger a[i]} | 0 <= i < |a| :: a[i] == (TENANTS + a + UPLOADS)[n + i] == key[n + i];
    assert forall i {:trigger b[i]} | 0 <= i < |b| :: b[i] == (TENANTS + b + UPLOADS)[n + i] == key[n + i];
    assert (TENANTS + a + UPLOADS)[n + |a|] == SLASH == key[n + |a|];
    assert |a| == |b|;
  }

  /** The key spaces of two tenants overlap exactly when their markers agree. */
  lemma SpacesOverlapExactly(s: seq<Byte>, t: seq<Byte>)
    ensures (exists key :: OwnedBy(key, s) && OwnedBy(key, t)) <==> TenantMarker(s) == TenantMarker(t)
  {
    MarkerSlashFree(s);
    MarkerSlashFree(t);
    if key :| OwnedBy(key, s) && OwnedBy(key, t) {
      if |TenantMarker(s)| <= |TenantMarker(t)| {
        FirstSlash(TenantMarker(s), TenantMarker(t), key);
      } else {
        FirstSlash(TenantMarker(t), TenantMarker(s), key);
      }
    }
    if TenantMarker(s) == TenantMarker(t) {
      assert OwnedBy(TenantUploadPrefix(s), s) && OwnedBy(TenantUploadPrefix(s), t);
    }
  }

  /** Tenants whose encoded ids fit the limit have disjoint key spaces. */
  lemma ShortTenantsAreDisjoint(s: seq<Byte>, t: seq<Byte>, key: seq<Byte>)
    requires |Quote(s)| <= MARKER_LIMIT && |Quote(t)| <= MARKER_LIMIT
    requires OwnedBy(key, s) && OwnedBy(key, t)
    ensures s == t
  {
    SpacesOverlapExactly(s, t);
    QuoteInjective(s, t);
  }

  /** A tenant shares no key with any other tenant exactly when its encoded id is shorter than the
      limit; from 180 characters on, the tenant named by one more letter shares its whole space. */
  lemma IsolatedExactly(t: seq<Byte>)
    ensures |Quote(t)| < MARKER_LIMIT <==>
            forall other, key | OwnedBy(key, t) && OwnedBy(key, other) :: other == t
  {
    if |Quote(t)| < MARKER_LIMIT {
      forall other, key | OwnedBy(key, t) && OwnedBy(key, other) ensures other == t {
        SpacesOverlapExactly(t, other);
        assert |Quote(other)| < MARKER_LIMIT;
        QuoteInjective(t, other);
      }
    } else {
      var other: seq<Byte> := t + [0x61];
      QuoteConcat(t, [0x61]);
      assert Quote([0x61]) == [0x61] + Quote([0x61][1..]);
      assert Quote(other) == Quote(t) + [0x61];
      assert TenantMarker(other) == TenantMarker(t);
      SpacesOverlapExactly(t, other);
      assert |other| != |t|;
    }
  }

  // ----- S3 references -----

  function Until(s: seq<Byte>, stops: set<Byte>): (n: nat)
    ensures n <= |s| && (forall i | 0 <= i < n :: s[i] !in stops) && (n < |s| ==> s[n] in stops)
  {
    if s == [] || s[0] in stops then 0 else 1 + Until(s[1..], stops)
  }

  function StripSlashes(s: seq<Byte>): seq<Byte> {
    if s != [] && s[0] == SLASH then StripSlashes(s[1..]) else s
  }

  /** Bucket and key of `s3://bucket/key`; a query or fragment part is not in the key. */
  function ParseS3Ref(reference: seq<Byte>): Option<(seq<Byte>, seq<Byte>)> {
    if !(S3 <= reference) then None
    else
      var rest := reference[|S3|..];
      var n := Until(rest, {SLASH, QUESTION, HASH});
      var tail := rest[n..];
      var key := StripSlashes(tail[..Until(tail, {QUESTION, HASH})]);
      if n == 0 || key == [] then None else Some((rest[..n], key))
  }

  function RecordRef(bucket: seq<Byte>, key: seq<Byte>): seq<Byte> {
    S3 + bucket + [SLASH] + key
  }

  lemma {:induction false} UntilOf(a: seq<Byte>, rest: seq<Byte>, stops: set<Byte>)
    requires (forall i | 0 <= i < |a| :: a[i] !in stops) && (rest == [] || rest[0] in stops)
    ensures Until(a + rest, stops) == |a|
  {
    if a == [] {
      assert a + rest == rest;
    } else {
      assert (a + rest)[1..] == a[1..] + rest;
      UntilOf(a[1..], rest, stops);
    }
  }

  predicate PlainBucket(bucket: seq<Byte>) {
    bucket != [] && SLASH !in bucket && QUESTION !in bucket && HASH !in bucket
  }

  predicate PlainKey(key: seq<Byte>) {
    key != [] && key[0] != SLASH && QUESTION !in key && HASH !in key
  }

  lemma StrippedHead(s: seq<Byte>)
    ensures var r := StripSlashes(s); (r != [] ==> r[0] != SLASH) && forall b | b in r :: b in s
  {
  }

  lemma PlainRecordParses(bucket: seq<Byte>, key: seq<Byte>)
    requires PlainBucket(bucket) && PlainKey(key)
    ensures ParseS3Ref(RecordRef(bucket, key)) == Some((bucket, key))
  {
    hide Until;
    var reference := RecordRef(bucket, key);
    var rest := bucket + ([SLASH] + key);
    assert reference[|S3|..] == rest && S3 <= reference;
    UntilOf(bucket, [SLASH] + key, {SLASH, QUESTION, HASH});
    assert rest[|bucket|..] == [SLASH] + key && rest[..|bucket|] == bucket;
    UntilOf([SLASH] + key, [], {QUESTION, HASH});
    assert [SLASH] + key + [] == [SLASH] + key;
    assert ([SLASH] + key)[..|key| + 1] == [SLASH] + key && ([SLASH] + key)[1..] == key;
    assert StripSlashes([SLASH] + key) == StripSlashes(key) == key;
  }

  /** Whatever a reference parses to is plain. */
  lemma ParsedIsPlain(reference: seq<Byte>)
    requires ParseS3Ref(reference).Some?
    ensures PlainBucket(ParseS3Ref(reference).value.0) && PlainKey(ParseS3Ref(reference).value.1)
  {
    hide Until, StripSlashes;
    var rest := reference[|S3|..];
    var n := Until(rest, {SLASH, QUESTION, HASH});
    var tail := rest[n..];
    var path := tail[..Until(tail, {QUESTION, HASH})];
    StrippedHead(path);
  }

  /** The reference built from an upload record names the recorded bucket and key exactly when
      neither holds a byte that ends its part of the reference. */
  lemma RecordRefParsesExactly(bucket: seq<Byte>, key: seq<Byte>)
    ensures ParseS3Ref(RecordRef(bucket, key)) == Some((bucket, key)) <==> PlainBucket(bucket) && PlainKey(key)
  {
    hide ParseS3Ref, RecordRef, PlainBucket, PlainKey;
    if PlainBucket(bucket) && PlainKey(key) { PlainRecordParses(bucket, key); }
    if ParseS3Ref(RecordRef(bucket, key)).Some? { ParsedIsPlain(RecordRef(bucket, key)); }
  }

  // ----- The ownership check -----

  datatype ObjectInfo = ObjectInfo(contentLength: int, tenantMarker: Option<seq<Byte>>, uploadId: seq<Byte>)

  datatype Storage = Storage(allowedBuckets: set<seq<Byte>>, maxBytes: int, objectInfo: seq<Byte> -> Option<ObjectInfo>)

  datatype VerifyError =
    | InvalidRef | NoBucketConfigured | BucketNotAllowed | NotOwned | CannotVerify | TooLarge | MarkerMismatch | MissingUploadId

  function VerifyUploadS3Ref(storage: Storage, reference: seq<Byte>, tenant: seq<Byte>): Result<(), VerifyError> {
    if !(S3 <= reference) then Ok(())
    else
      match ParseS3Ref(reference)
      case None => Err(InvalidRef)
      case Some((bucket, key)) =>
        if storage.allowedBuckets == {} then Err(NoBucketConfigured)
        else if bucket !in storage.allowedBuckets then Err(BucketNotAllowed)
        else if !OwnedBy(key, tenant) then Err(NotOwned)
        else
          match storage.objectInfo(reference)
          case None => Err(CannotVerify)
          case Some(info) =>
            if info.contentLength > storage.maxBytes then Err(TooLarge)
            else if info.tenantMarker != Some(TenantMarker(tenant)) then Err(MarkerMismatch)
            else if info.uploadId == [] then Err(MissingUploadId)
            else Ok(())
  }

  /** One S3 reference passes the check for two tenants only when their markers agree; for tenants
      within the limit that makes them one tenant. */
  lemma AcceptedForOneTenant(storage: Storage, reference: seq<Byte>, s: seq<Byte>, t: seq<Byte>)
    requires S3 <= reference
    requires VerifyUploadS3Ref(storage, reference, s).Ok? && VerifyUploadS3Ref(storage, reference, t).Ok?
    ensures TenantMarker(s) == TenantMarker(t)
    ensures |Quote(s)| < MARKER_LIMIT || (|Quote(s)| <= MARKER_LIMIT && |Quote(t)| <= MARKER_LIMIT) ==> s == t
  {
    var key := ParseS3Ref(reference).value.1;
    assert OwnedBy(key, s) && OwnedBy(key, t);
    hide *;
    SpacesOverlapExactly(s, t);
    IsolatedExactly(s);
    if |Quote(s)| <= MARKER_LIMIT && |Quote(t)| <= MARKER_LIMIT { ShortTenantsAreDisjoint(s, t, key); }
  }
}

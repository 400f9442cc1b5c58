/** Upload provenance: registration and one-time ingest of an upload
    (apps/answer-service/server.py, src/raku_rag/persistence/uploads.py). */
module Uploads {
  import opened Common
  import opened Percent
  import opened TenantKeys

  type Id = seq<Byte>

  datatype Record = Record(bucket: seq<Byte>, objectKey: seq<Byte>, expiresAt: Option<int>, consumedBy: Option<Id>)

  datatype JobStatus = Queued | Running | Succeeded | Failed | DeadLetter {
    predicate Accepted() { Queued? || Running? || Succeeded? }
  }

  datatype Job = Job(tenant: Id, uploadId: Id, reference: seq<Byte>, status: JobStatus, runId: Id)

  datatype Registration = Registration(tenant: Id, uploadId: Id, bucket: seq<Byte>, objectKey: seq<Byte>, expiresAt: Option<int>)

  /** An ingest request together with what the environment answers: the storage, whether the fetch
      succeeds, the reference staging returns for a non-S3 upload, and the outcome of the job. */
  datatype IngestRequest = IngestRequest(
    tenant: Id, hasRequiredFields: bool, uploadId: Id, documentRef: seq<Byte>, now: int, strict: bool,
    storage: Storage, fetchable: bool, staged: seq<Byte>, outcome: JobStatus, runId: Id)

  datatype Reply =
    | Registered | Conflict | MissingField
    | UnknownUpload | AlreadyConsumed | Expired | RefMismatch | UploadIdRequired | InvalidS3Ref | FetchFailed
    | Ran(job: Job)

  datatype State = State(records: map<(Id, Id), Record>, jobs: seq<Job>)

  function RegisterStep(s: State, r: Registration): (State, Reply) {
    if r.uploadId == [] || r.bucket == [] || r.objectKey == [] then (s, MissingField)
    else if (r.tenant, r.uploadId) in s.records then (s, Conflict)
    else
      (s.(records := s.records[(r.tenant, r.uploadId) := Record(r.bucket, r.objectKey, r.expiresAt, None)]), Registered)
  }

  /** The reference an ingest will use, or the reply that refuses it. */
  function ResolveReference(s: State, q: IngestRequest): Result<seq<Byte>, Reply> {
    if q.uploadId != [] then
      if (q.tenant, q.uploadId) !in s.records then Err(UnknownUpload)
      else
        var record := s.records[(q.tenant, q.uploadId)];
        if record.consumedBy.Some? then Err(AlreadyConsumed)
        else if record.expiresAt.Some? && record.expiresAt.value < q.now then Err(Expired)
        else if q.documentRef != [] && q.documentRef != RecordRef(record.bucket, record.objectKey) then Err(RefMismatch)
        else Ok(RecordRef(record.bucket, record.objectKey))
    else if q.documentRef == [] then Err(MissingField)
    else if q.strict && S3 <= q.documentRef then Err(UploadIdRequired)
    else Ok(q.documentRef)
  }

  function IngestStep(s: State, q: IngestRequest): (State, Reply) {
    if !q.hasRequiredFields then (s, MissingField)
    else
      match ResolveReference(s, q)
      case Err(reply) => (s, reply)
      case Ok(reference) =>
        if VerifyUploadS3Ref(q.storage, reference, q.tenant).Err? then (s, InvalidS3Ref)
        else if !q.fetchable then (s, FetchFailed)
        else
          var job := Job(q.tenant, q.uploadId, if S3 <= reference then reference else q.staged, q.outcome, q.runId);
          var records := if q.uploadId != [] && q.outcome.Accepted() then MarkConsumed(s.records, q.tenant, q.uploadId, q.runId) else s.records;
          (State(records, s.jobs + [job]), Ran(job))
  }

  function MarkConsumed(records: map<(Id, Id), Record>, tenant: Id, uploadId: Id, runId: Id): map<(Id, Id), Record> {
    if (tenant, uploadId) in records && records[(tenant, uploadId)].consumedBy.None? then
      records[(tenant, uploadId) := records[(tenant, uploadId)].(consumedBy := Some(runId))]
    else records
  }

  /** The service with its record store; every request changes it as the step functions say. */
  class UploadService {
    var records: map<(Id, Id), Record>
    ghost var jobs: seq<Job>

    ghost function Now(): State
      reads this
    {
      State(records, jobs)
    }

    method Register(r: Registration) returns (reply: Reply)
      modifies this
      ensures (Now(), reply) == RegisterStep(old(Now()), r)
    {
      if r.uploadId == [] || r.bucket == [] || r.objectKey == [] { return MissingField; }
      if (r.tenant, r.uploadId) in records { return Conflict; }
      records := records[(r.tenant, r.uploadId) := Record(r.bucket, r.objectKey, r.expiresAt, None)];
      reply := Registered;
    }

    method Ingest(q: IngestRequest) returns (reply: Reply)
      modifies this
      ensures (Now(), reply) == IngestStep(old(Now()), q)
    {
      if !q.hasRequiredFields { return MissingField; }
      var reference := q.documentRef;
      if q.uploadId != [] {
        if (q.tenant, q.uploadId) !in records { return UnknownUpload; }
        var record := records[(q.tenant, q.uploadId)];
        if record.consumedBy.Some? { return AlreadyConsumed; }
        if record.expiresAt.Some? && record.expiresAt.value < q.now { return Expired; }
        var recordRef := RecordRef(record.bucket, record.objectKey);
        if q.documentRef != [] && q.documentRef != recordRef { return RefMismatch; }
        reference := recordRef;
      } else if q.documentRef == [] {
        return MissingField;
      } else if q.strict && S3 <= q.documentRef {
        return UploadIdRequired;
      }
      var verified := VerifyUploadS3Ref(q.storage, reference, q.tenant);
      if verified.Err? { return InvalidS3Ref; }
      if !q.fetchable { return FetchFailed; }
      var job := Job(q.tenant, q.uploadId, if S3 <= reference then reference else q.staged, q.outcome, q.runId);
      if q.uploadId != [] && q.outcome.Accepted() {
        records := MarkConsumed(records, q.tenant, q.uploadId, q.runId);
      }
      jobs := jobs + [job];
      reply := Ran(job);
    }
  }

  // ----- When an ingest runs -----

  /** The upload named by the request may be ingested now: it is registered for this tenant, not
      consumed, not expired, and the request names no other reference. */
  predicate UploadIsOpen(s: State, q: IngestRequest) {
    && (q.tenant, q.uploadId) in s.records
    && var record := s.records[(q.tenant, q.uploadId)];
      && record.consumedBy == None
      && (record.expiresAt == None || record.expiresAt.value >= q.now)
      && (q.documentRef == [] || q.documentRef == RecordRef(record.bucket, record.objectKey))
  }

  /** The request names no upload but a reference of its own, which strict mode lets pass only when it
      is no S3 reference. */
  predicate OwnReferenceIsAllowed(q: IngestRequest) {
    q.documentRef != [] && !(q.strict && S3 <= q.documentRef)
  }

  /** The object that would be ingested passes the storage check and can be fetched. */
  predicate CanBeFetched(q: IngestRequest, reference: seq<Byte>) {
    VerifyUploadS3Ref(q.storage, reference, q.tenant).Ok? && q.fetchable
  }

  /** An ingest runs a job exactly when the required fields are present and either its upload is open,
      or it names an allowed reference of its own, and that object can be fetched. Otherwise nothing
      changes; and an open upload is consumed exactly by an accepted outcome. */
  lemma IngestRunsExactly(s: State, q: IngestRequest)
    ensures IngestStep(s, q).1.Ran? <==>
      && q.hasRequiredFields
      && if q.uploadId != []
         then UploadIsOpen(s, q)
              && CanBeFetched(q, RecordRef(s.records[(q.tenant, q.uploadId)].bucket, s.records[(q.tenant, q.uploadId)].objectKey))
         else OwnReferenceIsAllowed(q) && CanBeFetched(q, q.documentRef)
    ensures !IngestStep(s, q).1.Ran? ==> IngestStep(s, q).0 == s
    ensures IngestStep(s, q).1.Ran? ==>
      var job := IngestStep(s, q).1.job;
      && IngestStep(s, q).0.jobs == s.jobs + [job] && IngestStep(s, q).0.records.Keys == s.records.Keys
      && job.tenant == q.tenant && job.uploadId == q.uploadId && job.status == q.outcome && job.runId == q.runId
      && (q.uploadId == [] ==> job.reference == if S3 <= q.documentRef then q.documentRef else q.staged)
      && (forall k | k in s.records && (k != (q.tenant, q.uploadId) || q.uploadId == []) ::
            k in IngestStep(s, q).0.records && IngestStep(s, q).0.records[k] == s.records[k])
      && (q.uploadId != [] ==>
            IngestStep(s, q).0.records[(q.tenant, q.uploadId)]
            == s.records[(q.tenant, q.uploadId)].(consumedBy := if q.outcome in {Queued, Running, Succeeded} then Some(q.runId) else None))
  {
    hide VerifyUploadS3Ref, RecordRef;
  }

  /** Which refusal an ingest of an upload gets, in the order the checks are made. */
  lemma RefusalReasons(s: State, q: IngestRequest)
    requires q.hasRequiredFields && q.uploadId != []
    ensures var reply, key := IngestStep(s, q).1, (q.tenant, q.uploadId);
      && (reply == UnknownUpload <==> key !in s.records)
      && (reply == AlreadyConsumed <==> key in s.records && s.records[key].consumedBy != None)
      && (reply == Expired <==>
            && key in s.records && s.records[key].consumedBy == None
            && s.records[key].expiresAt != None && s.records[key].expiresAt.value < q.now)
      && reply !in {MissingField, UploadIdRequired}
    ensures UploadIsOpen(s, q.(documentRef := [])) ==>
      var reply, reference := IngestStep(s, q).1, RecordRef(s.records[(q.tenant, q.uploadId)].bucket, s.records[(q.tenant, q.uploadId)].objectKey);
      && (reply == RefMismatch <==> q.documentRef != [] && q.documentRef != reference)
      && (reply == InvalidS3Ref <==> reply != RefMismatch && VerifyUploadS3Ref(q.storage, reference, q.tenant).Err?)
      && (reply == FetchFailed <==> reply != RefMismatch && reply != InvalidS3Ref && !q.fetchable)
  {
    hide VerifyUploadS3Ref, RecordRef;
  }

  /** A registration is taken exactly when it is complete and its upload is new; it then opens that
      upload as given and touches nothing else. */
  lemma RegistersExactly(s: State, r: Registration)
    ensures RegisterStep(s, r).1.Registered? <==>
      r.uploadId != [] && r.bucket != [] && r.objectKey != [] && (r.tenant, r.uploadId) !in s.records
    ensures !RegisterStep(s, r).1.Registered? ==> RegisterStep(s, r).0 == s
    ensures RegisterStep(s, r).1.Registered? ==>
      && RegisterStep(s, r).0.jobs == s.jobs
      && RegisterStep(s, r).0.records.Keys == s.records.Keys + {(r.tenant, r.uploadId)}
      && RegisterStep(s, r).0.records[(r.tenant, r.uploadId)] == Record(r.bucket, r.objectKey, r.expiresAt, None)
      && forall k | k in s.records :: RegisterStep(s, r).0.records[k] == s.records[k]
  {
  }

  // ----- Runs -----

  datatype Request = Register(r: Registration) | Ingest(q: IngestRequest)

  function Step(s: State, request: Request): State {
    match request
    case Register(r) => RegisterStep(s, r).0
    case Ingest(q) => IngestStep(s, q).0
  }

  function Run(s: State, requests: seq<Request>): State
    decreases requests
  {
    if requests == [] then s else Run(Step(s, requests[0]), requests[1..])
  }

  /** A run is its requests one after another. */
  lemma {:induction false} RunAppends(s: State, requests: seq<Request>, request: Request)
    ensures Run(s, []) == s
    ensures Run(s, requests + [request]) == var before := Run(s, requests);
      if request.Register? then RegisterStep(before, request.r).0 else IngestStep(before, request.q).0
    decreases |requests|
  {
    hide RegisterStep, IngestStep;
    if requests == [] {
      assert [] + [request] == [request] && [request][1..] == [];
    } else {
      var all := requests + [request];
      assert all[1..] == requests[1..] + [request] && all[0] == requests[0];
      RunAppends(Step(s, requests[0]), requests[1..], request);
    }
  }

  const EMPTY: State := State(map[], [])

  /** The accepted jobs of one upload, in order. */
  function AcceptedJobs(jobs: seq<Job>, tenant: Id, uploadId: Id): seq<Job> {
    if jobs == [] then []
    else
      var last := jobs[|jobs| - 1];
      AcceptedJobs(jobs[..|jobs| - 1], tenant, uploadId)
      + if last.tenant == tenant && last.uploadId == uploadId && last.status.Accepted() then [last] else []
  }

  /** The upload has exactly the accepted job its record is consumed by, or none. */
  ghost predicate AcceptedOnce(s: State, t: Id, u: Id) {
    if (t, u) in s.records && s.records[(t, u)].consumedBy.Some? then
      var accepted := AcceptedJobs(s.jobs, t, u);
      |accepted| == 1 && accepted[0].runId == s.records[(t, u)].consumedBy.value
    else AcceptedJobs(s.jobs, t, u) == []
  }

  ghost predicate RanOnRecord(s: State, j: Job) {
    && (j.tenant, j.uploadId) in s.records
    && var record := s.records[(j.tenant, j.uploadId)];
      j.reference == RecordRef(record.bucket, record.objectKey)
  }

  /** The object a job's reference names lies in its tenant's key space, and it is the registered one
      exactly when the registered bucket and key hold no byte that ends their part of a reference. */
  ghost predicate NamesOwnObject(s: State, j: Job)
    requires (j.tenant, j.uploadId) in s.records
  {
    var named, record := ParseS3Ref(j.reference), s.records[(j.tenant, j.uploadId)];
    && named.Some? && OwnedBy(named.value.1, j.tenant)
    && (named == Some((record.bucket, record.objectKey)) <==> PlainBucket(record.bucket) && PlainKey(record.objectKey))
  }

  ghost predicate Sound(s: State) {
    && (forall t, u | u != [] :: AcceptedOnce(s, t, u))
    && (forall j | j in s.jobs && j.uploadId != [] :: RanOnRecord(s, j) && NamesOwnObject(s, j))
  }

  /** A record, once there, keeps its object, its expiry and, once consumed, its consumer. */
  ghost predicate Preserves(s: State, t: State) {
    && (forall k | k in s.records :: k in t.records
          && t.records[k].bucket == s.records[k].bucket && t.records[k].objectKey == s.records[k].objectKey
          && t.records[k].expiresAt == s.records[k].expiresAt
          && (s.records[k].consumedBy.Some? ==> t.records[k].consumedBy == s.records[k].consumedBy))
    && s.jobs <= t.jobs
  }

  lemma RegisterKeepsSound(s: State, r: Registration)
    requires Sound(s)
    ensures Sound(RegisterStep(s, r).0) && Preserves(s, RegisterStep(s, r).0)
  {
    hide RecordRef;
    var next := RegisterStep(s, r).0;
    forall t, u | u != [] ensures AcceptedOnce(next, t, u) { assert AcceptedOnce(s, t, u); }
    forall j | j in next.jobs && j.uploadId != [] ensures RanOnRecord(next, j) && NamesOwnObject(next, j) {
      assert RanOnRecord(s, j) && NamesOwnObject(s, j);
    }
  }

  lemma RecordRefIsS3(bucket: seq<Byte>, objectKey: seq<Byte>)
    ensures S3 <= RecordRef(bucket, objectKey)
  {
  }

  lemma AcceptedSplit(jobs: seq<Job>, job: Job, t: Id, u: Id)
    ensures AcceptedJobs(jobs + [job], t, u)
         == AcceptedJobs(jobs, t, u) + if job.tenant == t && job.uploadId == u && job.status.Accepted() then [job] else []
  {
    assert (jobs + [job])[..|jobs|] == jobs;
  }

  lemma AcceptedAfter(s: State, q: IngestRequest, t: Id, u: Id)
    requires IngestStep(s, q).1.Ran? && u != [] && AcceptedOnce(s, t, u)
    ensures AcceptedOnce(IngestStep(s, q).0, t, u)
  {
    hide VerifyUploadS3Ref, RecordRef, AcceptedJobs;
    var next, job := IngestStep(s, q).0, IngestStep(s, q).1.job;
    assert next.jobs == s.jobs + [job];
    AcceptedSplit(s.jobs, job, t, u);
  }

  lemma JobRanOnRecord(s: State, q: IngestRequest)
    requires IngestStep(s, q).1.Ran? && q.uploadId != []
    ensures RanOnRecord(s, IngestStep(s, q).1.job)
  {
    hide VerifyUploadS3Ref, RecordRef, MarkConsumed;
    var record := s.records[(q.tenant, q.uploadId)];
    RecordRefIsS3(record.bucket, record.objectKey);
  }

  /** What a job ran on: the fetch goes to the object its reference names. */
  lemma JobNamesOwnObject(s: State, q: IngestRequest)
    requires IngestStep(s, q).1.Ran? && q.uploadId != []
    ensures var job := IngestStep(s, q).1.job; (job.tenant, job.uploadId) in s.records && NamesOwnObject(s, job)
  {
    hide RecordRef, MarkConsumed, ParseS3Ref, OwnedBy, PlainBucket, PlainKey, TenantMarker;
    var record := s.records[(q.tenant, q.uploadId)];
    JobRanOnRecord(s, q);
    RecordRefIsS3(record.bucket, record.objectKey);
    VerifiedNames(q.storage, RecordRef(record.bucket, record.objectKey), q.tenant);
    RecordRefParsesExactly(record.bucket, record.objectKey);
  }

  lemma VerifiedNames(storage: Storage, reference: seq<Byte>, tenant: Id)
    requires S3 <= reference && VerifyUploadS3Ref(storage, reference, tenant).Ok?
    ensures ParseS3Ref(reference).Some? && OwnedBy(ParseS3Ref(reference).value.1, tenant)
  {
  }

  lemma IngestPreserves(s: State, q: IngestRequest)
    ensures Preserves(s, IngestStep(s, q).0)
  {
    hide VerifyUploadS3Ref, RecordRef;
  }

  lemma IngestKeepsSound(s: State, q: IngestRequest)
    requires Sound(s)
    ensures Sound(IngestStep(s, q).0) && Preserves(s, IngestStep(s, q).0)
  {
    hide VerifyUploadS3Ref, RecordRef, AcceptedOnce, MarkConsumed, ResolveReference, ParseS3Ref, OwnedBy, PlainBucket, PlainKey;
    IngestPreserves(s, q);
    var next := IngestStep(s, q).0;
    if IngestStep(s, q).1.Ran? {
      if q.uploadId != [] {
        JobRanOnRecord(s, q);
        JobNamesOwnObject(s, q);
      }
      forall t, u | u != [] ensures AcceptedOnce(next, t, u) { AcceptedAfter(s, q, t, u); }
      forall j | j in next.jobs && j.uploadId != [] ensures RanOnRecord(next, j) && NamesOwnObject(next, j) {
        assert RanOnRecord(s, j) && NamesOwnObject(s, j);
      }
    }
  }

  /** Over every sequence of requests: each upload has at most one accepted job, its reference spells the
      registered bucket and key and names an object of its tenant, the registered one exactly when
      they are plain, and no record is reopened or overwritten. */
  lemma {:induction false} RunIsSound(s: State, requests: seq<Request>)
    requires Sound(s)
    ensures Sound(Run(s, requests)) && Preserves(s, Run(s, requests))
    decreases requests
  {
    if requests != [] {
      match requests[0] {
        case Register(r) => RegisterKeepsSound(s, r);
        case Ingest(q) => IngestKeepsSound(s, q);
      }
      RunIsSound(Step(s, requests[0]), requests[1..]);
    }
  }

  lemma EmptyIsSound()
    ensures Sound(EMPTY)
  {
  }

  /** Once an ingest of an upload is accepted, no later ingest of it runs, whatever happens between. */
  lemma ReplayIsRefused(s: State, q: IngestRequest, between: seq<Request>, again: IngestRequest)
    requires Sound(s) && q.uploadId != [] && again.uploadId == q.uploadId && again.tenant == q.tenant
    requires IngestStep(s, q).1.Ran? && q.outcome.Accepted()
    ensures !IngestStep(Run(IngestStep(s, q).0, between), again).1.Ran?
  {
    IngestKeepsSound(s, q);
    RunIsSound(IngestStep(s, q).0, between);
    assert (q.tenant, q.uploadId) in IngestStep(s, q).0.records;
  }

  /** Failures leave the upload usable: whatever happens after a job of an upload, the same request runs
      again exactly when no job of that upload has been accepted, and an accepted outcome then
      consumes the record. */
  lemma UsableUntilAccepted(s: State, q: IngestRequest, between: seq<Request>, outcome: JobStatus)
    requires Sound(s) && q.uploadId != [] && IngestStep(s, q).1.Ran?
    ensures var after := Run(IngestStep(s, q).0, between);
      var retry := IngestStep(after, q.(outcome := outcome));
      && (retry.1.Ran? <==> AcceptedJobs(after.jobs, q.tenant, q.uploadId) == [])
      && (retry.1.Ran? && outcome.Accepted() ==>
            (q.tenant, q.uploadId) in retry.0.records && retry.0.records[(q.tenant, q.uploadId)].consumedBy == Some(q.runId))
  {
    var first := IngestStep(s, q).0;
    var after := Run(first, between);
    IngestKeepsSound(s, q);
    RunIsSound(first, between);
    KeptRecord(s, q, after);
    hide Run, Sound, Preserves;
    OpenOrConsumed(after, q);
    SameAnswer(s, after, q, outcome);
  }

  lemma KeptRecord(s: State, q: IngestRequest, after: State)
    requires q.uploadId != [] && IngestStep(s, q).1.Ran? && Preserves(s, IngestStep(s, q).0) && Preserves(IngestStep(s, q).0, after)
    ensures (q.tenant, q.uploadId) in s.records && (q.tenant, q.uploadId) in after.records
    ensures var before, now := s.records[(q.tenant, q.uploadId)], after.records[(q.tenant, q.uploadId)];
      before == now.(consumedBy := None)
  {
    hide VerifyUploadS3Ref, RecordRef, MarkConsumed;
    assert (q.tenant, q.uploadId) in IngestStep(s, q).0.records;
  }

  lemma OpenOrConsumed(s: State, q: IngestRequest)
    requires Sound(s) && q.uploadId != [] && (q.tenant, q.uploadId) in s.records
    ensures s.records[(q.tenant, q.uploadId)].consumedBy.None? <==> AcceptedJobs(s.jobs, q.tenant, q.uploadId) == []
  {
    assert AcceptedOnce(s, q.tenant, q.uploadId);
  }

  lemma SameAnswer(s: State, after: State, q: IngestRequest, outcome: JobStatus)
    requires q.uploadId != [] && IngestStep(s, q).1.Ran?
    requires (q.tenant, q.uploadId) in s.records && (q.tenant, q.uploadId) in after.records
    requires s.records[(q.tenant, q.uploadId)] == after.records[(q.tenant, q.uploadId)].(consumedBy := None)
    ensures var retry := IngestStep(after, q.(outcome := outcome));
      && (retry.1.Ran? <==> after.records[(q.tenant, q.uploadId)].consumedBy.None?)
      && (retry.1.Ran? && outcome.Accepted() ==>
            (q.tenant, q.uploadId) in retry.0.records && retry.0.records[(q.tenant, q.uploadId)].consumedBy == Some(q.runId))
  {
    hide VerifyUploadS3Ref, RecordRef;
  }
}

/**
 * `process_record` and `lambda_handler`: one SQS message carrying a link to a
 * judgement PDF is fetched, stored in the input bucket, announced to the DS
 * API as a job, and recorded in the `judgements-table` with status
 * `pending ocr`.
 *
 * The two stores the handler writes (the S3 input bucket and the DynamoDB
 * table) are the fields of `Services`. What the network answers (the HTTP
 * GET, the S3 write, the POST and the table write) is not computed here: the
 * caller supplies it as `Replies`, and the model says what the handler does
 * with each answer. `Process` is the specification of one message;
 * `Services.ProcessRecord` carries it out step by step.
 */
module Pipeline {
  import opened Wrappers
  import opened Text
  import opened Url
  import opened Naming

  type Bytes = seq<bv8>

  const DsApiUrl: string := "https://jsonplaceholder.typicode.com/posts"
  const TableName: string := "judgements-table"
  const PdfContentType: string := "application/pdf"
  const PendingOcr: string := "pending ocr"
  /** The `job_id` field the request payload still carries. */
  const RequestJobId: string := "1234"

  /** An object of the input bucket: its body and its content type. */
  datatype StoredObject = StoredObject(body: Bytes, contentType: string)

  /** A DynamoDB attribute value, as far as a decoded JSON `job_id` can give one. */
  datatype AttrValue = Str(s: string) | Num(n: int) | Bool(b: bool) | Null

  /** A table item: attribute name to value. */
  type Item = map<string, AttrValue>

  /** The table: partition key `uniqueId` to item. */
  type Table = map<string, Item>

  /** Both stores the handler writes. */
  datatype Stores = Stores(objects: map<string, StoredObject>, table: Table)

  /** The message as `json.loads(record['body'])` leaves it. */
  datatype Record =
    | Undecodable                    // no `body`, or a body that is not a JSON object
    | Decoded(link: Option<string>)  // the `judgementPdfLink` field, if present and not null

  /** What `requests.get` followed by `raise_for_status` gives. */
  datatype FetchReply = Fetched(content: Bytes) | FetchFailed

  /** What a write to S3 or to the table gives. */
  datatype WriteReply = Written | WriteFailed

  /**
   * What the POST to the DS API gives: on a 2xx answer whose JSON is an
   * object, the `job_id` field if it is there.
   */
  datatype PostReply = Accepted(jobField: Option<AttrValue>) | PostFailed

  /** The answers the outside world gives to the four calls, in order. */
  datatype Replies = Replies(fetch: FetchReply, put: WriteReply, post: PostReply, update: WriteReply)

  /** The JSON payload of the POST. */
  datatype JobRequest = JobRequest(inputFilePath: string, outputFilePath: string, jobId: string)

  /** An outgoing call, with every argument the handler passes. */
  datatype Call =
    | Get(url: string)
    | PutObject(bucket: string, key: string, body: Bytes, contentType: string)
    | PostJob(endpoint: string, request: JobRequest)
    | UpdateItem(tableName: string, uniqueId: string, status: string, job: AttrValue)

  /** The step whose exception `process_record` lets escape. */
  datatype Stage = Decode | Fetch | Put | Post | Id(error: IdError) | Update

  datatype Outcome =
    | Skipped                                  // no link: returns without a call
    | Recorded(uniqueId: string, job: AttrValue) // every step succeeded
    | Raised(stage: Stage)

  /** The result of handling one message: how it ended, the calls made, the stores after. */
  datatype Run = Run(outcome: Outcome, calls: seq<Call>, stores: Stores)

  /** Position of a call in the fixed order GET, PUT, POST, UPDATE. */
  function Rank(c: Call): nat
  {
    match c
    case Get(_) => 0
    case PutObject(_, _, _, _) => 1
    case PostJob(_, _) => 2
    case UpdateItem(_, _, _, _) => 3
  }

  /** How many calls a run with this outcome has made. */
  function CallsMade(o: Outcome): nat
  {
    match o
    case Skipped => 0
    case Recorded(_, _) => 4
    case Raised(stage) =>
      match stage
      case Decode => 0
      case Fetch => 1
      case Put => 2
      case Post => 3
      case Id(_) => 3
      case Update => 4
  }

  // ---------------------------------------------------------------------------
  // The table update

  /** Every item holds its own key under `uniqueId`, as DynamoDB keeps it. */
  predicate Keyed(t: Table)
  {
    forall k :: k in t ==> "uniqueId" in t[k] && t[k]["uniqueId"] == Str(k)
  }

  /**
   * `update_item` with `SET #status = :status, #job = :job` on the key
   * `uniqueId = id`: an upsert that creates the item when it is missing.
   */
  function Upsert(t: Table, id: string, job: AttrValue): (t': Table)
    ensures t'.Keys == t.Keys + {id}
    ensures id in t ==> t'[id].Keys == t[id].Keys + {"status", "jobId"}
    ensures id !in t ==> t'[id].Keys == {"uniqueId", "status", "jobId"}
    ensures t'[id]["status"] == Str(PendingOcr) && t'[id]["jobId"] == job
    ensures id !in t ==> t'[id]["uniqueId"] == Str(id)
    ensures id in t ==> forall a :: a in t[id] && a != "status" && a != "jobId" ==> t'[id][a] == t[id][a]
    ensures forall k :: k in t && k != id ==> t'[k] == t[k]
    ensures Keyed(t) ==> Keyed(t')
  {
    var base := if id in t then t[id] else map["uniqueId" := Str(id)];
    t[id := base["status" := Str(PendingOcr)]["jobId" := job]]
  }

  /** A second update of the same item overrides the first: only the last job id stays. */
  lemma UpsertOverrides(t: Table, id: string, job1: AttrValue, job2: AttrValue)
    ensures Upsert(Upsert(t, id, job1), id, job2) == Upsert(t, id, job2)
  {
    var base := if id in t then t[id] else map["uniqueId" := Str(id)];
    var pending := base["status" := Str(PendingOcr)];
    assert Upsert(t, id, job1)[id] == pending["jobId" := job1];
    assert pending["jobId" := job1]["status" := Str(PendingOcr)]["jobId" := job2] == pending["jobId" := job2];
    assert t[id := pending["jobId" := job1]][id := pending["jobId" := job2]] == t[id := pending["jobId" := job2]];
  }

  /** Repeating the update changes nothing. */
  lemma UpsertIdempotent(t: Table, id: string, job: AttrValue)
    ensures Upsert(Upsert(t, id, job), id, job) == Upsert(t, id, job)
  {
    UpsertOverrides(t, id, job, job);
  }

  // ---------------------------------------------------------------------------
  // One message

  /** The calls `done` made before `rest`, followed by `rest`. */
  function After(done: seq<Call>, rest: Run): (run: Run)
    ensures run.outcome == rest.outcome && run.stores == rest.stores
    ensures |run.calls| == |done| + |rest.calls|
    ensures run.calls[..|done|] == done && run.calls[|done|..] == rest.calls
  {
    Run(rest.outcome, done + rest.calls, rest.stores)
  }

  /**
   * The three names derived from the link: the file name (lines 95-97), the
   * object key (line 99) and the outcome of `get_unique_id_from_url` (line 133).
   */
  datatype Names = Names(filename: string, key: string, id: Result<string, IdError>)

  function DerivedNames(url: string): (names: Names)
    ensures names.key == KeyPrefix + names.filename
  {
    Names(ObjectFilename(url), ObjectKey(url), UniqueId(url))
  }

  /** `process_record` on stores `s`, given the answers of the outside world. */
  function Process(s: Stores, record: Record, replies: Replies): (run: Run)
    ensures run.outcome.Skipped? <==> record.Decoded? && (record.link.None? || record.link.value == "")
    ensures |run.calls| == CallsMade(run.outcome)
    ensures forall i :: 0 <= i < |run.calls| ==> Rank(run.calls[i]) == i
    ensures run.outcome in {Skipped, Raised(Decode), Raised(Fetch), Raised(Put)} ==> run.stores == s
    ensures !run.outcome.Recorded? ==> run.stores.table == s.table
    ensures Keyed(s.table) ==> Keyed(run.stores.table)
  {
    match record
    case Undecodable => Run(Raised(Decode), [], s)
    case Decoded(link) =>
      if link.None? || link.value == "" then Run(Skipped, [], s)
      else StoreDocument(s, link.value, DerivedNames(link.value), replies)
  }

  /** Lines 89-105: download the document and put it in the input bucket. */
  function StoreDocument(s: Stores, url: string, names: Names, replies: Replies): (run: Run)
    ensures !run.outcome.Skipped? && run.outcome != Raised(Decode)
    ensures |run.calls| == CallsMade(run.outcome)
    ensures forall i :: 0 <= i < |run.calls| ==> Rank(run.calls[i]) == i
    ensures run.outcome in {Raised(Fetch), Raised(Put)} <==> replies.fetch.FetchFailed? || replies.put.WriteFailed?
    ensures run.outcome in {Raised(Fetch), Raised(Put)} ==> run.stores == s
    ensures !run.outcome.Recorded? ==> run.stores.table == s.table
    ensures Keyed(s.table) ==> Keyed(run.stores.table)
  {
    var get := Get(url);
    match replies.fetch
    case FetchFailed => Run(Raised(Fetch), [get], s)
    case Fetched(body) =>
      var put := PutObject(InputBucket, names.key, body, PdfContentType);
      if replies.put.WriteFailed? then Run(Raised(Put), [get, put], s)
      else
        var stored := Stores(s.objects[names.key := StoredObject(body, PdfContentType)], s.table);
        After([get, put], RequestJob(stored, names, replies))
  }

  /** Lines 107-129: ask the DS API for a job on the stored document. */
  function RequestJob(s: Stores, names: Names, replies: Replies): (run: Run)
    ensures run.outcome.Recorded? || (run.outcome.Raised? && (run.outcome.stage in {Post, Update} || run.outcome.stage.Id?))
    ensures |run.calls| + 2 == CallsMade(run.outcome)
    ensures forall i :: 0 <= i < |run.calls| ==> Rank(run.calls[i]) == i + 2
    ensures run.stores.objects == s.objects
    ensures !run.outcome.Recorded? ==> run.stores.table == s.table
    ensures Keyed(s.table) ==> Keyed(run.stores.table)
  {
    var post := PostFor(names);
    match replies.post
    case PostFailed => Run(Raised(Post), [post], s)
    case Accepted(field) => After([post], RecordJob(s, names.id, field.GetOr(Null), replies.update))
  }

  /** Lines 131-159: key the table item by the document's unique id and set its status and job. */
  function RecordJob(s: Stores, id: Result<string, IdError>, job: AttrValue, update: WriteReply): (run: Run)
    ensures run.outcome.Recorded? || (run.outcome.Raised? && (run.outcome.stage == Update || run.outcome.stage.Id?))
    ensures |run.calls| + 3 == CallsMade(run.outcome)
    ensures forall i :: 0 <= i < |run.calls| ==> Rank(run.calls[i]) == i + 3
    ensures run.stores.objects == s.objects
    ensures !run.outcome.Recorded? ==> run.stores.table == s.table
    ensures Keyed(s.table) ==> Keyed(run.stores.table)
  {
    match id
    case Failure(e) => Run(Raised(Id(e)), [], s)
    case Success(id) =>
      var call := UpdateItem(TableName, id, PendingOcr, job);
      if update.WriteFailed? then Run(Raised(Update), [call], s)
      else Run(Recorded(id, job), [call], Stores(s.objects, Upsert(s.table, id, job)))
  }

  // ---------------------------------------------------------------------------
  // Properties of one message, for any answers of the outside world

  /**
   * Once the document is downloaded and written, it stays in the input bucket
   * under its key whatever happens afterwards: a failed POST, a file name
   * without a unique id, or a failed table write.
   */
  lemma {:induction false} StoredObjectRemains(s: Stores, url: string, names: Names, replies: Replies)
    ensures var run := StoreDocument(s, url, names, replies);
      replies.fetch.Fetched? && replies.put.Written? ==>
        run.stores.objects == s.objects[names.key := StoredObject(replies.fetch.content, PdfContentType)]
  {
    if replies.fetch.Fetched? && replies.put.Written? {
      var stored := Stores(s.objects[names.key := StoredObject(replies.fetch.content, PdfContentType)], s.table);
      assert StoreDocument(s, url, names, replies).stores == RequestJob(stored, names, replies).stores;
    }
  }

  /** `StoredObjectRemains` for a message carrying a link. */
  lemma DocumentKeptUnderItsKey(s: Stores, url: string, replies: Replies)
    requires url != ""
    ensures var run := Process(s, Decoded(Some(url)), replies);
      replies.fetch.Fetched? && replies.put.Written? ==>
        run.stores.objects == s.objects[ObjectKey(url) := StoredObject(replies.fetch.content, PdfContentType)]
  {
    StoredObjectRemains(s, url, DerivedNames(url), replies);
  }

  /**
   * The message is recorded exactly when all four calls succeed and the file
   * name yields a unique id; the table then holds the upserted item and
   * nothing else in it changes.
   */
  lemma RecordedExactlyWhenAllSucceed(s: Stores, url: string, replies: Replies)
    requires url != ""
    ensures var run := Process(s, Decoded(Some(url)), replies);
      run.outcome.Recorded? <==>
        replies.fetch.Fetched? && replies.put.Written? && replies.post.Accepted? &&
        UniqueId(url).Success? && replies.update.Written?
    ensures var run := Process(s, Decoded(Some(url)), replies);
      run.outcome.Recorded? && replies.post.Accepted? && UniqueId(url).Success? ==>
        var job := replies.post.jobField.GetOr(Null);
        && run.outcome == Recorded(UniqueId(url).value, job)
        && run.stores.table == Upsert(s.table, UniqueId(url).value, job)
  {
  }

  /** The calls of the first block onwards, with the arguments each stage passes. */
  lemma {:induction false} StageCalls(s: Stores, url: string, names: Names, replies: Replies)
    ensures var calls := StoreDocument(s, url, names, replies).calls;
      && |calls| >= 1 && calls[0] == Get(url)
      && (replies.fetch.Fetched? ==>
            |calls| >= 2 && calls[1] == PutObject(InputBucket, names.key, replies.fetch.content, PdfContentType))
      && (replies.fetch.Fetched? && replies.put.Written? ==>
            |calls| >= 3 && calls[2] == PostJob(DsApiUrl, JobRequest(InputPath(names.filename), OutputPath(names.filename), RequestJobId)))
      && (replies.fetch.Fetched? && replies.put.Written? && replies.post.Accepted? && names.id.Success? ==>
            |calls| == 4 && calls[3] == UpdateItem(TableName, names.id.value, PendingOcr, replies.post.jobField.GetOr(Null)))
  {
    if replies.fetch.Fetched? && replies.put.Written? {
      var stored := Stores(s.objects[names.key := StoredObject(replies.fetch.content, PdfContentType)], s.table);
      var rest := RequestJob(stored, names, replies);
      assert StoreDocument(s, url, names, replies).calls == [Get(url), PutObject(InputBucket, names.key, replies.fetch.content, PdfContentType)] + rest.calls;
      if replies.post.Accepted? {
        var last := RecordJob(stored, names.id, replies.post.jobField.GetOr(Null), replies.update);
        assert rest.calls == [rest.calls[0]] + last.calls;
      }
    }
  }

  /**
   * The calls are made in the order of the source, each with the arguments
   * the source passes: the GET of the link, the PUT of the downloaded body
   * under the object key, the POST of the job naming that key in both
   * buckets, and the table update keyed by the unique id.
   */
  lemma CallsCarryDerivedNames(s: Stores, url: string, replies: Replies)
    requires url != ""
    ensures var calls := Process(s, Decoded(Some(url)), replies).calls;
      |calls| >= 1 && calls[0] == Get(url)
    ensures var calls := Process(s, Decoded(Some(url)), replies).calls;
      replies.fetch.Fetched? ==>
        |calls| >= 2 && calls[1] == PutObject(InputBucket, ObjectKey(url), replies.fetch.content, PdfContentType)
    ensures var calls := Process(s, Decoded(Some(url)), replies).calls;
      replies.fetch.Fetched? && replies.put.Written? ==>
        && |calls| >= 3 && calls[2].PostJob? && calls[2].endpoint == DsApiUrl
        && ParseS3Uri(calls[2].request.inputFilePath) == Some((InputBucket, ObjectKey(url)))
        && ParseS3Uri(calls[2].request.outputFilePath) == Some((OutputBucket, ObjectKey(url)))
        && calls[2].request.jobId == RequestJobId
    ensures var calls := Process(s, Decoded(Some(url)), replies).calls;
      replies.fetch.Fetched? && replies.put.Written? && replies.post.Accepted? && UniqueId(url).Success? ==>
        |calls| == 4 && calls[3] == UpdateItem(TableName, UniqueId(url).value, PendingOcr, replies.post.jobField.GetOr(Null))
  {
    var names := DerivedNames(url);
    StageCalls(s, url, names, replies);
  }

  /**
   * A file name from which no unique id can be read fails only after the
   * document is stored and the job is posted; the table is left alone.
   */
  lemma IdFailureAfterUpload(s: Stores, url: string, replies: Replies)
    requires url != ""
    requires replies.fetch.Fetched? && replies.put.Written? && replies.post.Accepted?
    requires UniqueId(url).Failure?
    ensures var run := Process(s, Decoded(Some(url)), replies);
      && run.outcome == Raised(Id(UniqueId(url).error))
      && |run.calls| == 3 && run.calls[2].PostJob?
      && run.stores == Stores(s.objects[ObjectKey(url) := StoredObject(replies.fetch.content, PdfContentType)], s.table)
  {
  }

  /** A POST answer without `job_id` is no error: the item records a null job id. */
  lemma MissingJobIdStoredAsNull(s: Stores, url: string, replies: Replies)
    requires url != ""
    requires replies.post == Accepted(None)
    ensures var run := Process(s, Decoded(Some(url)), replies);
      run.outcome.Recorded? ==>
        && run.outcome.job == Null
        && run.outcome.uniqueId in run.stores.table
        && "jobId" in run.stores.table[run.outcome.uniqueId]
        && run.stores.table[run.outcome.uniqueId]["jobId"] == Null
  {
    RecordedExactlyWhenAllSucceed(s, url, replies);
  }

  /** All four calls succeed and the file name yields a unique id. */
  predicate AllSucceed(names: Names, replies: Replies)
  {
    replies.fetch.Fetched? && replies.put.Written? && replies.post.Accepted? &&
    names.id.Success? && replies.update.Written?
  }

  /**
   * The stores after the three stages, written directly: the object is
   * written once the download and the PUT succeed, the item once everything
   * does.
   */
  function StoresAfter(s: Stores, names: Names, replies: Replies): Stores
  {
    if replies.fetch.FetchFailed? || replies.put.WriteFailed? then s
    else
      var objects := s.objects[names.key := StoredObject(replies.fetch.content, PdfContentType)];
      if AllSucceed(names, replies) then
        Stores(objects, Upsert(s.table, names.id.value, replies.post.jobField.GetOr(Null)))
      else Stores(objects, s.table)
  }

  /** The three stages end in `Recorded` exactly when all succeed, and leave `StoresAfter`. */
  lemma {:induction false} StagesLeaveStoresAfter(s: Stores, url: string, names: Names, replies: Replies)
    ensures StoreDocument(s, url, names, replies).outcome.Recorded? <==> AllSucceed(names, replies)
    ensures StoreDocument(s, url, names, replies).stores == StoresAfter(s, names, replies)
  {
    if replies.fetch.Fetched? && replies.put.Written? {
      var stored := Stores(s.objects[names.key := StoredObject(replies.fetch.content, PdfContentType)], s.table);
      var rest := RequestJob(stored, names, replies);
      assert StoreDocument(s, url, names, replies).stores == rest.stores;
      if replies.post.Accepted? {
        assert rest.stores == RecordJob(stored, names.id, replies.post.jobField.GetOr(Null), replies.update).stores;
      }
    }
  }

  /** Repeating the stages with the same answers writes nothing new. */
  lemma {:induction false} StoresAfterRepeated(s: Stores, names: Names, replies: Replies)
    ensures StoresAfter(StoresAfter(s, names, replies), names, replies) == StoresAfter(s, names, replies)
  {
    if replies.fetch.Fetched? && replies.put.Written? {
      var obj := StoredObject(replies.fetch.content, PdfContentType);
      assert s.objects[names.key := obj][names.key := obj] == s.objects[names.key := obj];
      if AllSucceed(names, replies) {
        UpsertIdempotent(s.table, names.id.value, replies.post.jobField.GetOr(Null));
      }
    }
  }

  /** After any first attempt, a second one that fully succeeds leaves what it would have left alone. */
  lemma {:induction false} StoresAfterRetried(s: Stores, names: Names, first: Replies, second: Replies)
    requires AllSucceed(names, second)
    ensures StoresAfter(StoresAfter(s, names, first), names, second) == StoresAfter(s, names, second)
  {
    var obj := StoredObject(second.fetch.content, PdfContentType);
    if first.fetch.Fetched? && first.put.Written? {
      var obj1 := StoredObject(first.fetch.content, PdfContentType);
      assert s.objects[names.key := obj1][names.key := obj] == s.objects[names.key := obj];
      if AllSucceed(names, first) {
        UpsertOverrides(s.table, names.id.value, first.post.jobField.GetOr(Null), second.post.jobField.GetOr(Null));
      }
    }
  }

  /**
   * Handling a message again with the same answers changes nothing more:
   * every write the handler makes overwrites, so a redelivered message
   * leaves the stores as the first delivery did.
   */
  lemma RedeliveryChangesNothing(s: Stores, record: Record, replies: Replies)
    ensures var once := Process(s, record, replies).stores;
      Process(once, record, replies).stores == once
  {
    if record.Decoded? && record.link.Some? && record.link.value != "" {
      var url := record.link.value;
      var names := DerivedNames(url);
      var once := StoreDocument(s, url, names, replies).stores;
      StagesLeaveStoresAfter(s, url, names, replies);
      StagesLeaveStoresAfter(once, url, names, replies);
      StoresAfterRepeated(s, names, replies);
    }
  }

  /**
   * Whatever a first attempt left behind, a later attempt that succeeds
   * leaves the stores exactly as if it had been the only one.
   */
  lemma SuccessfulRetryOverridesEarlierAttempt(s: Stores, record: Record, first: Replies, second: Replies)
    requires Process(s, record, second).outcome.Recorded?
    ensures Process(Process(s, record, first).stores, record, second).stores == Process(s, record, second).stores
  {
    var url := record.link.value;
    var names := DerivedNames(url);
    var mid := StoreDocument(s, url, names, first).stores;
    StagesLeaveStoresAfter(s, url, names, second);
    StagesLeaveStoresAfter(s, url, names, first);
    StagesLeaveStoresAfter(mid, url, names, second);
    StoresAfterRetried(s, names, first, second);
  }

  // ---------------------------------------------------------------------------
  // The stages written out, one way of ending at a time

  /** The POST request the second stage sends for these names. */
  function PostFor(names: Names): Call
  {
    PostJob(DsApiUrl, JobRequest(InputPath(names.filename), OutputPath(names.filename), RequestJobId))
  }

  lemma PostFailedRun(s: Stores, url: string, names: Names, replies: Replies)
    requires replies.fetch.Fetched? && replies.put.Written? && replies.post.PostFailed?
    ensures var obj := StoredObject(replies.fetch.content, PdfContentType);
      StoreDocument(s, url, names, replies) ==
        Run(Raised(Post), [Get(url), PutObject(InputBucket, names.key, replies.fetch.content, PdfContentType), PostFor(names)],
            Stores(s.objects[names.key := obj], s.table))
  {
  }

  lemma IdFailedRun(s: Stores, url: string, names: Names, replies: Replies)
    requires replies.fetch.Fetched? && replies.put.Written? && replies.post.Accepted? && names.id.Failure?
    ensures var obj := StoredObject(replies.fetch.content, PdfContentType);
      StoreDocument(s, url, names, replies) ==
        Run(Raised(Id(names.id.error)), [Get(url), PutObject(InputBucket, names.key, replies.fetch.content, PdfContentType), PostFor(names)],
            Stores(s.objects[names.key := obj], s.table))
  {
  }

  lemma UpdateFailedRun(s: Stores, url: string, names: Names, replies: Replies)
    requires replies.fetch.Fetched? && replies.put.Written? && replies.post.Accepted? && names.id.Success?
    requires replies.update.WriteFailed?
    ensures var obj := StoredObject(replies.fetch.content, PdfContentType);
      var job := replies.post.jobField.GetOr(Null);
      StoreDocument(s, url, names, replies) ==
        Run(Raised(Update),
            [Get(url), PutObject(InputBucket, names.key, replies.fetch.content, PdfContentType), PostFor(names),
             UpdateItem(TableName, names.id.value, PendingOcr, job)],
            Stores(s.objects[names.key := obj], s.table))
  {
  }

  lemma RecordedRun(s: Stores, url: string, names: Names, replies: Replies)
    requires AllSucceed(names, replies)
    ensures var obj := StoredObject(replies.fetch.content, PdfContentType);
      var job := replies.post.jobField.GetOr(Null);
      StoreDocument(s, url, names, replies) ==
        Run(Recorded(names.id.value, job),
            [Get(url), PutObject(InputBucket, names.key, replies.fetch.content, PdfContentType), PostFor(names),
             UpdateItem(TableName, names.id.value, PendingOcr, job)],
            Stores(s.objects[names.key := obj], Upsert(s.table, names.id.value, job)))
  {
  }

  // ---------------------------------------------------------------------------
  // The handler over the two stores

  /** What `lambda_handler` does with an event. */
  datatype HandlerResult = Returned | RaisedNotReady

  /** The input bucket and the table, as the handler sees and updates them. */
  class Services {
    var objects: map<string, StoredObject>
    var table: Table

    function State(): Stores
      reads this
    {
      Stores(objects, table)
    }

    constructor (initial: Stores)
      ensures State() == initial
    {
      objects := initial.objects;
      table := initial.table;
    }

    /**
     * `process_record`: the calls it makes, in order, how it ends, and the
     * writes to the two stores are those `Process` gives.
     */
    method ProcessRecord(record: Record, replies: Replies) returns (outcome: Outcome, calls: seq<Call>)
      modifies this
      ensures Run(outcome, calls, State()) == Process(old(State()), record, replies)
    {
      calls := [];
      if record.Undecodable? {
        outcome := Raised(Decode);
        return;
      }
      var link := record.link;
      if link.None? || link.value == "" {
        outcome := Skipped;
        return;
      }
      var url := link.value;
      ghost var s := old(State());
      ghost var names := DerivedNames(url);

      // Create the PDF and store it in S3.
      var get := Get(url);
      calls := [get];
      if replies.fetch.FetchFailed? {
        outcome := Raised(Fetch);
        return;
      }
      var pdfData := replies.fetch.content;
      var filename := ObjectFilename(url);
      var key := ObjectKey(url);
      var put := PutObject(InputBucket, key, pdfData, PdfContentType);
      calls := [get, put];
      if replies.put.WriteFailed? {
        outcome := Raised(Put);
        return;
      }
      objects := objects[key := StoredObject(pdfData, PdfContentType)];

      // Call the DS API to get the job id.
      var request := JobRequest(InputPath(filename), OutputPath(filename), RequestJobId);
      var post := PostJob(DsApiUrl, request);
      calls := [get, put, post];
      if replies.post.PostFailed? {
        outcome := Raised(Post);
        PostFailedRun(s, url, names, replies);
        return;
      }
      var jobId := replies.post.jobField.GetOr(Null);

      // Populate the table with the job id.
      var fileId := UniqueId(url);
      if fileId.Failure? {
        outcome := Raised(Id(fileId.error));
        IdFailedRun(s, url, names, replies);
        return;
      }
      var id := fileId.value;
      calls := [get, put, post, UpdateItem(TableName, id, PendingOcr, jobId)];
      if replies.update.WriteFailed? {
        outcome := Raised(Update);
        UpdateFailedRun(s, url, names, replies);
        return;
      }
      var item := if id in table then table[id] else map["uniqueId" := Str(id)];
      item := item["status" := Str(PendingOcr)];
      item := item["jobId" := jobId];
      table := table[id := item];
      outcome := Recorded(id, jobId);
      RecordedRun(s, url, names, replies);
    }

    /**
     * `lambda_handler`: it raises before it reads the event, so no record is
     * processed and neither store changes.
     */
    method LambdaHandler(records: seq<Record>) returns (r: HandlerResult)
      ensures r == RaisedNotReady
    {
      r := RaisedNotReady;
    }
  }
}

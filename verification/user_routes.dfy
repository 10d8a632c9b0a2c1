/**
 * The handlers the backend calls on behalf of users (reliascheduler/views/scheduler.py):
 * read a task, create a task, delete a task, and the poll stamp every read refreshes.
 */
module UserRoutes {
  import opened Common
  import opened Strings
  import opened Keys
  import opened Storage
  import opened Priority
  import opened Queue
  import opened Lifecycle
  import opened Auth

  /** `mark_as_poll`: stamp the task with the current time, if its hash exists. */
  function MarkAsPoll(st: Store, id: string, now: int): (r: Store)
    ensures Get(st, id, UniqueIdentifier).Some? ==> Get(r, id, InactiveSince) == Some(Stamp(now))
    ensures Get(st, id, UniqueIdentifier).None? ==> r == st
    ensures forall x, f | x != id || f != InactiveSince :: Get(r, x, f) == Get(st, x, f)
    ensures r == st.(hashes := r.hashes)
  {
    if Get(st, id, UniqueIdentifier).Some? then SetField(st, id, InactiveSince, Stamp(now)) else st
  }

  /** The task fields `user_get_task` reports. */
  datatype TaskView = TaskView(
    status: Option<string>,
    receiver: Option<string>,
    transmitter: Option<string>,
    device: Option<string>,
    receiverFilename: Option<string>,
    transmitterFilename: Option<string>)

  datatype GetResponse = NoSuchTask | Found(view: TaskView)

  /**
   * `user_get_task`: an identifier without an author is logged as an error (author
   * "No author"); otherwise the task is stamped as polled and its state reported.
   */
  function GetTask(st: Store, id: string, now: int): (r: (GetResponse, Store))
    ensures r.0.NoSuchTask? <==> Get(st, id, Author).None?
    ensures r.0.NoSuchTask? ==>
      && r.1.errors == st.errors + {id}
      && GetError(r.1, id, ErrorAuthorField) == Some("No author")
      && GetError(r.1, id, ErrorMessageField) == Some("Task identifier does not exist")
      && r.1.hashes == st.hashes
    ensures r.0.Found? ==>
      && r.0.view.status == Get(st, id, StatusField)
      && r.0.view.receiver == Get(st, id, ReceiverAssignedField)
      && r.0.view.transmitter == Get(st, id, TransmitterAssignedField)
      && r.0.view.device == Get(st, id, DeviceAssigned)
      && r.0.view.receiverFilename == Get(st, id, ReceiverFilename)
      && r.0.view.transmitterFilename == Get(st, id, TransmitterFilename)
    ensures r.0.Found? && Get(st, id, UniqueIdentifier).Some? ==> Get(r.1, id, InactiveSince) == Some(Stamp(now))
    ensures r.0.Found? ==> forall x, f | x != id || f != InactiveSince :: Get(r.1, x, f) == Get(st, x, f)
    ensures r.0.Found? ==> r.1 == st.(hashes := r.1.hashes)
  {
    if Get(st, id, Author).None? then
      (NoSuchTask, RecordError(st, id, "No author", "Task identifier does not exist", now, true))
    else
      var st1 := MarkAsPoll(st, id, now);
      (Found(TaskView(Get(st1, id, StatusField), Get(st1, id, ReceiverAssignedField),
                      Get(st1, id, TransmitterAssignedField), Get(st1, id, DeviceAssigned),
                      Get(st1, id, ReceiverFilename), Get(st1, id, TransmitterFilename))), st1)
  }

  /**
   * A user who keeps reading the task keeps it alive: right after a read, the inactivity
   * check leaves the task alone until the polling limit has elapsed.
   */
  lemma ReadKeepsTaskAlive(st: Store, id: string, now: int, base: string, later: int, cfg: Config)
    requires Get(st, id, Author).Some? && Get(st, id, UniqueIdentifier).Some?
    requires cfg.maxTimeWithoutPolling.Some? && later - now <= cfg.maxTimeWithoutPolling.value
    ensures var st1 := GetTask(st, id, now).1;
            StopIfInactive(st1, base, id, later, cfg) == Return(false, st1)
  {
    FreshStampNotStale(GetTask(st, id, now).1, base, id, now, later, cfg);
  }

  /** One GRC file of a create request; `parsesAsYaml` is whether `yaml.safe_load` accepts the content. */
  datatype GrcFile = GrcFile(filename: string, content: string, fileType: Option<string>, parsesAsYaml: bool)

  /** The `grc_files` object; a side is `None` when it is missing or empty. */
  datatype GrcFiles = GrcFiles(receiver: Option<GrcFile>, transmitter: Option<GrcFile>)

  /** The body of a create request; `grcFiles` is `None` when it is missing or empty. */
  datatype CreateRequest = CreateRequest(
    priority: PriorityInput,
    sessionId: string,
    userId: string,
    grcFiles: Option<GrcFiles>)

  datatype CreateResponse = InvalidSecret | Rejected(message: string) | Created(id: string, priority: int)

  /** A file the per-side checks accept. */
  predicate FileAccepted(f: Option<GrcFile>) {
    f.Some? && f.value.filename != "" && f.value.content != ""
    && (f.value.fileType == Some("grc") ==> f.value.parsesAsYaml)
  }

  /**
   * The checks on one side of `grc_files`, in the handler's order: the message of the first
   * that fails, and whether that branch also adds the identifier to the error set (only
   * the missing-filename branch does).
   */
  function CheckFile(side: string, f: Option<GrcFile>): (r: Option<(string, bool)>)
    ensures r.None? <==> FileAccepted(f)
    ensures r.Some? && r.value.1 <==> f.Some? && f.value.filename == ""
  {
    match f
    case None => Some(("No " + side + " found in grc_files", false))
    case Some(g) =>
      if g.filename == "" then Some(("No filename found in " + side + " in grc_files", true))
      else if g.content == "" then Some(("No content found in " + side + " in grc_files", false))
      else if g.fileType == Some("grc") && !g.parsesAsYaml then
        Some(("Invalid content (not yaml) for provided " + side, false))
      else None
  }

  /** A request whose files pass every check. */
  predicate RequestAccepted(g: Option<GrcFiles>) {
    g.Some? && FileAccepted(g.value.receiver) && FileAccepted(g.value.transmitter)
  }

  /** All checks on `grc_files`: the receiver side is checked before the transmitter side. */
  function CheckFiles(g: Option<GrcFiles>): (r: Option<(string, bool)>)
    ensures r.None? <==> RequestAccepted(g)
    ensures g.Some? && !FileAccepted(g.value.receiver) ==> r == CheckFile("receiver", g.value.receiver)
  {
    match g
    case None => Some(("No grc_files provided", false))
    case Some(files) =>
      var rx := CheckFile("receiver", files.receiver);
      if rx.Some? then rx else CheckFile("transmitter", files.transmitter)
  }

  /** The hash of a newly created task. */
  function NewTask(id: string, req: CreateRequest, rx: GrcFile, tx: GrcFile, p: int, now: int): Hash
    requires rx.fileType.Some? && tx.fileType.Some?
  {
    map[UniqueIdentifier := id, Author := req.userId,
        TransmitterFilename := tx.filename, TransmitterFile := tx.content,
        ReceiverFilename := rx.filename, ReceiverFile := rx.content,
        SessionId := req.sessionId, StartedTime := Stamp(now), Priority := IntToString(p),
        TransmitterAssignedField := Null, ReceiverAssignedField := Null,
        TransmitterProcessingStart := Null, ReceiverProcessingStart := Null,
        StatusField := Queued.Name(), ErrorMessage := Null, ErrorTime := Null,
        LocalTimeRemaining := "0", InactiveSince := Stamp(now),
        TransmitterFiletype := tx.fileType.value, ReceiverFiletype := rx.fileType.value]
  }

  /** LPUSH onto the bucket of `p` and ZADD of `p` to the priority index. */
  function Enqueue(st: Store, id: string, p: int): (r: Store)
    ensures Bucket(r, p) == Push(id, Bucket(st, p))
    ensures forall q | q != p :: Bucket(r, q) == Bucket(st, q)
    ensures forall q :: q in r.index <==> q in st.index || q == p
    ensures Valid(st) ==> Valid(r)
    ensures r == st.(buckets := r.buckets, index := r.index)
  {
    st.(buckets := st.buckets[p := Push(id, Bucket(st, p))], index := Insert(st.index, p))
  }

  /** Every identifier the random source offers this request; one of them is not yet taken. */
  predicate OffersFreshId(tasks: set<string>, candidates: seq<string>) {
    exists j | 0 <= j < |candidates| :: candidates[j] !in tasks
  }

  /**
   * The submitted files as the task hash holds them, for the assignment handlers to hand
   * out, and no error yet: a message of "null" keeps the task out of the error listing.
   */
  predicate CarriesFiles(r: Store, id: string, rx: GrcFile, tx: GrcFile) {
    && Get(r, id, ReceiverFilename) == Some(rx.filename)
    && Get(r, id, ReceiverFile) == Some(rx.content)
    && Get(r, id, ReceiverFiletype) == rx.fileType
    && Get(r, id, TransmitterFilename) == Some(tx.filename)
    && Get(r, id, TransmitterFile) == Some(tx.content)
    && Get(r, id, TransmitterFiletype) == tx.fileType
    && Get(r, id, ErrorMessage) == Some(Null)
  }

  /**
   * The hash of a new task in its initial state: queued, nothing assigned, stamped as
   * polled now, with the author, session and priority given and the submitted files.
   */
  predicate HoldsNewTask(r: Store, id: string, p: int, req: CreateRequest, rx: GrcFile, tx: GrcFile, now: int) {
    && StatusOf(r, id) == Some(Queued)
    && CarriesFiles(r, id, rx, tx)
    && Get(r, id, Priority) == Some(IntToString(p))
    && Get(r, id, Author) == Some(req.userId)
    && Get(r, id, SessionId) == Some(req.sessionId)
    && Get(r, id, ReceiverAssignedField) == Some(Null)
    && Get(r, id, TransmitterAssignedField) == Some(Null)
    && Get(r, id, InactiveSince) == Some(Stamp(now))
  }

  /**
   * What a successful creation leaves in the store: the new task's hash, the identifier at
   * the head of its bucket, the priority in the index, every other task and bucket as before.
   */
  ghost predicate Enqueued(st: Store, r: Store, id: string, p: int, req: CreateRequest, rx: GrcFile, tx: GrcFile, now: int) {
    && HoldsNewTask(r, id, p, req, rx, tx, now)
    && (forall x, f | x != id :: Get(r, x, f) == Get(st, x, f))
    && Bucket(r, p) == Push(id, Bucket(st, p))
    && (forall q | q != p :: Bucket(r, q) == Bucket(st, q))
    && (forall q :: q in r.index <==> q in st.index || q == p)
  }

  /** The HSETs of a new task leave its hash in the initial state. */
  lemma NewTaskStored(st: Store, id: string, req: CreateRequest, rx: GrcFile, tx: GrcFile, p: int, now: int)
    requires rx.fileType.Some? && tx.fileType.Some?
    ensures HoldsNewTask(SetFields(st, id, NewTask(id, req, rx, tx, p, now)), id, p, req, rx, tx, now)
  {
    StatusNamesDistinct(Queued, Queued);
    NewTaskState(id, req, rx, tx, p, now);
    NewTaskReceiverFile(id, req, rx, tx, p, now);
    NewTaskTransmitterFile(id, req, rx, tx, p, now);
  }

  lemma NewTaskState(id: string, req: CreateRequest, rx: GrcFile, tx: GrcFile, p: int, now: int)
    requires rx.fileType.Some? && tx.fileType.Some?
    ensures var h := NewTask(id, req, rx, tx, p, now);
            && h[StatusField] == "queued" && h[Priority] == IntToString(p) && h[InactiveSince] == Stamp(now)
            && h[Author] == req.userId && h[SessionId] == req.sessionId && h[ErrorMessage] == Null
            && h[ReceiverAssignedField] == Null && h[TransmitterAssignedField] == Null
  {
  }

  lemma NewTaskReceiverFile(id: string, req: CreateRequest, rx: GrcFile, tx: GrcFile, p: int, now: int)
    requires rx.fileType.Some? && tx.fileType.Some?
    ensures var h := NewTask(id, req, rx, tx, p, now);
            h[ReceiverFilename] == rx.filename && h[ReceiverFile] == rx.content && h[ReceiverFiletype] == rx.fileType.value
  {
  }

  lemma NewTaskTransmitterFile(id: string, req: CreateRequest, rx: GrcFile, tx: GrcFile, p: int, now: int)
    requires rx.fileType.Some? && tx.fileType.Some?
    ensures var h := NewTask(id, req, rx, tx, p, now);
            h[TransmitterFilename] == tx.filename && h[TransmitterFile] == tx.content && h[TransmitterFiletype] == tx.fileType.value
  {
  }

  /** The twenty HSETs of a new task, then LPUSH and ZADD. */
  function AddTask(st: Store, id: string, req: CreateRequest, rx: GrcFile, tx: GrcFile, p: int, now: int): (r: Store)
    requires rx.fileType.Some? && tx.fileType.Some?
    ensures Enqueued(st, r, id, p, req, rx, tx, now)
    ensures Valid(st) ==> Valid(r)
    ensures r == st.(hashes := r.hashes, buckets := r.buckets, index := r.index)
  {
    var st1 := SetFields(st, id, NewTask(id, req, rx, tx, p, now));
    NewTaskStored(st, id, req, rx, tx, p, now);
    var r := Enqueue(st1, id, p);
    assert r.hashes == st1.hashes;
    r
  }

  /** A rejected request consumed `id` and logged the failure under it, by the given author. */
  predicate RejectionLogged(st: Store, r: Store, id: string, author: string, failure: (string, bool)) {
    && GetError(r, id, ErrorMessageField) == Some(failure.0)
    && GetError(r, id, ErrorAuthorField) == Some(author)
    && r.errors == (if failure.1 then st.errors + {id} else st.errors)
    && r == st.(errors := r.errors, errorHashes := r.errorHashes)
  }

  /**
   * The part of `user_create_task` after the identifier is drawn: the file checks, then
   * the creation. A missing `type` on a side that passed the checks raises (KeyError).
   */
  function Admit(st: Store, id: string, req: CreateRequest, p: int, now: int): (r: Exec<CreateResponse>)
    ensures (r.Return? && r.value.Created?) <==>
      && RequestAccepted(req.grcFiles)
      && req.grcFiles.value.receiver.value.fileType.Some?
      && req.grcFiles.value.transmitter.value.fileType.Some?
    ensures r.Return? && r.value.Created? ==> r.value == Created(id, p) && Enqueued(st, r.store, id, p, req, req.grcFiles.value.receiver.value, req.grcFiles.value.transmitter.value, now)
    ensures r.Return? ==> r.value.Created? || r.value.Rejected?
    ensures r.Return? && r.value.Rejected? ==>
      && CheckFiles(req.grcFiles).Some? && r.value.message == CheckFiles(req.grcFiles).value.0
      && RejectionLogged(st, r.store, id, req.userId, CheckFiles(req.grcFiles).value)
    ensures r.Raise? ==> r.store == st
    ensures Valid(st) ==> Valid(r.store)
    ensures r.store.tasks == st.tasks && r.store.slots == st.slots && r.store.credentials == st.credentials
  {
    match CheckFiles(req.grcFiles)
    case Some((message, register)) =>
      Return(Rejected(message), RecordError(st, id, req.userId, message, now, register))
    case None =>
      var rx, tx := req.grcFiles.value.receiver.value, req.grcFiles.value.transmitter.value;
      if tx.fileType.None? || rx.fileType.None? then Raise(st)
      else Return(Created(id, p), AddTask(st, id, req, rx, tx, p, now))
  }

  /**
   * `user_create_task`. The priority is normalised first, and a value `int()` rejects
   * raises there, before anything is written. The identifier is then drawn, and added to
   * the task set, before the files are checked, so a rejected request still consumes one.
   */
  function CreateTask(st: Store, cfg: Config, secret: Option<string>, req: CreateRequest,
                      candidates: seq<string>, now: int): (r: Exec<CreateResponse>)
    requires OffersFreshId(st.tasks, candidates)
    ensures !CheckBackend(secret, cfg.backendToken) ==> r == Return(InvalidSecret, st)
    ensures CheckBackend(secret, cfg.backendToken) && NormalisePriority(req.priority, cfg.maxPriorityQueue).None? ==>
      r == Raise(st)
    ensures (r.Return? && r.value.Created?) <==>
      && CheckBackend(secret, cfg.backendToken)
      && NormalisePriority(req.priority, cfg.maxPriorityQueue).Some?
      && RequestAccepted(req.grcFiles)
      && req.grcFiles.value.receiver.value.fileType.Some?
      && req.grcFiles.value.transmitter.value.fileType.Some?
    ensures r.Return? && r.value.Created? ==>
      && r.value.id !in st.tasks && r.store.tasks == st.tasks + {r.value.id}
      && r.value.priority == NormalisePriority(req.priority, cfg.maxPriorityQueue).value
      && Enqueued(st, r.store, r.value.id, r.value.priority, req, req.grcFiles.value.receiver.value, req.grcFiles.value.transmitter.value, now)
    ensures r.Return? && r.value.Rejected? ==>
      && NormalisePriority(req.priority, cfg.maxPriorityQueue).Some?
      && CheckFiles(req.grcFiles).Some? && r.value.message == CheckFiles(req.grcFiles).value.0
      && exists id | id !in st.tasks ::
           && r.store.tasks == st.tasks + {id}
           && RejectionLogged(st.(tasks := r.store.tasks), r.store, id, req.userId, CheckFiles(req.grcFiles).value)
    ensures Valid(st) ==> Valid(r.store)
    ensures r.store.slots == st.slots && r.store.credentials == st.credentials
  {
    if !CheckBackend(secret, cfg.backendToken) then Return(InvalidSecret, st)
    else
      match NormalisePriority(req.priority, cfg.maxPriorityQueue)
      case None => Raise(st)
      case Some(p) => DrawAndAdmit(st, req, p, candidates, now)
  }

  /** The part of `user_create_task` after the priority: draw a fresh identifier, add it to the task set, admit. */
  function DrawAndAdmit(st: Store, req: CreateRequest, p: int, candidates: seq<string>, now: int): (r: Exec<CreateResponse>)
    requires OffersFreshId(st.tasks, candidates)
    ensures (r.Return? && r.value.Created?) <==>
      && RequestAccepted(req.grcFiles)
      && req.grcFiles.value.receiver.value.fileType.Some?
      && req.grcFiles.value.transmitter.value.fileType.Some?
    ensures r.Return? && r.value.Created? ==>
      && r.value.id !in st.tasks && r.store.tasks == st.tasks + {r.value.id}
      && r.value.priority == p
      && Enqueued(st, r.store, r.value.id, p, req, req.grcFiles.value.receiver.value, req.grcFiles.value.transmitter.value, now)
    ensures r.Return? && r.value.Rejected? ==>
      && CheckFiles(req.grcFiles).Some? && r.value.message == CheckFiles(req.grcFiles).value.0
      && exists id | id !in st.tasks ::
           && r.store.tasks == st.tasks + {id}
           && RejectionLogged(st.(tasks := r.store.tasks), r.store, id, req.userId, CheckFiles(req.grcFiles).value)
    ensures r.Return? ==> r.value.Created? || r.value.Rejected?
    ensures Valid(st) ==> Valid(r.store)
    ensures r.store.slots == st.slots && r.store.credentials == st.credentials
  {
    var id := AllocateId(st.tasks, candidates, 0).value.0;
    var st1 := st.(tasks := st.tasks + {id});
    var r := Admit(st1, id, req, p, now);
    if r.Return? && r.value.Created? then
      EnqueuedIgnoresTasks(st, st1.tasks, r.store, id, p, req, req.grcFiles.value.receiver.value, req.grcFiles.value.transmitter.value, now);
      r
    else
      r
  }

  /** The task set plays no part in what creation leaves behind. */
  lemma EnqueuedIgnoresTasks(st: Store, tasks: set<string>, r: Store, id: string, p: int, req: CreateRequest,
                             rx: GrcFile, tx: GrcFile, now: int)
    requires Enqueued(st.(tasks := tasks), r, id, p, req, rx, tx, now)
    ensures Enqueued(st, r, id, p, req, rx, tx, now)
  {
    var st1 := st.(tasks := tasks);
    forall x, f ensures Get(st1, x, f) == Get(st, x, f) {}
    forall q ensures Bucket(st1, q) == Bucket(st, q) {}
  }

  /** A created task leaves its bucket after every task already waiting there. */
  lemma CreatedTaskServedAfterEarlierOnes(st: Store, cfg: Config, secret: Option<string>, req: CreateRequest,
                                          candidates: seq<string>, now: int)
    requires OffersFreshId(st.tasks, candidates)
    ensures var r := CreateTask(st, cfg, secret, req, candidates, now);
            r.Return? && r.value.Created? ==>
              Drain(Bucket(r.store, r.value.priority)) == Drain(Bucket(st, r.value.priority)) + [r.value.id]
  {
    var r := CreateTask(st, cfg, secret, req, candidates, now);
    if r.Return? && r.value.Created? {
      DrainAfterPush(r.value.id, Bucket(st, r.value.priority));
    }
  }

  datatype DeleteResponse = DeleteAcknowledged | InvalidIdentifier

  /**
   * SET of the base's assignment slot to "null", for a receiver identifier other than
   * "null"; a receiver of "null" leaves every slot alone.
   */
  function FreeReceiver(st: Store, ra: string): (r: Store)
    ensures ra != Null ==> Slot(r, DeviceBase(ra)) == Some(Null)
    ensures forall b | ra == Null || b != DeviceBase(ra) :: Slot(r, b) == Slot(st, b)
    ensures r == st.(slots := r.slots)
  {
    if ra != Null then st.(slots := st.slots[DeviceBase(ra) := Null]) else st
  }

  /** LREM of one occurrence from the bucket of `p`, then SREM from the task set. */
  function Unqueue(st: Store, id: string, p: int): (r: Store)
    ensures Bucket(r, p) == RemoveFirst(Bucket(st, p), id)
    ensures forall q | q != p :: Bucket(r, q) == Bucket(st, q)
    ensures r.tasks == st.tasks - {id}
    ensures r == st.(buckets := r.buckets, tasks := r.tasks)
  {
    var buckets := if p in st.buckets then st.buckets[p := RemoveFirst(st.buckets[p], id)] else st.buckets;
    st.(buckets := buckets, tasks := st.tasks - {id})
  }

  /**
   * The rest of the deletion once the status has been overwritten: free the receiver,
   * then unqueue. A missing receiver field raises (`None.split`), and so does a priority
   * `int()` rejects.
   */
  function Release(st: Store, id: string, text: string): (r: Exec<DeleteResponse>)
    ensures r.Raise? <==> Get(st, id, ReceiverAssignedField).None? || ParseInt(text).None?
    ensures r.Return? ==>
      var p := ParseInt(text).value;
      && r.value == DeleteAcknowledged
      && r.store.tasks == st.tasks - {id}
      && Bucket(r.store, p) == RemoveFirst(Bucket(st, p), id)
      && (forall q | q != p :: Bucket(r.store, q) == Bucket(st, q))
      && r.store.slots == FreeReceiver(st, Get(st, id, ReceiverAssignedField).value).slots
    ensures r.store == st.(slots := r.store.slots, buckets := r.store.buckets, tasks := r.store.tasks)
  {
    match Get(st, id, ReceiverAssignedField)
    case None => Raise(st)
    case Some(ra) =>
      var st1 := FreeReceiver(st, ra);
      match ParseInt(text)
      case None => Raise(st1)
      case Some(p) => Return(DeleteAcknowledged, Unqueue(st1, id, p))
  }

  /**
   * `user_delete_task` once the stored priority has been read. The status is
   * overwritten with "deleted" first, so the branch testing for "queued" right after
   * never runs.
   */
  function DeleteExisting(st: Store, id: string, text: string): (r: Exec<DeleteResponse>)
    ensures StatusOf(r.store, id) == Some(Deleted)
    ensures forall x, f | x != id || f != StatusField :: Get(r.store, x, f) == Get(st, x, f)
    ensures r.Raise? <==> Get(st, id, ReceiverAssignedField).None? || ParseInt(text).None?
    ensures r.Return? ==>
      var p := ParseInt(text).value;
      && r.value == DeleteAcknowledged
      && r.store.tasks == st.tasks - {id}
      && Bucket(r.store, p) == RemoveFirst(Bucket(st, p), id)
      && (forall q | q != p :: Bucket(r.store, q) == Bucket(st, q))
      && r.store.slots == FreeReceiver(st, Get(st, id, ReceiverAssignedField).value).slots
    ensures r.store == st.(hashes := r.store.hashes, slots := r.store.slots, buckets := r.store.buckets,
                           tasks := r.store.tasks)
  {
    var st1 := SetStatus(st, id, Deleted);
    var r := Release(st1, id, text);
    assert r.store.hashes == st1.hashes;
    r
  }

  /**
   * `user_delete_task`. Any action other than "delete" is acknowledged without effect;
   * an identifier with no stored priority is logged as an error (author "unknown"). The
   * task hash and the priority index are left in place.
   */
  function DeleteTask(st: Store, action: Option<string>, id: string, now: int): (r: Exec<DeleteResponse>)
    ensures action != Some("delete") ==> r == Return(DeleteAcknowledged, st)
    ensures action == Some("delete") && Get(st, id, Priority).None? ==>
      && r.Return? && r.value == InvalidIdentifier
      && r.store.errors == st.errors + {id}
      && GetError(r.store, id, ErrorAuthorField) == Some("unknown")
      && GetError(r.store, id, ErrorMessageField) == Some("Task identifier does not exist")
      && r.store == st.(errors := r.store.errors, errorHashes := r.store.errorHashes)
    ensures action == Some("delete") && Get(st, id, Priority).Some? ==>
      && r == DeleteExisting(st, id, Get(st, id, Priority).value)
      && StatusOf(r.store, id) == Some(Deleted)
    ensures r.store.index == st.index && r.store.credentials == st.credentials
  {
    if action != Some("delete") then Return(DeleteAcknowledged, st)
    else match Get(st, id, Priority)
    case None => Return(InvalidIdentifier, RecordError(st, id, "unknown", "Task identifier does not exist", now, true))
    case Some(text) => DeleteExisting(st, id, text)
  }

  /** The task sits in the bucket of its own priority at most once and in no other bucket. */
  predicate QueuedAtMostOnce(st: Store, id: string, p: int) {
    && multiset(Bucket(st, p))[id] <= 1
    && forall q | q in st.buckets && q != p :: id !in st.buckets[q]
  }

  /** Once deleted, a task is never handed to a receiver. */
  lemma DeletedTaskNeverServed(st: Store, id: string, p: int, now: int, base: string, ticks: seq<int>,
                               deadline: int, cfg: Config)
    requires Valid(st)
    requires Get(st, id, Priority) == Some(IntToString(p))
    requires QueuedAtMostOnce(st, id, p)
    requires DeleteTask(st, Some("delete"), id, now).Return?
    requires |ticks| > 0 && ticks[|ticks| - 1] > deadline
    ensures var st1 := DeleteTask(st, Some("delete"), id, now).store;
            var r := PollReceiver(st1, base, ticks, deadline, cfg);
            r.Return? && r.value.Some? ==> r.value.value.0 != id
  {
    var st1 := DeleteTask(st, Some("delete"), id, now).store;
    ParseIntOfIntToString(p);
    UnqueuedEverywhere(st, st1, id, p);
    UnqueuedNeverServed(st1, base, ticks, deadline, cfg, id);
  }

  /** Removing one occurrence of a task queued at most once leaves it in no bucket. */
  lemma UnqueuedEverywhere(st: Store, st1: Store, id: string, p: int)
    requires QueuedAtMostOnce(st, id, p)
    requires Bucket(st1, p) == RemoveFirst(Bucket(st, p), id)
    requires forall q | q != p :: Bucket(st1, q) == Bucket(st, q)
    ensures forall q :: id !in Bucket(st1, q)
  {
    assert multiset(Bucket(st1, p))[id] == 0;
  }

  /** Deleting a task a second time changes nothing. */
  lemma DeleteIsIdempotent(st: Store, id: string, p: int, now: int, later: int)
    requires Get(st, id, Priority) == Some(IntToString(p))
    requires QueuedAtMostOnce(st, id, p)
    requires DeleteTask(st, Some("delete"), id, now).Return?
    ensures var st1 := DeleteTask(st, Some("delete"), id, now).store;
            DeleteTask(st1, Some("delete"), id, later) == Return(DeleteAcknowledged, st1)
  {
    var text := IntToString(p);
    var s0 := SetStatus(st, id, Deleted);
    assert DeleteTask(st, Some("delete"), id, now) == Release(s0, id, text);
    assert Bucket(s0, p) == Bucket(st, p);
    ReleaseIsIdempotent(s0, id, p);
    var st1 := Release(s0, id, text).store;
    assert Get(st1, id, Priority) == Some(text);
    RewriteStatusIsNoOp(st1, id, Deleted);
    assert DeleteTask(st1, Some("delete"), id, later) == Release(st1, id, text);
  }

  lemma ReleaseIsIdempotent(s0: Store, id: string, p: int)
    requires multiset(Bucket(s0, p))[id] <= 1
    requires Release(s0, id, IntToString(p)).Return?
    ensures var s1 := Release(s0, id, IntToString(p)).store;
            Release(s1, id, IntToString(p)) == Return(DeleteAcknowledged, s1)
  {
    ParseIntOfIntToString(p);
    var ra := Get(s0, id, ReceiverAssignedField).value;
    var freed := FreeReceiver(s0, ra);
    var s1 := Unqueue(freed, id, p);
    assert Release(s0, id, IntToString(p)) == Return(DeleteAcknowledged, s1);
    assert Get(s1, id, ReceiverAssignedField) == Some(ra);
    FreeReceiverTwice(s0, ra);
    assert FreeReceiver(s1, ra) == s1;
    assert multiset(Bucket(s1, p))[id] == 0;
    UnqueueAbsent(s1, id, p);
  }

  /** Freeing the same receiver twice is freeing it once. */
  lemma FreeReceiverTwice(st: Store, ra: string)
    ensures FreeReceiver(FreeReceiver(st, ra), ra) == FreeReceiver(st, ra)
  {
    if ra != Null {
      var b := DeviceBase(ra);
      assert st.slots[b := Null][b := Null] == st.slots[b := Null];
    }
  }

  /** Unqueueing a task that is in neither its bucket nor the task set changes nothing. */
  lemma UnqueueAbsent(st: Store, id: string, p: int)
    requires id !in Bucket(st, p) && id !in st.tasks
    ensures Unqueue(st, id, p) == st
  {
    if p in st.buckets {
      assert st.buckets[p := RemoveFirst(st.buckets[p], id)] == st.buckets;
    }
    assert st.tasks - {id} == st.tasks;
  }

  /** Writing the status a task already has leaves the store as it is. */
  lemma RewriteStatusIsNoOp(st: Store, id: string, s: Status)
    requires StatusOf(st, id) == Some(s)
    ensures SetStatus(st, id, s) == st
  {
    var h := st.hashes[id];
    assert h[StatusField] == s.Name();
    assert h + map[StatusField := s.Name()] == h;
  }
}

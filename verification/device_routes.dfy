/**
 * The handlers the lab devices call (reliascheduler/views/scheduler.py): report a side as
 * done, read a task, claim the next task as receiver, join it as transmitter, and attach
 * an error message. Every one of them first authenticates the device.
 */
module DeviceRoutes {
  import opened Common
  import opened Strings
  import opened Keys
  import opened Storage
  import opened Priority
  import opened Queue
  import opened Lifecycle
  import opened Auth

  /** The `relia-device` and `relia-password` headers. */
  datatype Headers = Headers(device: Option<string>, password: Option<string>)

  /**
   * The authentication every device handler starts with: `Ok(Some(device))`, `Ok(None)`
   * for a 401 answer, `Err` when the check raises.
   */
  function Authenticate(st: Store, hdr: Headers, sha512: string -> Hex): Result<Option<string>> {
    CheckDevice(st.credentials, hdr.device, hdr.password, sha512)
  }

  datatype CompleteResponse = CompleteUnauthorized | Reported(status: Status)

  /** `devices_complete_task`: one report on behalf of the device's base. */
  function DeviceComplete(st: Store, hdr: Headers, sha512: string -> Hex, kind: string, id: string): (r: Exec<CompleteResponse>)
    ensures Authenticate(st, hdr, sha512).Err? <==> r.Raise?
    ensures Authenticate(st, hdr, sha512) == Ok(None) ==> r == Return(CompleteUnauthorized, st)
    ensures r.Raise? ==> r.store == st
    ensures r.Return? && r.value.Reported? ==>
      var base := DeviceBase(hdr.device.value);
      var next := Next(ReportOf(kind), StatusOf(st, id));
      && Authenticate(st, hdr, sha512) == Ok(hdr.device)
      && r.value.status == (if next.Some? then next.value else Error)
      && StatusOf(r.store, id) == After(ReportOf(kind), StatusOf(st, id))
      && (kind == "receiver" ==> Slot(r.store, base) == Some(Null))
      && (kind != "receiver" ==> r.store.slots == st.slots)
  {
    match Authenticate(st, hdr, sha512)
    case Err(_) => Raise(st)
    case Ok(None) => Return(CompleteUnauthorized, st)
    case Ok(Some(device)) =>
      var (status, st1) := Complete(st, DeviceBase(device), ReportOf(kind), id);
      Return(Reported(status), st1)
  }

  datatype StatusResponse =
    | StatusUnauthorized
    | UnknownTask
    | TaskState(status: Option<string>, receiver: Option<string>, transmitter: Option<string>, sessionId: Option<string>)

  /**
   * `devices_get_task_status`: an identifier without an author is logged as an error
   * (author "None"); otherwise the inactivity check runs first and the state it leaves
   * is reported.
   */
  function DeviceTaskStatus(st: Store, hdr: Headers, sha512: string -> Hex, id: string, now: int, cfg: Config): (r: Exec<StatusResponse>)
    ensures Authenticate(st, hdr, sha512) == Ok(None) ==> r == Return(StatusUnauthorized, st)
    ensures r.Return? && r.value.UnknownTask? <==>
      Authenticate(st, hdr, sha512).Ok? && Authenticate(st, hdr, sha512).value.Some? && Get(st, id, Author).None?
    ensures r.Return? && r.value.UnknownTask? ==>
      && r.store.errors == st.errors + {id}
      && GetError(r.store, id, ErrorAuthorField) == Some("None")
      && r.store.hashes == st.hashes
    ensures r.Return? && r.value.TaskState? ==>
      && Get(st, id, Author).Some?
      && (Stale(st, id, now, cfg) && InProgress(StatusOf(st, id)) ==> StatusOf(r.store, id) == Some(Completed))
      && (!Stale(st, id, now, cfg) ==> r.store == st)
      && r.value.status == Get(r.store, id, StatusField)
      && r.value.receiver == Get(st, id, ReceiverAssignedField)
      && r.value.transmitter == Get(st, id, TransmitterAssignedField)
      && r.value.sessionId == Get(st, id, SessionId)
    ensures r.Raise? ==> r.store == st
  {
    match Authenticate(st, hdr, sha512)
    case Err(_) => Raise(st)
    case Ok(None) => Return(StatusUnauthorized, st)
    case Ok(Some(device)) =>
      if Get(st, id, Author).None? then
        Return(UnknownTask, RecordError(st, id, "None", "Task identifier does not exist", now, true))
      else
        match StopIfInactive(st, DeviceBase(device), id, now, cfg)
        case Raise(st1) => Raise(st1)
        case Return(_, st1) =>
          Return(TaskState(Get(st1, id, StatusField), Get(st1, id, ReceiverAssignedField),
                           Get(st1, id, TransmitterAssignedField), Get(st1, id, SessionId)), st1)
  }

  /** The base's assignment slot names a task: present, non-empty and not "null". */
  predicate Occupied(st: Store, base: string) {
    Slot(st, base).Some? && Slot(st, base).value != "" && Slot(st, base).value != Null
  }

  /**
   * The start of `devices_assign_task_primary`: a base whose assigned task started less
   * than `maxTimeRunning` ago is in use (`true`). An older assignment is reclaimed: the
   * task is completed, the slot reset and a timeout error logged under the task's author.
   * A processing start that does not parse raises, and so does logging under a missing
   * author (the store rejects a null value, and the whole pipeline with it).
   */
  function CheckInUse(st: Store, base: string, now: int, cfg: Config): (r: Exec<bool>)
    ensures !Occupied(st, base) ==> r == Return(false, st)
    ensures r.Return? && r.value ==> r.store == st && Occupied(st, base)
    ensures r.Raise? ==> r.store == st && Occupied(st, base)
    ensures Occupied(st, base) ==>
      var id := Slot(st, base).value;
      var start := Get(st, id, ReceiverProcessingStart);
      && (start.None? || ParseInt(start.value).None? ==> r.Raise?)
      && (start.Some? && ParseInt(start.value).Some? ==>
            && (r.Return? && r.value <==> now - ParseInt(start.value).value < cfg.maxTimeRunning)
            && (now - ParseInt(start.value).value >= cfg.maxTimeRunning ==>
                  && (r.Raise? <==> Get(st, id, Author).None?)
                  && (r.Return? ==> TimedOut(st, r.store, base, id, now))))
    ensures r.store == st.(hashes := r.store.hashes, slots := r.store.slots, errors := r.store.errors,
                           errorHashes := r.store.errorHashes)
  {
    if !Occupied(st, base) then Return(false, st)
    else
      var id := Slot(st, base).value;
      match Get(st, id, ReceiverProcessingStart)
      case None => Raise(st)
      case Some(text) =>
        match ParseInt(text)
        case None => Raise(st)
        case Some(start) =>
          if now - start < cfg.maxTimeRunning then Return(true, st)
          else
            match Get(st, id, Author)
            case None => Raise(st)
            case Some(author) =>
              var st1 := SetStatus(st, id, Completed);
              var st2 := st1.(slots := st1.slots[base := Null]);
              Return(false, RecordError(st2, id, author, "Receiver side: task timed out", now, true))
  }

  /** What reclaiming a timed-out assignment leaves behind. */
  ghost predicate TimedOut(st: Store, r: Store, base: string, id: string, now: int) {
    && StatusOf(r, id) == Some(Completed)
    && r.slots == st.slots[base := Null]
    && r.errors == st.errors + {id}
    && GetError(r, id, ErrorAuthorField) == Get(st, id, Author)
    && GetError(r, id, ErrorMessageField) == Some("Receiver side: task timed out")
    && (forall x, f | x != id || f != StatusField :: Get(r, x, f) == Get(st, x, f))
    && r.buckets == st.buckets && r.index == st.index && r.tasks == st.tasks
  }

  /** After a reclaim the base is free: checking it again finds nothing in use and changes nothing. */
  lemma ReclaimFreesDevice(st: Store, base: string, now: int, later: int, cfg: Config)
    requires CheckInUse(st, base, now, cfg).Return?
    ensures var st1 := CheckInUse(st, base, now, cfg).store;
            !CheckInUse(st, base, now, cfg).value ==> CheckInUse(st1, base, later, cfg) == Return(false, st1)
  {
    var r := CheckInUse(st, base, now, cfg);
    if !r.value && Occupied(st, base) {
      assert Slot(r.store, base) == Some(Null);
    }
  }

  /** The receiver binding: four HSETs on the task and the SET of the base's slot. */
  function BindReceiver(st: Store, id: string, device: string, base: string, t: int): (r: Store)
    ensures StatusOf(r, id) == Some(ReceiverAssigned)
    ensures Get(r, id, ReceiverAssignedField) == Some(device)
    ensures Get(r, id, DeviceAssigned) == Some(base)
    ensures Get(r, id, ReceiverProcessingStart) == Some(Stamp(t))
    ensures forall x, f | x != id || !(f == StatusField || f == ReceiverAssignedField || f == DeviceAssigned
                                       || f == ReceiverProcessingStart) :: Get(r, x, f) == Get(st, x, f)
    ensures r.slots == st.slots[base := id]
    ensures r == st.(hashes := r.hashes, slots := r.slots)
  {
    StatusNamesDistinct(ReceiverAssigned, ReceiverAssigned);
    var m := map[ReceiverAssignedField := device, DeviceAssigned := base,
                 StatusField := ReceiverAssigned.Name(), ReceiverProcessingStart := Stamp(t)];
    var st1 := SetFields(st, id, m);
    st1.(slots := st1.slots[base := id])
  }

  datatype AssignResponse =
    | AssignUnauthorized
    | InUse
    | NoTasks
    | Assigned(id: string, file: Option<string>, fileContent: Option<string>, sessionId: Option<string>,
               fileType: Option<string>, maxTime: int)

  /** The clock readings of a long poll end past its deadline. */
  predicate EndsAfter(ticks: seq<int>, deadline: int) {
    |ticks| > 0 && ticks[|ticks| - 1] > deadline
  }

  /**
   * `devices_assign_task_primary`. `now` is the time of the request, `maxSeconds` the
   * query argument, `ticks` the clock readings the long-poll loop makes. The device's
   * heartbeat is written before anything else can fail.
   */
  function RequestReceiver(st: Store, cfg: Config, hdr: Headers, sha512: string -> Hex,
                           maxSeconds: Option<string>, now: int, ticks: seq<int>): (r: Exec<AssignResponse>)
    requires Valid(st)
    requires EndsAfter(ticks, now + WaitBudget(maxSeconds))
    ensures Authenticate(st, hdr, sha512).Err? ==> r == Raise(st)
    ensures Authenticate(st, hdr, sha512) == Ok(None) ==> r == Return(AssignUnauthorized, st)
    ensures r.Return? && r.value.InUse? ==>
      && Occupied(st, DeviceBase(hdr.device.value))
      && r.store == st.(heartbeats := st.heartbeats[hdr.device.value := now])
    ensures r.Return? && r.value.Assigned? ==>
      var base := DeviceBase(hdr.device.value);
      var id := r.value.id;
      && Authenticate(st, hdr, sha512) == Ok(hdr.device)
      && StatusOf(r.store, id) == Some(ReceiverAssigned)
      && Get(r.store, id, ReceiverAssignedField) == hdr.device
      && Get(r.store, id, DeviceAssigned) == Some(base)
      && Slot(r.store, base) == Some(id)
      && (exists p | p in st.index :: id in Bucket(st, p))
      && (exists t | t in ticks && t <= now + WaitBudget(maxSeconds) ::
            Get(r.store, id, ReceiverProcessingStart) == Some(Stamp(t)))
      && r.value.maxTime == cfg.maxTimeRunning
    ensures r.Return? && (r.value.Assigned? || r.value.NoTasks?) ==>
      hdr.device.value in r.store.heartbeats && r.store.heartbeats[hdr.device.value] == now
    ensures r.store.index == st.index && r.store.credentials == st.credentials
  {
    match Authenticate(st, hdr, sha512)
    case Err(_) => Raise(st)
    case Ok(None) => Return(AssignUnauthorized, st)
    case Ok(Some(device)) =>
      var st1 := st.(heartbeats := st.heartbeats[device := now]);
      var base := DeviceBase(device);
      match CheckInUse(st1, base, now, cfg)
      case Raise(st2) => Raise(st2)
      case Return(inUse, st2) =>
        if inUse then Return(InUse, st2)
        else ServeReceiver(st2, device, base, cfg, ticks, now + WaitBudget(maxSeconds))
  }

  /**
   * The rest of `devices_assign_task_primary` once the base is known to be free: the
   * long poll, then the binding of the task it serves to the device.
   */
  function ServeReceiver(st: Store, device: string, base: string, cfg: Config, ticks: seq<int>, deadline: int): (r: Exec<AssignResponse>)
    requires Valid(st)
    requires EndsAfter(ticks, deadline)
    ensures r.Return? ==> r.value.NoTasks? || r.value.Assigned?
    ensures r.Return? && r.value.Assigned? ==>
      var id := r.value.id;
      && StatusOf(r.store, id) == Some(ReceiverAssigned)
      && Get(r.store, id, ReceiverAssignedField) == Some(device)
      && Get(r.store, id, DeviceAssigned) == Some(base)
      && Slot(r.store, base) == Some(id)
      && (exists p | p in st.index :: id in Bucket(st, p))
      && (exists t | t in ticks && t <= deadline :: Get(r.store, id, ReceiverProcessingStart) == Some(Stamp(t)))
      && r.value.maxTime == cfg.maxTimeRunning
    ensures r.store.index == st.index && r.store.credentials == st.credentials && r.store.heartbeats == st.heartbeats
  {
    match PollReceiver(st, base, ticks, deadline, cfg)
    case Raise(st3) => Raise(st3)
    case Return(found, st3) =>
      if found.None? then Return(NoTasks, st3)
      else
        var (id, t) := found.value;
        var response := Assigned(id, Get(st3, id, ReceiverFilename), Get(st3, id, ReceiverFile),
                                 Get(st3, id, SessionId), Get(st3, id, ReceiverFiletype), cfg.maxTimeRunning);
        Return(response, BindReceiver(st3, id, device, base, t))
  }

  /**
   * The transmitter's long-poll loop: at each clock reading until the deadline, look up
   * the task assigned to the base; take it when its status is exactly receiver-assigned
   * and the inactivity check leaves it alone. One reading serves both the deadline test
   * and the inactivity check of that iteration.
   */
  function PollTransmitter(st: Store, base: string, ticks: seq<int>, deadline: int, cfg: Config): (r: Exec<Option<(string, int)>>)
    requires EndsAfter(ticks, deadline)
    ensures r.Return? && r.value.Some? ==>
      && Slot(r.store, base) == Some(r.value.value.0)
      && StatusOf(r.store, r.value.value.0) == Some(ReceiverAssigned)
      && r.value.value.1 in ticks && r.value.value.1 <= deadline
    ensures ticks[0] <= deadline && Slot(st, base).Some?
            && StatusOf(st, Slot(st, base).value) == Some(ReceiverAssigned)
            && StopIfInactive(st, base, Slot(st, base).value, ticks[0], cfg) == Return(false, st)
            ==> r == Return(Some((Slot(st, base).value, ticks[0])), st)
    ensures r.store == st.(hashes := r.store.hashes, slots := r.store.slots)
    decreases |ticks|
  {
    if ticks[0] > deadline then Return(None, st)
    else
      var held := Slot(st, base);
      if held.None? || StatusOf(st, held.value) != Some(ReceiverAssigned) then
        PollTransmitter(st, base, ticks[1..], deadline, cfg)
      else
        var id := held.value;
        match StopIfInactive(st, base, id, ticks[0], cfg)
        case Raise(st1) => Raise(st1)
        case Return(stopped, st1) =>
          if stopped then PollTransmitter(st1, base, ticks[1..], deadline, cfg)
          else Return(Some((id, ticks[0])), st1)
  }

  /** The transmitter binding: three HSETs on the task. The slot is left as it is. */
  function BindTransmitter(st: Store, id: string, device: string, t: int): (r: Store)
    ensures StatusOf(r, id) == Some(FullyAssigned)
    ensures Get(r, id, TransmitterAssignedField) == Some(device)
    ensures Get(r, id, TransmitterProcessingStart) == Some(Stamp(t))
    ensures forall x, f | x != id || !(f == StatusField || f == TransmitterAssignedField
                                       || f == TransmitterProcessingStart) :: Get(r, x, f) == Get(st, x, f)
    ensures r == st.(hashes := r.hashes)
  {
    StatusNamesDistinct(FullyAssigned, FullyAssigned);
    SetFields(st, id, map[TransmitterAssignedField := device, StatusField := FullyAssigned.Name(),
                          TransmitterProcessingStart := Stamp(t)])
  }

  /** `devices_assign_task_secondary`. */
  function RequestTransmitter(st: Store, cfg: Config, hdr: Headers, sha512: string -> Hex,
                              maxSeconds: Option<string>, now: int, ticks: seq<int>): (r: Exec<AssignResponse>)
    requires EndsAfter(ticks, now + WaitBudget(maxSeconds))
    ensures Authenticate(st, hdr, sha512).Err? ==> r == Raise(st)
    ensures Authenticate(st, hdr, sha512) == Ok(None) ==> r == Return(AssignUnauthorized, st)
    ensures r.Return? ==> r.value.AssignUnauthorized? || r.value.NoTasks? || r.value.Assigned?
    ensures r.Return? && r.value.Assigned? ==>
      var id := r.value.id;
      && Authenticate(st, hdr, sha512) == Ok(hdr.device)
      && StatusOf(r.store, id) == Some(FullyAssigned)
      && Get(r.store, id, TransmitterAssignedField) == hdr.device
      && Slot(r.store, DeviceBase(hdr.device.value)) == Some(id)
      && r.value.maxTime == cfg.maxTimeRunning
    ensures r.store.buckets == st.buckets && r.store.index == st.index && r.store.tasks == st.tasks
  {
    match Authenticate(st, hdr, sha512)
    case Err(_) => Raise(st)
    case Ok(None) => Return(AssignUnauthorized, st)
    case Ok(Some(device)) =>
      var st1 := st.(heartbeats := st.heartbeats[device := now]);
      var base := DeviceBase(device);
      var deadline := now + WaitBudget(maxSeconds);
      match PollTransmitter(st1, base, ticks, deadline, cfg)
      case Raise(st2) => Raise(st2)
      case Return(found, st2) =>
        if found.None? then Return(NoTasks, st2)
        else
          var (id, t) := found.value;
          var response := Assigned(id, Get(st2, id, TransmitterFilename), Get(st2, id, TransmitterFile),
                                   Get(st2, id, SessionId), Get(st2, id, TransmitterFiletype), cfg.maxTimeRunning);
          Return(response, BindTransmitter(st2, id, device, t))
  }

  datatype ErrorReportResponse = ReportUnauthorized | ReportStored

  /**
   * `devices_assign_error_message`: store the device's error message and time on the
   * task hash, creating the hash if needed. A missing value raises at its own HSET, so a
   * missing time leaves the message written.
   */
  function ReportError(st: Store, hdr: Headers, sha512: string -> Hex, id: string,
                       message: Option<string>, time: Option<string>): (r: Exec<ErrorReportResponse>)
    ensures Authenticate(st, hdr, sha512) == Ok(None) ==> r == Return(ReportUnauthorized, st)
    ensures r.Return? && r.value == ReportStored <==>
      Authenticate(st, hdr, sha512).Ok? && Authenticate(st, hdr, sha512).value.Some? && message.Some? && time.Some?
    ensures r.Return? && r.value == ReportStored ==>
      && Get(r.store, id, ErrorMessage) == message
      && Get(r.store, id, ErrorTime) == time
    ensures Authenticate(st, hdr, sha512).Ok? && Authenticate(st, hdr, sha512).value.Some? && message.Some? ==>
      Get(r.store, id, ErrorMessage) == message
    ensures forall x, f | x != id || (f != ErrorMessage && f != ErrorTime) :: Get(r.store, x, f) == Get(st, x, f)
    ensures r.store == st.(hashes := r.store.hashes)
  {
    match Authenticate(st, hdr, sha512)
    case Err(_) => Raise(st)
    case Ok(None) => Return(ReportUnauthorized, st)
    case Ok(Some(_)) =>
      match message
      case None => Raise(st)
      case Some(m) =>
        var st1 := SetField(st, id, ErrorMessage, m);
        match time
        case None => Raise(st1)
        case Some(t) => Return(ReportStored, SetField(st1, id, ErrorTime, t))
  }

  /**
   * Once a receiver holds a task, a transmitter of the same base that asks before the
   * task's user has been silent past the polling limit joins that very task.
   */
  lemma TransmitterJoinsReceiverTask(st: Store, cfg: Config, hdr: Headers, sha512: string -> Hex,
                                     maxSeconds: Option<string>, now: int, ticks: seq<int>,
                                     hdr2: Headers, maxSeconds2: Option<string>, now2: int, ticks2: seq<int>,
                                     polled: int)
    requires Valid(st)
    requires EndsAfter(ticks, now + WaitBudget(maxSeconds))
    requires EndsAfter(ticks2, now2 + WaitBudget(maxSeconds2))
    requires var r := RequestReceiver(st, cfg, hdr, sha512, maxSeconds, now, ticks);
             && r.Return? && r.value.Assigned?
             && Authenticate(r.store, hdr2, sha512) == Ok(hdr2.device) && hdr2.device.Some?
             && DeviceBase(hdr2.device.value) == DeviceBase(hdr.device.value)
             && Get(r.store, r.value.id, InactiveSince) == Some(Stamp(polled))
    requires ticks2[0] <= now2 + WaitBudget(maxSeconds2)
    requires cfg.maxTimeWithoutPolling.Some? && ticks2[0] - polled <= cfg.maxTimeWithoutPolling.value
    ensures var r := RequestReceiver(st, cfg, hdr, sha512, maxSeconds, now, ticks);
            var r2 := RequestTransmitter(r.store, cfg, hdr2, sha512, maxSeconds2, now2, ticks2);
            && r2.Return? && r2.value.Assigned? && r2.value.id == r.value.id
            && StatusOf(r2.store, r.value.id) == Some(FullyAssigned)
  {
    var r := RequestReceiver(st, cfg, hdr, sha512, maxSeconds, now, ticks);
    TransmitterTakesHeldTask(r.store, cfg, hdr2, sha512, maxSeconds2, now2, ticks2, r.value.id, polled);
  }

  /**
   * A transmitter asking in time takes the receiver-assigned task its base's slot names,
   * as long as the task's user has polled within the limit.
   */
  lemma TransmitterTakesHeldTask(st: Store, cfg: Config, hdr: Headers, sha512: string -> Hex,
                                 maxSeconds: Option<string>, now: int, ticks: seq<int>, id: string, polled: int)
    requires EndsAfter(ticks, now + WaitBudget(maxSeconds))
    requires Authenticate(st, hdr, sha512) == Ok(hdr.device) && hdr.device.Some?
    requires Slot(st, DeviceBase(hdr.device.value)) == Some(id)
    requires StatusOf(st, id) == Some(ReceiverAssigned)
    requires Get(st, id, InactiveSince) == Some(Stamp(polled))
    requires ticks[0] <= now + WaitBudget(maxSeconds)
    requires cfg.maxTimeWithoutPolling.Some? && ticks[0] - polled <= cfg.maxTimeWithoutPolling.value
    ensures var r := RequestTransmitter(st, cfg, hdr, sha512, maxSeconds, now, ticks);
            && r.Return? && r.value.Assigned? && r.value.id == id
            && StatusOf(r.store, id) == Some(FullyAssigned)
  {
    var device := hdr.device.value;
    var base := DeviceBase(device);
    var st1 := st.(heartbeats := st.heartbeats[device := now]);
    assert Slot(st1, base) == Some(id);
    assert StatusOf(st1, id) == Some(ReceiverAssigned);
    assert Get(st1, id, InactiveSince) == Some(Stamp(polled));
    FreshStampNotStale(st1, base, id, polled, ticks[0], cfg);
    assert PollTransmitter(st1, base, ticks, now + WaitBudget(maxSeconds), cfg) == Return(Some((id, ticks[0])), st1);
  }

  /** A base whose slot holds a task started less than `maxTimeRunning` ago is turned away. */
  lemma BusyBaseTurnedAway(st: Store, cfg: Config, hdr: Headers, sha512: string -> Hex,
                           maxSeconds: Option<string>, now: int, ticks: seq<int>, t: int)
    requires Valid(st)
    requires EndsAfter(ticks, now + WaitBudget(maxSeconds))
    requires Authenticate(st, hdr, sha512) == Ok(hdr.device) && hdr.device.Some?
    requires Occupied(st, DeviceBase(hdr.device.value))
    requires Get(st, Slot(st, DeviceBase(hdr.device.value)).value, ReceiverProcessingStart) == Some(Stamp(t))
    requires now - t < cfg.maxTimeRunning
    ensures RequestReceiver(st, cfg, hdr, sha512, maxSeconds, now, ticks)
         == Return(InUse, st.(heartbeats := st.heartbeats[hdr.device.value := now]))
  {
    var device := hdr.device.value;
    var st1 := st.(heartbeats := st.heartbeats[device := now]);
    var base := DeviceBase(device);
    ParseIntOfIntToString(t);
    assert Slot(st1, base) == Slot(st, base);
    assert Get(st1, Slot(st, base).value, ReceiverProcessingStart) == Some(Stamp(t));
    assert CheckInUse(st1, base, now, cfg) == Return(true, st1);
  }

  /**
   * A base is never given two tasks at once: while its receiver's task has been running
   * for less than `maxTimeRunning`, another receiver request of that base is turned away.
   */
  lemma NoSecondReceiverTask(st: Store, cfg: Config, hdr: Headers, sha512: string -> Hex,
                             maxSeconds: Option<string>, now: int, ticks: seq<int>,
                             hdr2: Headers, maxSeconds2: Option<string>, now2: int, ticks2: seq<int>)
    requires Valid(st)
    requires EndsAfter(ticks, now + WaitBudget(maxSeconds))
    requires EndsAfter(ticks2, now2 + WaitBudget(maxSeconds2))
    requires var r := RequestReceiver(st, cfg, hdr, sha512, maxSeconds, now, ticks);
             && r.Return? && r.value.Assigned? && r.value.id != "" && r.value.id != Null
             && Authenticate(r.store, hdr2, sha512) == Ok(hdr2.device) && hdr2.device.Some?
             && DeviceBase(hdr2.device.value) == DeviceBase(hdr.device.value)
    requires forall t | t in ticks :: now2 - t < cfg.maxTimeRunning
    ensures var r := RequestReceiver(st, cfg, hdr, sha512, maxSeconds, now, ticks);
            var r2 := RequestReceiver(r.store, cfg, hdr2, sha512, maxSeconds2, now2, ticks2);
            r2 == Return(InUse, r.store.(heartbeats := r.store.heartbeats[hdr2.device.value := now2]))
  {
    var r := RequestReceiver(st, cfg, hdr, sha512, maxSeconds, now, ticks);
    var id := r.value.id;
    var base := DeviceBase(hdr2.device.value);
    assert Slot(r.store, base) == Some(id);
    var t :| t in ticks && t <= now + WaitBudget(maxSeconds) && Get(r.store, id, ReceiverProcessingStart) == Some(Stamp(t));
    BusyBaseTurnedAway(r.store, cfg, hdr2, sha512, maxSeconds2, now2, ticks2, t);
  }
}

/**
 * The task status machine driven by device reports (`_complete_device_task_impl`) and
 * the inactivity reclaim built on it (`_stop_task_if_inactive`).
 */
module Lifecycle {
  import opened Common
  import opened Strings
  import opened Keys
  import opened Storage

  /** The `type` segment of a completion report. */
  datatype Report = ReceiverReport | TransmitterReport | OtherReport

  function ReportOf(kind: string): Report {
    if kind == "receiver" then ReceiverReport
    else if kind == "transmitter" then TransmitterReport
    else OtherReport
  }

  /**
   * The completion table: the status a report moves the task to, or `None` when the
   * report leaves the status as it is. A receiver report on receiver-assigned and on
   * receiver-still-processing completes the task.
   */
  function Next(kind: Report, s: Option<Status>): Option<Status> {
    match kind
    case ReceiverReport =>
      (match s
       case Some(ReceiverAssigned) => Some(Completed)
       case Some(ReceiverStillProcessing) => Some(Completed)
       case Some(FullyAssigned) => Some(TransmitterStillProcessing)
       case _ => None)
    case TransmitterReport =>
      (match s
       case Some(FullyAssigned) => Some(ReceiverStillProcessing)
       case Some(TransmitterStillProcessing) => Some(Completed)
       case _ => None)
    case OtherReport => None
  }

  /** The status after a report, staying put where the table has no entry. */
  function After(kind: Report, s: Option<Status>): Option<Status> {
    if Next(kind, s).Some? then Next(kind, s) else s
  }

  /**
   * One device report. The first component is the status the handler reports back
   * ("error" when nothing moved). A receiver report always clears the reporting base's
   * assignment slot, even when the status does not move.
   */
  function Complete(st: Store, base: string, kind: Report, id: string): (r: (Status, Store))
    ensures Next(kind, StatusOf(st, id)).Some? ==> r.0 == Next(kind, StatusOf(st, id)).value
    ensures Next(kind, StatusOf(st, id)).None? ==> r.0 == Error
    ensures StatusOf(r.1, id) == After(kind, StatusOf(st, id))
    ensures forall x, f | x != id || f != StatusField :: Get(r.1, x, f) == Get(st, x, f)
    ensures Next(kind, StatusOf(st, id)).None? ==> r.1.hashes == st.hashes
    ensures r.1.slots == if kind == ReceiverReport then st.slots[base := Null] else st.slots
    ensures r.1 == st.(hashes := r.1.hashes, slots := r.1.slots)
  {
    var next := Next(kind, StatusOf(st, id));
    var st1 := if next.Some? then SetStatus(st, id, next.value) else st;
    var st2 := if kind == ReceiverReport then st1.(slots := st1.slots[base := Null]) else st1;
    (if next.Some? then next.value else Error, st2)
  }

  /** The four statuses of a task that holds at least one device. */
  predicate InProgress(s: Option<Status>) {
    s == Some(ReceiverAssigned) || s == Some(FullyAssigned)
    || s == Some(ReceiverStillProcessing) || s == Some(TransmitterStillProcessing)
  }

  /** From fully-assigned, the two reports complete the task in either order. */
  lemma BothReportOrdersComplete(st: Store, base: string, id: string)
    requires StatusOf(st, id) == Some(FullyAssigned)
    ensures var s1 := Complete(st, base, ReceiverReport, id).1;
            StatusOf(Complete(s1, base, TransmitterReport, id).1, id) == Some(Completed)
    ensures var s1 := Complete(st, base, TransmitterReport, id).1;
            StatusOf(Complete(s1, base, ReceiverReport, id).1, id) == Some(Completed)
  {
  }

  /** Reporting twice from the same side, starting at fully-assigned, never completes the task. */
  lemma RepeatedReportNeverCompletes(st: Store, base: string, id: string, kind: Report)
    requires StatusOf(st, id) == Some(FullyAssigned)
    ensures var s1 := Complete(st, base, kind, id).1;
            StatusOf(Complete(s1, base, kind, id).1, id) != Some(Completed)
  {
    var s1 := Complete(st, base, kind, id).1;
    assert StatusOf(s1, id) == After(kind, Some(FullyAssigned));
  }

  /** The status reached after a sequence of reports. */
  function Run(s: Option<Status>, reports: seq<Report>): Option<Status>
    decreases |reports|
  {
    if reports == [] then s else Run(After(reports[0], s), reports[1..])
  }

  /**
   * From fully-assigned, any sequence of reports ends in completed exactly when both a
   * receiver and a transmitter report occur in it, in whatever order and with whatever
   * repetitions or unknown reports in between.
   */
  lemma CompletedIffBothSidesReported(reports: seq<Report>)
    ensures Run(Some(FullyAssigned), reports) == Some(Completed)
        <==> ReceiverReport in reports && TransmitterReport in reports
  {
    RunFromHalfDone(Some(FullyAssigned), reports);
  }

  lemma {:induction false} RunFromHalfDone(s: Option<Status>, reports: seq<Report>)
    requires s == Some(FullyAssigned) || s == Some(TransmitterStillProcessing)
          || s == Some(ReceiverStillProcessing) || s == Some(Completed)
    decreases |reports|
    ensures Run(s, reports) == Some(Completed) <==>
      || s == Some(Completed)
      || (s == Some(TransmitterStillProcessing) && TransmitterReport in reports)
      || (s == Some(ReceiverStillProcessing) && ReceiverReport in reports)
      || (s == Some(FullyAssigned) && ReceiverReport in reports && TransmitterReport in reports)
  {
    if reports != [] {
      RunFromHalfDone(After(reports[0], s), reports[1..]);
      assert reports == [reports[0]] + reports[1..];
    }
  }

  /**
   * The receiver report followed by the transmitter report, as the inactivity check
   * issues them: any in-progress task ends completed, any other status is kept.
   */
  function Reclaim(st: Store, base: string, id: string): (r: Store)
    ensures InProgress(StatusOf(st, id)) ==> StatusOf(r, id) == Some(Completed)
    ensures !InProgress(StatusOf(st, id)) ==> StatusOf(r, id) == StatusOf(st, id)
    ensures r.slots == st.slots[base := Null]
    ensures forall x, f | x != id || f != StatusField :: Get(r, x, f) == Get(st, x, f)
    ensures r == st.(hashes := r.hashes, slots := r.slots)
  {
    ReclaimStatus(StatusOf(st, id));
    var s1 := Complete(st, base, ReceiverReport, id).1;
    Complete(s1, base, TransmitterReport, id).1
  }

  /** A receiver report followed by a transmitter report completes exactly the in-progress statuses. */
  lemma ReclaimStatus(s: Option<Status>)
    ensures After(TransmitterReport, After(ReceiverReport, s)) == if InProgress(s) then Some(Completed) else s
  {
  }

  /** `_stop_task_if_inactive` reads the poll stamp and compares it with the configured limit. */
  predicate Stale(st: Store, id: string, now: int, cfg: Config) {
    match Get(st, id, InactiveSince)
    case None => false
    case Some(s) =>
      ParseInt(s).Some? && cfg.maxTimeWithoutPolling.Some?
      && now - ParseInt(s).value > cfg.maxTimeWithoutPolling.value
  }

  /**
   * The check raises when the stamp is present but `float()` rejects it, or when the
   * limit is missing from the configuration (KeyError).
   */
  predicate StopRaises(st: Store, id: string, cfg: Config) {
    match Get(st, id, InactiveSince)
    case None => false
    case Some(s) => ParseInt(s).None? || cfg.maxTimeWithoutPolling.None?
  }

  /**
   * `_stop_task_if_inactive`: when the author has not polled for longer than the limit,
   * apply the receiver report and then the transmitter report on behalf of `base`.
   */
  function StopIfInactive(st: Store, base: string, id: string, now: int, cfg: Config): (r: Exec<bool>)
    ensures r.Raise? <==> StopRaises(st, id, cfg)
    ensures r.Raise? ==> r.store == st
    ensures r.Return? ==> r.value == Stale(st, id, now, cfg)
    ensures r.Return? && !r.value ==> r.store == st
    ensures r.Return? && r.value ==>
      && (InProgress(StatusOf(st, id)) ==> StatusOf(r.store, id) == Some(Completed))
      && (!InProgress(StatusOf(st, id)) ==> StatusOf(r.store, id) == StatusOf(st, id))
      && r.store.slots == st.slots[base := Null]
    ensures r.Return? ==> forall x, f | x != id || f != StatusField :: Get(r.store, x, f) == Get(st, x, f)
    ensures r.Return? ==> r.store == st.(hashes := r.store.hashes, slots := r.store.slots)
  {
    match Get(st, id, InactiveSince)
    case None => Return(false, st)
    case Some(stamp) =>
      match ParseInt(stamp)
      case None => Raise(st)
      case Some(since) =>
        match cfg.maxTimeWithoutPolling
        case None => Raise(st)
        case Some(limit) =>
          if now - since > limit then
            Return(true, Reclaim(st, base, id))
          else
            Return(false, st)
  }

  /** Polling a task stamps it, and a stamped task is not stale until the limit has elapsed. */
  lemma FreshStampNotStale(st: Store, base: string, id: string, polled: int, now: int, cfg: Config)
    requires Get(st, id, InactiveSince) == Some(Stamp(polled))
    requires cfg.maxTimeWithoutPolling.Some? && now - polled <= cfg.maxTimeWithoutPolling.value
    ensures StopIfInactive(st, base, id, now, cfg) == Return(false, st)
  {
    ParseIntOfIntToString(polled);
  }
}

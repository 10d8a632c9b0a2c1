/**
 * The key namespace of the store (reliascheduler/keys.py): the configured base key, the
 * builders for error, task, queue and device keys, the task-hash field names and the
 * status strings. The abstract store of module Storage keeps each namespace in its own
 * component; the disjointness lemmas below are what makes that separation faithful.
 */
module Keys {
  import opened Common
  import opened Strings

  /** `config.get('BASE_KEY') or 'base'`: an unset or empty setting falls back to "base". */
  function BaseKey(configured: Option<string>): (k: string)
    ensures k != ""
    ensures configured.Some? && configured.value != "" ==> k == configured.value
    ensures configured.None? || configured.value == "" ==> k == "base"
  {
    match configured
    case Some(v) => if v != "" then v else "base"
    case None => "base"
  }

  // ErrorKeys

  function Errors(b: string): string {
    b + ":relia:scheduler:errors"
  }

  function ErrorIdentifier(b: string, x: string): string {
    b + ":relia:scheduler:errors:" + x
  }

  // TaskKeys

  function Tasks(b: string): string {
    b + ":relia:scheduler:tasks"
  }

  function TaskIdentifier(b: string, x: string): string {
    b + ":relia:scheduler:tasks:" + x
  }

  function PriorityQueue(b: string, p: int): string {
    b + ":relia:scheduler:tasks:queues:" + IntToString(p)
  }

  function Priorities(b: string): string {
    b + ":relia:scheduler:priorities"
  }

  // DeviceKeys (the instance's base key is computed by the same expression as BaseKey)

  function Devices(b: string, d: string): string {
    b + ":relia:scheduler:devices:" + d
  }

  function LastCheck(b: string, d: string): string {
    b + ":relia:scheduler:devices:" + d + ":last_check"
  }

  function DeviceAssignment(b: string, d: string): string {
    b + ":relia:scheduler:devices:" + d + ":assigned_task"
  }

  /**
   * The base of a device identifier `base:role`: `device.split(':')[0]`, the text before
   * the first ':', or the whole identifier when it has none.
   */
  function DeviceBase(device: string): (b: string)
    ensures ':' !in b
    ensures b <= device
    ensures ':' !in device ==> b == device
    ensures |b| < |device| ==> device[|b|] == ':'
  {
    BeforeStopsAtSeparator(device, ':');
    Before(device, ':')
  }

  function Credentials(b: string): string {
    b + ":relia:scheduler:device-credentials"
  }

  /**
   * The device name recovered from a last-check key the way the device listing does it:
   * `':'.join(key.split(':')[-3:-1])`.
   */
  function DeviceNameOfLastCheckKey(key: string): string {
    var parts := Split(key, ':');
    var n := |parts|;
    Join(parts[Max(0, n - 3)..Max(0, n - 1)], ':')
  }

  /** A task key is the task-set key, a colon and the identifier. */
  lemma TaskIdentifierExtendsTasks(b: string, x: string)
    ensures TaskIdentifier(b, x) == Tasks(b) + ":" + x
    ensures ErrorIdentifier(b, x) == Errors(b) + ":" + x
  {
  }

  /** A bucket key is the task key of the identifier "queues:<p>". */
  lemma PriorityQueueIsTaskIdentifier(b: string, p: int)
    ensures PriorityQueue(b, p) == TaskIdentifier(b, "queues:" + IntToString(p))
  {
  }

  /** Distinct priorities have distinct bucket keys. */
  lemma PriorityQueueInjective(b: string, p: int, q: int)
    ensures PriorityQueue(b, p) == PriorityQueue(b, q) <==> p == q
  {
    var prefix := b + ":relia:scheduler:tasks:queues:";
    if PriorityQueue(b, p) == PriorityQueue(b, q) {
      assert PriorityQueue(b, p)[|prefix|..] == IntToString(p);
      assert PriorityQueue(b, q)[|prefix|..] == IntToString(q);
      IntToStringInjective(p, q);
    }
  }

  /**
   * A task hash key can only coincide with a bucket key when the task identifier contains
   * a ':'; identifiers from `secrets.token_urlsafe` never do.
   */
  lemma BucketKeyNotTaskKey(b: string, x: string, p: int)
    requires ':' !in x
    ensures TaskIdentifier(b, x) != PriorityQueue(b, p)
  {
    var prefix := b + ":relia:scheduler:tasks:";
    var k1 := TaskIdentifier(b, x);
    var k2 := PriorityQueue(b, p);
    assert k1 == prefix + x;
    assert k2 == prefix + "queues:" + IntToString(p);
    if |x| < 7 {
      assert |k1| < |k2|;
    } else {
      assert k1[|prefix| + 6] == x[6];
      assert x[6] != ':';
      assert k2[|prefix| + 6] == ':';
    }
  }

  /** Under one base key, no error key is a task key. */
  lemma ErrorKeysAreNotTaskKeys(b: string, x: string, y: string)
    ensures ErrorIdentifier(b, x) != TaskIdentifier(b, y)
    ensures ErrorIdentifier(b, x) != Tasks(b)
    ensures Errors(b) != TaskIdentifier(b, y)
    ensures Errors(b) != Tasks(b)
  {
    var i := |b| + 17;
    assert ErrorIdentifier(b, x)[i] == 'e';
    assert Errors(b)[i] == 'e';
    assert TaskIdentifier(b, y)[i] == 't';
    assert Tasks(b)[i] == 't';
  }

  /**
   * For a device identifier `base:role` (exactly one ':'), the name read back from its
   * last-check key is the identifier itself, whatever the base key contains.
   */
  lemma LastCheckNameRoundTrip(b: string, x: string, y: string)
    requires ':' !in x && ':' !in y
    ensures DeviceNameOfLastCheckKey(LastCheck(b, x + ":" + y)) == x + ":" + y
  {
    var w1, w2, w3, w6 := "relia", "scheduler", "devices", "last_check";
    assert LastCheck(b, x + ":" + y)
        == b + [':'] + (w1 + [':'] + (w2 + [':'] + (w3 + [':'] + (x + [':'] + (y + [':'] + w6)))));
    NameOfSixWordKey(b, w1, w2, w3, x, y, w6);
  }

  /** The `[-3:-1]` name of a key made of a prefix and six separator-free words. */
  lemma NameOfSixWordKey(b: string, w1: string, w2: string, w3: string, x: string, y: string, w6: string)
    requires ':' !in w1 && ':' !in w2 && ':' !in w3 && ':' !in x && ':' !in y && ':' !in w6
    ensures DeviceNameOfLastCheckKey(b + [':'] + (w1 + [':'] + (w2 + [':'] + (w3 + [':'] + (x + [':'] + (y + [':'] + w6))))))
         == x + ":" + y
  {
    var words := [w1, w2, w3, x, y, w6];
    var tail := Join(words, ':');
    assert words[5..] == [w6];
    assert Join(words[4..], ':') == y + [':'] + w6;
    assert Join(words[3..], ':') == x + [':'] + Join(words[4..], ':');
    assert Join(words[2..], ':') == w3 + [':'] + Join(words[3..], ':');
    assert Join(words[1..], ':') == w2 + [':'] + Join(words[2..], ':');
    assert tail == w1 + [':'] + Join(words[1..], ':');
    SplitJoin(words, ':');
    SplitAround(b, tail, ':');
    var parts := Split(b + [':'] + tail, ':');
    assert parts == Split(b, ':') + words;
    var n := |parts|;
    assert parts[n - 3..n - 1] == [x, y];
    assert Join([x, y], ':') == x + [':'] + y;
  }

  /** An assignment-slot key never equals a last-check key: the suffixes differ. */
  lemma AssignmentKeyNotLastCheckKey(b: string, x: string, y: string)
    ensures DeviceAssignment(b, x) != LastCheck(b, y)
  {
    var k1 := DeviceAssignment(b, x);
    var k2 := LastCheck(b, y);
    assert k1[|k1| - 2] == 's';
    assert k2[|k2| - 2] == 'c';
  }

  /** TaskKeys.Status */
  datatype Status =
    | Completed
    | Queued
    | Deleted
    | Error
    | ReceiverStillProcessing
    | TransmitterStillProcessing
    | ReceiverAssigned
    | FullyAssigned
  {
    /** The string stored in the task hash. */
    function Name(): string {
      match this
      case Completed => "completed"
      case Queued => "queued"
      case Deleted => "deleted"
      case Error => "error"
      case ReceiverStillProcessing => "receiver-still-processing"
      case TransmitterStillProcessing => "transmitter-still-processing"
      case ReceiverAssigned => "receiver-assigned"
      case FullyAssigned => "fully-assigned"
    }
  }

  /** The status a stored string denotes, if it is one of the eight constants. */
  function ParseStatus(s: string): (r: Option<Status>)
    ensures r.Some? ==> r.value.Name() == s
  {
    if s == "completed" then Some(Completed)
    else if s == "queued" then Some(Queued)
    else if s == "deleted" then Some(Deleted)
    else if s == "error" then Some(Error)
    else if s == "receiver-still-processing" then Some(ReceiverStillProcessing)
    else if s == "transmitter-still-processing" then Some(TransmitterStillProcessing)
    else if s == "receiver-assigned" then Some(ReceiverAssigned)
    else if s == "fully-assigned" then Some(FullyAssigned)
    else None
  }

  /** Every status constant is recognised as itself, so the eight strings are pairwise distinct. */
  lemma StatusNamesDistinct(s: Status, t: Status)
    ensures ParseStatus(s.Name()) == Some(s)
    ensures s.Name() == t.Name() <==> s == t
  {
  }

  /** The fields of a task hash (TaskKeys' attribute names). */
  datatype TaskField =
    | UniqueIdentifier
    | Author
    | TransmitterFile
    | ReceiverFile
    | TransmitterFilename
    | ReceiverFilename
    | SessionId
    | StartedTime
    | Priority
    | TransmitterAssignedField
    | ReceiverAssignedField
    | DeviceAssigned
    | TransmitterProcessingStart
    | ReceiverProcessingStart
    | StatusField
    | ErrorMessage
    | ErrorTime
    | LocalTimeRemaining
    | InactiveSince
    | TransmitterFiletype
    | ReceiverFiletype
  {
    function Name(): string {
      match this
      case UniqueIdentifier => "uniqueIdentifier"
      case Author => "author"
      case TransmitterFile => "transmitterFile"
      case ReceiverFile => "receiverFile"
      case TransmitterFilename => "transmitterFilename"
      case ReceiverFilename => "receiverFilename"
      case SessionId => "sessionId"
      case StartedTime => "startedTime"
      case Priority => "priority"
      case TransmitterAssignedField => "transmitterAssigned"
      case ReceiverAssignedField => "receiverAssigned"
      case DeviceAssigned => "deviceAssigned"
      case TransmitterProcessingStart => "transmitterProcessingStart"
      case ReceiverProcessingStart => "receiverProcessingStart"
      case StatusField => "status"
      case ErrorMessage => "errorMessage"
      case ErrorTime => "errorTime"
      case LocalTimeRemaining => "localTimeRemaining"
      case InactiveSince => "inactiveSince"
      case TransmitterFiletype => "transmitterFiletype"
      case ReceiverFiletype => "receiverFiletype"
    }
  }

  /** The fields of an error record (ErrorKeys' attribute names). */
  datatype ErrorField = ErrorIdField | ErrorAuthorField | ErrorMessageField | ErrorTimeField
  {
    function Name(): string {
      match this
      case ErrorIdField => "uniqueIdentifier"
      case ErrorAuthorField => "author"
      case ErrorMessageField => "errorMessage"
      case ErrorTimeField => "errorTime"
    }
  }
}

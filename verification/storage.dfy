/**
 * The abstract key-value store the scheduler runs against. Each key namespace of module
 * Keys is one component: the task-identifier set, the task hashes, one list per priority
 * bucket, the priority index (a sorted set, kept as an ascending sequence), one
 * assignment slot per device base, the error-identifier set, the error hashes, the
 * device credentials and the last-check heartbeats.
 */
module Storage {
  import opened Common
  import opened Strings
  import opened Keys

  type Hash = map<TaskField, string>

  type ErrorHash = map<ErrorField, string>

  datatype Store = Store(
    tasks: set<string>,
    hashes: map<string, Hash>,
    buckets: map<int, seq<string>>,
    index: seq<int>,
    slots: map<string, string>,
    errors: set<string>,
    errorHashes: map<string, ErrorHash>,
    credentials: map<string, string>,
    heartbeats: map<string, int>)

  /** The configuration values the scheduler reads; `None` is a key missing from the app config. */
  datatype Config = Config(
    maxPriorityQueue: int,
    maxTimeRunning: int,
    maxTimeWithoutPolling: Option<int>,
    backendToken: Option<string>)

  /**
   * The outcome of a request handler: it returned a value, or an exception escaped it.
   * Either way the writes issued before that point stay in the store.
   */
  datatype Exec<+T> = Return(value: T, store: Store) | Raise(store: Store)

  /** The placeholder string the scheduler writes for "nothing assigned". */
  const Null: string := "null"

  /** A timestamp as stored in a hash field. */
  function Stamp(t: int): string {
    IntToString(t)
  }

  /** HGET on a task hash. */
  function Get(st: Store, id: string, f: TaskField): Option<string> {
    if id in st.hashes && f in st.hashes[id] then Some(st.hashes[id][f]) else None
  }

  function HashOf(st: Store, id: string): Hash {
    if id in st.hashes then st.hashes[id] else map[]
  }

  /** HSET of several fields of one task hash, creating the hash when it is absent. */
  function SetFields(st: Store, id: string, m: Hash): (r: Store)
    ensures forall f :: Get(r, id, f) == if f in m then Some(m[f]) else Get(st, id, f)
    ensures forall x, f | x != id :: Get(r, x, f) == Get(st, x, f)
    ensures r == st.(hashes := r.hashes)
  {
    st.(hashes := st.hashes[id := HashOf(st, id) + m])
  }

  function SetField(st: Store, id: string, f: TaskField, v: string): (r: Store)
    ensures Get(r, id, f) == Some(v)
    ensures forall x, g | x != id || g != f :: Get(r, x, g) == Get(st, x, g)
    ensures r == st.(hashes := r.hashes)
  {
    SetFields(st, id, map[f := v])
  }

  /** The status of a task, when its hash holds one of the eight status strings. */
  function StatusOf(st: Store, id: string): Option<Status> {
    match Get(st, id, StatusField)
    case Some(s) => ParseStatus(s)
    case None => None
  }

  function SetStatus(st: Store, id: string, s: Status): (r: Store)
    ensures StatusOf(r, id) == Some(s)
    ensures forall x, g | x != id || g != StatusField :: Get(r, x, g) == Get(st, x, g)
    ensures r == st.(hashes := r.hashes)
  {
    StatusNamesDistinct(s, s);
    SetField(st, id, StatusField, s.Name())
  }

  /** The list stored under one bucket key; an absent key reads as the empty list. */
  function Bucket(st: Store, p: int): seq<string> {
    if p in st.buckets then st.buckets[p] else []
  }

  /** GET on a device base's assignment slot. */
  function Slot(st: Store, base: string): Option<string> {
    if base in st.slots then Some(st.slots[base]) else None
  }

  /** HGET on an error hash. */
  function GetError(st: Store, id: string, f: ErrorField): Option<string> {
    if id in st.errorHashes && f in st.errorHashes[id] then Some(st.errorHashes[id][f]) else None
  }

  /**
   * The four HSETs that write an error record under the task identifier, preceded by the
   * SADD to the error set only where the handler issues one.
   */
  function RecordError(st: Store, id: string, author: string, message: string, now: int, register: bool): (r: Store)
    ensures GetError(r, id, ErrorIdField) == Some(id)
    ensures GetError(r, id, ErrorAuthorField) == Some(author)
    ensures GetError(r, id, ErrorMessageField) == Some(message)
    ensures GetError(r, id, ErrorTimeField) == Some(Stamp(now))
    ensures forall x, f | x != id :: GetError(r, x, f) == GetError(st, x, f)
    ensures r.errors == if register then st.errors + {id} else st.errors
    ensures r == st.(errors := r.errors, errorHashes := r.errorHashes)
  {
    // The four fields are all an error record has, so the HSETs overwrite it completely.
    var record := map[ErrorIdField := id, ErrorAuthorField := author,
                      ErrorMessageField := message, ErrorTimeField := Stamp(now)];
    st.(errors := if register then st.errors + {id} else st.errors,
        errorHashes := st.errorHashes[id := record])
  }

  predicate Ascending(xs: seq<int>) {
    forall i, j | 0 <= i < j < |xs| :: xs[i] < xs[j]
  }

  /** The sorted-set invariant of the priority index: members listed once, by ascending score. */
  predicate Valid(st: Store) {
    Ascending(st.index)
  }
}

/**
 * The maintenance commands registered with the application (reliascheduler/__init__.py):
 * `tasks clean`, `device-credentials add`, `push` and `check`. The credentials file is an
 * optional map (absent when the file does not exist); interactive input is a sequence of
 * lines, the random salt and SHA-512 are parameters.
 */
module Cli {
  import opened Common
  import opened Strings
  import opened Keys
  import opened Storage
  import opened Auth
  import Queue

  /** The contents of the credentials file, `None` when it does not exist. */
  type CredentialsFile = Option<map<string, string>>

  /** The index of the first element `accept` takes, or `|xs|` when it takes none (input ran out). */
  function FirstAccepted<T>(xs: seq<T>, accept: T -> bool): (k: nat)
    ensures k <= |xs|
    ensures k < |xs| ==> accept(xs[k])
    ensures forall j | 0 <= j < k :: !accept(xs[j])
  {
    if xs == [] then 0
    else if accept(xs[0]) then 0
    else 1 + FirstAccepted(xs[1..], accept)
  }

  /** A salt as `random.sample(string.ascii_letters, 6)` draws it: six distinct ASCII letters. */
  predicate IsSalt(salt: string) {
    && |salt| == 6
    && (forall i | 0 <= i < 6 :: 'a' <= salt[i] <= 'z' || 'A' <= salt[i] <= 'Z')
    && (forall i, j | 0 <= i < j < 6 :: salt[i] != salt[j])
  }

  lemma SaltHasNoDollar(salt: string)
    requires IsSalt(salt)
    ensures '$' !in salt
  {
  }

  /** One round of the `add` prompt: identifier, password and confirmation, already stripped. */
  datatype Entry = Entry(identifier: string, password: string, confirm: string)

  /**
   * The exit test of the `add` loop as written: matching passwords and an identifier of at
   * least three characters OR a password of at least eight.
   */
  predicate AcceptAsWritten(e: Entry) {
    e.password == e.confirm && (|e.identifier| >= 3 || |e.password| >= 8)
  }

  /** The exit test the retry message describes: both minimum lengths hold. */
  predicate AcceptStrict(e: Entry) {
    e.password == e.confirm && |e.identifier| >= 3 && |e.password| >= 8
  }

  /** The strict test only turns away entries the written test takes; both agree on well-sized entries. */
  lemma StrictNarrowsAsWritten(e: Entry)
    ensures AcceptStrict(e) ==> AcceptAsWritten(e)
    ensures |e.identifier| >= 3 && |e.password| >= 8 ==> (AcceptStrict(e) <==> AcceptAsWritten(e))
  {
  }

  /**
   * The written test lets an empty password through with a three-letter identifier, and
   * the record it stores then never authenticates, since the server rejects an empty
   * password header before looking at the record.
   */
  lemma AsWrittenAcceptsEmptyPassword(creds: map<string, string>, salt: string, sha512: string -> Hex)
    ensures AcceptAsWritten(Entry("abc", "", ""))
    ensures !AcceptStrict(Entry("abc", "", ""))
    ensures forall attempt: string ::
      CheckDevice(creds["abc" := Encode(salt, "", sha512)], Some("abc"), Some(attempt), sha512) == Ok(Some("abc"))
      ==> attempt != ""
  {
  }

  datatype AddOutcome = AddOutcome(updating: bool, written: map<string, string>, store: Store)

  /**
   * What storing entry `e` leaves behind: "updating" means the identifier was already in
   * the file, the file gains `salt$sha512(salt + password)` under it and keeps every other
   * record, and the store's credentials become the file's contents.
   */
  predicate Recorded(file: CredentialsFile, e: Entry, salt: string, sha512: string -> Hex, st: Store, out: AddOutcome) {
    var existing := file.GetOr(map[]);
    && (out.updating <==> e.identifier in existing)
    && out.written.Keys == existing.Keys + {e.identifier}
    && out.written[e.identifier] == Encode(salt, e.password, sha512)
    && (forall d | d in existing && d != e.identifier :: out.written[d] == existing[d])
    && out.store == st.(credentials := out.written)
  }

  /** The part of `add` after the loop: hash, write the file back and push it to the store. */
  function StoreEntry(file: CredentialsFile, e: Entry, salt: string, sha512: string -> Hex, st: Store): (out: AddOutcome)
    ensures Recorded(file, e, salt, sha512, st, out)
  {
    var existing := file.GetOr(map[]);
    var written := existing[e.identifier := Encode(salt, e.password, sha512)];
    AddOutcome(e.identifier in existing, written, PushCredentials(Some(written), st).1)
  }

  /**
   * `device-credentials add` as written: read entries until the written exit test takes
   * one, then store it. `None` when the input runs out first (EOFError).
   */
  function AddDeviceCredentials(file: CredentialsFile, inputs: seq<Entry>, salt: string,
                                sha512: string -> Hex, st: Store): (r: Option<AddOutcome>)
    ensures r.None? <==> forall j | 0 <= j < |inputs| :: !AcceptAsWritten(inputs[j])
    ensures r.Some? ==>
      var e := inputs[FirstAccepted(inputs, AcceptAsWritten)];
      && e.password == e.confirm && (|e.identifier| >= 3 || |e.password| >= 8)
      && Recorded(file, e, salt, sha512, st, r.value)
  {
    var k := FirstAccepted(inputs, AcceptAsWritten);
    if k == |inputs| then None else Some(StoreEntry(file, inputs[k], salt, sha512, st))
  }

  /**
   * `device-credentials add` with the exit test the retry message describes: only an
   * entry meeting both minimum lengths is stored, so no stored password is shorter than
   * eight characters.
   */
  function StrictAddDeviceCredentials(file: CredentialsFile, inputs: seq<Entry>, salt: string,
                                      sha512: string -> Hex, st: Store): (r: Option<AddOutcome>)
    ensures r.None? <==> forall j | 0 <= j < |inputs| :: !AcceptStrict(inputs[j])
    ensures r.Some? ==>
      var e := inputs[FirstAccepted(inputs, AcceptStrict)];
      && e.password == e.confirm && |e.identifier| >= 3 && |e.password| >= 8
      && Recorded(file, e, salt, sha512, st, r.value)
  {
    var k := FirstAccepted(inputs, AcceptStrict);
    if k == |inputs| then None else Some(StoreEntry(file, inputs[k], salt, sha512, st))
  }

  /**
   * After `add` as written, the new device authenticates exactly with a non-empty password
   * whose salted digest is the stored one, and only when its identifier is not empty: the
   * written test also takes an empty identifier with a long password, and the server never
   * authenticates an empty identifier.
   */
  lemma AddedDeviceAuthenticates(file: CredentialsFile, inputs: seq<Entry>, salt: string,
                                 sha512: string -> Hex, st: Store, attempt: string)
    requires IsSalt(salt)
    requires AddDeviceCredentials(file, inputs, salt, sha512, st).Some?
    ensures var r := AddDeviceCredentials(file, inputs, salt, sha512, st).value;
            var e := inputs[FirstAccepted(inputs, AcceptAsWritten)];
            CheckDevice(r.store.credentials, Some(e.identifier), Some(attempt), sha512) == Ok(Some(e.identifier))
            <==> e.identifier != "" && attempt != "" && sha512(salt + attempt) == sha512(salt + e.password)
  {
    var r := AddDeviceCredentials(file, inputs, salt, sha512, st).value;
    var e := inputs[FirstAccepted(inputs, AcceptAsWritten)];
    SaltHasNoDollar(salt);
    if e.identifier != "" && attempt != "" {
      EncodedRecordAuthenticates(r.store.credentials, e.identifier, salt, e.password, attempt, sha512);
    }
  }

  /**
   * Given identifier "abc" with an empty password, the command as written stores a record
   * that the server never authenticates with the empty password, while the strict command
   * keeps asking.
   */
  lemma AddStoresEmptyPasswordAsWritten(file: CredentialsFile, salt: string, sha512: string -> Hex, st: Store)
    ensures var r := AddDeviceCredentials(file, [Entry("abc", "", "")], salt, sha512, st);
            && r.Some?
            && r.value.store.credentials["abc"] == Encode(salt, "", sha512)
            && CheckDevice(r.value.store.credentials, Some("abc"), Some(""), sha512) == Ok(None)
    ensures StrictAddDeviceCredentials(file, [Entry("abc", "", "")], salt, sha512, st).None?
  {
    AsWrittenAcceptsEmptyPassword(map[], salt, sha512);
  }

  datatype PushOutcome = FileNotFound | Pushed(count: nat)

  /**
   * `_push_device_credentials_to_redis`: with no file, report the error and leave the
   * store alone; otherwise replace the whole credentials hash by the file's contents.
   */
  function PushCredentials(file: CredentialsFile, st: Store): (r: (PushOutcome, Store))
    ensures file.None? ==> r == (FileNotFound, st)
    ensures file.Some? ==> r.0 == Pushed(|file.value|)
    ensures file.Some? ==> forall d :: (d in r.1.credentials <==> d in file.value)
    ensures file.Some? ==> forall d | d in file.value :: r.1.credentials[d] == file.value[d]
    ensures r.1 == st.(credentials := r.1.credentials)
  {
    match file
    case None => (FileNotFound, st)
    case Some(m) => (Pushed(|m|), st.(credentials := m))
  }

  /** Pushing the same file twice is the same as pushing it once. */
  lemma PushIsIdempotent(file: CredentialsFile, st: Store)
    ensures var once := PushCredentials(file, st);
            PushCredentials(file, once.1) == once
  {
  }

  datatype CheckOutcome = CredentialsFileMissing | InputExhausted | MalformedRecord | Verified(device: string, attempts: nat)

  /** Where the identifier prompt of `check` stops: the first identifier whose base is in the file, or |identifiers|. */
  function FirstKnown(identifiers: seq<string>, creds: map<string, string>): (k: nat)
    ensures k <= |identifiers|
    ensures k < |identifiers| ==> DeviceBase(identifiers[k]) in creds
    ensures forall j | 0 <= j < k :: DeviceBase(identifiers[j]) !in creds
  {
    FirstAccepted(identifiers, (s: string) => DeviceBase(s) in creds)
  }

  /**
   * `device-credentials check`: ask for identifiers until the part before ':' is in the
   * file, unpack its record into salt and digest (a ValueError unless exactly two pieces),
   * then ask for passwords until one hashes to the digest.
   */
  function CheckCommand(file: CredentialsFile, identifiers: seq<string>, attempts: seq<string>,
                        sha512: string -> Hex): (r: CheckOutcome)
    ensures file.None? <==> r == CredentialsFileMissing
    ensures file.Some? && FirstKnown(identifiers, file.value) == |identifiers| ==> r == InputExhausted
    ensures file.Some? && FirstKnown(identifiers, file.value) < |identifiers| ==>
      var device := DeviceBase(identifiers[FirstKnown(identifiers, file.value)]);
      var record := file.value[device];
      && (r == MalformedRecord <==> !WellFormedRecord(record))
      && (r == InputExhausted <==>
            WellFormedRecord(record) && forall j | 0 <= j < |attempts| :: !Matches(record, attempts[j], sha512))
      && (r.Verified? ==> r.device == device)
    ensures r.Verified? ==>
      && r.device in file.value && r.attempts < |attempts|
      && WellFormedRecord(file.value[r.device])
      && Matches(file.value[r.device], attempts[r.attempts], sha512)
      && (forall j | 0 <= j < r.attempts :: !Matches(file.value[r.device], attempts[j], sha512))
  {
    match file
    case None => CredentialsFileMissing
    case Some(creds) =>
      var k := FirstKnown(identifiers, creds);
      if k == |identifiers| then InputExhausted
      else
        var device := DeviceBase(identifiers[k]);
        var parts := Split(creds[device], '$');
        if |parts| != 2 then MalformedRecord
        else
          var j := FirstAccepted(attempts, (a: string) => sha512(parts[0] + a) == parts[1]);
          if j == |attempts| then InputExhausted else Verified(device, j)
  }

  /**
   * For a device whose record the `add` command wrote under an identifier without ':',
   * the `check` command and the server's device authentication accept the same non-empty
   * passwords.
   */
  lemma CheckAgreesWithServer(creds: map<string, string>, device: string, salt: string, password: string,
                              attempt: string, sha512: string -> Hex)
    requires device != "" && ':' !in device && attempt != ""
    requires IsSalt(salt)
    requires device in creds && creds[device] == Encode(salt, password, sha512)
    ensures CheckCommand(Some(creds), [device], [attempt], sha512) == Verified(device, 0)
        <==> CheckDevice(creds, Some(device), Some(attempt), sha512) == Ok(Some(device))
  {
    SaltHasNoDollar(salt);
    SplitWithoutSeparator(device, ':');
    EncodeSplits(salt, password, sha512);
    EncodedRecordAuthenticates(creds, device, salt, password, attempt, sha512);
  }

  /**
   * Outside that range the two disagree. `check` verifies the empty password of a record
   * the server never opens with it, since the server refuses an empty password header.
   */
  lemma CheckAcceptsEmptyPassword(salt: string, sha512: string -> Hex)
    requires IsSalt(salt)
    ensures var creds := map["abc" := Encode(salt, "", sha512)];
            && CheckCommand(Some(creds), ["abc"], [""], sha512) == Verified("abc", 0)
            && CheckDevice(creds, Some("abc"), Some(""), sha512) == Ok(None)
  {
    SaltHasNoDollar(salt);
    EncodeSplits(salt, "", sha512);
    SplitWithoutSeparator("abc", ':');
  }

  /**
   * `check` looks up the part before ':', while the server looks up the whole header: a
   * record stored under "ab:r" authenticates with the server and is never found by `check`.
   */
  lemma CheckMissesSuffixedDevice(salt: string, password: string, sha512: string -> Hex)
    requires IsSalt(salt) && password != ""
    ensures var creds := map["ab:r" := Encode(salt, password, sha512)];
            && CheckCommand(Some(creds), ["ab:r"], [password], sha512) == InputExhausted
            && CheckDevice(creds, Some("ab:r"), Some(password), sha512) == Ok(Some("ab:r"))
  {
    assert DeviceBase("ab:r") == "ab";
    EncodedRecordAuthenticates(map["ab:r" := Encode(salt, password, sha512)], "ab:r", salt, password, password, sha512);
  }

  /**
   * `tasks clean`: delete the task set, every key under the task prefix (task hashes and
   * priority buckets), the priority index and every device-assignment slot. Error records,
   * credentials and last-check heartbeats live under other prefixes and stay.
   */
  function TasksClean(st: Store): (r: Store)
    ensures r.tasks == {} && r.hashes == map[] && r.buckets == map[] && r.index == [] && r.slots == map[]
    ensures r.errors == st.errors && r.errorHashes == st.errorHashes
    ensures r.credentials == st.credentials && r.heartbeats == st.heartbeats
  {
    st.(tasks := {}, hashes := map[], buckets := map[], index := [], slots := map[])
  }

  /** After a clean no task has a status, no device holds one, and the long-poll loop serves nothing. */
  lemma CleanedStoreServesNothing(st: Store, base: string, ticks: seq<int>, deadline: int, cfg: Config)
    requires |ticks| > 0 && ticks[|ticks| - 1] > deadline
    ensures Valid(TasksClean(st))
    ensures forall id :: StatusOf(TasksClean(st), id).None?
    ensures Slot(TasksClean(st), base).None?
    ensures var r := Queue.PollReceiver(TasksClean(st), base, ticks, deadline, cfg);
            r.Return? ==> r.value.None?
  {
  }
}

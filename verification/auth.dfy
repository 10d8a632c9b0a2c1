/**
 * Request authentication (reliascheduler/auth.py): devices present an identifier and a
 * password checked against a salted SHA-512 record; the backend presents a shared secret.
 * SHA-512 itself is a parameter: any function onto lower-case hexadecimal text.
 */
module Auth {
  import opened Common
  import opened Strings

  predicate IsHexDigit(c: char) {
    '0' <= c <= '9' || 'a' <= c <= 'f'
  }

  /** The output of `hexdigest()`: lower-case hexadecimal text. */
  type Hex = s: string | forall i | 0 <= i < |s| :: IsHexDigit(s[i])

  /** A header or field value counts as given when it is present and non-empty (Python truthiness). */
  predicate Given(v: Option<string>) {
    v.Some? && v.value != ""
  }

  /** The stored record a device identifier would be checked against, when there is one. */
  predicate HasRecord(creds: map<string, string>, device: Option<string>) {
    device.Some? && device.value in creds && creds[device.value] != ""
  }

  /** The `salt$hash` record unpacks into exactly two pieces. */
  predicate WellFormedRecord(record: string) {
    |Split(record, '$')| == 2
  }

  /** The password matches a well-formed record. */
  predicate Matches(record: string, password: string, sha512: string -> Hex)
    requires WellFormedRecord(record)
  {
    var parts := Split(record, '$');
    sha512(parts[0] + password) == parts[1]
  }

  /**
   * `check_device_credentials`: `Ok(Some(device))` when authenticated, `Ok(None)` when
   * not, `Err` when the two-name unpacking of the stored record raises. Only the device
   * identifier as a whole is looked up; nothing checks its role part.
   */
  function CheckDevice(creds: map<string, string>, device: Option<string>, password: Option<string>,
                       sha512: string -> Hex): (r: Result<Option<string>>)
    ensures !Given(device) || !Given(password) || !HasRecord(creds, device) ==> r == Ok(None)
    ensures r.Err? <==> Given(device) && Given(password) && HasRecord(creds, device)
                        && !WellFormedRecord(creds[device.value])
    ensures r.Ok? && r.value.Some? <==>
      && Given(device) && Given(password) && HasRecord(creds, device)
      && WellFormedRecord(creds[device.value])
      && Matches(creds[device.value], password.value, sha512)
    ensures r.Ok? && r.value.Some? ==> r.value == device
  {
    if !Given(device) || !Given(password) then Ok(None)
    else if device.value !in creds || creds[device.value] == "" then Ok(None)
    else
      var parts := Split(creds[device.value], '$');
      if |parts| != 2 then Err("too many or too few values to unpack")
      else if sha512(parts[0] + password.value) == parts[1] then Ok(Some(device.value))
      else Ok(None)
  }

  /**
   * `check_backend_credentials`: the secret header must be non-empty and equal to the
   * configured token; with no token configured nothing is accepted.
   */
  function CheckBackend(secret: Option<string>, token: Option<string>): (r: bool)
    ensures r ==> Given(secret) && token == secret
    ensures Given(secret) && token == secret ==> r
    ensures token.None? ==> !r
  {
    Given(secret) && token == secret
  }

  /** The record a device-credentials entry stores: salt, '$', hex digest of salt and password. */
  function Encode(salt: string, password: string, sha512: string -> Hex): (record: string)
    ensures |record| == |salt| + 1 + |sha512(salt + password)|
  {
    salt + "$" + sha512(salt + password)
  }

  /** Splitting an encoded record recovers the salt and the digest. */
  lemma EncodeSplits(salt: string, password: string, sha512: string -> Hex)
    requires '$' !in salt
    ensures Split(Encode(salt, password, sha512), '$') == [salt, sha512(salt + password)]
  {
    var h := sha512(salt + password);
    assert '$' !in h;
    SplitAround(salt, h, '$');
    SplitWithoutSeparator(salt, '$');
    SplitWithoutSeparator(h, '$');
    assert Encode(salt, password, sha512) == salt + ['$'] + h;
  }

  /**
   * A device whose record was written by the credential tool authenticates exactly with
   * passwords whose salted digest equals the stored one (in particular, its own).
   */
  lemma EncodedRecordAuthenticates(creds: map<string, string>, device: string, salt: string,
                                   password: string, attempt: string, sha512: string -> Hex)
    requires device != "" && attempt != ""
    requires '$' !in salt
    requires device in creds && creds[device] == Encode(salt, password, sha512)
    ensures CheckDevice(creds, Some(device), Some(attempt), sha512).Ok?
    ensures CheckDevice(creds, Some(device), Some(attempt), sha512) == Ok(Some(device))
        <==> sha512(salt + attempt) == sha512(salt + password)
  {
    EncodeSplits(salt, password, sha512);
  }
}

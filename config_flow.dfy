/**
 * The integration's configuration flow: the user step that adds a relay
 * board and the reconfigure step that edits one.
 *
 * The host framework's calls become inputs and results: the existing
 * config entries and the entry being reconfigured are parameters, the
 * connection probe is an outcome parameter, and creating an entry,
 * showing a form, updating-and-aborting and aborting are the variants of
 * FlowResult.
 */
module ConfigFlow {
  import opened Wrappers

  /** A value stored in a config entry's data. */
  datatype Value = Str(s: string) | Int(i: int) | Bool(b: bool)

  /** The form fields after the schema has coerced them. */
  datatype UserInput = UserInput(ipAddress: string, port: int, deviceName: string, channels: int, enableTimer: bool)

  /** A config entry: its unique id (None when unset) and its data. */
  datatype Entry = Entry(uniqueId: Option<string>, data: map<string, Value>)

  /**
   * What the probe socket did: it connected and sent, raised OSError,
   * timed out, or raised some other exception.
   */
  datatype ConnectAttempt = Opened | OsError | TimedOut | OtherException

  /**
   * How `_validate_connection` ends: it returns, raises CannotConnect, or
   * lets another exception escape.
   */
  datatype Probe = Connected | CannotConnect | Unexpected

  /** What a step hands back to the host. */
  datatype FlowResult =
    | CreateEntry(title: string, data: map<string, Value>)
    | ShowForm(stepId: string, defaults: map<string, Value>, errors: map<string, string>)
    | UpdateReloadAndAbort(entry: Entry, data: map<string, Value>, reason: string)
    | Abort(reason: string)

  const FieldNames: set<string> := {"ip_address", "port", "device_name", "channels", "enable_timer"}

  /** The defaults of the user step's schema; the IP address has none. */
  const UserFormDefaults: map<string, Value> :=
    map["port" := Int(502), "device_name" := Str("Waveshare Relay"), "channels" := Int(8), "enable_timer" := Bool(true)]

  /**
   * `_validate_connection`: OSError and socket timeouts become
   * CannotConnect; any other exception escapes unchanged.
   */
  function ValidateConnection(attempt: ConnectAttempt): (p: Probe)
    ensures p == Connected <==> attempt == Opened
    ensures p == CannotConnect <==> attempt == OsError || attempt == TimedOut
    ensures p == Unexpected <==> attempt == OtherException
  {
    match attempt
    case Opened => Connected
    case OsError => CannotConnect
    case TimedOut => CannotConnect
    case OtherException => Unexpected
  }

  /** The data a created or reconfigured entry stores: exactly the five fields. */
  function EntryData(input: UserInput): (d: map<string, Value>)
    ensures d.Keys == FieldNames
    ensures InputOf(d) == Some(input)
  {
    map["ip_address" := Str(input.ipAddress), "port" := Int(input.port), "device_name" := Str(input.deviceName),
        "channels" := Int(input.channels), "enable_timer" := Bool(input.enableTimer)]
  }

  /** Reads the five fields back from entry data, if it holds exactly them with their types. */
  function InputOf(data: map<string, Value>): Option<UserInput>
  {
    if && data.Keys == FieldNames
       && data["ip_address"].Str? && data["port"].Int? && data["device_name"].Str?
       && data["channels"].Int? && data["enable_timer"].Bool?
    then Some(UserInput(data["ip_address"].s, data["port"].i, data["device_name"].s,
                        data["channels"].i, data["enable_timer"].b))
    else None
  }

  /** `entry.data.get("ip_address") == ip`: a missing key never matches. */
  /** Python's `data.get(key)`: None for a missing key. */
  function Lookup(data: map<string, Value>, key: string): Option<Value>
  {
    if key in data then Some(data[key]) else None
  }

  /**
   * `entry.data.get("ip_address") == ip`: a missing address (None) or a
   * stored value that is not that string never matches.
   */
  predicate HasIp(entry: Entry, ip: string)
    ensures HasIp(entry, ip) <==> "ip_address" in entry.data && entry.data["ip_address"] == Str(ip)
  {
    Lookup(entry.data, "ip_address") == Some(Str(ip))
  }

  /** Some existing entry already uses the address. */
  predicate IpTaken(existing: seq<Entry>, ip: string)
  {
    exists k :: 0 <= k < |existing| && HasIp(existing[k], ip)
  }

  /** Some existing entry other than `reconfigured` (compared by unique id) already uses the address. */
  predicate IpTakenByOther(existing: seq<Entry>, reconfigured: Entry, ip: string)
  {
    exists k :: 0 <= k < |existing| && existing[k].uniqueId != reconfigured.uniqueId && HasIp(existing[k], ip)
  }

  /** The errors a probe outcome records. */
  function ProbeErrors(probe: Probe): map<string, string>
  {
    match probe
    case Connected => map[]
    case CannotConnect => map["base" := "cannot_connect"]
    case Unexpected => map["base" := "unknown"]
  }

  /** The errors of a step that passed the duplicate check: the channel check, then the probe. */
  function ValidationErrors(channels: int, probe: Probe): map<string, string>
  {
    (if channels <= 0 then map["channels" := "invalid_channels"] else map[]) + ProbeErrors(probe)
  }

  /**
   * The channel error and the probe error are independent and may appear
   * together; validation passes only with positive channels and a
   * working connection.
   */
  lemma ValidationErrorsCases(channels: int, probe: Probe)
    ensures var e := ValidationErrors(channels, probe);
      && e.Keys <= {"channels", "base"}
      && ("channels" in e <==> channels <= 0)
      && ("channels" in e ==> e["channels"] == "invalid_channels")
      && ("base" in e <==> probe != Connected)
      && (probe == CannotConnect ==> e["base"] == "cannot_connect")
      && (probe == Unexpected ==> e["base"] == "unknown")
      && (e == map[] <==> channels > 0 && probe == Connected)
  {
  }

  /**
   * `async_step_user`. Without input, the empty form. With input, a
   * duplicate address stops the step before the probe; otherwise the
   * channel check and the probe both run, and an entry is created only
   * when neither recorded an error.
   */
  method AsyncStepUser(existing: seq<Entry>, userInput: Option<UserInput>, probe: Probe)
    returns (result: FlowResult, probed: bool)
    ensures userInput.None? ==> result == ShowForm("user", UserFormDefaults, map[]) && !probed
    ensures userInput.Some? && IpTaken(existing, userInput.value.ipAddress) ==>
      result == ShowForm("user", UserFormDefaults, map["base" := "already_configured"]) && !probed
    ensures probed <==> userInput.Some? && !IpTaken(existing, userInput.value.ipAddress)
    ensures result.CreateEntry? <==> probed && userInput.value.channels > 0 && probe == Connected
    ensures result.CreateEntry? ==> result == CreateEntry(userInput.value.deviceName, EntryData(userInput.value))
    ensures probed && !result.CreateEntry? ==>
      result == ShowForm("user", UserFormDefaults, ValidationErrors(userInput.value.channels, probe))
  {
    var errors: map<string, string> := map[];
    probed := false;
    if userInput.Some? {
      var input := userInput.value;
      var i := 0;
      while i < |existing|
        invariant 0 <= i <= |existing|
        invariant errors == map[]
        invariant forall k :: 0 <= k < i ==> !HasIp(existing[k], input.ipAddress)
      {
        if HasIp(existing[i], input.ipAddress) {
          errors := errors["base" := "already_configured"];
          assert "base" in errors;
          break;
        }
        i := i + 1;
      }
      assert errors == map[] <==> !IpTaken(existing, input.ipAddress);
      if errors == map[] {
        if input.channels <= 0 {
          errors := errors["channels" := "invalid_channels"];
          assert "channels" in errors;
        }
        probed := true;
        match probe
        case Connected =>
          if errors == map[] {
            result := CreateEntry(input.deviceName, EntryData(input));
            return;
          }
        case CannotConnect =>
          errors := errors["base" := "cannot_connect"];
        case Unexpected =>
          errors := errors["base" := "unknown"];
      }
    }
    result := ShowForm("user", UserFormDefaults, errors);
  }

  function Get(data: map<string, Value>, key: string, fallback: Value): Value
  {
    if key in data then data[key] else fallback
  }

  /** The reconfigure form's fallbacks: the user step's defaults and an empty address. */
  const ReconfigureFallbacks: map<string, Value> := UserFormDefaults["ip_address" := Str("")]

  /**
   * The reconfigure form's defaults: exactly the five fields, each the
   * current entry's own value when it has one and the fallback otherwise;
   * any other stored key is dropped.
   */
  function ReconfigureDefaults(data: map<string, Value>): (defaults: map<string, Value>)
    ensures defaults.Keys == FieldNames
    ensures forall k :: k in FieldNames && k in data ==> defaults[k] == data[k]
    ensures forall k :: k in FieldNames && k !in data ==> defaults[k] == ReconfigureFallbacks[k]
  {
    map["ip_address" := Get(data, "ip_address", Str("")),
        "port" := Get(data, "port", Int(502)),
        "device_name" := Get(data, "device_name", Str("Waveshare Relay")),
        "channels" := Get(data, "channels", Int(8)),
        "enable_timer" := Get(data, "enable_timer", Bool(true))]
  }

  /**
   * For an entry this flow stored, the reconfigure form is pre-filled with
   * exactly the stored values; for an entry with none of the fields, with
   * the user step's defaults and an empty address.
   */
  lemma ReconfigureDefaultsCases(input: UserInput)
    ensures ReconfigureDefaults(EntryData(input)) == EntryData(input)
    ensures ReconfigureDefaults(map[]) == ReconfigureFallbacks
    ensures ReconfigureDefaults(map[]) ==
      map["ip_address" := Str(""), "port" := Int(502), "device_name" := Str("Waveshare Relay"),
          "channels" := Int(8), "enable_timer" := Bool(true)]
  {
  }

  /**
   * `async_step_reconfigure`. The duplicate check skips entries with the
   * reconfigured entry's unique id. A step that validates ends with an
   * update-and-abort carrying the five fields; any other ends with the
   * form (defaults from the current entry) or, when the current entry is
   * gone, with an abort.
   */
  method AsyncStepReconfigure(existing: seq<Entry>, reconfigureEntry: Entry, currentEntry: Option<Entry>,
                              userInput: Option<UserInput>, probe: Probe)
    returns (result: FlowResult, probed: bool)
    ensures probed <==> userInput.Some? && !IpTakenByOther(existing, reconfigureEntry, userInput.value.ipAddress)
    ensures result.UpdateReloadAndAbort? <==> probed && userInput.value.channels > 0 && probe == Connected
    ensures result.UpdateReloadAndAbort? ==>
      result == UpdateReloadAndAbort(reconfigureEntry, EntryData(userInput.value), "reconfigured")
    ensures !result.UpdateReloadAndAbort? && currentEntry.None? ==> result == Abort("entry_not_found")
    ensures !result.UpdateReloadAndAbort? && currentEntry.Some? ==>
      && result.ShowForm? && result.stepId == "reconfigure"
      && result.defaults == ReconfigureDefaults(currentEntry.value.data)
      && (userInput.None? ==> result.errors == map[])
      && (userInput.Some? && !probed ==> result.errors == map["base" := "already_configured"])
      && (probed ==> result.errors == ValidationErrors(userInput.value.channels, probe))
  {
    var errors: map<string, string> := map[];
    probed := false;
    if userInput.Some? {
      var input := userInput.value;
      var i := 0;
      while i < |existing|
        invariant 0 <= i <= |existing|
        invariant errors == map[]
        invariant forall k :: 0 <= k < i ==>
          !(existing[k].uniqueId != reconfigureEntry.uniqueId && HasIp(existing[k], input.ipAddress))
      {
        if reconfigureEntry.uniqueId != existing[i].uniqueId && HasIp(existing[i], input.ipAddress) {
          errors := errors["base" := "already_configured"];
          assert "base" in errors;
          break;
        }
        i := i + 1;
      }
      assert errors == map[] <==> !IpTakenByOther(existing, reconfigureEntry, input.ipAddress);
      if errors == map[] {
        if input.channels <= 0 {
          errors := errors["channels" := "invalid_channels"];
          assert "channels" in errors;
        }
        probed := true;
        match probe
        case Connected =>
          if errors == map[] {
            result := UpdateReloadAndAbort(reconfigureEntry, EntryData(input), "reconfigured");
            return;
          }
        case CannotConnect =>
          errors := errors["base" := "cannot_connect"];
        case Unexpected =>
          errors := errors["base" := "unknown"];
      }
    }
    if currentEntry.None? {
      result := Abort("entry_not_found");
      return;
    }
    result := ShowForm("reconfigure", ReconfigureDefaults(currentEntry.value.data), errors);
  }

  /**
   * The reconfigure duplicate check is the user step's check with the
   * reconfigured entry's own unique id left out: an entry never
   * conflicts with itself, and every conflict is also a user-step conflict.
   */
  lemma SelfExclusion(existing: seq<Entry>, reconfigured: Entry, ip: string)
    ensures IpTakenByOther(existing, reconfigured, ip) ==> IpTaken(existing, ip)
    ensures IpTaken(existing, ip) && !IpTakenByOther(existing, reconfigured, ip) ==>
      forall k :: 0 <= k < |existing| && HasIp(existing[k], ip) ==> existing[k].uniqueId == reconfigured.uniqueId
    ensures !IpTakenByOther([reconfigured], reconfigured, ip)
  {
  }
}

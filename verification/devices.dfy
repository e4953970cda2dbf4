/** Android device discovery: the table `adb devices -l` prints is parsed into
    devices, and a poller keeps the device list and the selected device, telling its
    listeners what changed. One refresh of the poller is one transition here. */
module AdbDeviceService {
  import opened Wrappers
  import opened Text
  import opened Seqs
  import opened Process

  datatype Platform = Android | Ios | Desktop | Web

  datatype DeviceType = Physical | Emulator

  datatype Status = Connected | Offline | Unauthorized | Booting

  datatype Device = Device(
    id: string,
    name: string,
    platform: Platform,
    deviceType: DeviceType,
    status: Status,
    details: Option<string>)

  // ---------------------------------------------------------------------------
  // One table row: ^(\S+)\s+(\w+)\s+(.*)$
  // ---------------------------------------------------------------------------

  /** The three captures of a row: serial, state word and the rest. */
  datatype AdbRow = AdbRow(serial: string, state: string, rest: string)

  /** The row regex on a trimmed line. Every run is greedy, and giving any of it back
      leaves a character the next part refuses (a non-space where whitespace is
      needed, whitespace where a word character is needed); `(.*)$` needs the rest
      free of line terminators. */
  function MatchRow(t: string): (r: Option<AdbRow>)
    ensures r.Some? ==> |r.value.serial| > 0 && All(r.value.serial, NotJsSpace) && StartsWith(t, r.value.serial)
    ensures r.Some? ==> |r.value.state| > 0 && All(r.value.state, IsWordChar)
    ensures r.Some? ==> All(r.value.rest, NotLineTerminator) && EndsWith(t, r.value.rest)
  {
    var a := RunEnd(t, 0, NotJsSpace);
    var b := RunEnd(t, a, IsJsSpace);
    var c := RunEnd(t, b, IsWordChar);
    if a == 0 || b == a || c == b || c == |t| || !IsJsSpace(t[c]) then None
    else
      var d := RunEnd(t, c, IsJsSpace);
      if All(t[d..], NotLineTerminator) then Some(AdbRow(t[..a], t[b..c], t[d..])) else None
  }

  /** A row as the tool prints it, with single spaces. */
  function RowText(row: AdbRow): string {
    row.serial + " " + row.state + " " + row.rest
  }

  /** Matching inverts printing, for every serial without whitespace, every word
      state, and every rest on one line that does not start with whitespace. */
  lemma MatchRowText(row: AdbRow)
    requires |row.serial| > 0 && All(row.serial, NotJsSpace)
    requires |row.state| > 0 && All(row.state, IsWordChar)
    requires All(row.rest, NotLineTerminator)
    requires |row.rest| > 0 ==> !IsJsSpace(row.rest[0])
    ensures MatchRow(RowText(row)) == Some(row)
  {
    var t := RowText(row);
    var a := |row.serial|;
    var b := a + 1;
    var c := b + |row.state|;
    var head := row.serial + " " + row.state;
    assert t == head + " " + row.rest;
    assert |head| == c;
    assert t[..a] == row.serial;
    RunEndIs(t, 0, a, NotJsSpace);
    RunEndIs(t, a, b, IsJsSpace);
    assert t[..c] == head;
    assert head[b..] == row.state;
    assert t[b..c] == t[..c][b..];
    assert t[c] == ' ';
    RunEndIs(t, b, c, IsWordChar);
    assert t[c + 1..] == row.rest;
    RunEndIs(t, c, c + 1, IsJsSpace);
  }

  /** A row with only a serial and a state has no third field and is dropped. */
  lemma SerialAndStateOnly(serial: string, state: string)
    requires |serial| > 0 && All(serial, NotJsSpace)
    requires |state| > 0 && All(state, IsWordChar)
    ensures MatchRow(serial + " " + state) == None
  {
    var t := serial + " " + state;
    var a := |serial|;
    assert t[..a] == serial;
    RunEndIs(t, 0, a, NotJsSpace);
    RunEndIs(t, a, a + 1, IsJsSpace);
    assert t[a + 1..] == state;
    RunEndIs(t, a + 1, |t|, IsWordChar);
  }

  // ---------------------------------------------------------------------------
  // The fields of a device
  // ---------------------------------------------------------------------------

  /** Only `device` and `unauthorized` name a status; every other state is offline. */
  function StatusOf(state: string): (r: Status)
    ensures r == Connected <==> state == "device"
    ensures r == Unauthorized <==> state == "unauthorized"
    ensures r == Offline <==> state != "device" && state != "unauthorized"
    ensures r != Booting
  {
    if state == "device" then Connected
    else if state == "unauthorized" then Unauthorized
    else Offline
  }

  /** The capture of `model:(\S+)` at `k`: needs at least one non-space after the
      colon, and takes the whole run. */
  function ModelAt(details: string, k: nat): (r: Option<string>)
    requires k <= |details|
    ensures r.Some? ==> |r.value| > 0 && All(r.value, NotJsSpace)
  {
    if OccursAt(details, "model:", k) && k + 6 < |details| && !IsJsSpace(details[k + 6]) then
      Some(details[k + 6..RunEnd(details, k + 6, NotJsSpace)])
    else None
  }

  function ModelStarts(details: string): nat -> bool {
    (k: nat) => k <= |details| && ModelAt(details, k).Some?
  }

  /** The leftmost `model:` value of the details. */
  function ModelName(details: string): (r: Option<string>)
    ensures r.Some? ==> |r.value| > 0 && All(r.value, NotJsSpace)
  {
    match FirstWhere(ModelStarts(details), 0, |details|)
    case Some(k) => ModelAt(details, k)
    case None => None
  }

  /** The value read is the first `model:` followed by a non-space; a `model:`
      followed by whitespace or the end is passed over. */
  lemma ModelNameFirst(details: string)
    ensures ModelName(details).None? <==> forall k :: 0 <= k <= |details| ==> ModelAt(details, k).None?
    ensures ModelName(details).Some? ==> exists k :: (
      && 0 <= k <= |details| && ModelAt(details, k) == ModelName(details)
      && forall q :: 0 <= q < k ==> ModelAt(details, q).None?)
  {
    match FirstWhere(ModelStarts(details), 0, |details|)
    case Some(k) =>
      assert ModelStarts(details)(k);
      forall q | 0 <= q < k
        ensures ModelAt(details, q).None?
      {
        assert !ModelStarts(details)(q);
      }
    case None =>
      forall k | 0 <= k <= |details|
        ensures ModelAt(details, k).None?
      {
        assert !ModelStarts(details)(k);
      }
  }

  /** A details text that opens with a model value yields that value. */
  lemma ModelNameLeading(model: string, more: string)
    requires |model| > 0 && All(model, NotJsSpace)
    requires |more| > 0 ==> IsJsSpace(more[0])
    ensures ModelName("model:" + model + more) == Some(model)
  {
    var d := "model:" + model + more;
    assert d[..6] == "model:";
    assert OccursAt(d, "model:", 0);
    assert d[6..6 + |model|] == model;
    RunEndIs(d, 6, 6 + |model|, NotJsSpace);
    assert ModelStarts(d)(0);
  }

  /** The shown name: the model with `_` as spaces, or the serial without one. */
  function DeviceName(serial: string, details: string): (r: string)
    ensures ModelName(details).None? ==> r == serial
    ensures ModelName(details).Some? ==> |r| == |ModelName(details).value| && '_' !in r
    ensures ModelName(details).Some? ==>
      forall i :: 0 <= i < |r| ==>
        r[i] == (if ModelName(details).value[i] == '_' then ' ' else ModelName(details).value[i])
  {
    match ModelName(details)
    case Some(m) => ReplaceChar(m, '_', ' ')
    case None => serial
  }

  /** An emulator has an `emulator-` serial or mentions `emulator` in its details. */
  function TypeOf(serial: string, details: string): (r: DeviceType)
    ensures r == Emulator <==> StartsWith(serial, "emulator-") || Contains(details, "emulator")
  {
    if StartsWith(serial, "emulator-") || Contains(details, "emulator") then Emulator else Physical
  }

  // ---------------------------------------------------------------------------
  // The table
  // ---------------------------------------------------------------------------

  /** One line of the table: trimmed; empty lines and the `List of devices` header
      skipped; a row becomes an Android device. */
  function DeviceOfLine(line: string): Option<Device> {
    var t := JsTrim(line);
    if t == "" || StartsWith(t, "List of devices") then None
    else
      match MatchRow(t)
      case None => None
      case Some(row) =>
        Some(Device(row.serial, DeviceName(row.serial, row.rest), Android,
          TypeOf(row.serial, row.rest), StatusOf(row.state), Some(row.rest)))
  }

  /** `parseAdbOutput`: the devices of the table's rows, in row order. */
  function ParseAdbOutput(output: string): (r: seq<Device>)
    ensures |r| <= |Split(output, '\n')|
  {
    FilterMap(DeviceOfLine, Split(output, '\n'))
  }

  /** What every parsed device satisfies: Android, never booting, details present,
      and the emulator flag and the name as the serial and details decide. */
  predicate WellFormedDevice(d: Device) {
    && d.platform == Android
    && d.status != Booting
    && d.details.Some?
    && |d.id| > 0 && All(d.id, NotJsSpace)
    && (d.deviceType == Emulator <==> StartsWith(d.id, "emulator-") || Contains(d.details.value, "emulator"))
    && d.name == DeviceName(d.id, d.details.value)
  }

  lemma ParsedDevicesWellFormed(output: string)
    ensures forall i :: 0 <= i < |ParseAdbOutput(output)| ==> WellFormedDevice(ParseAdbOutput(output)[i])
  {
    var lines := Split(output, '\n');
    var r := ParseAdbOutput(output);
    forall i | 0 <= i < |r|
      ensures WellFormedDevice(r[i])
    {
      var j :| 0 <= j < |lines| && DeviceOfLine(lines[j]) == Some(r[i]);
    }
  }

  /** Empty lines and the header never yield a device. */
  lemma SkippedLines(line: string)
    requires JsTrim(line) == "" || StartsWith(JsTrim(line), "List of devices")
    ensures DeviceOfLine(line) == None
  {
  }

  /** The table of several chunks of lines is the tables of the chunks, in order. */
  lemma ParseAdbLines(lines: seq<string>, more: seq<string>)
    ensures FilterMap(DeviceOfLine, lines + more) == FilterMap(DeviceOfLine, lines) + FilterMap(DeviceOfLine, more)
  {
    FilterMapAppend(DeviceOfLine, lines, more);
  }

  const AdbArgs: seq<string> := ["devices", "-l"]

  /** `getConnectedDevices`: any failure of `adb` gives no devices. */
  function GetConnectedDevices(exec: Executor): (r: seq<Device>)
    ensures exec("adb", AdbArgs, None).Failure? ==> r == []
    ensures exec("adb", AdbArgs, None).Success? ==> r == ParseAdbOutput(exec("adb", AdbArgs, None).value)
  {
    match exec("adb", AdbArgs, None)
    case Success(output) => ParseAdbOutput(output)
    case Failure(_) => []
  }

  // ---------------------------------------------------------------------------
  // The poller
  // ---------------------------------------------------------------------------

  /** What listeners hear: the new list, or the new selection (none when cleared). */
  datatype Notification = DevicesUpdated(devices: seq<Device>) | DeviceChanged(device: Option<Device>)

  datatype DeviceState = DeviceState(selected: Option<Device>, devices: seq<Device>)

  datatype Transition = Transition(state: DeviceState, notifications: seq<Notification>)

  /** `selectDevice`: the selection is set and announced, whether or not the device
      is in the list. */
  function SelectDevice(st: DeviceState, d: Device): (r: Transition)
    ensures r.state.selected == Some(d) && r.state.devices == st.devices
    ensures r.notifications == [DeviceChanged(Some(d))]
  {
    Transition(st.(selected := Some(d)), [DeviceChanged(Some(d))])
  }

  predicate HasId(devices: seq<Device>, id: string) {
    exists i :: 0 <= i < |devices| && devices[i].id == id
  }

  /** `refreshDevices` once the poll has returned `current`. An equal list changes
      nothing; otherwise the list is stored and announced, a selection whose id has
      gone is cleared and announced, and a sole device is selected when nothing is. */
  function Refresh(st: DeviceState, current: seq<Device>): (r: Transition)
    ensures st.devices == current ==> r == Transition(st, [])
    ensures st.devices != current ==>
      && r.state.devices == current
      && |r.notifications| >= 1 && r.notifications[0] == DevicesUpdated(current)
      && (forall i :: 1 <= i < |r.notifications| ==> r.notifications[i].DeviceChanged?)
    ensures st.devices != current && r.state.selected.Some? ==> HasId(current, r.state.selected.value.id)
  {
    if st.devices == current then Transition(st, [])
    else
      var updated := st.(devices := current);
      var cleared :=
        if st.selected.Some? && !HasId(current, st.selected.value.id)
        then Transition(updated.(selected := None), [DevicesUpdated(current), DeviceChanged(None)])
        else Transition(updated, [DevicesUpdated(current)]);
      if cleared.state.selected.None? && |current| == 1 then
        var sel := SelectDevice(cleared.state, current[0]);
        Transition(sel.state, cleared.notifications + sel.notifications)
      else cleared
  }

  /** The selection survives a refresh exactly when its id is still listed; a
      vanished one is announced as cleared before anything else is selected. */
  lemma RefreshKeepsOrClears(st: DeviceState, current: seq<Device>)
    requires st.devices != current && st.selected.Some?
    ensures HasId(current, st.selected.value.id) ==> Refresh(st, current).state.selected == st.selected
    ensures !HasId(current, st.selected.value.id) ==>
      && |Refresh(st, current).notifications| >= 2
      && Refresh(st, current).notifications[1] == DeviceChanged(None)
  {
  }

  /** With nothing selected after the check, a list of exactly one device selects it
      and announces it last; with more or fewer devices nothing is selected. */
  lemma RefreshAutoSelects(st: DeviceState, current: seq<Device>)
    requires st.devices != current
    requires st.selected.None? || !HasId(current, st.selected.value.id)
    ensures |current| == 1 ==>
      && Refresh(st, current).state.selected == Some(current[0])
      && Refresh(st, current).notifications[|Refresh(st, current).notifications| - 1] == DeviceChanged(Some(current[0]))
    ensures |current| != 1 ==> Refresh(st, current).state.selected.None?
  {
  }

  /** Polling twice with the same result: the second poll is silent. */
  lemma RefreshIdempotent(st: DeviceState, current: seq<Device>)
    ensures var r := Refresh(st, current).state;
      Refresh(r, current) == Transition(r, [])
  {
  }

  /** Selecting by hand is unchecked: a device outside the list stays selected
      through every poll that returns the same list. */
  lemma UncheckedSelectionPersists(st: DeviceState, d: Device)
    requires !HasId(st.devices, d.id)
    ensures var s := SelectDevice(st, d).state;
      && !HasId(s.devices, s.selected.value.id)
      && Refresh(s, st.devices).state == s
  {
  }
}

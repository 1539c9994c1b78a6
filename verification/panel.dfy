/**
  The client's decoded panel state (`decoded_data`) and its read accessors.
  Every field starts out unknown (`None`) and becomes known when the first
  frame of its kind is decoded.
 */
module Panel {
  import opened Wrappers
  import opened LcdText

  /** The eleven named conditions the LCD frame reports. */
  datatype Condition =
    | Normal | Fire | Defect | Evacuate | SilenceAlarms | DeviceIsolated
    | PsuDefect | Sprinkler | DoorHolderIsolate | AuxIsolate | WalkTest

  /** The client's `_lcd_led_names`: the order named callbacks are notified in. */
  const ConditionOrder: seq<Condition> :=
    [Normal, Fire, Defect, Evacuate, SilenceAlarms, DeviceIsolated,
     PsuDefect, Sprinkler, DoorHolderIsolate, AuxIsolate, WalkTest]

  /** The dictionary key the client uses for a condition. */
  function KeyName(c: Condition): string {
    match c
    case Normal => "normal"
    case Fire => "fire"
    case Defect => "defect"
    case Evacuate => "evacuate"
    case SilenceAlarms => "silence_alarms"
    case DeviceIsolated => "device_isolated"
    case PsuDefect => "psu_defect"
    case Sprinkler => "sprinkler"
    case DoorHolderIsolate => "door_holder_isolate"
    case AuxIsolate => "aux_isolate"
    case WalkTest => "walk_test"
  }

  /** Position of a condition in `ConditionOrder`. */
  function Ordinal(c: Condition): (i: nat)
    ensures i < |ConditionOrder| && ConditionOrder[i] == c
  {
    match c
    case Normal => 0
    case Fire => 1
    case Defect => 2
    case Evacuate => 3
    case SilenceAlarms => 4
    case DeviceIsolated => 5
    case PsuDefect => 6
    case Sprinkler => 7
    case DoorHolderIsolate => 8
    case AuxIsolate => 9
    case WalkTest => 10
  }

  /** The condition a dictionary key names, if any. */
  function ConditionNamed(key: string): (r: Option<Condition>)
    ensures r.Some? ==> KeyName(r.value) == key
    ensures r.None? ==> forall c :: KeyName(c) != key
  {
    if key == "normal" then Some(Normal)
    else if key == "fire" then Some(Fire)
    else if key == "defect" then Some(Defect)
    else if key == "evacuate" then Some(Evacuate)
    else if key == "silence_alarms" then Some(SilenceAlarms)
    else if key == "device_isolated" then Some(DeviceIsolated)
    else if key == "psu_defect" then Some(PsuDefect)
    else if key == "sprinkler" then Some(Sprinkler)
    else if key == "door_holder_isolate" then Some(DoorHolderIsolate)
    else if key == "aux_isolate" then Some(AuxIsolate)
    else if key == "walk_test" then Some(WalkTest)
    else None
  }

  /** Every condition is found again under its own name, and no two share one. */
  lemma ConditionNamesRoundTrip(c: Condition)
    ensures ConditionNamed(KeyName(c)) == Some(c)
    ensures KeyName(c) != "timestamp"
  {
  }

  /** Slots of `addressable_leds`: indices 0 through 256. */
  const LampSlots := 257

  /** Lamps carried by one LED-mimic frame: raw indices 0 through 255. */
  const DecodedLamps := 256

  type LampTable = s: seq<Option<bool>> | |s| == LampSlots witness seq(257, _ => None)

  /** `decoded_data["led"]`: LED-mimic flags and the addressable lamps. */
  datatype LedStatus = LedStatus(
    timestamp: int,
    normal: Option<bool>,
    fire: Option<bool>,
    defect: Option<bool>,
    evacuate: Option<bool>,
    silenceAlarms: Option<bool>,
    lamps: LampTable)

  /** `decoded_data["lcd"]["line_n"]`. */
  datatype LcdLine = LcdLine(timestamp: int, text: Option<Text>)

  /** `decoded_data["lcd"]["leds"]`: the conditions an LCD-line frame reports. */
  datatype LcdConditions = LcdConditions(
    timestamp: int,
    normal: Option<bool>,
    fire: Option<bool>,
    defect: Option<bool>,
    evacuate: Option<bool>,
    silenceAlarms: Option<bool>,
    deviceIsolated: Option<bool>,
    psuDefect: Option<bool>,
    sprinkler: Option<bool>,
    doorHolderIsolate: Option<bool>,
    auxIsolate: Option<bool>,
    walkTest: Option<bool>)

  /** `decoded_data["heartbeat"]`. */
  datatype Heartbeat = Heartbeat(timestamp: int, status: Option<bool>)

  /** `decoded_data` as a whole. */
  datatype PanelState = PanelState(
    led: LedStatus,
    line1: LcdLine,
    line2: LcdLine,
    lcd: LcdConditions,
    heartbeat: Heartbeat)

  /** The value stored for a condition. */
  function ConditionValue(lcd: LcdConditions, c: Condition): Option<bool> {
    match c
    case Normal => lcd.normal
    case Fire => lcd.fire
    case Defect => lcd.defect
    case Evacuate => lcd.evacuate
    case SilenceAlarms => lcd.silenceAlarms
    case DeviceIsolated => lcd.deviceIsolated
    case PsuDefect => lcd.psuDefect
    case Sprinkler => lcd.sprinkler
    case DoorHolderIsolate => lcd.doorHolderIsolate
    case AuxIsolate => lcd.auxIsolate
    case WalkTest => lcd.walkTest
  }

  /** The state the client is constructed with: everything unknown, timestamps 0. */
  function InitialState(): (st: PanelState)
    ensures forall i :: 0 <= i < LampSlots ==> st.led.lamps[i].None?
    ensures forall c :: ConditionValue(st.lcd, c).None?
    ensures st.line1.text.None? && st.line2.text.None? && st.heartbeat.status.None?
  {
    PanelState(
      LedStatus(0, None, None, None, None, None, seq(LampSlots, _ => None)),
      LcdLine(0, None),
      LcdLine(0, None),
      LcdConditions(0, None, None, None, None, None, None, None, None, None, None, None),
      Heartbeat(0, None))
  }

  /** `get_led_state`: the stored lamp for a raw index in 0..256, unknown otherwise. */
  function GetLedState(st: PanelState, led: int): (r: Option<bool>)
    ensures (led < 0 || led > 256) ==> r.None?
    ensures 0 <= led <= 256 ==> r == st.led.lamps[led]
  {
    if led < 0 || led > 256 then None else st.led.lamps[led]
  }

  /** `get_lcd_text`: the stored text of line 1 or 2, unknown for any other line. */
  function GetLcdText(st: PanelState, line: int): (r: Option<Text>)
    ensures line == 1 ==> r == st.line1.text
    ensures line == 2 ==> r == st.line2.text
    ensures line != 1 && line != 2 ==> r.None?
  {
    if line < 1 || line > 2 then None
    else if line == 1 then st.line1.text
    else st.line2.text
  }

  /**
    What a lookup in `decoded_data["lcd"]["leds"]` yields: nothing (`None`, for a
    missing key or an undecoded condition), a flag, or the integer timestamp,
    which is stored in the same dictionary under "timestamp".
   */
  datatype Lookup = NoValue | Flag(on: bool) | Stamp(seconds: int)

  function LookupOf(v: Option<bool>): Lookup {
    match v
    case None => NoValue
    case Some(b) => Flag(b)
  }

  /** `get_special_led_state`. */
  function GetSpecialLedState(st: PanelState, key: string): (r: Lookup)
    ensures ConditionNamed(key).None? && key != "timestamp" ==> r == NoValue
    ensures r.Stamp? <==> key == "timestamp"
    ensures key == "timestamp" ==> r == Stamp(st.lcd.timestamp)
  {
    if key == "timestamp" then Stamp(st.lcd.timestamp)
    else match ConditionNamed(key)
      case None => NoValue
      case Some(c) => LookupOf(ConditionValue(st.lcd, c))
  }

  /** Reading a condition by its key yields the stored value of that condition. */
  lemma SpecialStateByName(st: PanelState, c: Condition)
    ensures GetSpecialLedState(st, KeyName(c)) == LookupOf(ConditionValue(st.lcd, c))
  {
    ConditionNamesRoundTrip(c);
  }

  /** `normal` is known exactly when fire and defect are, and is then their joint absence. */
  predicate NormalAgrees(normal: Option<bool>, fire: Option<bool>, defect: Option<bool>) {
    || (normal.None? && fire.None? && defect.None?)
    || (normal.Some? && fire.Some? && defect.Some? && normal.value == !(fire.value || defect.value))
  }

  /** Either every listed flag is known or none is. */
  predicate Together(flags: seq<Option<bool>>) {
    (forall i :: 0 <= i < |flags| ==> flags[i].None?) || (forall i :: 0 <= i < |flags| ==> flags[i].Some?)
  }

  /** Stored LCD text as the decoder leaves it: valid, at most 40 octets, unpadded. */
  predicate StoredText(t: Option<Text>) {
    t.Some? ==> ValidUtf8(t.value) && |t.value| <= 40 && Unpadded(t.value)
  }

  /**
    The invariant every decoder keeps: each frame writes its group of flags as a
    whole with `normal` derived from fire and defect, the sprinkler condition and
    lamp slot 256 are never written, stored text is trimmed valid UTF-8, and the
    heartbeat is only ever set to true.
   */
  predicate Consistent(st: PanelState) {
    && NormalAgrees(st.led.normal, st.led.fire, st.led.defect)
    && Together([st.led.normal, st.led.evacuate, st.led.silenceAlarms])
    && NormalAgrees(st.lcd.normal, st.lcd.fire, st.lcd.defect)
    && Together([st.lcd.normal, st.lcd.evacuate, st.lcd.silenceAlarms, st.lcd.deviceIsolated,
                 st.lcd.psuDefect, st.lcd.doorHolderIsolate, st.lcd.auxIsolate, st.lcd.walkTest])
    && st.lcd.sprinkler.None?
    && st.led.lamps[DecodedLamps].None?
    && StoredText(st.line1.text) && StoredText(st.line2.text)
    && st.heartbeat.status != Some(false)
  }

  /** The freshly constructed client is consistent. */
  lemma InitialConsistent()
    ensures Consistent(InitialState())
  {
  }
}

/**
  The per-frame decoders `process_led_mimic_packet` and `process_lcd_mimic_line`
  and the heartbeat update. A decoder returns the new panel state together with
  the trace of callback notifications it makes, in the order it makes them.
 */
module Decoders {
  import opened Wrappers
  import opened Bits
  import opened LcdText
  import opened Panel
  import opened Callbacks

  /** What a callback is called with. */
  datatype Event =
    | LampChanged(lamp: nat, on: bool)
    | LcdChanged(line1: Option<Text>, line2: Option<Text>)
    | ConditionChanged(condition: Condition, value: Option<bool>)

  /** One callback invocation: which callback, with what. */
  datatype Note<C> = Note(target: C, event: Event)

  /**
    The outcome of handing a packet to a decoder: the frame was decoded, the
    decoder's guard refused it (logged, nothing changes), or indexing the packet
    raised before anything was written.
   */
  datatype FrameResult<C> = Applied(state: PanelState, notes: seq<Note<C>>) | Rejected | Raised

  /** Every callback of a list called once, in list order, with the same event. */
  function Announce<C>(cbs: seq<C>, e: Event): (r: seq<Note<C>>)
    ensures |r| == |cbs|
    ensures forall i :: 0 <= i < |r| ==> r[i] == Note(cbs[i], e)
  {
    seq(|cbs|, i requires 0 <= i < |cbs| => Note(cbs[i], e))
  }

  /** The notes whose event satisfies `keep`, in trace order. */
  function Select<C>(notes: seq<Note<C>>, keep: Event -> bool): seq<Note<C>> {
    if |notes| == 0 then []
    else (if keep(notes[0].event) then [notes[0]] else []) + Select(notes[1..], keep)
  }

  lemma {:induction false} SelectAppend<C>(a: seq<Note<C>>, b: seq<Note<C>>, keep: Event -> bool)
    ensures Select(a + b, keep) == Select(a, keep) + Select(b, keep)
  {
    if |a| == 0 {
      assert a + b == b;
    } else {
      var ab := a + b;
      assert ab[0] == a[0] && ab[1..] == a[1..] + b;
      SelectAppend(a[1..], b, keep);
      assert Select(ab, keep) == (if keep(a[0].event) then [a[0]] else []) + Select(a[1..] + b, keep);
    }
  }

  lemma {:induction false} SelectAnnounce<C>(cbs: seq<C>, e: Event, keep: Event -> bool)
    ensures Select(Announce(cbs, e), keep) == if keep(e) then Announce(cbs, e) else []
  {
    if |cbs| > 0 {
      assert Announce(cbs, e)[1..] == Announce(cbs[1..], e);
      SelectAnnounce(cbs[1..], e, keep);
    }
  }

  /** Selecting from one callback list's announcement followed by more notes. */
  lemma SelectAnnounceThen<C>(cbs: seq<C>, e: Event, tail: seq<Note<C>>, keep: Event -> bool)
    ensures Select(Announce(cbs, e) + tail, keep) ==
      (if keep(e) then Announce(cbs, e) else []) + Select(tail, keep)
  {
    SelectAppend(Announce(cbs, e), tail, keep);
    SelectAnnounce(cbs, e, keep);
  }

  // ---------------------------------------------------------------------------
  // LED-mimic frames: 0x19 0x24, 38 octets

  const LedFrameLength := 38

  /** Octet where the lamp bitmap starts; 32 octets follow. */
  const LampOffset := 4

  predicate IsLedFrame(pkt: seq<byte>) {
    |pkt| == LedFrameLength && pkt[0] == 0x19 && pkt[1] == 0x24
  }

  /** Lamp `id` (raw, 0-based): bit `id % 8` of octet `4 + id / 8`. */
  predicate LampBit(pkt: seq<byte>, id: nat)
    requires |pkt| == LedFrameLength && id < DecodedLamps
  {
    BitAt(pkt[LampOffset + id / 8], id % 8)
  }

  /** The LED status a valid LED-mimic frame leaves behind. */
  function DecodeLed(led: LedStatus, pkt: seq<byte>, now: int): (r: LedStatus)
    requires |pkt| == LedFrameLength
    ensures r.timestamp == now
    ensures r.fire == Some(Has(pkt[2], 0x80)) && r.defect == Some(Has(pkt[2], 0x40))
    ensures r.evacuate == Some(Has(pkt[2], 0x02)) && r.silenceAlarms == Some(Has(pkt[2], 0x04))
    ensures r.normal == Some(!(r.fire.value || r.defect.value))
    ensures forall k :: 0 <= k < DecodedLamps ==> r.lamps[k] == Some(LampBit(pkt, k))
    ensures r.lamps[DecodedLamps] == led.lamps[DecodedLamps]
  {
    var flags := pkt[2];
    LedStatus(
      now,
      Some(!(Has(flags, 0x40) || Has(flags, 0x80))),
      Some(Has(flags, 0x80)),
      Some(Has(flags, 0x40)),
      Some(Has(flags, 0x02)),
      Some(Has(flags, 0x04)),
      seq(LampSlots, k requires 0 <= k < LampSlots =>
        if k < DecodedLamps then Some(LampBit(pkt, k)) else led.lamps[k]))
  }

  /**
    The lamp callbacks an LED frame fires from lamp `from` on: lamps in
    ascending raw index, each lamp's callbacks in registration order, each
    called with that lamp's own bit.
   */
  function LampNotes<C>(reg: Registry<C>, pkt: seq<byte>, from: nat): (r: seq<Note<C>>)
    requires |pkt| == LedFrameLength && from <= DecodedLamps
    ensures forall i :: 0 <= i < |r| ==>
      && r[i].event.LampChanged?
      && from <= r[i].event.lamp < DecodedLamps
      && r[i].event.on == LampBit(pkt, r[i].event.lamp)
      && r[i].target in reg.lamps[r[i].event.lamp]
    ensures forall i, j :: 0 <= i <= j < |r| ==> r[i].event.lamp <= r[j].event.lamp
    decreases DecodedLamps - from
  {
    if from == DecodedLamps then []
    else Announce(reg.lamps[from], LampChanged(from, LampBit(pkt, from))) + LampNotes(reg, pkt, from + 1)
  }

  /** Selects the notes about lamp `k`. */
  function AboutLamp(k: nat): Event -> bool {
    (e: Event) => e.LampChanged? && e.lamp == k
  }

  /**
    Per lamp, the trace holds exactly that lamp's callbacks, each once, in
    registration order, each with the lamp's bit; lamp 256 gets none.
   */
  lemma {:induction false} LampNotesPerLamp<C>(reg: Registry<C>, pkt: seq<byte>, from: nat, k: nat)
    requires |pkt| == LedFrameLength && from <= DecodedLamps
    ensures Select(LampNotes(reg, pkt, from), AboutLamp(k)) ==
      if from <= k < DecodedLamps then Announce(reg.lamps[k], LampChanged(k, LampBit(pkt, k))) else []
    decreases DecodedLamps - from
  {
    if from < DecodedLamps {
      LampNotesPerLamp(reg, pkt, from + 1, k);
      LampNotesStep(reg, pkt, from, k);
    }
  }

  /** One lamp's announcement, then the rest: only the announcement of lamp `k` itself is selected. */
  lemma LampNotesStep<C>(reg: Registry<C>, pkt: seq<byte>, from: nat, k: nat)
    requires |pkt| == LedFrameLength && from < DecodedLamps
    ensures Select(LampNotes(reg, pkt, from), AboutLamp(k)) ==
      (if k == from then Announce(reg.lamps[from], LampChanged(from, LampBit(pkt, from))) else [])
      + Select(LampNotes(reg, pkt, from + 1), AboutLamp(k))
  {
    var e := LampChanged(from, LampBit(pkt, from));
    var tail := LampNotes(reg, pkt, from + 1);
    assert LampNotes(reg, pkt, from) == Announce(reg.lamps[from], e) + tail;
    SelectAnnounceThen(reg.lamps[from], e, tail, AboutLamp(k));
    assert AboutLamp(k)(e) <==> k == from;
  }

  /**
    `process_led_mimic_packet`. The guard reads `pkt[0]`, then `pkt[1]`, then
    the length, so an empty packet, or a one-octet packet starting 0x19, raises
    an index error; any other packet that is not 0x19 0x24 with 38 octets is
    refused. A valid frame rewrites the LED flags and lamps 0..255 and notifies
    the lamp callbacks; nothing else in the state changes.
   */
  function ProcessLedMimic<C>(st: PanelState, reg: Registry<C>, pkt: seq<byte>, now: int): (r: FrameResult<C>)
    ensures r.Raised? <==> |pkt| == 0 || (|pkt| == 1 && pkt[0] == 0x19)
    ensures r.Applied? <==> IsLedFrame(pkt)
    ensures r.Applied? ==> r.state == st.(led := DecodeLed(st.led, pkt, now))
    ensures r.Applied? ==> r.notes == LampNotes(reg, pkt, 0)
  {
    if |pkt| == 0 then Raised
    else if pkt[0] != 0x19 then Rejected
    else if |pkt| == 1 then Raised
    else if pkt[1] != 0x24 || |pkt| != LedFrameLength then Rejected
    else Applied(st.(led := DecodeLed(st.led, pkt, now)), LampNotes(reg, pkt, 0))
  }

  /** A valid LED-mimic frame keeps the panel state consistent. */
  lemma LedKeepsConsistent(st: PanelState, pkt: seq<byte>, now: int)
    requires |pkt| == LedFrameLength && Consistent(st)
    ensures Consistent(st.(led := DecodeLed(st.led, pkt, now)))
  {
    var led := DecodeLed(st.led, pkt, now);
    var flags := [led.normal, led.evacuate, led.silenceAlarms];
    assert forall i :: 0 <= i < |flags| ==> flags[i].Some?;
  }

  /** The flags octet (octet 2) of an LED-mimic frame. */
  function LedFlagsOctet(fire: bool, defect: bool, evacuate: bool, silenceAlarms: bool): byte {
    (if fire then 0x80 else 0x00) | (if defect then 0x40 else 0x00) |
    (if evacuate then 0x02 else 0x00) | (if silenceAlarms then 0x04 else 0x00)
  }

  /** The 32-octet lamp bitmap for lamps 0..255. */
  function PackLamps(lamps: seq<bool>): (r: seq<byte>)
    requires |lamps| == DecodedLamps
    ensures |r| == 32
  {
    seq(32, i requires 0 <= i < 32 => Pack(lamps[8 * i .. 8 * i + 8]))
  }

  /** An LED-mimic frame carrying the given flags and lamps. */
  function LedFrame(fire: bool, defect: bool, evacuate: bool, silenceAlarms: bool,
                    spare: byte, lamps: seq<bool>, trailer: seq<byte>): (pkt: seq<byte>)
    requires |lamps| == DecodedLamps && |trailer| == 2
    ensures IsLedFrame(pkt)
  {
    [0x19, 0x24, LedFlagsOctet(fire, defect, evacuate, silenceAlarms), spare] + PackLamps(lamps) + trailer
  }

  /** Each lamp is read back from the bitmap at the octet and bit it was packed into. */
  lemma PackLampsBit(lamps: seq<bool>, k: nat)
    requires |lamps| == DecodedLamps && k < DecodedLamps
    ensures BitAt(PackLamps(lamps)[k / 8], k % 8) == lamps[k]
  {
    var i := k / 8;
    var group := lamps[8 * i .. 8 * i + 8];
    assert PackLamps(lamps)[i] == Pack(group);
    UnpackPack(group);
    assert Unpack(Pack(group))[k % 8] == group[k % 8];
    assert group[k % 8] == lamps[k];
  }

  /** The flags octet is decoded back into the flags it encodes. */
  lemma LedFlagsRoundTrip(fire: bool, defect: bool, evacuate: bool, silenceAlarms: bool)
    ensures var b := LedFlagsOctet(fire, defect, evacuate, silenceAlarms);
      Has(b, 0x80) == fire && Has(b, 0x40) == defect && Has(b, 0x02) == evacuate && Has(b, 0x04) == silenceAlarms
  {
  }

  /** Decoding an encoded LED-mimic frame gives back every flag and every lamp. */
  lemma LedFrameRoundTrip<C>(st: PanelState, reg: Registry<C>, fire: bool, defect: bool, evacuate: bool,
                             silenceAlarms: bool, spare: byte, lamps: seq<bool>, trailer: seq<byte>, now: int)
    requires |lamps| == DecodedLamps && |trailer| == 2
    ensures var r := ProcessLedMimic(st, reg, LedFrame(fire, defect, evacuate, silenceAlarms, spare, lamps, trailer), now);
      && r.Applied?
      && r.state.led.fire == Some(fire) && r.state.led.defect == Some(defect)
      && r.state.led.evacuate == Some(evacuate) && r.state.led.silenceAlarms == Some(silenceAlarms)
      && r.state.led.normal == Some(!(fire || defect))
      && forall k :: 0 <= k < DecodedLamps ==> GetLedState(r.state, k) == Some(lamps[k])
  {
    var pkt := LedFrame(fire, defect, evacuate, silenceAlarms, spare, lamps, trailer);
    var bitmap := PackLamps(lamps);
    assert pkt[2] == LedFlagsOctet(fire, defect, evacuate, silenceAlarms);
    LedFlagsRoundTrip(fire, defect, evacuate, silenceAlarms);
    assert forall i :: 0 <= i < 32 ==> pkt[LampOffset + i] == bitmap[i];
    forall k | 0 <= k < DecodedLamps
      ensures LampBit(pkt, k) == lamps[k]
    {
      PackLampsBit(lamps, k);
    }
    var led := DecodeLed(st.led, pkt, now);
    assert forall k :: 0 <= k < DecodedLamps ==> led.lamps[k] == Some(lamps[k]);
  }

  // ---------------------------------------------------------------------------
  // LCD-line frames: 0x20 0x17 (line 1) or 0x20 0x18 (line 2), 46 octets

  const LcdFrameLength := 46

  /** Octets 2 .. 41 carry the line's text. */
  const TextStart := 2
  const TextEnd := 42

  predicate IsLcdFrame(pkt: seq<byte>) {
    |pkt| == LcdFrameLength && pkt[0] == 0x20 && (pkt[1] == 0x17 || pkt[1] == 0x18)
  }

  /** `(pkt[1] == 0x18) + 1`. */
  function LineOf(pkt: seq<byte>): (line: int)
    requires |pkt| >= 2
    ensures line == 1 || line == 2
  {
    if pkt[1] == 0x18 then 2 else 1
  }

  /** The condition bits of octets 44 and 45 (`pkt[42:][2]` and `pkt[42:][3]`). */
  datatype LcdFlags = LcdFlags(
    fire: bool, defect: bool, silenceAlarms: bool, evacuate: bool, deviceIsolated: bool,
    psuDefect: bool, doorHolderIsolate: bool, auxIsolate: bool, walkTest: bool)

  function FlagsOf(b2: byte, b3: byte): LcdFlags {
    LcdFlags(
      fire := Has(b3, 0x02),
      defect := Has(b2, 0x10),
      silenceAlarms := Has(b3, 0x10),
      evacuate := Has(b3, 0x04),
      deviceIsolated := Has(b2, 0x01),
      psuDefect := Has(b2, 0x02),
      doorHolderIsolate := Has(b2, 0x80),
      auxIsolate := Has(b2, 0x08),
      walkTest := Has(b2, 0x20))
  }

  /** Octets 44 and 45 that carry the given conditions (other bits clear). */
  function FlagOctets(f: LcdFlags): (r: (byte, byte)) {
    ((if f.deviceIsolated then 0x01 else 0x00) | (if f.psuDefect then 0x02 else 0x00) |
     (if f.auxIsolate then 0x08 else 0x00) | (if f.defect then 0x10 else 0x00) |
     (if f.walkTest then 0x20 else 0x00) | (if f.doorHolderIsolate then 0x80 else 0x00),
     (if f.fire then 0x02 else 0x00) | (if f.evacuate then 0x04 else 0x00) |
     (if f.silenceAlarms then 0x10 else 0x00))
  }

  /** The condition octets are decoded back into the conditions they encode. */
  lemma FlagOctetsRoundTrip(f: LcdFlags)
    ensures FlagsOf(FlagOctets(f).0, FlagOctets(f).1) == f
  {
  }

  /**
    The conditions stored for an LCD-line frame, bit by bit: octet 44
    (`pkt[42:][2]`) carries defect 0x10, device isolated 0x01, PSU defect 0x02,
    door holder isolate 0x80, aux isolate 0x08 and walk test 0x20; octet 45
    (`pkt[42:][3]`) carries fire 0x02, silence alarms 0x10 and evacuate 0x04.
    Normal is neither fire nor defect; sprinkler is not decoded.
   */
  predicate LcdBitsStored(lcd: LcdConditions, pkt: seq<byte>, now: int)
    requires |pkt| == LcdFrameLength
  {
    && lcd.timestamp == now
    && lcd.fire == Some(Has(pkt[45], 0x02))
    && lcd.defect == Some(Has(pkt[44], 0x10))
    && lcd.normal == Some(!Has(pkt[45], 0x02) && !Has(pkt[44], 0x10))
    && lcd.silenceAlarms == Some(Has(pkt[45], 0x10))
    && lcd.evacuate == Some(Has(pkt[45], 0x04))
    && lcd.deviceIsolated == Some(Has(pkt[44], 0x01))
    && lcd.psuDefect == Some(Has(pkt[44], 0x02))
    && lcd.sprinkler.None?
    && lcd.doorHolderIsolate == Some(Has(pkt[44], 0x80))
    && lcd.auxIsolate == Some(Has(pkt[44], 0x08))
    && lcd.walkTest == Some(Has(pkt[44], 0x20))
  }

  /** The stored conditions for decoded flags: `normal` derived, `sprinkler` never decoded. */
  function ConditionsOf(f: LcdFlags, now: int): (r: LcdConditions)
    ensures r.timestamp == now
    ensures r.normal == Some(!f.fire && !f.defect)
    ensures r.sprinkler.None?
    ensures r.fire == Some(f.fire) && r.defect == Some(f.defect)
    ensures r.evacuate == Some(f.evacuate) && r.silenceAlarms == Some(f.silenceAlarms)
    ensures r.deviceIsolated == Some(f.deviceIsolated) && r.psuDefect == Some(f.psuDefect)
    ensures r.doorHolderIsolate == Some(f.doorHolderIsolate) && r.auxIsolate == Some(f.auxIsolate)
    ensures r.walkTest == Some(f.walkTest)
    ensures forall c :: c != Normal && c != Sprinkler ==> ConditionValue(r, c).Some?
  {
    LcdConditions(
      now,
      normal := Some(!f.fire && !f.defect),
      fire := Some(f.fire),
      defect := Some(f.defect),
      evacuate := Some(f.evacuate),
      silenceAlarms := Some(f.silenceAlarms),
      deviceIsolated := Some(f.deviceIsolated),
      psuDefect := Some(f.psuDefect),
      sprinkler := None,
      doorHolderIsolate := Some(f.doorHolderIsolate),
      auxIsolate := Some(f.auxIsolate),
      walkTest := Some(f.walkTest))
  }

  /**
    The named-condition callbacks from position `from` of `ConditionOrder` on:
    conditions in that order, each condition's callbacks in registration order,
    each called with that condition's stored value.
   */
  function ConditionNotes<C>(reg: Registry<C>, lcd: LcdConditions, from: nat): (r: seq<Note<C>>)
    requires from <= |ConditionOrder|
    ensures forall i :: 0 <= i < |r| ==>
      && r[i].event.ConditionChanged?
      && from <= Ordinal(r[i].event.condition)
      && r[i].event.value == ConditionValue(lcd, r[i].event.condition)
      && r[i].target in reg.named[Ordinal(r[i].event.condition)]
    ensures forall i, j :: 0 <= i <= j < |r| ==>
      Ordinal(r[i].event.condition) <= Ordinal(r[j].event.condition)
    decreases |ConditionOrder| - from
  {
    if from == |ConditionOrder| then []
    else
      var c := ConditionOrder[from];
      assert Ordinal(c) == from;
      Announce(reg.named[from], ConditionChanged(c, ConditionValue(lcd, c))) + ConditionNotes(reg, lcd, from + 1)
  }

  /** Selects the notes about condition `c`. */
  function AboutCondition(c: Condition): Event -> bool {
    (e: Event) => e.ConditionChanged? && e.condition == c
  }

  /** Per condition, the trace holds exactly its callbacks, each once, in registration order, with its value. */
  lemma {:induction false} ConditionNotesPerCondition<C>(reg: Registry<C>, lcd: LcdConditions, from: nat, c: Condition)
    requires from <= |ConditionOrder|
    ensures Select(ConditionNotes(reg, lcd, from), AboutCondition(c)) ==
      if from <= Ordinal(c) then Announce(reg.named[Ordinal(c)], ConditionChanged(c, ConditionValue(lcd, c))) else []
    decreases |ConditionOrder| - from
  {
    if from < |ConditionOrder| {
      ConditionNotesPerCondition(reg, lcd, from + 1, c);
      ConditionNotesStep(reg, lcd, from, c);
    }
  }

  /** One condition's announcement, then the rest: only the announcement of `c` itself is selected. */
  lemma ConditionNotesStep<C>(reg: Registry<C>, lcd: LcdConditions, from: nat, c: Condition)
    requires from < |ConditionOrder|
    ensures Select(ConditionNotes(reg, lcd, from), AboutCondition(c)) ==
      (if from == Ordinal(c) then Announce(reg.named[from], ConditionChanged(c, ConditionValue(lcd, c))) else [])
      + Select(ConditionNotes(reg, lcd, from + 1), AboutCondition(c))
  {
    var d := ConditionOrder[from];
    assert Ordinal(d) == from;
    var e := ConditionChanged(d, ConditionValue(lcd, d));
    var tail := ConditionNotes(reg, lcd, from + 1);
    assert ConditionNotes(reg, lcd, from) == Announce(reg.named[from], e) + tail;
    SelectAnnounceThen(reg.named[from], e, tail, AboutCondition(c));
    assert AboutCondition(c)(e) <==> from == Ordinal(c);
  }

  /** The two notification passes after an LCD line is stored: LCD callbacks, then named callbacks. */
  function LcdNotes<C>(reg: Registry<C>, st: PanelState): (r: seq<Note<C>>)
    ensures |r| >= |reg.lcd|
    ensures forall i :: 0 <= i < |reg.lcd| ==>
      r[i] == Note(reg.lcd[i], LcdChanged(GetLcdText(st, 1), GetLcdText(st, 2)))
    ensures forall i :: |reg.lcd| <= i < |r| ==> r[i].event.ConditionChanged?
  {
    Announce(reg.lcd, LcdChanged(st.line1.text, st.line2.text)) + ConditionNotes(reg, st.lcd, 0)
  }

  /** The state after storing an LCD line and its conditions. */
  function StoreLine(st: PanelState, line: int, text: Text, f: LcdFlags, now: int): (r: PanelState)
    requires line == 1 || line == 2
    ensures GetLcdText(r, line) == Some(text)
    ensures GetLcdText(r, 3 - line) == GetLcdText(st, 3 - line)
    ensures r.lcd == ConditionsOf(f, now)
    ensures r.led == st.led && r.heartbeat == st.heartbeat
  {
    var stored := LcdLine(now, Some(text));
    var st' := if line == 2 then st.(line2 := stored) else st.(line1 := stored);
    st'.(lcd := ConditionsOf(f, now))
  }

  /**
    `process_lcd_mimic_line`. The guard reads `pkt[0]`, then `pkt[1]`, then the
    length, so an empty packet, or a one-octet packet starting 0x20, raises an
    index error; a packet that is not 0x20 0x17/0x18 with 46 octets is refused.
    Text that is not valid UTF-8 raises in the decode, before anything is
    stored. Otherwise the selected line gets the trimmed text, the conditions
    are rewritten, and the callbacks are notified.
   */
  function ProcessLcdLine<C>(st: PanelState, reg: Registry<C>, pkt: seq<byte>, now: int): (r: FrameResult<C>)
    ensures r.Raised? <==> |pkt| == 0 || (|pkt| == 1 && pkt[0] == 0x20)
                           || (IsLcdFrame(pkt) && !ValidUtf8(pkt[TextStart..TextEnd]))
    ensures r.Applied? <==> IsLcdFrame(pkt) && ValidUtf8(pkt[TextStart..TextEnd])
    ensures r.Applied? ==> r.state == StoreLine(st, LineOf(pkt), Trim(pkt[TextStart..TextEnd]),
                                                FlagsOf(pkt[44], pkt[45]), now)
    ensures r.Applied? ==> r.notes == LcdNotes(reg, r.state)
    ensures r.Applied? ==> LcdBitsStored(r.state.lcd, pkt, now)
  {
    if |pkt| == 0 then Raised
    else if pkt[0] != 0x20 then Rejected
    else if |pkt| == 1 then Raised
    else if (pkt[1] != 0x17 && pkt[1] != 0x18) || |pkt| != LcdFrameLength then Rejected
    else
      var raw := pkt[TextStart..TextEnd];
      if !ValidUtf8(raw) then Raised
      else
        var st' := StoreLine(st, LineOf(pkt), Trim(raw), FlagsOf(pkt[44], pkt[45]), now);
        Applied(st', LcdNotes(reg, st'))
  }

  /** Storing a trimmed valid line keeps the panel state consistent. */
  lemma LcdKeepsConsistent(st: PanelState, line: int, raw: Text, f: LcdFlags, now: int)
    requires line == 1 || line == 2
    requires |raw| == TextEnd - TextStart && ValidUtf8(raw) && Consistent(st)
    ensures Consistent(StoreLine(st, line, Trim(raw), f, now))
  {
    TrimValid(raw);
    StoreLineConsistent(st, line, Trim(raw), f, now);
  }

  /** Storing valid, unpadded text of at most 40 octets keeps the state consistent. */
  lemma StoreLineConsistent(st: PanelState, line: int, text: Text, f: LcdFlags, now: int)
    requires line == 1 || line == 2
    requires Consistent(st) && StoredText(Some(text))
    ensures Consistent(StoreLine(st, line, text, f, now))
  {
    var r := StoreLine(st, line, text, f, now);
    assert r.line1.text == GetLcdText(r, 1) && r.line2.text == GetLcdText(r, 2);
    var flags := [r.lcd.normal, r.lcd.evacuate, r.lcd.silenceAlarms, r.lcd.deviceIsolated,
                  r.lcd.psuDefect, r.lcd.doorHolderIsolate, r.lcd.auxIsolate, r.lcd.walkTest];
    assert forall i :: 0 <= i < |flags| ==> flags[i].Some?;
  }

  /** An LCD-line frame for `line` with the given 40 text octets and conditions. */
  function LcdFrame(line: int, text: seq<byte>, spare: (byte, byte), f: LcdFlags): (pkt: seq<byte>)
    requires line == 1 || line == 2
    requires |text| == TextEnd - TextStart
    ensures IsLcdFrame(pkt)
  {
    [0x20, if line == 1 then 0x17 else 0x18] + text + [spare.0, spare.1, FlagOctets(f).0, FlagOctets(f).1]
  }

  /**
    Decoding an encoded LCD-line frame stores the text, stripped of its space
    padding, on the right line, leaves the other line alone and gives back
    every encoded condition; LCD callbacks then see both lines' texts.
   */
  lemma LcdFrameRoundTrip<C>(st: PanelState, reg: Registry<C>, line: int, a: nat, t: Text, b: nat,
                             spare: (byte, byte), f: LcdFlags, now: int)
    requires line == 1 || line == 2
    requires a + |t| + b == TextEnd - TextStart && Unpadded(t) && ValidUtf8(t)
    ensures var r := ProcessLcdLine(st, reg, LcdFrame(line, Spaces(a) + t + Spaces(b), spare, f), now);
      && r.Applied?
      && GetLcdText(r.state, line) == Some(t)
      && GetLcdText(r.state, 3 - line) == GetLcdText(st, 3 - line)
      && r.state.lcd == ConditionsOf(f, now)
  {
    var text := Spaces(a) + t + Spaces(b);
    var pkt := LcdFrame(line, text, spare, f);
    assert pkt[TextStart..TextEnd] == text;
    assert pkt[44] == FlagOctets(f).0 && pkt[45] == FlagOctets(f).1;
    FlagOctetsRoundTrip(f);
    TrimUnique(a, t, b);
    ValidPadded(a, t, b);
  }

  /** Space padding keeps text valid. */
  lemma {:induction false} ValidPadded(a: nat, t: Text, b: nat)
    requires ValidUtf8(t)
    ensures ValidUtf8(Spaces(a) + t + Spaces(b))
    decreases a
  {
    if a == 0 {
      assert Spaces(0) + t + Spaces(b) == t + Spaces(b);
      ValidSpacesAfter(t, b);
    } else {
      var s := Spaces(a) + t + Spaces(b);
      assert s[1..] == Spaces(a - 1) + t + Spaces(b);
      ValidPadded(a - 1, t, b);
    }
  }

  /** Trailing spaces keep text valid. */
  lemma {:induction false} ValidSpacesAfter(t: Text, b: nat)
    requires ValidUtf8(t)
    ensures ValidUtf8(t + Spaces(b))
    decreases |t| + b
  {
    var u := t + Spaces(b);
    if |t| == 0 {
      if b > 0 {
        assert u[1..] == [] + Spaces(b - 1);
        ValidSpacesAfter([], b - 1);
      }
    } else {
      var n := SequenceLength(t);
      assert u[..n] == t[..n];
      SequenceLocal(t, u);
      assert u[n..] == t[n..] + Spaces(b);
      ValidSpacesAfter(t[n..], b);
    }
  }

  // ---------------------------------------------------------------------------
  // Heartbeat frames: 0x80 0x22

  /** The heartbeat frame sets the heartbeat status to true and changes nothing else. */
  function Beat(st: PanelState, now: int): (r: PanelState)
    ensures r.heartbeat.status == Some(true)
    ensures r.led == st.led && r.line1 == st.line1 && r.line2 == st.line2 && r.lcd == st.lcd
    ensures Consistent(st) ==> Consistent(r)
  {
    st.(heartbeat := Heartbeat(now, Some(true)))
  }
}

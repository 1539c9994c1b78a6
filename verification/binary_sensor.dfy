/**
  The binary-sensor platform: eleven condition sensors and one sensor per
  selected mimic lamp. Each sensor registers its `proccess_callback` with the
  client when it is constructed and shows the last value it was called with.
 */
module BinarySensor {
  import opened Wrappers
  import opened Bits
  import opened Panel
  import opened Callbacks
  import opened Decoders

  /** A sensor, standing for the `proccess_callback` it registers: a lamp sensor or a condition sensor. */
  datatype Entity = LampSensor(id: int) | SpecialSensor(key: string)

  /** The keys of the condition sensors, in the order the platform creates them. */
  const SpecialSensorKeys: seq<string> :=
    ["normal", "fire", "defect", "evacuate", "silence_alarms", "device_isolated",
     "psu_defect", "sprinkler", "door_holder_isolate", "aux_isolate", "walk_test"]

  /** The condition sensors are the client's eleven conditions, in the client's own order. */
  lemma SpecialSensorKeysAreConditions()
    ensures |SpecialSensorKeys| == |ConditionOrder|
    ensures forall i :: 0 <= i < |ConditionOrder| ==> SpecialSensorKeys[i] == KeyName(ConditionOrder[i])
  {
    assert SpecialSensorKeys == seq(|ConditionOrder|, i requires 0 <= i < |ConditionOrder| => KeyName(ConditionOrder[i]));
  }

  /** Each condition sensor's key names a condition. */
  lemma SpecialSensorKeysNamed(i: int)
    requires 0 <= i < |SpecialSensorKeys|
    ensures ConditionNamed(SpecialSensorKeys[i]) == Some(ConditionOrder[i])
  {
    SpecialSensorKeysAreConditions();
    ConditionNamesRoundTrip(ConditionOrder[i]);
  }

  // ---------------------------------------------------------------------------
  // Which lamps get a sensor

  /**
    Whether lamp `n` gets a sensor for the three configured counts. Lamp 0 never
    does. In 1..99 the lamp must not exceed the first count; in 100..199 it must
    not exceed 100 plus the second; in 200..256, 200 plus the third; a group
    whose count is below one gets no sensor at all.
   */
  predicate Selected(n: int, c0: int, c1: int, c2: int) {
    if n <= 0 || n > 256 then false
    else if n <= 99 then 1 <= c0 && n <= c0
    else if n <= 199 then 1 <= c1 && n <= 100 + c1
    else 1 <= c2 && n <= 200 + c2
  }

  /**
    The selection as three intervals: 1 up to the first count, 100 up to 100
    plus the second and 200 up to 200 plus the third, each clipped to its group.
    A positive count in the second or third group therefore selects one lamp
    more than the count, its group's base lamp included.
   */
  lemma SelectionIntervals(c0: int, c1: int, c2: int, n: int)
    ensures Selected(n, c0, c1, c2) <==>
      || (1 <= n <= Min(c0, 99))
      || (1 <= c1 && 100 <= n <= Min(100 + c1, 199))
      || (1 <= c2 && 200 <= n <= Min(200 + c2, 256))
  {
  }

  /** No positive count, no lamp. */
  lemma NothingSelectedWithoutCounts(c0: int, c1: int, c2: int, n: int)
    requires c0 <= 0 && c1 <= 0 && c2 <= 0
    ensures !Selected(n, c0, c1, c2)
  {
  }

  /** The default counts 99, 99 and 56 select every lamp from 1 to 256. */
  lemma DefaultsSelectEveryLamp(n: int)
    ensures Selected(n, 99, 99, 56) <==> 1 <= n <= 256
  {
  }

  /**
    The loop over `range(257)`: the selected lamps, each once, in ascending
    order.
   */
  method SelectLeds(c0: int, c1: int, c2: int) returns (ids: seq<int>)
    ensures forall i :: 0 <= i < |ids| ==> Selected(ids[i], c0, c1, c2)
    ensures forall n :: Selected(n, c0, c1, c2) ==> n in ids
    ensures forall i, j :: 0 <= i < j < |ids| ==> ids[i] < ids[j]
    ensures SelectionOf(ids, c0, c1, c2)
  {
    ids := [];
    var led := 0;
    while led < 257
      invariant 0 <= led <= 257
      invariant forall i :: 0 <= i < |ids| ==> Selected(ids[i], c0, c1, c2) && ids[i] < led
      invariant forall n :: n < led && Selected(n, c0, c1, c2) ==> n in ids
      invariant forall i, j :: 0 <= i < j < |ids| ==> ids[i] < ids[j]
    {
      if led == 0 {
        // lamp 0 does not exist
      } else if led <= 99 {
        if c0 >= 1 && led <= c0 {
          ids := ids + [led];
        }
      } else if led <= 199 {
        if c1 >= 1 && led <= 100 + c1 {
          ids := ids + [led];
        }
      } else if c2 >= 1 && led <= 200 + c2 {
        ids := ids + [led];
      }
      led := led + 1;
    }
  }

  // ---------------------------------------------------------------------------
  // Registration

  /** Constructs condition sensors for `cs` in order; each registers under its condition's key. */
  function RegisterSpecialSensors(reg: Registry<Entity>, cs: seq<Condition>): (r: Registry<Entity>)
    requires forall i, j :: 0 <= i < j < |cs| ==> cs[i] != cs[j]
    ensures r.lamps == reg.lamps && r.lcd == reg.lcd
    ensures forall c ::
      r.named[Ordinal(c)] == if c in cs then reg.named[Ordinal(c)] + [SpecialSensor(KeyName(c))] else reg.named[Ordinal(c)]
    decreases |cs|
  {
    if |cs| == 0 then reg
    else
      var c := cs[0];
      var step := RegisterSpecial(reg, Name(KeyName(c)), SpecialSensor(KeyName(c)));
      RegisterOneSpecial(reg, c);
      assert c !in cs[1..];
      RegisterSpecialSensors(step.registry, cs[1..])
  }

  lemma RegisterOneSpecial(reg: Registry<Entity>, c: Condition)
    ensures var r := RegisterSpecial(reg, Name(KeyName(c)), SpecialSensor(KeyName(c))).registry;
      && r.lamps == reg.lamps && r.lcd == reg.lcd
      && r.named[Ordinal(c)] == reg.named[Ordinal(c)] + [SpecialSensor(KeyName(c))]
      && forall d :: d != c ==> r.named[Ordinal(d)] == reg.named[Ordinal(d)]
  {
    ConditionNamesRoundTrip(c);
    var r := RegisterSpecial(reg, Name(KeyName(c)), SpecialSensor(KeyName(c))).registry;
    forall d | d != c
      ensures r.named[Ordinal(d)] == reg.named[Ordinal(d)]
    {
      ConditionNamesRoundTrip(d);
      assert Name(KeyName(d)) != Name(KeyName(c));
    }
  }

  /** Constructs lamp sensors for `ids` in order; each registers under its own lamp. */
  function RegisterLampSensors(reg: Registry<Entity>, ids: seq<int>): (r: Registry<Entity>)
    requires forall i :: 0 <= i < |ids| ==> 1 <= ids[i] <= 256
    requires forall i, j :: 0 <= i < j < |ids| ==> ids[i] < ids[j]
    ensures r.named == reg.named && r.lcd == reg.lcd
    ensures forall n :: 0 <= n < LampSlots ==>
      r.lamps[n] == if n in ids then reg.lamps[n] + [LampSensor(n)] else reg.lamps[n]
    decreases |ids|
  {
    if |ids| == 0 then reg
    else
      var n := ids[0];
      var step := RegisterLed(reg, n, LampSensor(n));
      assert step.accepted;
      var r := RegisterLampSensors(step.registry, ids[1..]);
      assert forall m :: m in ids <==> m == n || m in ids[1..];
      assert n !in ids[1..];
      r
  }

  /** The condition sensors, in creation order. */
  function SpecialSensors(): (r: seq<Entity>)
    ensures |r| == |SpecialSensorKeys|
    ensures forall i :: 0 <= i < |r| ==> r[i] == SpecialSensor(SpecialSensorKeys[i])
  {
    seq(|SpecialSensorKeys|, i requires 0 <= i < |SpecialSensorKeys| => SpecialSensor(SpecialSensorKeys[i]))
  }

  /** The lamp sensors for `ids`, in the same order. */
  function LampSensors(ids: seq<int>): (r: seq<Entity>)
    ensures |r| == |ids|
    ensures forall i :: 0 <= i < |r| ==> r[i] == LampSensor(ids[i])
  {
    seq(|ids|, i requires 0 <= i < |ids| => LampSensor(ids[i]))
  }

  /** Every condition is in the client's list, and the list has no repeats. */
  lemma ConditionOrderComplete()
    ensures forall c :: c in ConditionOrder
    ensures forall i, j :: 0 <= i < j < |ConditionOrder| ==> ConditionOrder[i] != ConditionOrder[j]
  {
    forall c
      ensures c in ConditionOrder
    {
      assert ConditionOrder[Ordinal(c)] == c;
    }
  }

  /** What `SelectLeds` promises about its result. */
  ghost predicate SelectionOf(ids: seq<int>, c0: int, c1: int, c2: int) {
    && (forall i :: 0 <= i < |ids| ==> Selected(ids[i], c0, c1, c2))
    && (forall n :: Selected(n, c0, c1, c2) ==> n in ids)
    && (forall i, j :: 0 <= i < j < |ids| ==> ids[i] < ids[j])
  }

  /** Registering the selected lamps gives each selected lamp one more callback and no other lamp any. */
  lemma SelectedLampsRegistered(reg: Registry<Entity>, ids: seq<int>, c0: int, c1: int, c2: int)
    requires SelectionOf(ids, c0, c1, c2)
    ensures forall i :: 0 <= i < |ids| ==> 1 <= ids[i] <= 256
    ensures forall n :: 0 <= n < LampSlots ==>
      RegisterLampSensors(reg, ids).lamps[n] == if Selected(n, c0, c1, c2) then reg.lamps[n] + [LampSensor(n)] else reg.lamps[n]
  {
  }

  /** The lamp sensors of a selection: the selected lamps, each once, in ascending order. */
  ghost predicate LampSelection(sensors: seq<Entity>, c0: int, c1: int, c2: int) {
    && (forall i :: 0 <= i < |sensors| ==> sensors[i].LampSensor? && Selected(sensors[i].id, c0, c1, c2))
    && (forall n :: Selected(n, c0, c1, c2) ==> LampSensor(n) in sensors)
    && (forall i, j :: 0 <= i < j < |sensors| ==> sensors[i].id < sensors[j].id)
  }

  /** The sensors for the lamps `SelectLeds` picks form the selection. */
  lemma SelectedLampSensors(ids: seq<int>, c0: int, c1: int, c2: int)
    requires SelectionOf(ids, c0, c1, c2)
    ensures LampSelection(LampSensors(ids), c0, c1, c2)
  {
    var sensors := LampSensors(ids);
    forall n | Selected(n, c0, c1, c2)
      ensures LampSensor(n) in sensors
    {
      var i :| 0 <= i < |ids| && ids[i] == n;
      assert sensors[i] == LampSensor(n);
    }
  }

  /** Registers a sensor for every selected lamp, in ascending order, and returns them. */
  method SetupLamps(reg: Registry<Entity>, c0: int, c1: int, c2: int) returns (sensors: seq<Entity>, reg': Registry<Entity>)
    ensures reg'.named == reg.named && reg'.lcd == reg.lcd
    ensures forall n :: 0 <= n < LampSlots ==>
      reg'.lamps[n] == if Selected(n, c0, c1, c2) then reg.lamps[n] + [LampSensor(n)] else reg.lamps[n]
    ensures LampSelection(sensors, c0, c1, c2)
  {
    var ids := SelectLeds(c0, c1, c2);
    SelectedLampsRegistered(reg, ids, c0, c1, c2);
    reg' := RegisterLampSensors(reg, ids);
    sensors := LampSensors(ids);
    SelectedLampSensors(ids, c0, c1, c2);
  }

  /** Registers the eleven condition sensors, each under its own condition. */
  function RegisterConditionSensors(reg: Registry<Entity>): (r: Registry<Entity>)
    ensures r.lamps == reg.lamps && r.lcd == reg.lcd
    ensures forall c :: r.named[Ordinal(c)] == reg.named[Ordinal(c)] + [SpecialSensor(KeyName(c))]
  {
    ConditionOrderComplete();
    RegisterSpecialSensors(reg, ConditionOrder)
  }

  /**
    The sensors handed to `async_add_entities`: the condition sensors in
    creation order, then one sensor for each selected lamp, in ascending order.
   */
  ghost predicate SpecialsThenLamps(added: seq<Entity>, c0: int, c1: int, c2: int) {
    && |added| >= |SpecialSensorKeys|
    && added[..|SpecialSensorKeys|] == SpecialSensors()
    && LampSelection(added[|SpecialSensorKeys|..], c0, c1, c2)
  }

  /** The callbacks a setup adds: each condition sensor under its condition, each selected lamp's sensor under its lamp. */
  predicate SetupRegisters(reg: Registry<Entity>, reg': Registry<Entity>, c0: int, c1: int, c2: int) {
    && reg'.lcd == reg.lcd
    && (forall c :: reg'.named[Ordinal(c)] == reg.named[Ordinal(c)] + [SpecialSensor(KeyName(c))])
    && (forall n :: 0 <= n < LampSlots ==>
         reg'.lamps[n] == if Selected(n, c0, c1, c2) then reg.lamps[n] + [LampSensor(n)] else reg.lamps[n])
  }

  /**
    `async_setup_entry`. The condition sensors are always constructed, and so
    always registered; the lamp sensors are constructed only when some count is
    positive, and the sensors are handed to Home Assistant only then.
   */
  method SetupEntry(reg: Registry<Entity>, c0: int, c1: int, c2: int) returns (added: seq<Entity>, reg': Registry<Entity>)
    ensures SetupRegisters(reg, reg', c0, c1, c2)
    ensures added == [] <==> c0 <= 0 && c1 <= 0 && c2 <= 0
    ensures added != [] ==> SpecialsThenLamps(added, c0, c1, c2)
  {
    var named := RegisterConditionSensors(reg);
    if c0 > 0 || c1 > 0 || c2 > 0 {
      var lamps;
      lamps, reg' := SetupLamps(named, c0, c1, c2);
      var specials := SpecialSensors();
      added := specials + lamps;
      assert added[..|specials|] == specials && added[|specials|..] == lamps;
    } else {
      reg', added := named, [];
      forall n
        ensures !Selected(n, c0, c1, c2)
      {
        NothingSelectedWithoutCounts(c0, c1, c2, n);
      }
    }
  }

  /** The registry a setup from the freshly constructed client leaves: one callback per created sensor. */
  predicate SetupShape(reg: Registry<Entity>, c0: int, c1: int, c2: int) {
    && reg.lcd == []
    && (forall c :: reg.named[Ordinal(c)] == [SpecialSensor(KeyName(c))])
    && (forall n :: 0 <= n < LampSlots ==>
         reg.lamps[n] == if Selected(n, c0, c1, c2) then [LampSensor(n)] else [])
  }

  /** Setting up from an empty registry yields the setup shape. */
  method SetupFromEmpty(c0: int, c1: int, c2: int) returns (added: seq<Entity>, reg: Registry<Entity>)
    ensures SetupShape(reg, c0, c1, c2)
    ensures added == [] <==> c0 <= 0 && c1 <= 0 && c2 <= 0
  {
    var empty := EmptyRegistry<Entity>();
    added, reg := SetupEntry(empty, c0, c1, c2);
  }

  // ---------------------------------------------------------------------------
  // Sensor values

  /** A sensor's `is_on`: unknown until its first callback. */
  datatype Sensor = Sensor(entity: Entity, isOn: Lookup)

  /** A sensor as constructed. */
  function NewSensor(e: Entity): (s: Sensor)
    ensures s.entity == e && s.isOn == NoValue
  {
    Sensor(e, NoValue)
  }

  /** `proccess_callback`: keeps the value it is called with. */
  function ProcessCallback(s: Sensor, value: Lookup): (r: Sensor)
    ensures r.entity == s.entity && r.isOn == value
  {
    s.(isOn := value)
  }

  /**
    The value a decoder's call hands to a binary sensor's callback: a lamp's bit
    or a condition's stored value. A binary sensor is never an LCD callback.
   */
  function ValueOf(e: Event): Option<Lookup> {
    match e
    case LampChanged(_, on) => Some(Flag(on))
    case ConditionChanged(_, v) => Some(LookupOf(v))
    case LcdChanged(_, _) => None
  }

  /** Whether some note of a trace calls the given sensor's callback. */
  predicate Targets(notes: seq<Note<Entity>>, e: Entity) {
    exists i :: 0 <= i < |notes| && notes[i].target == e
  }

  /** The sensor after running, in order, the calls of a trace that go to its callback. */
  function Deliver(s: Sensor, notes: seq<Note<Entity>>): (r: Sensor)
    ensures r.entity == s.entity
    decreases |notes|
  {
    if |notes| == 0 then s
    else
      var n := notes[0];
      var s' := if n.target == s.entity && ValueOf(n.event).Some? then ProcessCallback(s, ValueOf(n.event).value) else s;
      Deliver(s', notes[1..])
  }

  /**
    A sensor called only with one value ends with that value if it is called at
    all, and is unchanged if it is not.
   */
  lemma {:induction false} DeliverUniform(s: Sensor, notes: seq<Note<Entity>>, v: Lookup)
    requires CalledWith(notes, s.entity, v)
    ensures Targets(notes, s.entity) ==> Deliver(s, notes).isOn == v
    ensures !Targets(notes, s.entity) ==> Deliver(s, notes) == s
    decreases |notes|
  {
    if |notes| > 0 {
      var n := notes[0];
      var s' := if n.target == s.entity && ValueOf(n.event).Some? then ProcessCallback(s, ValueOf(n.event).value) else s;
      assert forall i :: 0 <= i < |notes[1..]| ==> notes[1..][i] == notes[i + 1];
      DeliverUniform(s', notes[1..], v);
      if n.target == s.entity {
        assert s'.isOn == v;
        assert Targets(notes, s.entity);
      } else {
        assert Targets(notes, s.entity) <==> Targets(notes[1..], s.entity) by {
          if Targets(notes, s.entity) {
            var i :| 0 <= i < |notes| && notes[i].target == s.entity;
            assert notes[1..][i - 1] == notes[i];
          }
        }
      }
    }
  }

  lemma {:induction false} SelectedIn<C>(notes: seq<Note<C>>, keep: Event -> bool, x: Note<C>)
    requires x in Select(notes, keep)
    ensures x in notes
    decreases |notes|
  {
    if |notes| > 0 {
      if x != notes[0] {
        SelectedIn(notes[1..], keep, x);
      }
    }
  }

  /**
    A lamp sensor for lamp 1..255, registered under its lamp and under no other,
    shows the lamp's decoded value after an LED-mimic frame.
   */
  lemma LampSensorTracksFrame(st: PanelState, reg: Registry<Entity>, pkt: seq<byte>, now: int, s: Sensor)
    requires IsLedFrame(pkt) && s.entity.LampSensor? && 1 <= s.entity.id < DecodedLamps
    requires forall k :: 0 <= k < LampSlots ==> (s.entity in reg.lamps[k] <==> k == s.entity.id)
    ensures var r := ProcessLedMimic(st, reg, pkt, now);
      Deliver(s, r.notes).isOn == LookupOf(GetLedState(r.state, s.entity.id))
  {
    var n := s.entity.id;
    var r := ProcessLedMimic(st, reg, pkt, now);
    var notes := LampNotes(reg, pkt, 0);
    var v := Flag(LampBit(pkt, n));
    assert r.notes == notes;
    DeliverUniform(s, notes, v);
    LampNotesPerLamp(reg, pkt, 0, n);
    var e := LampChanged(n, LampBit(pkt, n));
    var j :| 0 <= j < |reg.lamps[n]| && reg.lamps[n][j] == s.entity;
    assert Announce(reg.lamps[n], e)[j] == Note(s.entity, e);
    SelectedIn(notes, AboutLamp(n), Note(s.entity, e));
    var i :| 0 <= i < |notes| && notes[i] == Note(s.entity, e);
    assert Targets(notes, s.entity);
  }

  /**
    Lamp 256 is never written by the decoder, so its sensor, registered under
    lamp 256 only, is never called back by an LED-mimic frame and its stored
    value never changes.
   */
  lemma LastLampSensorNeverUpdated(st: PanelState, reg: Registry<Entity>, pkt: seq<byte>, now: int, s: Sensor)
    requires IsLedFrame(pkt) && s.entity == LampSensor(256)
    requires forall k :: 0 <= k < DecodedLamps ==> s.entity !in reg.lamps[k]
    ensures var r := ProcessLedMimic(st, reg, pkt, now);
      Deliver(s, r.notes) == s && GetLedState(r.state, 256) == GetLedState(st, 256)
  {
    var notes := LampNotes(reg, pkt, 0);
    DeliverUniform(s, notes, NoValue);
  }

  /** Every call a trace makes to the callback of `e` hands it `v`. */
  predicate CalledWith(notes: seq<Note<Entity>>, e: Entity, v: Lookup) {
    forall i :: 0 <= i < |notes| && notes[i].target == e ==> ValueOf(notes[i].event) == Some(v)
  }

  lemma CalledWithAppend(head: seq<Note<Entity>>, tail: seq<Note<Entity>>, e: Entity, v: Lookup)
    requires forall i :: 0 <= i < |head| ==> head[i].target != e
    requires CalledWith(tail, e, v)
    ensures CalledWith(head + tail, e, v)
  {
    var notes := head + tail;
    forall i | |head| <= i < |notes| ensures notes[i] == tail[i - |head|] {
    }
  }

  /** Registered under its condition only, a condition sensor is called only with that condition's value. */
  lemma ConditionNotesUniform(reg: Registry<Entity>, lcd: LcdConditions, shown: Event, c: Condition, s: Sensor)
    requires s.entity == SpecialSensor(KeyName(c))
    requires forall d :: (s.entity in reg.named[Ordinal(d)] <==> d == c)
    requires s.entity !in reg.lcd
    ensures CalledWith(Announce(reg.lcd, shown) + ConditionNotes(reg, lcd, 0), s.entity, LookupOf(ConditionValue(lcd, c)))
  {
    var head := Announce(reg.lcd, shown);
    var tail := ConditionNotes(reg, lcd, 0);
    var v := LookupOf(ConditionValue(lcd, c));
    assert forall i :: 0 <= i < |head| ==> head[i].target != s.entity by {
      assert forall i :: 0 <= i < |head| ==> head[i].target in reg.lcd;
    }
    assert CalledWith(tail, s.entity, v) by {
      forall i | 0 <= i < |tail| && tail[i].target == s.entity
        ensures ValueOf(tail[i].event) == Some(v)
      {
        var d := tail[i].event.condition;
        assert s.entity in reg.named[Ordinal(d)];
      }
    }
    CalledWithAppend(head, tail, s.entity, v);
  }

  /** An announcement reaches every callback of its list. */
  lemma AnnouncedIn<C>(cbs: seq<C>, e: Event, x: C)
    requires x in cbs
    ensures Note(x, e) in Announce(cbs, e)
  {
    var j :| 0 <= j < |cbs| && cbs[j] == x;
    assert Announce(cbs, e)[j] == Note(x, e);
  }

  lemma TargetsAfter(head: seq<Note<Entity>>, tail: seq<Note<Entity>>, n: Note<Entity>)
    requires n in tail
    ensures Targets(head + tail, n.target)
  {
    var k :| 0 <= k < |tail| && tail[k] == n;
    assert (head + tail)[|head| + k] == n;
  }

  /** Registered under its condition, a condition sensor is called at least once. */
  lemma ConditionNotesReach(reg: Registry<Entity>, lcd: LcdConditions, shown: Event, c: Condition, s: Sensor)
    requires s.entity in reg.named[Ordinal(c)]
    ensures Targets(Announce(reg.lcd, shown) + ConditionNotes(reg, lcd, 0), s.entity)
  {
    var tail := ConditionNotes(reg, lcd, 0);
    var e := ConditionChanged(c, ConditionValue(lcd, c));
    assert Note(s.entity, e) in tail by {
      ConditionNotesPerCondition(reg, lcd, 0, c);
      AnnouncedIn(reg.named[Ordinal(c)], e, s.entity);
      SelectedIn(tail, AboutCondition(c), Note(s.entity, e));
    }
    TargetsAfter(Announce(reg.lcd, shown), tail, Note(s.entity, e));
  }

  /**
    A condition sensor registered under its condition's key and nowhere else
    ends the two notification passes of an LCD line with its condition's value.
   */
  lemma ConditionSensorTracksNotes(reg: Registry<Entity>, lcd: LcdConditions, shown: Event, c: Condition, s: Sensor)
    requires s.entity == SpecialSensor(KeyName(c))
    requires forall d :: (s.entity in reg.named[Ordinal(d)] <==> d == c)
    requires s.entity !in reg.lcd
    ensures Deliver(s, Announce(reg.lcd, shown) + ConditionNotes(reg, lcd, 0)).isOn
      == LookupOf(ConditionValue(lcd, c))
  {
    var notes := Announce(reg.lcd, shown) + ConditionNotes(reg, lcd, 0);
    ConditionNotesUniform(reg, lcd, shown, c, s);
    ConditionNotesReach(reg, lcd, shown, c, s);
    DeliverUniform(s, notes, LookupOf(ConditionValue(lcd, c)));
  }

  /**
    A condition sensor registered under its condition's key and nowhere else
    shows the condition's stored value after an applied LCD-line frame.
   */
  lemma ConditionSensorTracksLine(st: PanelState, reg: Registry<Entity>, pkt: seq<byte>, now: int,
                                  c: Condition, s: Sensor)
    requires s.entity == SpecialSensor(KeyName(c))
    requires forall d :: (s.entity in reg.named[Ordinal(d)] <==> d == c)
    requires s.entity !in reg.lcd
    requires ProcessLcdLine(st, reg, pkt, now).Applied?
    ensures var r := ProcessLcdLine(st, reg, pkt, now);
      Deliver(s, r.notes).isOn == GetSpecialLedState(r.state, KeyName(c))
  {
    var r := ProcessLcdLine(st, reg, pkt, now);
    var shown := LcdChanged(r.state.line1.text, r.state.line2.text);
    assert r.notes == Announce(reg.lcd, shown) + ConditionNotes(reg, r.state.lcd, 0);
    ConditionSensorTracksNotes(reg, r.state.lcd, shown, c, s);
    SpecialStateByName(r.state, c);
  }

  /** `async_added_to_hass`: the sensor reads the client's current value for its key. */
  function AddedToHass(s: Sensor, st: PanelState): (r: Sensor)
    ensures r.entity == s.entity
    ensures s.entity.LampSensor? ==> r.isOn == LookupOf(GetLedState(st, s.entity.id))
    ensures s.entity.SpecialSensor? ==> r.isOn == GetSpecialLedState(st, s.entity.key)
  {
    match s.entity
    case LampSensor(id) => ProcessCallback(s, LookupOf(GetLedState(st, id)))
    case SpecialSensor(key) => ProcessCallback(s, GetSpecialLedState(st, key))
  }

  /**
    Every sensor a setup creates is registered under its own key only, so after
    any LED frame each lamp sensor below 256 shows its lamp, and after any
    applied LCD line each condition sensor shows its condition.
   */
  lemma SetupSensorsTrackFrames(reg: Registry<Entity>, c0: int, c1: int, c2: int,
                                st: PanelState, pkt: seq<byte>, now: int, s: Sensor)
    requires SetupShape(reg, c0, c1, c2)
    ensures s.entity.LampSensor? && Selected(s.entity.id, c0, c1, c2) && s.entity.id < DecodedLamps && IsLedFrame(pkt) ==>
      var r := ProcessLedMimic(st, reg, pkt, now);
      Deliver(s, r.notes).isOn == LookupOf(GetLedState(r.state, s.entity.id))
    ensures s.entity.SpecialSensor? && ConditionNamed(s.entity.key).Some? && ProcessLcdLine(st, reg, pkt, now).Applied? ==>
      var r := ProcessLcdLine(st, reg, pkt, now);
      Deliver(s, r.notes).isOn == GetSpecialLedState(r.state, s.entity.key)
  {
    if s.entity.LampSensor? && Selected(s.entity.id, c0, c1, c2) && s.entity.id < DecodedLamps && IsLedFrame(pkt) {
      LampSensorTracksFrame(st, reg, pkt, now, s);
    }
    if s.entity.SpecialSensor? && ConditionNamed(s.entity.key).Some? && ProcessLcdLine(st, reg, pkt, now).Applied? {
      var c := ConditionNamed(s.entity.key).value;
      forall d ensures s.entity in reg.named[Ordinal(d)] <==> d == c {
        ConditionNamesRoundTrip(d);
      }
      ConditionSensorTracksLine(st, reg, pkt, now, c, s);
    }
  }
}

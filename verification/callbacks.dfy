/**
  The client's subscription registry. `_led_callbacks` is one dictionary keyed
  by the integers 0..256 and by the eleven condition names; `_lcd_callbacks` is
  a plain list. Callbacks are values of the type parameter `C`: the model never
  runs them, it records which ones a decoder notifies.
 */
module Callbacks {
  import opened Panel

  type LampLists<C> = s: seq<seq<C>> | |s| == LampSlots witness seq(257, _ => [])

  type NamedLists<C> = s: seq<seq<C>> | |s| == |ConditionOrder| witness seq(11, _ => [])

  /** Callbacks in registration order: per lamp index, per condition (by `Ordinal`), and for the LCD lines. */
  datatype Registry<C> = Registry(lamps: LampLists<C>, named: NamedLists<C>, lcd: seq<C>)

  /** A key of `_led_callbacks`: an integer or a string. */
  datatype Key = Index(i: int) | Name(s: string)

  /** The registry as the constructor builds it: every key present, no callbacks. */
  function EmptyRegistry<C>(): (reg: Registry<C>)
    ensures forall i :: 0 <= i < LampSlots ==> reg.lamps[i] == []
    ensures forall c :: reg.named[Ordinal(c)] == []
    ensures reg.lcd == []
  {
    Registry(seq(LampSlots, _ => []), seq(|ConditionOrder|, _ => []), [])
  }

  /** `key in self._led_callbacks`. */
  predicate HasKey(key: Key) {
    match key
    case Index(i) => 0 <= i < LampSlots
    case Name(s) => ConditionNamed(s).Some?
  }

  /** The callbacks registered under a key. */
  function Listeners<C>(reg: Registry<C>, key: Key): seq<C>
    requires HasKey(key)
  {
    match key
    case Index(i) => reg.lamps[i]
    case Name(s) => reg.named[Ordinal(ConditionNamed(s).value)]
  }

  /** Whether a registration was accepted, and the registry after it. */
  datatype Registration<C> = Registration(accepted: bool, registry: Registry<C>)

  /** Two registries agree on every key except `key` and on the LCD list. */
  ghost predicate OthersUnchanged<C>(reg: Registry<C>, reg': Registry<C>, key: Key) {
    && reg'.lcd == reg.lcd
    && (forall i :: 0 <= i < LampSlots && Index(i) != key ==> reg'.lamps[i] == reg.lamps[i])
    && (forall c :: Name(KeyName(c)) != key ==> reg'.named[Ordinal(c)] == reg.named[Ordinal(c)])
  }

  /** `register_lcd_callback`: always accepted, appended to the LCD list. */
  function RegisterLcd<C>(reg: Registry<C>, f: C): (r: Registration<C>)
    ensures r.accepted
    ensures r.registry.lcd == reg.lcd + [f]
    ensures r.registry.lamps == reg.lamps && r.registry.named == reg.named
  {
    Registration(true, reg.(lcd := reg.lcd + [f]))
  }

  /**
    `register_special_led_callback`: accepted exactly for the keys the
    dictionary holds, which include the lamp indices 0..256 as well as the
    condition names; the callback goes to the end of that key's list.
   */
  function RegisterSpecial<C>(reg: Registry<C>, key: Key, f: C): (r: Registration<C>)
    ensures r.accepted <==> HasKey(key)
    ensures !r.accepted ==> r.registry == reg
    ensures r.accepted ==> Listeners(r.registry, key) == Listeners(reg, key) + [f]
    ensures r.accepted ==> OthersUnchanged(reg, r.registry, key)
  {
    match key
    case Index(i) =>
      if 0 <= i < LampSlots then
        Registration(true, reg.(lamps := reg.lamps[i := reg.lamps[i] + [f]]))
      else Registration(false, reg)
    case Name(s) =>
      match ConditionNamed(s)
      case None => Registration(false, reg)
      case Some(c) =>
        var o := Ordinal(c);
        assert forall d :: Name(KeyName(d)) != key ==> Ordinal(d) != o;
        Registration(true, reg.(named := reg.named[o := reg.named[o] + [f]]))
  }

  /**
    `register_led_callback`: refuses `led <= 0` and `led > 256` and stores
    nothing then; otherwise appends to that lamp's list.
   */
  function RegisterLed<C>(reg: Registry<C>, led: int, f: C): (r: Registration<C>)
    ensures r.accepted <==> 1 <= led <= 256
    ensures !r.accepted ==> r.registry == reg
    ensures r.accepted ==> r.registry.lamps[led] == reg.lamps[led] + [f]
    ensures r.accepted ==> OthersUnchanged(reg, r.registry, Index(led))
  {
    if led <= 0 || led > 256 then Registration(false, reg)
    else Registration(true, reg.(lamps := reg.lamps[led := reg.lamps[led] + [f]]))
  }

  /**
    The two lamp registrations agree on 1..256; only the named-key path
    accepts lamp index 0.
   */
  lemma RegisterLedVersusSpecial<C>(reg: Registry<C>, led: int, f: C)
    ensures 1 <= led <= 256 ==> RegisterLed(reg, led, f) == RegisterSpecial(reg, Index(led), f)
    ensures led == 0 ==> !RegisterLed(reg, led, f).accepted && RegisterSpecial(reg, Index(led), f).accepted
  {
  }
}

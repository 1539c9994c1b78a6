/**
  The configuration flow: the user form, the validation of its three lamp
  counts and of the connection, and the mapping of validation failures to the
  form's error key. The connection probe (`test_connection`, which opens and
  closes a TCP socket and returns false on any exception) is an input.
 */
module ConfigFlow {
  import opened Wrappers
  import opened Callbacks
  import opened BinarySensor

  /** The seven fields of the form. */
  datatype UserInput = UserInput(
    panelName: string,
    panelNameShort: string,
    ipAddr: string,
    port: int,
    led0: int,   // lamps 1..99
    led1: int,   // lamps 100..199
    led2: int)   // lamps 200..256

  /** The values `create_host_data_schema` suggests when called without arguments. */
  const DefaultInput := UserInput("Pertronic F100a", "F100A", "192.168.1.1", 20108, 99, 99, 56)

  /** The exceptions validation can end in; `Unexpected` is any other exception. */
  datatype FlowError = CannotConnect | InvalidAuth | InvalidLedLength | Unexpected

  /** The count limits: 0..99 for the first two groups, 0..56 for the third. */
  predicate CountsInRange(d: UserInput) {
    0 <= d.led0 <= 99 && 0 <= d.led1 <= 99 && 0 <= d.led2 <= 56
  }

  /**
    `validate_input_with_pertronic`: the three count checks in order, then the
    connection probe; the probe is not consulted when a count is out of range.
   */
  function ValidateWithPertronic(d: UserInput, connects: bool): (r: Result<bool, FlowError>)
    ensures r.Success? <==> CountsInRange(d) && connects
    ensures r.Success? ==> r.value
    ensures !CountsInRange(d) ==> r == Failure(InvalidLedLength)
    ensures CountsInRange(d) && !connects ==> r == Failure(CannotConnect)
  {
    if d.led0 < 0 || d.led0 > 99 then Failure(InvalidLedLength)
    else if d.led1 < 0 || d.led1 > 99 then Failure(InvalidLedLength)
    else if d.led2 < 0 || d.led2 > 56 then Failure(InvalidLedLength)
    else if !connects then Failure(CannotConnect)
    else Success(true)
  }

  /** Out-of-range counts are refused whatever the connection would do. */
  lemma RangeCheckedBeforeProbe(d: UserInput)
    requires !CountsInRange(d)
    ensures ValidateWithPertronic(d, true) == ValidateWithPertronic(d, false) == Failure(InvalidLedLength)
  {
  }

  /** `validate_input`: validates, then hands back the seven fields unchanged. */
  function ValidateInput(d: UserInput, connects: bool): (r: Result<UserInput, FlowError>)
    ensures r.Success? <==> ValidateWithPertronic(d, connects).Success?
    ensures r.Success? ==> r.value == d
    ensures r.Failure? ==> r.error == ValidateWithPertronic(d, connects).error
  {
    match ValidateWithPertronic(d, connects)
    case Success(_) => Success(UserInput(d.panelName, d.panelNameShort, d.ipAddr, d.port, d.led0, d.led1, d.led2))
    case Failure(e) => Failure(e)
  }

  /** The form's `errors["base"]` for each exception. */
  function ErrorKey(e: FlowError): string {
    match e
    case CannotConnect => "cannot_connect"
    case InvalidAuth => "invalid_auth"
    case InvalidLedLength => "invalid_led_length"
    case Unexpected => "unknown"
  }

  /** Distinct exceptions give distinct error keys. */
  lemma ErrorKeyInjective(a: FlowError, b: FlowError)
    ensures ErrorKey(a) == ErrorKey(b) ==> a == b
  {
  }

  /** What the user step returns: the form again (with its suggested values and error), or a new entry. */
  datatype StepResult =
    | ShowForm(suggested: UserInput, error: Option<string>)
    | CreateEntry(title: string, data: UserInput)

  /**
    `async_step_user`. With no input the form is shown with the default
    values. Otherwise the input is validated: on success an entry titled with
    the panel name is created holding the input; on failure the form is shown
    again, refilled with the input, with the failure's error key.
   */
  function StepUser(input: Option<UserInput>, connects: bool): (r: StepResult)
    ensures input.None? ==> r == ShowForm(DefaultInput, None)
    ensures r.CreateEntry? <==> input.Some? && CountsInRange(input.value) && connects
    ensures r.CreateEntry? ==> r.data == input.value && r.title == input.value.panelName
    ensures input.Some? && r.ShowForm? ==> r.suggested == input.value && r.error.Some?
    ensures input.Some? && !CountsInRange(input.value) ==> r.error == Some("invalid_led_length")
    ensures input.Some? && CountsInRange(input.value) && !connects ==> r.error == Some("cannot_connect")
  {
    match input
    case None => ShowForm(DefaultInput, None)
    case Some(d) =>
      match ValidateInput(d, connects)
      case Success(info) => CreateEntry(info.panelName, d)
      case Failure(e) => ShowForm(d, Some(ErrorKey(e)))
  }

  /** The flow only ever reports a bad count or a failed connection; the other two keys never appear. */
  lemma StepUserErrorKeys(input: Option<UserInput>, connects: bool)
    ensures var r := StepUser(input, connects);
      r.ShowForm? && r.error.Some? ==> r.error.value == "invalid_led_length" || r.error.value == "cannot_connect"
  {
  }

  /** Submitting the suggested defaults over a working connection creates the entry. */
  lemma DefaultsAccepted()
    ensures StepUser(Some(DefaultInput), true) == CreateEntry("Pertronic F100a", DefaultInput)
  {
  }

  /**
    For an entry the flow created, each lamp group selects exactly the interval
    its count names: lamps 1 to the first count, and for a positive second or
    third count lamps 100 (or 200) up to 100 (or 200) plus that count. Every
    lamp registration the binary-sensor setup then makes is accepted; that part
    holds for any counts, because a selected lamp always lies in 1..256.
   */
  lemma CreatedEntryLamps(input: Option<UserInput>, connects: bool, reg: Registry<Entity>, n: int)
    requires StepUser(input, connects).CreateEntry?
    ensures var d := StepUser(input, connects).data;
      Selected(n, d.led0, d.led1, d.led2) <==>
        || (1 <= n <= d.led0)
        || (1 <= d.led1 && 100 <= n <= 100 + d.led1)
        || (1 <= d.led2 && 200 <= n <= 200 + d.led2)
    ensures var d := StepUser(input, connects).data;
      Selected(n, d.led0, d.led1, d.led2) ==> RegisterLed(reg, n, LampSensor(n)).accepted
  {
    var d := StepUser(input, connects).data;
    SelectionIntervals(d.led0, d.led1, d.led2, n);
  }

  /** The default counts give every lamp from 1 to 256 a sensor. */
  lemma DefaultEntryCoversEveryLamp(n: int)
    ensures var d := StepUser(Some(DefaultInput), true).data;
      Selected(n, d.led0, d.led1, d.led2) <==> 1 <= n <= 256
  {
    DefaultsAccepted();
    DefaultsSelectEveryLamp(n);
  }
}

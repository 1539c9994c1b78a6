/**
  The decode half of `_io_loop` and `_get_io_bytes`: one read cycle takes the
  octets of a single `recv`, recognises a frame at the head of the buffer by
  its leading octets, and hands it to its decoder, while `_bytes_available`
  stays positive.

  As written, `_get_io_bytes` stores the rest of the buffer in `io_buffer`
  rather than `_io_buffer`, so the buffer never advances: the head frame is
  dispatched again and again until the byte count runs out. `AsWritten`
  models that; `Advancing` is the evidently intended behaviour.
 */
module Dispatch {
  import opened Bits
  import opened LcdText
  import opened Panel
  import opened Callbacks
  import opened Decoders

  /** The frame catalogue, in the order the loop tests it. */
  datatype FrameKind =
    | LedMimic | LcdLine1 | LcdLine2 | LcdPoll | PanelHeartbeat | Unknown1141
    | UnknownA088 | Lcd0Response | Unknown1C22 | Unknown473197 | Unknown833197

  /** The leading octets that identify a frame. */
  function Prefix(k: FrameKind): (p: seq<byte>)
    ensures 2 <= |p| <= 3
  {
    match k
    case LedMimic => [0x19, 0x24]
    case LcdLine1 => [0x20, 0x17]
    case LcdLine2 => [0x20, 0x18]
    case LcdPoll => [0x80, 0x90]
    case PanelHeartbeat => [0x80, 0x22]
    case Unknown1141 => [0x11, 0x41]
    case UnknownA088 => [0xA0, 0x88]
    case Lcd0Response => [0x40, 0x40]
    case Unknown1C22 => [0x1C, 0x22]
    case Unknown473197 => [0x47, 0x31, 0x97]
    case Unknown833197 => [0x83, 0x31, 0x97]
  }

  /** The number of octets a frame of this kind occupies. */
  function FrameLength(k: FrameKind): (n: nat)
    ensures n >= |Prefix(k)| >= 2
  {
    match k
    case LedMimic => LedFrameLength
    case LcdLine1 => LcdFrameLength
    case LcdLine2 => LcdFrameLength
    case LcdPoll => 10
    case PanelHeartbeat => 2
    case Unknown1141 => 6
    case UnknownA088 => 14
    case Lcd0Response => 10
    case Unknown1C22 => 36
    case Unknown473197 => 3
    case Unknown833197 => 3
  }

  /** Recognising the head of the buffer: a catalogued frame, nothing, or an index error. */
  datatype Match = Matched(kind: FrameKind) | NoMatch | IndexError

  /**
    The chain of tests in the loop body. The three-octet tests read `buf[2]`
    once the first two octets agree, which raises on a two-octet buffer. The
    test for 0x20 0x19 ends in `and False` and never matches, so it is absent.
   */
  function Classify(buf: seq<byte>): (m: Match)
    requires |buf| >= 2
    ensures m.Matched? ==> Prefix(m.kind) <= buf
    ensures m.IndexError? <==> |buf| == 2 && buf[1] == 0x31 && (buf[0] == 0x47 || buf[0] == 0x83)
  {
    var b0, b1 := buf[0], buf[1];
    if b0 == 0x19 && b1 == 0x24 then Matched(LedMimic)
    else if b0 == 0x20 && b1 == 0x17 then Matched(LcdLine1)
    else if b0 == 0x20 && b1 == 0x18 then Matched(LcdLine2)
    else if b0 == 0x80 && b1 == 0x90 then Matched(LcdPoll)
    else if b0 == 0x80 && b1 == 0x22 then Matched(PanelHeartbeat)
    else if b0 == 0x11 && b1 == 0x41 then Matched(Unknown1141)
    else if b0 == 0xA0 && b1 == 0x88 then Matched(UnknownA088)
    else if b0 == 0x40 && b1 == 0x40 then Matched(Lcd0Response)
    else if b0 == 0x1C && b1 == 0x22 then Matched(Unknown1C22)
    else if b0 == 0x47 && b1 == 0x31 then
      if |buf| < 3 then IndexError else if buf[2] == 0x97 then Matched(Unknown473197) else NoMatch
    else if b0 == 0x83 && b1 == 0x31 then
      if |buf| < 3 then IndexError else if buf[2] == 0x97 then Matched(Unknown833197) else NoMatch
    else NoMatch
  }

  /** A buffer that starts with a catalogued prefix is recognised as that frame: the catalogue is prefix-free. */
  lemma ClassifyPrefix(buf: seq<byte>, k: FrameKind)
    requires Prefix(k) <= buf
    ensures |buf| >= 2 && Classify(buf) == Matched(k)
  {
    var p := Prefix(k);
    assert buf[0] == p[0] && buf[1] == p[1];
    if |p| == 3 { assert buf[2] == p[2]; }
  }

  /** 0x20 0x19 is never recognised. */
  lemma Unknown2019NeverMatches(buf: seq<byte>)
    requires |buf| >= 2 && buf[0] == 0x20 && buf[1] == 0x19
    ensures Classify(buf) == NoMatch
  {
  }

  /** The decoder, or discard, a recognised frame is handed to. */
  function ApplyFrame<C>(k: FrameKind, pkt: seq<byte>, st: PanelState, reg: Registry<C>, now: int): (r: FrameResult<C>)
    ensures r.Raised? <==> Faults(k, pkt)
    ensures k == PanelHeartbeat ==> r == Applied(Beat(st, now), [])
    ensures !(k in {LedMimic, LcdLine1, LcdLine2, PanelHeartbeat}) ==> r == Applied(st, [])
  {
    match k
    case LedMimic => ProcessLedMimic(st, reg, pkt, now)
    case LcdLine1 => ProcessLcdLine(st, reg, pkt, now)
    case LcdLine2 => ProcessLcdLine(st, reg, pkt, now)
    case PanelHeartbeat => Applied(Beat(st, now), [])
    case _ => Applied(st, [])
  }

  /** The packets whose decoding raises, whatever the state: index errors and undecodable text. */
  predicate Faults(k: FrameKind, pkt: seq<byte>) {
    match k
    case LedMimic => |pkt| == 0 || (|pkt| == 1 && pkt[0] == 0x19)
    case LcdLine1 => LcdFaults(pkt)
    case LcdLine2 => LcdFaults(pkt)
    case _ => false
  }

  predicate LcdFaults(pkt: seq<byte>) {
    |pkt| == 0 || (|pkt| == 1 && pkt[0] == 0x20) || (IsLcdFrame(pkt) && !ValidUtf8(pkt[TextStart..TextEnd]))
  }

  /** Every decoder keeps the panel state consistent. */
  lemma ApplyKeepsConsistent<C>(k: FrameKind, pkt: seq<byte>, st: PanelState, reg: Registry<C>, now: int)
    ensures var r := ApplyFrame(k, pkt, st, reg, now); r.Applied? && Consistent(st) ==> Consistent(r.state)
  {
    var r := ApplyFrame(k, pkt, st, reg, now);
    if r.Applied? && Consistent(st) {
      if k == LedMimic {
        LedKeepsConsistent(st, pkt, now);
      } else if k == LcdLine1 || k == LcdLine2 {
        LcdKeepsConsistent(st, LineOf(pkt), pkt[TextStart..TextEnd], FlagsOf(pkt[44], pkt[45]), now);
      }
    }
  }

  /** Decoding the same packet again changes nothing more and notifies the same callbacks with the same values. */
  lemma ApplyIdempotent<C>(k: FrameKind, pkt: seq<byte>, st: PanelState, reg: Registry<C>, now: int)
    requires ApplyFrame(k, pkt, st, reg, now).Applied?
    ensures var r := ApplyFrame(k, pkt, st, reg, now); ApplyFrame(k, pkt, r.state, reg, now) == r
  {
    var r := ApplyFrame(k, pkt, st, reg, now);
    if k == LedMimic {
      var led := DecodeLed(st.led, pkt, now);
      var led2 := DecodeLed(led, pkt, now);
      assert led2.lamps == led.lamps;
    }
  }

  /**
    The dispatch table as a function: what decoding a recognised packet does to
    the state. The loop below is stated for any such function; `FrameDecoder`
    is the client's own.
   */
  type Decoder<C> = (FrameKind, seq<byte>, PanelState) -> FrameResult<C>

  /** The client's dispatch table, for a registry and the clock reading of the cycle. */
  function FrameDecoder<C>(reg: Registry<C>, now: int): Decoder<C> {
    (k: FrameKind, pkt: seq<byte>, st: PanelState) => ApplyFrame(k, pkt, st, reg, now)
  }

  /** The decoder keeps every consistent state consistent. */
  ghost predicate KeepsConsistent<C>(dec: Decoder<C>) {
    forall k, pkt, st :: Consistent(st) && dec(k, pkt, st).Applied? ==> Consistent(dec(k, pkt, st).state)
  }

  lemma FrameDecoderKeepsConsistent<C>(reg: Registry<C>, now: int)
    ensures KeepsConsistent(FrameDecoder(reg, now))
  {
    forall k, pkt, st | Consistent(st) && FrameDecoder(reg, now)(k, pkt, st).Applied?
      ensures Consistent(FrameDecoder(reg, now)(k, pkt, st).state)
    {
      ApplyKeepsConsistent(k, pkt, st, reg, now);
    }
  }

  /** How `_get_io_bytes` treats the buffer: as written, or advancing past the packet. */
  datatype BufferRule = AsWritten | Advancing

  /** The result of `_get_io_bytes`: the packet and the loop's updated counters and buffer. */
  datatype Take = Take(pkt: seq<byte>, buffer: seq<byte>, available: int, decodes: nat)

  /**
    `_get_io_bytes(length)`: charges `length` octets to `_bytes_available`,
    counts one decode and returns the first `length` octets (fewer if the
    buffer is shorter). As written the buffer is left as it was.
   */
  function GetIoBytes(rule: BufferRule, buffer: seq<byte>, available: int, decodes: nat, length: nat): (t: Take)
    ensures t.pkt == buffer[..Min(length, |buffer|)]
    ensures t.available == available - length && t.decodes == decodes + 1
    ensures rule == AsWritten ==> t.buffer == buffer
    ensures rule == Advancing ==> t.pkt + t.buffer == buffer
  {
    var cut := Min(length, |buffer|);
    Take(buffer[..cut], if rule == AsWritten then buffer else buffer[cut..], available - length, decodes + 1)
  }

  /** A dispatched packet. */
  datatype Frame = Frame(kind: FrameKind, bytes: seq<byte>)

  /** Octets charged to `_bytes_available` for a run of dispatches. */
  function Charged(frames: seq<Frame>): (n: nat)
    ensures n >= 2 * |frames|
  {
    if |frames| == 0 then 0 else FrameLength(frames[0].kind) + Charged(frames[1..])
  }

  /** Why the inner loop stopped. */
  datatype CycleEnd =
    | Exhausted   // `_bytes_available` reached zero or below
    | ShortBuffer // fewer than two octets in the buffer
    | NoDecoder   // no catalogue entry matched the head
    | Aborted     // an exception reached the cycle-wide handler

  /** The outcome of the inner loop of one read cycle. */
  datatype Cycle<C> = Cycle(
    state: PanelState,
    notes: seq<Note<C>>,
    dispatched: seq<Frame>,
    decodes: nat,
    available: int,
    end: CycleEnd)

  /**
    The inner loop, `while self._bytes_available > 0`. Each dispatch charges
    the frame's length (at least two) to the count, so the loop ends. Under the
    as-written rule every dispatched packet is a prefix of the buffer the cycle
    started with, and a cycle that stops for a short buffer or an unknown head
    has dispatched nothing.
   */
  function Drain<C>(rule: BufferRule, dec: Decoder<C>, buffer: seq<byte>, available: int, decodes: nat,
                    st: PanelState): (c: Cycle<C>)
    ensures c.decodes == decodes + |c.dispatched|
    ensures c.end == Exhausted ==> c.available <= 0
    ensures (c.end == ShortBuffer || c.end == NoDecoder) ==> c.available > 0
    ensures rule == AsWritten && (c.end == ShortBuffer || c.end == NoDecoder) ==> c.dispatched == [] && c.state == st
    decreases if available > 0 then available else 0
  {
    if available <= 0 then Cycle(st, [], [], decodes, available, Exhausted)
    else if |buffer| < 2 then Cycle(st, [], [], decodes, available, ShortBuffer)
    else match Classify(buffer)
      case IndexError => Cycle(st, [], [], decodes, available, Aborted)
      case NoMatch => Cycle(st, [], [], decodes, available, NoDecoder)
      case Matched(k) =>
        var t := GetIoBytes(rule, buffer, available, decodes, FrameLength(k));
        var frame := Frame(k, t.pkt);
        var r := dec(k, t.pkt, st);
        if r.Raised? then Cycle(st, [], [frame], t.decodes, t.available, Aborted)
        else
          var rest := Drain(rule, dec, t.buffer, t.available, t.decodes, Next(r, st));
          rest.(notes := Emitted(r) + rest.notes, dispatched := [frame] + rest.dispatched)
  }

  /** The state a decode leaves: the new state if it was applied, the old one if the packet was refused. */
  function Next<C>(r: FrameResult<C>, st: PanelState): PanelState {
    if r.Applied? then r.state else st
  }

  /** The notifications a decode made: none unless it was applied. */
  function Emitted<C>(r: FrameResult<C>): seq<Note<C>> {
    if r.Applied? then r.notes else []
  }

  /** A decoder that keeps the state consistent keeps it so through a whole cycle. */
  lemma {:induction false} DrainKeepsConsistent<C>(rule: BufferRule, dec: Decoder<C>, buffer: seq<byte>,
                                                   available: int, decodes: nat, st: PanelState)
    requires KeepsConsistent(dec)
    ensures Consistent(st) ==> Consistent(Drain(rule, dec, buffer, available, decodes, st).state)
    decreases if available > 0 then available else 0
  {
    if available > 0 && |buffer| >= 2 && Classify(buffer).Matched? {
      var k := Classify(buffer).kind;
      var t := GetIoBytes(rule, buffer, available, decodes, FrameLength(k));
      var r := dec(k, t.pkt, st);
      if r.Applied? {
        DrainKeepsConsistent(rule, dec, t.buffer, t.available, t.decodes, r.state);
      } else if r.Rejected? {
        DrainKeepsConsistent(rule, dec, t.buffer, t.available, t.decodes, st);
      }
    }
  }

  /** Every octet charged to `_bytes_available` belongs to a dispatched frame: each dispatch charges its frame's length. */
  lemma {:induction false} DrainCharges<C>(rule: BufferRule, dec: Decoder<C>, buffer: seq<byte>, available: int,
                                           decodes: nat, st: PanelState)
    ensures var c := Drain(rule, dec, buffer, available, decodes, st);
      c.available == available - Charged(c.dispatched)
    decreases if available > 0 then available else 0
  {
    if available > 0 && |buffer| >= 2 && Classify(buffer).Matched? {
      var k := Classify(buffer).kind;
      var t := GetIoBytes(rule, buffer, available, decodes, FrameLength(k));
      var frame := Frame(k, t.pkt);
      var r := dec(k, t.pkt, st);
      if r.Raised? {
        assert Charged([frame]) == FrameLength(k) + Charged([]) by {
          assert [frame][1..] == [];
        }
      } else {
        var rest := Drain(rule, dec, t.buffer, t.available, t.decodes, Next(r, st));
        DrainCharges(rule, dec, t.buffer, t.available, t.decodes, Next(r, st));
        assert ([frame] + rest.dispatched)[1..] == rest.dispatched;
      }
    }
  }

  /** Every frame has at least two octets. */
  predicate AtLeastTwo(frames: seq<Frame>) {
    forall i :: 0 <= i < |frames| ==> |frames[i].bytes| >= 2
  }

  /**
    The loop never hands a decoder fewer than two octets: it stops before a
    buffer shorter than that, and every catalogue length is at least two. So a
    decoder's `pkt[1]` never raises inside a read cycle.
   */
  lemma {:induction false} DispatchedAtLeastTwo<C>(rule: BufferRule, dec: Decoder<C>, buffer: seq<byte>,
                                                   available: int, decodes: nat, st: PanelState)
    ensures AtLeastTwo(Drain(rule, dec, buffer, available, decodes, st).dispatched)
    decreases if available > 0 then available else 0
  {
    if available > 0 && |buffer| >= 2 && Classify(buffer).Matched? {
      var k := Classify(buffer).kind;
      var t := GetIoBytes(rule, buffer, available, decodes, FrameLength(k));
      var r := dec(k, t.pkt, st);
      var frames := Drain(rule, dec, buffer, available, decodes, st).dispatched;
      if r.Raised? {
        assert frames == [Frame(k, t.pkt)];
      } else {
        var rest := Drain(rule, dec, t.buffer, t.available, t.decodes, Next(r, st)).dispatched;
        DispatchedAtLeastTwo(rule, dec, t.buffer, t.available, t.decodes, Next(r, st));
        assert frames == [Frame(k, t.pkt)] + rest;
        assert forall i :: 1 <= i < |frames| ==> frames[i] == rest[i - 1];
      }
    }
  }

  /** Octets `p` and the frame kind agree: the packet starts with the kind's leading octets. */
  predicate Headed(f: Frame) {
    Prefix(f.kind) <= f.bytes
  }

  /**
    As written, every packet a cycle dispatches starts with its kind's leading
    octets and is a prefix of the buffer the cycle started with.
   */
  lemma {:induction false} AsWrittenPacketsArePrefixes<C>(dec: Decoder<C>, buffer: seq<byte>, available: int,
                                                         decodes: nat, st: PanelState)
    ensures var c := Drain(AsWritten, dec, buffer, available, decodes, st);
      forall i :: 0 <= i < |c.dispatched| ==> Headed(c.dispatched[i]) && c.dispatched[i].bytes <= buffer
    decreases if available > 0 then available else 0
  {
    if available > 0 && |buffer| >= 2 && Classify(buffer).Matched? {
      var k := Classify(buffer).kind;
      var t := GetIoBytes(AsWritten, buffer, available, decodes, FrameLength(k));
      var frame := Frame(k, t.pkt);
      assert Headed(frame) && frame.bytes <= buffer;
      var r := dec(k, t.pkt, st);
      if !r.Raised? {
        var rest := Drain(AsWritten, dec, buffer, t.available, t.decodes, Next(r, st));
        DrainMatched(dec, buffer, available, decodes, st);
        AsWrittenPacketsArePrefixes(dec, buffer, t.available, t.decodes, Next(r, st));
        var all := [frame] + rest.dispatched;
        assert forall i :: 1 <= i < |all| ==> all[i] == rest.dispatched[i - 1];
      }
    }
  }

  /**
    With the buffer advancing, the packets a cycle dispatches, each starting
    with its kind's leading octets, lie back to back at the start of the buffer.
   */
  lemma {:induction false} AdvancingConsumesInOrder<C>(dec: Decoder<C>, buffer: seq<byte>, available: int,
                                                      decodes: nat, st: PanelState)
    ensures var c := Drain(Advancing, dec, buffer, available, decodes, st);
      && (forall i :: 0 <= i < |c.dispatched| ==> Headed(c.dispatched[i]))
      && Concat(c.dispatched) <= buffer
    decreases if available > 0 then available else 0
  {
    if available > 0 && |buffer| >= 2 && Classify(buffer).Matched? {
      var k := Classify(buffer).kind;
      var t := GetIoBytes(Advancing, buffer, available, decodes, FrameLength(k));
      var frame := Frame(k, t.pkt);
      assert Headed(frame);
      var r := dec(k, t.pkt, st);
      if r.Raised? {
        assert Concat([frame]) == t.pkt by {
          assert [frame][1..] == [];
        }
      } else {
        var rest := Drain(Advancing, dec, t.buffer, t.available, t.decodes, Next(r, st));
        AdvancingConsumesInOrder(dec, t.buffer, t.available, t.decodes, Next(r, st));
        var all := [frame] + rest.dispatched;
        assert all[1..] == rest.dispatched;
        assert Concat(all) == t.pkt + Concat(rest.dispatched);
        assert forall i :: 1 <= i < |all| ==> all[i] == rest.dispatched[i - 1];
      }
    }
  }

  // ---------------------------------------------------------------------------
  // The as-written loop re-dispatches the head frame

  /** How often the loop dispatches a `len`-octet frame when `n` octets are available. */
  function Dispatches(n: int, len: nat): nat
    requires len > 0
    decreases if n > 0 then n else 0
  {
    if n <= 0 then 0 else 1 + Dispatches(n - len, len)
  }

  /** What is left of `_bytes_available` once those dispatches have been charged. */
  function Leftover(n: int, len: nat): int
    requires len > 0
    decreases if n > 0 then n else 0
  {
    if n <= 0 then n else Leftover(n - len, len)
  }

  /**
    The dispatch count is the ceiling of n / len, and the count left over is
    what those dispatches did not use up: zero or less, by less than one frame.
   */
  lemma {:induction false} DispatchCount(n: int, len: nat)
    requires len > 0
    ensures var m := Dispatches(n, len);
      && (n <= 0 ==> m == 0 && Leftover(n, len) == n)
      && (n > 0 ==> len * (m - 1) < n <= len * m && Leftover(n, len) <= 0 < Leftover(n, len) + len)
      && Leftover(n, len) == n - len * m
    decreases if n > 0 then n else 0
  {
    if n > 0 {
      DispatchCount(n - len, len);
      MulSucc(len, Dispatches(n - len, len));
    }
  }

  lemma MulSucc(a: int, b: int)
    ensures a * (b + 1) == a * b + a
  {
  }

  /** `m` copies of `x`. */
  function Repeat<T>(x: T, m: nat): (r: seq<T>)
    ensures |r| == m
    ensures forall i :: 0 <= i < m ==> r[i] == x
  {
    if m == 0 then [] else [x] + Repeat(x, m - 1)
  }

  /** `m` copies of `xs`, one after another. */
  function RepeatAll<T>(xs: seq<T>, m: nat): seq<T> {
    if m == 0 then [] else xs + RepeatAll(xs, m - 1)
  }

  /**
    The cycle that repeats one packet: it is dispatched once and aborts the
    cycle if it raises, and otherwise ceil(available / length) times, each time
    with the same effect and the same notifications as the first.
   */
  function HeadOnly<C>(k: FrameKind, pkt: seq<byte>, available: int, decodes: nat,
                       dec: Decoder<C>, st: PanelState): Cycle<C>
    requires available > 0
  {
    var len := FrameLength(k);
    var m := Dispatches(available, len);
    var r := dec(k, pkt, st);
    if r.Raised? then Cycle(st, [], [Frame(k, pkt)], decodes + 1, available - len, Aborted)
    else Cycle(Next(r, st), RepeatAll(Emitted(r), m), Repeat(Frame(k, pkt), m), decodes + m, Leftover(available, len), Exhausted)
  }

  /** Decoding the packet again from the state it left changes nothing more. */
  ghost predicate Repeatable<C>(dec: Decoder<C>, k: FrameKind, pkt: seq<byte>, st: PanelState) {
    dec(k, pkt, st).Applied? ==> dec(k, pkt, dec(k, pkt, st).state) == dec(k, pkt, st)
  }

  /** The client's decoders can be repeated on any packet. */
  lemma FrameDecoderRepeatable<C>(reg: Registry<C>, now: int, k: FrameKind, pkt: seq<byte>, st: PanelState)
    ensures Repeatable(FrameDecoder(reg, now), k, pkt, st)
  {
    if ApplyFrame(k, pkt, st, reg, now).Applied? {
      ApplyIdempotent(k, pkt, st, reg, now);
    }
  }

  /** One more dispatch of a packet that does not raise, in terms of the repeated cycle it yields. */
  lemma RepeatStep<C>(d: Cycle<C>, rest: Cycle<C>, frame: Frame, st': PanelState, ns: seq<Note<C>>,
                      available: int, decodes: nat, len: nat)
    requires available > 0 && len > 0
    requires d == rest.(notes := ns + rest.notes, dispatched := [frame] + rest.dispatched)
    requires var m' := Dispatches(available - len, len);
      rest == Cycle(st', RepeatAll(ns, m'), Repeat(frame, m'), decodes + 1 + m', Leftover(available - len, len), Exhausted)
    ensures var m := Dispatches(available, len);
      d == Cycle(st', RepeatAll(ns, m), Repeat(frame, m), decodes + m, Leftover(available, len), Exhausted)
  {
    var m := Dispatches(available, len);
    assert Repeat(frame, m) == [frame] + Repeat(frame, m - 1);
  }

  /** One step of the as-written loop on a buffer whose head is a catalogued frame. */
  lemma DrainMatched<C>(dec: Decoder<C>, buffer: seq<byte>, available: int, decodes: nat, st: PanelState)
    requires |buffer| >= 2 && Classify(buffer).Matched? && available > 0
    ensures var k := Classify(buffer).kind;
      var len := FrameLength(k);
      var pkt := buffer[..Min(len, |buffer|)];
      var r := dec(k, pkt, st);
      var d := Drain(AsWritten, dec, buffer, available, decodes, st);
      var rest := Drain(AsWritten, dec, buffer, available - len, decodes + 1, Next(r, st));
      && (r.Raised? ==> d == Cycle(st, [], [Frame(k, pkt)], decodes + 1, available - len, Aborted))
      && (!r.Raised? ==> d == rest.(notes := Emitted(r) + rest.notes, dispatched := [Frame(k, pkt)] + rest.dispatched))
  {
    var k := Classify(buffer).kind;
    var t := GetIoBytes(AsWritten, buffer, available, decodes, FrameLength(k));
    assert t.buffer == buffer;
  }

  /** The loop ends at once when no octets are left to charge. */
  lemma DrainExhausted<C>(dec: Decoder<C>, buffer: seq<byte>, available: int, decodes: nat, st: PanelState)
    requires available <= 0
    ensures Drain(AsWritten, dec, buffer, available, decodes, st) == Cycle(st, [], [], decodes, available, Exhausted)
  {
  }

  /** A repeatable packet stays repeatable from the state its first decode left. */
  lemma RepeatableAgain<C>(dec: Decoder<C>, k: FrameKind, pkt: seq<byte>, st: PanelState)
    requires Repeatable(dec, k, pkt, st) && !dec(k, pkt, st).Raised?
    ensures dec(k, pkt, Next(dec(k, pkt, st), st)) == dec(k, pkt, st)
    ensures Repeatable(dec, k, pkt, Next(dec(k, pkt, st), st))
  {
  }

  /** Repeating a repeatable packet from the state its first decode left. */
  lemma HeadOnlyAgain<C>(dec: Decoder<C>, k: FrameKind, pkt: seq<byte>, available: int, decodes: nat, st: PanelState)
    requires available > 0 && Repeatable(dec, k, pkt, st) && !dec(k, pkt, st).Raised?
    ensures var r := dec(k, pkt, st);
      var m := Dispatches(available, FrameLength(k));
      HeadOnly(k, pkt, available, decodes, dec, Next(r, st))
        == Cycle(Next(r, st), RepeatAll(Emitted(r), m), Repeat(Frame(k, pkt), m), decodes + m,
                 Leftover(available, FrameLength(k)), Exhausted)
  {
  }

  /**
    As written, a buffer whose head is a catalogued frame of length L has that
    frame, and nothing after it, dispatched ceil(available / L) times.
   */
  lemma {:induction false} AsWrittenRepeatsHead<C>(dec: Decoder<C>, buffer: seq<byte>, available: int, decodes: nat,
                                                   st: PanelState)
    requires |buffer| >= 2 && Classify(buffer).Matched? && available > 0
    requires var k := Classify(buffer).kind; Repeatable(dec, k, buffer[..Min(FrameLength(k), |buffer|)], st)
    ensures var k := Classify(buffer).kind;
      Drain(AsWritten, dec, buffer, available, decodes, st)
        == HeadOnly(k, buffer[..Min(FrameLength(k), |buffer|)], available, decodes, dec, st)
    decreases available
  {
    var k := Classify(buffer).kind;
    var len := FrameLength(k);
    var pkt := buffer[..Min(len, |buffer|)];
    var frame := Frame(k, pkt);
    var d := Drain(AsWritten, dec, buffer, available, decodes, st);
    var r := dec(k, pkt, st);
    if r.Raised? {
      assert d == Cycle(st, [], [frame], decodes + 1, available - len, Aborted) by {
        DrainMatched(dec, buffer, available, decodes, st);
      }
    } else {
      var st' := Next(r, st);
      var rest := Drain(AsWritten, dec, buffer, available - len, decodes + 1, st');
      assert d == rest.(notes := Emitted(r) + rest.notes, dispatched := [frame] + rest.dispatched) by {
        DrainMatched(dec, buffer, available, decodes, st);
      }
      var m' := Dispatches(available - len, len);
      assert rest == Cycle(st', RepeatAll(Emitted(r), m'), Repeat(frame, m'), decodes + 1 + m',
                           Leftover(available - len, len), Exhausted) by {
        if available - len > 0 {
          RepeatableAgain(dec, k, pkt, st);
          AsWrittenRepeatsHead(dec, buffer, available - len, decodes + 1, st');
          HeadOnlyAgain(dec, k, pkt, available - len, decodes + 1, st);
        } else {
          DrainExhausted(dec, buffer, available - len, decodes + 1, st');
        }
      }
      RepeatStep(d, rest, frame, st', Emitted(r), available, decodes, len);
    }
  }

  /** What one `recv` produced: nothing (the read timed out), or up to 500 octets. */
  datatype Read = Timeout | Received(octets: Chunk)

  /** The `recv(500)` limit. */
  const RecvLimit := 500

  /** What one `recv(500)` can return. */
  type Chunk = s: seq<byte> | |s| <= RecvLimit

  /** The buffer a read leaves: empty after a timeout. */
  function Filled(read: Read): (buffer: Chunk)
    ensures read.Received? ==> buffer == read.octets
    ensures read.Timeout? ==> buffer == []
  {
    if read.Timeout? then [] else read.octets
  }

  /** Each dispatch charges at least two octets, so a cycle dispatches at most one frame per two octets, rounding up. */
  lemma {:induction false} DrainBound<C>(rule: BufferRule, dec: Decoder<C>, buffer: seq<byte>, available: int,
                                         decodes: nat, st: PanelState)
    ensures 2 * |Drain(rule, dec, buffer, available, decodes, st).dispatched| <= (if available > 0 then available + 1 else 0)
    decreases if available > 0 then available else 0
  {
    if available > 0 && |buffer| >= 2 && Classify(buffer).Matched? {
      var k := Classify(buffer).kind;
      var t := GetIoBytes(rule, buffer, available, decodes, FrameLength(k));
      var r := dec(k, t.pkt, st);
      if r.Applied? {
        DrainBound(rule, dec, t.buffer, t.available, t.decodes, r.state);
      } else if r.Rejected? {
        DrainBound(rule, dec, t.buffer, t.available, t.decodes, st);
      }
    }
  }

  /**
    One iteration of the outer loop: the buffer is emptied, filled by one read
    (left empty when the read times out) and drained with `_bytes_available`
    set to its length and `_decodes` to zero, under the given buffer rule.
    Nothing from an earlier cycle is looked at. A read of at most 500 octets
    dispatches at most 250 frames, the shortest being two octets.
   */
  function ReadCycle<C>(rule: BufferRule, read: Read, st: PanelState, reg: Registry<C>, now: int): (c: Cycle<C>)
    ensures read.Timeout? ==> c == Cycle(st, [], [], 0, 0, Exhausted)
    ensures |c.dispatched| <= RecvLimit / 2
    ensures c.decodes == |c.dispatched|
    ensures Consistent(st) ==> Consistent(c.state)
  {
    var buffer := Filled(read);
    var dec := FrameDecoder(reg, now);
    DrainBound(rule, dec, buffer, |buffer|, 0, st);
    FrameDecoderKeepsConsistent(reg, now);
    DrainKeepsConsistent(rule, dec, buffer, |buffer|, 0, st);
    Drain(rule, dec, buffer, |buffer|, 0, st)
  }

  /**
    Only the head frame of a read matters as written: two reads of the same
    length whose head frame is the same catalogued frame end their cycles
    identically, whatever the rest of their octets.
   */
  lemma TailNeverDispatched<C>(a: Chunk, b: Chunk, st: PanelState, reg: Registry<C>, now: int)
    requires |a| == |b| && |a| >= 2 && Classify(a).Matched?
    requires var n := Min(FrameLength(Classify(a).kind), |a|); a[..n] == b[..n]
    ensures ReadCycle(AsWritten, Received(a), st, reg, now) == ReadCycle(AsWritten, Received(b), st, reg, now)
  {
    var k := Classify(a).kind;
    var n := Min(FrameLength(k), |a|);
    var dec := FrameDecoder(reg, now);
    assert Prefix(k) <= a[..n];
    ClassifyPrefix(b, k);
    FrameDecoderRepeatable(reg, now, k, a[..n], st);
    AsWrittenRepeatsHead(dec, a, |a|, 0, st);
    AsWrittenRepeatsHead(dec, b, |b|, 0, st);
  }

  /** A stream of reads, each with the clock reading its decodes are stamped with. */
  datatype Reading = Reading(read: Read, now: int)

  /** The state and notifications after a stream of read cycles. */
  datatype Stream<C> = Stream(state: PanelState, notes: seq<Note<C>>)

  /** `_io_loop` while running: read cycles one after another, each from a fresh buffer. */
  function Run<C>(rule: BufferRule, inputs: seq<Reading>, st: PanelState, reg: Registry<C>): (r: Stream<C>)
    ensures Consistent(st) ==> Consistent(r.state)
    decreases |inputs|
  {
    if |inputs| == 0 then Stream(st, [])
    else
      var c := ReadCycle(rule, inputs[0].read, st, reg, inputs[0].now);
      var rest := Run(rule, inputs[1..], c.state, reg);
      Stream(rest.state, c.notes + rest.notes)
  }

  /** The client is consistent after any stream of reads. */
  lemma RunFromInitialConsistent<C>(rule: BufferRule, inputs: seq<Reading>, reg: Registry<C>)
    ensures Consistent(Run(rule, inputs, InitialState(), reg).state)
  {
    InitialConsistent();
  }

  /** A stream that starts with one read is that read's cycle followed by the rest. */
  lemma RunCons<C>(rule: BufferRule, inputs: seq<Reading>, st: PanelState, reg: Registry<C>)
    requires |inputs| > 0
    ensures var c := ReadCycle(rule, inputs[0].read, st, reg, inputs[0].now);
      var rest := Run(rule, inputs[1..], c.state, reg);
      Run(rule, inputs, st, reg).state == rest.state && Run(rule, inputs, st, reg).notes == c.notes + rest.notes
  {
  }

  /** Cycles compose: a stream is its first part followed by the rest, started from the state it left. */
  lemma {:induction false} RunAppend<C>(rule: BufferRule, xs: seq<Reading>, ys: seq<Reading>, st: PanelState, reg: Registry<C>)
    ensures var r1 := Run(rule, xs, st, reg); var r2 := Run(rule, ys, r1.state, reg);
      Run(rule, xs + ys, st, reg) == Stream(r2.state, r1.notes + r2.notes)
    decreases |xs|
  {
    if |xs| == 0 {
      assert xs + ys == ys;
    } else {
      var c := ReadCycle(rule, xs[0].read, st, reg, xs[0].now);
      assert (xs + ys)[0] == xs[0];
      assert (xs + ys)[1..] == xs[1..] + ys;
      RunAppend(rule, xs[1..], ys, c.state, reg);
      RunCons(rule, xs + ys, st, reg);
      var r1 := Run(rule, xs[1..], c.state, reg);
      var r2 := Run(rule, ys, r1.state, reg);
      assert c.notes + (r1.notes + r2.notes) == (c.notes + r1.notes) + r2.notes;
    }
  }

  // ---------------------------------------------------------------------------
  // The evidently intended loop

  /** A frame exactly as the catalogue describes it. */
  predicate WellFormed(f: Frame) {
    Prefix(f.kind) <= f.bytes && |f.bytes| == FrameLength(f.kind)
  }

  /** The octets of several frames back to back. */
  function Concat(frames: seq<Frame>): (r: seq<byte>)
    ensures (forall i :: 0 <= i < |frames| ==> WellFormed(frames[i])) ==> |r| == Charged(frames)
  {
    if |frames| == 0 then [] else frames[0].bytes + Concat(frames[1..])
  }

  /** The reference behaviour: each frame decoded once, in order, from the state the previous one left. */
  function ApplyAll<C>(dec: Decoder<C>, frames: seq<Frame>, st: PanelState): Stream<C> {
    if |frames| == 0 then Stream(st, [])
    else
      var r := dec(frames[0].kind, frames[0].bytes, st);
      var rest := ApplyAll(dec, frames[1..], Next(r, st));
      Stream(rest.state, Emitted(r) + rest.notes)
  }

  /** None of the frames raises when decoded, whatever the state. */
  ghost predicate NeverRaises<C>(dec: Decoder<C>, frames: seq<Frame>) {
    forall i, s :: 0 <= i < |frames| ==> !dec(frames[i].kind, frames[i].bytes, s).Raised?
  }

  lemma NeverRaisesTail<C>(dec: Decoder<C>, frames: seq<Frame>)
    requires |frames| > 0 && NeverRaises(dec, frames)
    ensures NeverRaises(dec, frames[1..])
  {
    forall i, s | 0 <= i < |frames[1..]|
      ensures !dec(frames[1..][i].kind, frames[1..][i].bytes, s).Raised?
    {
      assert frames[1..][i] == frames[i + 1];
    }
  }

  /**
    One step of the advancing loop over a well-formed frame followed by more
    octets, all of them counted: the frame is dispatched and the loop goes on
    with exactly the octets after it.
   */
  lemma AdvancingStep<C>(dec: Decoder<C>, f: Frame, more: seq<byte>, decodes: nat, st: PanelState)
    requires WellFormed(f) && !dec(f.kind, f.bytes, st).Raised?
    ensures var r := dec(f.kind, f.bytes, st);
      var rest := Drain(Advancing, dec, more, |more|, decodes + 1, Next(r, st));
      Drain(Advancing, dec, f.bytes + more, |f.bytes + more|, decodes, st)
        == rest.(notes := Emitted(r) + rest.notes, dispatched := [f] + rest.dispatched)
  {
    var buffer := f.bytes + more;
    assert Prefix(f.kind) <= buffer;
    ClassifyPrefix(buffer, f.kind);
    var t := GetIoBytes(Advancing, buffer, |buffer|, decodes, FrameLength(f.kind));
    assert t.pkt == f.bytes;
    assert t.buffer == more && t.available == |more|;
  }

  /**
    With the buffer advancing, a read holding whole catalogued frames back to
    back has every one of them dispatched once, in order, and ends with the
    state and notifications of decoding each once in turn, provided none of
    them raises.
   */
  lemma {:induction false} AdvancingDispatchesEveryFrame<C>(dec: Decoder<C>, frames: seq<Frame>, decodes: nat,
                                                           st: PanelState)
    requires forall i :: 0 <= i < |frames| ==> WellFormed(frames[i])
    requires NeverRaises(dec, frames)
    ensures var c := Drain(Advancing, dec, Concat(frames), |Concat(frames)|, decodes, st);
      && c.dispatched == frames && c.end == Exhausted && c.available == 0
      && c.state == ApplyAll(dec, frames, st).state && c.notes == ApplyAll(dec, frames, st).notes
    decreases |frames|
  {
    if |frames| > 0 {
      var f := frames[0];
      var r := dec(f.kind, f.bytes, st);
      var more := Concat(frames[1..]);
      var d := Drain(Advancing, dec, Concat(frames), |Concat(frames)|, decodes, st);
      var rest := Drain(Advancing, dec, more, |more|, decodes + 1, Next(r, st));
      var s, tail := ApplyAll(dec, frames, st), ApplyAll(dec, frames[1..], Next(r, st));
      assert d == rest.(notes := Emitted(r) + rest.notes, dispatched := [f] + rest.dispatched) by {
        assert Concat(frames) == f.bytes + more;
        assert WellFormed(f) && !r.Raised?;
        AdvancingStep(dec, f, more, decodes, st);
      }
      assert rest.dispatched == frames[1..] && rest.end == Exhausted && rest.available == 0
          && rest.state == tail.state && rest.notes == tail.notes by {
        NeverRaisesTail(dec, frames);
        assert forall i :: 0 <= i < |frames[1..]| ==> WellFormed(frames[1..][i]) by {
          forall i | 0 <= i < |frames[1..]| ensures WellFormed(frames[1..][i]) {
            assert frames[1..][i] == frames[i + 1];
          }
        }
        AdvancingDispatchesEveryFrame(dec, frames[1..], decodes + 1, Next(r, st));
      }
      assert s == Stream(tail.state, Emitted(r) + tail.notes);
      PrependFrame(d, rest, frames, Emitted(r), s, tail);
    }
  }

  /** The bookkeeping of one step of `AdvancingDispatchesEveryFrame`. */
  lemma PrependFrame<C>(d: Cycle<C>, rest: Cycle<C>, frames: seq<Frame>, ns: seq<Note<C>>, s: Stream<C>, more: Stream<C>)
    requires |frames| > 0
    requires d == rest.(notes := ns + rest.notes, dispatched := [frames[0]] + rest.dispatched)
    requires rest.dispatched == frames[1..] && rest.end == Exhausted && rest.available == 0
    requires rest.state == more.state && rest.notes == more.notes
    requires s == Stream(more.state, ns + more.notes)
    ensures d.dispatched == frames && d.end == Exhausted && d.available == 0
    ensures d.state == s.state && d.notes == s.notes
  {
    assert [frames[0]] + frames[1..] == frames;
  }

  /** The heartbeat frame. */
  const HeartbeatFrame: seq<byte> := [0x80, 0x22]

  /**
    A heartbeat followed by an LED-mimic frame: as written, the heartbeat is
    dispatched twenty times and the LED frame never, so no lamp is updated.
   */
  lemma AsWrittenSkipsSecondFrame<C>(led: seq<byte>, st: PanelState, reg: Registry<C>, now: int)
    requires IsLedFrame(led)
    ensures var c := ReadCycle(AsWritten, Received(HeartbeatFrame + led), st, reg, now);
      && |c.dispatched| == 20
      && (forall i :: 0 <= i < 20 ==> c.dispatched[i] == Frame(PanelHeartbeat, HeartbeatFrame))
      && c.state.led == st.led
  {
    var buffer: Chunk := HeartbeatFrame + led;
    var dec := FrameDecoder(reg, now);
    var c := ReadCycle(AsWritten, Received(buffer), st, reg, now);
    var m := Dispatches(|buffer|, 2);
    assert c.dispatched == Repeat(Frame(PanelHeartbeat, HeartbeatFrame), m) && c.state == Beat(st, now) by {
      FrameDecoderBeats(reg, now, st);
      FrameDecoderRepeatable(reg, now, PanelHeartbeat, HeartbeatFrame, st);
      HeartbeatRepeats(dec, led, st);
      ReadCycleDrains(AsWritten, Received(buffer), st, reg, now);
    }
    assert m == 20 by {
      DispatchCount(|buffer|, 2);
    }
  }

  /**
    As written, for any decoder that accepts the heartbeat repeatably, a
    heartbeat followed by an LED-mimic frame has the heartbeat dispatched once
    for every two octets of the buffer.
   */
  lemma HeartbeatRepeats<C>(dec: Decoder<C>, led: seq<byte>, st: PanelState)
    requires IsLedFrame(led)
    requires dec(PanelHeartbeat, HeartbeatFrame, st).Applied? && Repeatable(dec, PanelHeartbeat, HeartbeatFrame, st)
    ensures var r := dec(PanelHeartbeat, HeartbeatFrame, st);
      var buffer := HeartbeatFrame + led;
      var m := Dispatches(|buffer|, 2);
      Drain(AsWritten, dec, buffer, |buffer|, 0, st)
        == Cycle(r.state, RepeatAll(r.notes, m), Repeat(Frame(PanelHeartbeat, HeartbeatFrame), m), m,
                 Leftover(|buffer|, 2), Exhausted)
  {
    var buffer := HeartbeatFrame + led;
    assert Classify(buffer) == Matched(PanelHeartbeat) && buffer[..2] == HeartbeatFrame by {
      assert Prefix(PanelHeartbeat) <= buffer;
      ClassifyPrefix(buffer, PanelHeartbeat);
    }
    AsWrittenRepeatsHead(dec, buffer, |buffer|, 0, st);
  }

  /**
    With the buffer advancing, the same read has the heartbeat and then the LED
    frame dispatched once each, and the lamps are those of the LED frame.
   */
  lemma AdvancingDispatchesBoth<C>(led: seq<byte>, st: PanelState, reg: Registry<C>, now: int)
    requires IsLedFrame(led)
    ensures var c := ReadCycle(Advancing, Received(HeartbeatFrame + led), st, reg, now);
      && c.dispatched == [Frame(PanelHeartbeat, HeartbeatFrame), Frame(LedMimic, led)]
      && c.state.led == DecodeLed(st.led, led, now)
  {
    var dec := FrameDecoder(reg, now);
    var buffer: Chunk := HeartbeatFrame + led;
    var heart, lamps := Frame(PanelHeartbeat, HeartbeatFrame), Frame(LedMimic, led);
    var c := ReadCycle(Advancing, Received(buffer), st, reg, now);
    assert c == Drain(Advancing, dec, heart.bytes + lamps.bytes, |heart.bytes + lamps.bytes|, 0, st) by {
      ReadCycleDrains(Advancing, Received(buffer), st, reg, now);
    }
    assert WellFormed(heart) && WellFormed(lamps);
    FrameDecoderBeats(reg, now, st);
    FrameDecoderLamps(reg, now, led, Beat(st, now));
    TwoFramesAdvance(dec, heart, lamps, st);
  }

  /** A read cycle is the inner loop over the received octets, all of them counted, with the dispatch table. */
  lemma ReadCycleDrains<C>(rule: BufferRule, read: Read, st: PanelState, reg: Registry<C>, now: int)
    ensures ReadCycle(rule, read, st, reg, now)
      == Drain(rule, FrameDecoder(reg, now), Filled(read), |Filled(read)|, 0, st)
  {
  }

  /** The dispatch table decodes the heartbeat frame as a heartbeat. */
  lemma FrameDecoderBeats<C>(reg: Registry<C>, now: int, st: PanelState)
    ensures FrameDecoder(reg, now)(PanelHeartbeat, HeartbeatFrame, st) == Applied(Beat(st, now), [])
  {
  }

  /** The dispatch table applies a well-formed LED-mimic frame to the lamps. */
  lemma FrameDecoderLamps<C>(reg: Registry<C>, now: int, led: seq<byte>, st: PanelState)
    requires IsLedFrame(led)
    ensures var r := FrameDecoder(reg, now)(LedMimic, led, st);
      r.Applied? && r.state.led == DecodeLed(st.led, led, now)
  {
  }

  /** The advancing loop over two well-formed frames back to back, for any decoder that accepts both in turn. */
  lemma TwoFramesAdvance<C>(dec: Decoder<C>, f: Frame, g: Frame, st: PanelState)
    requires WellFormed(f) && WellFormed(g)
    requires dec(f.kind, f.bytes, st).Applied?
    requires dec(g.kind, g.bytes, dec(f.kind, f.bytes, st).state).Applied?
    ensures var c := Drain(Advancing, dec, f.bytes + g.bytes, |f.bytes + g.bytes|, 0, st);
      && c.dispatched == [f, g]
      && c.state == dec(g.kind, g.bytes, dec(f.kind, f.bytes, st).state).state
  {
    var r := dec(f.kind, f.bytes, st);
    var c := Drain(Advancing, dec, f.bytes + g.bytes, |f.bytes + g.bytes|, 0, st);
    var rest := Drain(Advancing, dec, g.bytes, |g.bytes|, 1, r.state);
    assert c == rest.(notes := r.notes + rest.notes, dispatched := [f] + rest.dispatched) by {
      AdvancingStep(dec, f, g.bytes, 0, st);
    }
    assert rest.dispatched == [g] && rest.state == dec(g.kind, g.bytes, r.state).state by {
      FrameAlone(dec, g, 1, r.state);
    }
    assert [f] + [g] == [f, g];
  }

  /** A well-formed frame alone in the advancing loop is dispatched once. */
  lemma FrameAlone<C>(dec: Decoder<C>, f: Frame, decodes: nat, st: PanelState)
    requires WellFormed(f) && dec(f.kind, f.bytes, st).Applied?
    ensures var c := Drain(Advancing, dec, f.bytes, |f.bytes|, decodes, st);
      c.dispatched == [f] && c.state == dec(f.kind, f.bytes, st).state
  {
    var r := dec(f.kind, f.bytes, st);
    var c := Drain(Advancing, dec, f.bytes, |f.bytes|, decodes, st);
    var rest := Drain(Advancing, dec, [], 0, decodes + 1, r.state);
    assert c == rest.(notes := r.notes + rest.notes, dispatched := [f] + rest.dispatched) by {
      assert f.bytes + [] == f.bytes;
      AdvancingStep(dec, f, [], decodes, st);
    }
    assert rest.dispatched == [] && rest.state == r.state;
  }
}

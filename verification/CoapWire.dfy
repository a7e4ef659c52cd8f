/** The CoAP message format of RFC 7252, section 3, as the serializer writes it and as the parser
    reads it. Both directions are functions; CoapMessage.dfy proves the loops against them. */
module CoapWire {
  import opened Machine
  import opened Bits

  const MAX_PDU := 1280
  const MAX_OPTIONS := 12
  const MAX_TOKEN := 8
  const PAYLOAD_MARKER: u8 := 0xFF

  /** One option: `num` is a delta before serialization and an absolute number after parsing. */
  datatype Opt = Opt(num: u16, val: Octets)

  datatype Frame = Frame(version: u2, kind: u2, code: u8, msgid: u16,
                         token: seq<u8>, options: seq<Opt>, payload: Octets)

  // ---------------------------------------------------------------- writing

  /** The four-bit field for a delta or a length. It is never 15, so no option starts with 0xFF. */
  function Nibble(n: u16): (k: u8)
    ensures k < 15
  {
    if 269 <= n then 14 else if 13 <= n then 13 else n
  }

  function Extension(n: u16): seq<u8> {
    if 269 <= n then [(n - 269) / 256, (n - 269) % 256] else if 13 <= n then [n - 13] else []
  }

  /** Everything of an option but its value. */
  function OptionPrefix(o: Opt): seq<u8> {
    [16 * Nibble(o.num) + Nibble(|o.val|)] + Extension(o.num) + Extension(|o.val|)
  }

  function EncodeOption(o: Opt): seq<u8> {
    OptionPrefix(o) + o.val
  }

  function EncodeOptions(os: seq<Opt>): seq<u8> {
    if os == [] then [] else EncodeOption(os[0]) + EncodeOptions(os[1..])
  }

  function HeaderBytes(f: Frame): (r: seq<u8>)
    requires |f.token| < 16
    ensures |r| == 4
  {
    [64 * f.version + 16 * f.kind + |f.token|, f.code, f.msgid / 256, f.msgid % 256]
  }

  function PayloadBytes(payload: Octets): seq<u8> {
    if payload == [] then [] else [PAYLOAD_MARKER] + payload
  }

  function Encode(f: Frame): seq<u8>
    requires |f.token| < 16
  {
    HeaderBytes(f) + f.token + EncodeOptions(f.options) + PayloadBytes(f.payload)
  }

  /** What the serializer puts into a buffer of `room` bytes: a header or token that does not fit
      is skipped, options are written without a check, a payload that does not fit is dropped. */
  function Written(f: Frame, room: nat): seq<u8>
    requires |f.token| < 16
  {
    var head := (if 4 > room then [] else HeaderBytes(f));
    var token := (if room - |head| < |f.token| then [] else f.token);
    var front := head + token + EncodeOptions(f.options);
    front + (if |f.payload| + 1 > room - |front| then [] else PayloadBytes(f.payload))
  }

  lemma {:induction false} EncodeOptionsAppend(a: seq<Opt>, b: seq<Opt>)
    ensures EncodeOptions(a + b) == EncodeOptions(a) + EncodeOptions(b)
  {
    if a == [] {
      assert a + b == b;
    } else {
      assert (a + b)[1..] == a[1..] + b;
      EncodeOptionsAppend(a[1..], b);
    }
  }

  lemma {:induction false} EncodeOptionsSnoc(os: seq<Opt>, i: nat)
    requires i < |os|
    ensures EncodeOptions(os[..i + 1]) == EncodeOptions(os[..i]) + EncodeOption(os[i])
    ensures |EncodeOptions(os[..i + 1])| <= |EncodeOptions(os)|
  {
    assert os[..i + 1] == os[..i] + [os[i]];
    EncodeOptionsAppend(os[..i], [os[i]]);
    assert EncodeOptions([os[i]]) == EncodeOption(os[i]);
    assert os == os[..i + 1] + os[i + 1..];
    EncodeOptionsAppend(os[..i + 1], os[i + 1..]);
  }

  /** Header and token, each of them only if it fits. */
  function FrontBytes(f: Frame, room: nat): seq<u8>
    requires |f.token| < 16
  {
    var head := if 4 > room then [] else HeaderBytes(f);
    head + (if room - |head| < |f.token| then [] else f.token)
  }

  lemma FrontParts(f: Frame, room: nat)
    requires |f.token| < 16
    ensures var head := if 4 > room then [] else HeaderBytes(f);
      |FrontBytes(f, room)| <= room
      && FrontBytes(f, room) == head + (if room - |head| < |f.token| then [] else f.token)
  {
    hide HeaderBytes;
  }

  function BackBytes(f: Frame, room: nat): seq<u8> {
    EncodeOptions(f.options)
    + (if |f.payload| + 1 > room - |EncodeOptions(f.options)| then [] else PayloadBytes(f.payload))
  }

  lemma {:induction false} WrittenParts(f: Frame, room: nat)
    requires |f.token| < 16
    ensures |FrontBytes(f, room)| <= room
    ensures |FrontBytes(f, room)| + |EncodeOptions(f.options)| <= room ==>
      && |BackBytes(f, room - |FrontBytes(f, room)|)| <= room - |FrontBytes(f, room)|
      && Written(f, room) == FrontBytes(f, room) + BackBytes(f, room - |FrontBytes(f, room)|)
  {
    hide EncodeOptions, HeaderBytes, PayloadBytes;
    var front := FrontBytes(f, room);
    assert Written(f, room) == front + EncodeOptions(f.options)
      + (if |f.payload| + 1 > room - |front + EncodeOptions(f.options)| then [] else PayloadBytes(f.payload));
    hide FrontBytes, Written;
    if |front| + |EncodeOptions(f.options)| <= room {
      BackParts(f, room - |front|);
    }
  }

  lemma {:induction false} BackParts(f: Frame, room: nat)
    requires |EncodeOptions(f.options)| <= room
    ensures |BackBytes(f, room)| <= room
    ensures BackBytes(f, room) == EncodeOptions(f.options)
      + (if |f.payload| + 1 > room - |EncodeOptions(f.options)| then [] else PayloadBytes(f.payload))
  {
    hide EncodeOptions;
  }

  /** The serializer stays in a buffer that has room for the options behind what it writes before them,
      and writes the whole message exactly when the whole message fits. */
  lemma {:induction false} WritesAllIffItFits(f: Frame, room: nat)
    requires |f.token| < 16 && |FrontBytes(f, room)| + |EncodeOptions(f.options)| <= room
    ensures Written(f, room) == Encode(f) <==> |Encode(f)| <= room
    ensures |Written(f, room)| <= room
    ensures 4 + |f.token| <= room ==> Written(f, room) <= Encode(f)
  {
    WrittenParts(f, room);
    var front := HeaderBytes(f) + f.token + EncodeOptions(f.options);
    assert Encode(f) == front + PayloadBytes(f.payload);
    hide EncodeOptions;
    if 4 + |f.token| <= room && |f.payload| + 1 > room - |front| {
      assert Written(f, room) == front + [] == front;
    }
  }

  /** A part that does not fit is skipped and the next one is written in its place: three bytes of room
      hold the token, without the header. */
  lemma {:induction false} TokenWithoutHeader(token: seq<u8>)
    requires 0 < |token| <= 3
    ensures var f := Frame(1, 0, 1, 0, token, [], []);
      Written(f, 3) == token && |FrontBytes(f, 3)| + |EncodeOptions(f.options)| <= 3 && Written(f, 3) != Encode(f)
  {
  }

  /** CoAPSerialize_OptionsLen: 16-bit sums, and zero as soon as one option's length wraps to zero. */
  function OptionsLength(os: seq<Opt>): u16 {
    if exists i :: 0 <= i < |os| && |EncodeOption(os[i])| == 0x1_0000
    then 0 else Low16(|EncodeOptions(os)|)
  }

  function MessageLength(f: Frame, payloadlen: u16): u16 {
    Low16(4 + |f.token| + OptionsLength(f.options) + (if 0 < payloadlen then payloadlen + 1 else 0))
  }

  lemma {:induction false} OptionIsPartOfOptions(os: seq<Opt>, i: nat)
    requires i < |os|
    ensures |EncodeOption(os[i])| <= |EncodeOptions(os)|
  {
    if i > 0 {
      OptionIsPartOfOptions(os[1..], i - 1);
    }
  }

  /** The length calculator is exact on precisely the messages a 16-bit length can describe. */
  lemma {:induction false} LengthIsExactIff(f: Frame)
    requires |f.token| < 16
    ensures MessageLength(f, |f.payload|) == |Encode(f)| <==> |Encode(f)| < 0x1_0000
  {
    if i :| 0 <= i < |f.options| && |EncodeOption(f.options[i])| == 0x1_0000 {
      OptionIsPartOfOptions(f.options, i);
    }
  }

  /** A message whose length the calculator gets wrong: the longest payload wraps it around to 4. */
  lemma {:induction false} LengthWraps(payload: Octets)
    requires |payload| == 0xFFFF
    ensures var f := Frame(1, 0, 1, 0, [], [], payload);
      MessageLength(f, |f.payload|) == 4 && |Encode(f)| == 0x1_0004
  {
  }

  /** Length agreement: when the true length fits, the serializer writes exactly as many bytes as
      the calculator promised, and they are the whole message. */
  lemma {:induction false} LengthAgreement(f: Frame, room: u16)
    requires |f.token| < 16 && |Encode(f)| <= room
    ensures Written(f, room) == Encode(f)
    ensures |Written(f, room)| == MessageLength(f, |f.payload|)
  {
    WritesAllIffItFits(f, room);
    LengthIsExactIff(f);
  }

  // ---------------------------------------------------------------- reading

  datatype Reading = Reading(value: u16, next: nat)
  datatype OptionRead = OptionRead(opt: Opt, next: nat)
  datatype OptionsRead = OptionsRead(opts: seq<Opt>, next: nat)

  /** A parse leaves the payload fields alone when there is no marker (`payload == None`). */
  datatype Parse =
    | Parsed(version: u2, kind: u2, code: u8, msgid: u16,
             token: seq<u8>, options: seq<Opt>, payload: Option<Octets>)
    | TooShort
    | OutOfBounds  // the C parser would leave the receive buffer, the token or the option array

  function ReadExtended(b: seq<u8>, nibble: u8, at: nat): (r: Option<Reading>)
    ensures r.Some? && at <= |b| ==> at <= r.value.next <= |b|
  {
    if nibble == 13 then
      if at < |b| then Some(Reading(Word(0, b[at]) + 13, at + 1)) else None
    else if nibble == 14 then
      if at + 1 < |b| then Some(Reading(Low16(269 + Word(b[at], b[at + 1])), at + 2)) else None
    else
      Some(Reading(nibble, at))
  }

  function ReadOption(b: seq<u8>, at: nat, pre: u16): (r: Option<OptionRead>)
    ensures r.Some? ==> at < r.value.next <= |b|
  {
    if at >= |b| then None else
    var delta := ReadExtended(b, b[at] / 16, at + 1);
    if delta == None then None else
    var len := ReadExtended(b, b[at] % 16, delta.value.next);
    if len == None || len.value.next + len.value.value > |b| then None else
    var start, end := len.value.next, len.value.next + len.value.value;
    Some(OptionRead(Opt(Low16(pre + delta.value.value), b[start..end]), end))
  }

  function ReadOptions(b: seq<u8>, at: nat, end: nat, pre: u16): (r: Option<OptionsRead>)
    requires end <= |b|
    decreases |b| - at
  {
    if at < end && b[at] != PAYLOAD_MARKER then
      var first := ReadOption(b, at, pre);
      if first == None then None else
      var rest := ReadOptions(b, first.value.next, end, first.value.opt.num);
      if rest == None then None else
      Some(OptionsRead([first.value.opt] + rest.value.opts, rest.value.next))
    else
      Some(OptionsRead([], at))
  }

  lemma ReadOptionsUnfold(b: seq<u8>, at: nat, end: nat, pre: u16)
    requires end <= |b| && ReadOptions(b, at, end, pre).Some?
    ensures at < end && b[at] != PAYLOAD_MARKER ==>
      var first := ReadOption(b, at, pre);
      && first.Some? && at < first.value.next <= |b|
      && var rest := ReadOptions(b, first.value.next, end, first.value.opt.num);
      rest.Some? && ReadOptions(b, at, end, pre).value
                 == OptionsRead([first.value.opt] + rest.value.opts, rest.value.next)
    ensures !(at < end && b[at] != PAYLOAD_MARKER) ==> ReadOptions(b, at, end, pre).value == OptionsRead([], at)
  {
  }

  datatype PayloadRead = Absent | Present(bytes: Octets) | Outside

  /** The marker test reads one byte even when the options end the datagram. */
  function ReadPayload(b: seq<u8>, at: nat, len: nat): PayloadRead
    requires len <= |b|
  {
    if at >= |b| then Outside
    else if b[at] != PAYLOAD_MARKER then Absent
    else if at >= len || len - at - 1 >= 0x1_0000 then Outside
    else Present(b[at + 1..len])
  }

  /** CoAPDeserialize_Message on the first `len` bytes of the receive buffer `b`. */
  function ParseMessage(b: seq<u8>, len: nat): Parse
    requires len <= |b|
  {
    if len < 4 then TooShort else
    var tokenlen := b[0] % 16;
    if tokenlen > MAX_TOKEN || 4 + tokenlen > |b| then OutOfBounds else
    var options := ReadOptions(b, 4 + tokenlen, len, 0);
    if options == None || |options.value.opts| > MAX_OPTIONS then OutOfBounds else
    var payload := ReadPayload(b, options.value.next, len);
    if payload.Outside? then OutOfBounds else
    Parsed(b[0] / 64, b[0] / 16 % 4, b[1], Word(b[2], b[3]), b[4..4 + tokenlen], options.value.opts,
           if payload.Present? then Some(payload.bytes) else None)
  }

  // ---------------------------------------------------------------- round trip

  /** Deltas turned back into absolute numbers, modulo 2^16, starting from `pre`. */
  function Accumulate(os: seq<Opt>, pre: u16): seq<Opt> {
    if os == [] then [] else
    var num := Low16(pre + os[0].num);
    [Opt(num, os[0].val)] + Accumulate(os[1..], num)
  }

  predicate At(b: seq<u8>, at: nat, part: seq<u8>) {
    at + |part| <= |b| && b[at..at + |part|] == part
  }

  lemma {:induction false} AtSplit(b: seq<u8>, at: nat, x: seq<u8>, y: seq<u8>)
    requires At(b, at, x + y)
    ensures At(b, at, x) && At(b, at + |x|, y)
  {
    assert b[at..at + |x|] == (x + y)[..|x|] == x;
    assert b[at + |x|..at + |x + y|] == (x + y)[|x|..] == y;
  }

  lemma {:induction false} ExtendedRoundTrip(b: seq<u8>, at: nat, n: u16)
    requires At(b, at, Extension(n))
    ensures ReadExtended(b, Nibble(n), at) == Some(Reading(n, at + |Extension(n)|))
  {
    if 13 <= n {
      assert b[at] == Extension(n)[0];
    }
    if 269 <= n {
      assert b[at + 1] == Extension(n)[1];
    }
  }

  lemma {:induction false} AtSplit4(b: seq<u8>, at: nat, w: seq<u8>, x: seq<u8>, y: seq<u8>, z: seq<u8>)
    requires At(b, at, w + x + y + z)
    ensures At(b, at, w) && At(b, at + |w|, x)
    ensures At(b, at + |w| + |x|, y) && At(b, at + |w| + |x| + |y|, z)
  {
    AtSplit(b, at, w + x + y, z);
    AtSplit(b, at, w + x, y);
    AtSplit(b, at, w, x);
  }

  lemma {:induction false} OptionRoundTrip(b: seq<u8>, at: nat, o: Opt, pre: u16)
    requires At(b, at, EncodeOption(o))
    ensures b[at] != PAYLOAD_MARKER
    ensures ReadOption(b, at, pre)
         == Some(OptionRead(Opt(Low16(pre + o.num), o.val), at + |EncodeOption(o)|))
  {
    hide Nibble, Extension, ReadExtended, Low16;
    var first := [16 * Nibble(o.num) + Nibble(|o.val|)];
    var delta, len := Extension(o.num), Extension(|o.val|);
    AtSplit4(b, at, first, delta, len, o.val);
    assert b[at] == b[at..at + 1][0] == first[0];
    ExtendedRoundTrip(b, at + 1, o.num);
    ExtendedRoundTrip(b, at + 1 + |delta|, |o.val|);
    SliceAt(b, at + 1 + |delta| + |len|, o.val);
  }

  lemma SliceAt(b: seq<u8>, at: nat, part: seq<u8>)
    requires At(b, at, part)
    ensures b[at..at + |part|] == part
  {
  }

  lemma ReadOptionsStep(b: seq<u8>, at: nat, end: nat, pre: u16, first: OptionRead, rest: OptionsRead)
    requires at < end <= |b| && b[at] != PAYLOAD_MARKER
    requires ReadOption(b, at, pre) == Some(first)
    requires ReadOptions(b, first.next, end, first.opt.num) == Some(rest)
    ensures ReadOptions(b, at, end, pre) == Some(OptionsRead([first.opt] + rest.opts, rest.next))
  {
  }

  lemma {:induction false} OptionsSplit(b: seq<u8>, at: nat, os: seq<Opt>)
    requires os != [] && At(b, at, EncodeOptions(os))
    ensures At(b, at, EncodeOption(os[0])) && At(b, at + |EncodeOption(os[0])|, EncodeOptions(os[1..]))
    ensures |EncodeOptions(os)| == |EncodeOption(os[0])| + |EncodeOptions(os[1..])|
  {
    AtSplit(b, at, EncodeOption(os[0]), EncodeOptions(os[1..]));
  }

  lemma {:induction false} OptionsRoundTrip(b: seq<u8>, at: nat, end: nat, os: seq<Opt>, pre: u16)
    requires At(b, at, EncodeOptions(os))
    requires at + |EncodeOptions(os)| <= end <= |b|
    requires at + |EncodeOptions(os)| < end ==> b[at + |EncodeOptions(os)|] == PAYLOAD_MARKER
    ensures ReadOptions(b, at, end, pre)
         == Some(OptionsRead(Accumulate(os, pre), at + |EncodeOptions(os)|))
    decreases |os|
  {
    hide ReadOption, EncodeOption;
    if os != [] {
      OptionsSplit(b, at, os);
      OptionRoundTrip(b, at, os[0], pre);
      var num, next := Low16(pre + os[0].num), at + |EncodeOption(os[0])|;
      OptionsRoundTrip(b, next, end, os[1..], num);
      ReadOptionsStep(b, at, end, pre, OptionRead(Opt(num, os[0].val), next),
                      OptionsRead(Accumulate(os[1..], num), next + |EncodeOptions(os[1..])|));
    }
  }

  /** A datagram as the network layer delivers it: at the start of a zero-filled receive buffer. */
  function Received(datagram: seq<u8>): seq<u8>
    requires |datagram| <= 1280
  {
    datagram + seq(MAX_PDU - |datagram|, _ => 0)
  }

  lemma {:induction false} EncodedParts(f: Frame, b: seq<u8>)
    requires |f.token| <= MAX_TOKEN && Encode(f) <= b
    ensures b[0] / 64 == f.version && b[0] / 16 % 4 == f.kind && b[0] % 16 == |f.token|
    ensures b[1] == f.code && Word(b[2], b[3]) == f.msgid
    ensures At(b, 4, f.token) && At(b, 4 + |f.token|, EncodeOptions(f.options))
    ensures At(b, 4 + |f.token| + |EncodeOptions(f.options)|, PayloadBytes(f.payload))
    ensures |Encode(f)| == 4 + |f.token| + |EncodeOptions(f.options)| + |PayloadBytes(f.payload)|
  {
    hide EncodeOptions, PayloadBytes;
    var head := HeaderBytes(f);
    assert At(b, 0, Encode(f));
    AtSplit4(b, 0, head, f.token, EncodeOptions(f.options), PayloadBytes(f.payload));
    HeaderByteSplits(f.version, f.kind, |f.token|);
    assert b[0] == b[0..4][0] && b[1] == b[0..4][1] && b[2] == b[0..4][2] && b[3] == b[0..4][3];
  }

  lemma HeaderByteSplits(version: u2, kind: u2, tokenlen: u8)
    requires tokenlen < 16
    ensures var h := 64 * version + 16 * kind + tokenlen;
      h / 64 == version && h / 16 % 4 == kind && h % 16 == tokenlen
  {
  }

  lemma {:induction false} PayloadRoundTrip(b: seq<u8>, at: nat, payload: Octets)
    requires At(b, at, PayloadBytes(payload))
    requires payload == [] ==> at < |b| && b[at] == 0
    ensures ReadPayload(b, at, at + |PayloadBytes(payload)|)
         == if payload == [] then Absent else Present(payload)
    ensures payload != [] ==> b[at] == PAYLOAD_MARKER
  {
    if payload != [] {
      var end := at + 1 + |payload|;
      assert b[at] == b[at..end][0];
      assert b[at + 1..end] == b[at..end][1..];
    }
  }

  lemma {:induction false} ParseParts(b: seq<u8>, len: nat, tokenlen: nat, options: OptionsRead,
                                      payload: Option<Octets>)
    requires 4 <= len <= |b| && b[0] % 16 == tokenlen <= MAX_TOKEN && 4 + tokenlen <= |b|
    requires ReadOptions(b, 4 + tokenlen, len, 0) == Some(options) && |options.opts| <= MAX_OPTIONS
    requires ReadPayload(b, options.next, len) == if payload == None then Absent else Present(payload.value)
    ensures ParseMessage(b, len)
         == Parsed(b[0] / 64, b[0] / 16 % 4, b[1], Word(b[2], b[3]), b[4..4 + tokenlen], options.opts, payload)
  {
    hide ReadOptions, ReadPayload, Word;
  }

  lemma PayloadSize(payload: Octets)
    ensures |PayloadBytes(payload)| == if payload == [] then 0 else 1 + |payload|
  {
  }

  lemma {:induction false} ParseFromParts(f: Frame, b: seq<u8>, at: nat, len: nat)
    requires |f.token| <= MAX_TOKEN && |f.options| <= MAX_OPTIONS
    requires at == 4 + |f.token| + |EncodeOptions(f.options)|
    requires len == at + |PayloadBytes(f.payload)| <= |b|
    requires b[0] / 64 == f.version && b[0] / 16 % 4 == f.kind && b[0] % 16 == |f.token|
    requires b[1] == f.code && Word(b[2], b[3]) == f.msgid
    requires At(b, 4, f.token) && At(b, 4 + |f.token|, EncodeOptions(f.options))
    requires At(b, at, PayloadBytes(f.payload))
    requires f.payload == [] ==> len < |b| && b[len] == 0
    ensures ParseMessage(b, len)
         == Parsed(f.version, f.kind, f.code, f.msgid, f.token, Accumulate(f.options, 0),
                   if f.payload == [] then None else Some(f.payload))
  {
    hide EncodeOptions, ReadOptions, ReadPayload, ParseMessage, Accumulate, At, PayloadBytes, Word;
    PayloadSize(f.payload);
    PayloadRoundTrip(b, at, f.payload);
    OptionsRoundTrip(b, 4 + |f.token|, len, f.options, 0);
    AccumulateKeepsCount(f.options, 0);
    SliceAt(b, 4, f.token);
    ParseParts(b, len, |f.token|, OptionsRead(Accumulate(f.options, 0), at),
               if f.payload == [] then None else Some(f.payload));
  }

  /** Parsing undoes serializing, up to the accumulation of option deltas. A message without a
      payload must leave one byte of the buffer free: the payload test looks at the byte after it. */
  lemma {:induction false} FrameRoundTrip(f: Frame)
    requires |f.token| <= 8 && |f.options| <= 12
    requires |Encode(f)| <= 1280 && (f.payload == [] ==> |Encode(f)| < 1280)
    ensures ParseMessage(Received(Encode(f)), |Encode(f)|)
         == Parsed(f.version, f.kind, f.code, f.msgid, f.token, Accumulate(f.options, 0),
                   if f.payload == [] then None else Some(f.payload))
  {
    var b := Received(Encode(f));
    EncodedParts(f, b);
    hide Encode, EncodeOptions, ParseMessage, Accumulate, At, Word;
    ParseFromParts(f, b, 4 + |f.token| + |EncodeOptions(f.options)|, |Encode(f)|);
  }

  lemma {:induction false} AccumulateKeepsCount(os: seq<Opt>, pre: u16)
    ensures |Accumulate(os, pre)| == |os|
    ensures forall i :: 0 <= i < |os| ==> Accumulate(os, pre)[i].val == os[i].val
  {
    if os != [] {
      AccumulateKeepsCount(os[1..], Low16(pre + os[0].num));
    }
  }

  // ---------------------------------------------------------------- the option builder

  /** One call of CoAPStrOption_add or CoAPUintOption_add. */
  datatype Add = Add(num: u16, val: Octets)

  /** The options those calls leave in the message, given the 8-bit running number. */
  function Build(adds: seq<Add>, running: u8): seq<Opt> {
    if adds == [] then [] else
    [Opt(Low16(adds[0].num - running), adds[0].val)] + Build(adds[1..], Low8(adds[0].num))
  }

  function Running(adds: seq<Add>, running: u8): u8 {
    if adds == [] then running else Low8(adds[|adds| - 1].num)
  }

  lemma {:induction false} BuildSnoc(adds: seq<Add>, running: u8, a: Add)
    ensures Build(adds + [a], running)
         == Build(adds, running) + [Opt(Low16(a.num - Running(adds, running)), a.val)]
    ensures |Build(adds, running)| == |adds|
  {
    if adds == [] {
      assert adds + [a] == [a];
    } else {
      assert (adds + [a])[1..] == adds[1..] + [a];
      BuildSnoc(adds[1..], Low8(adds[0].num), a);
    }
  }

  /** What the 8-bit running number has lost by these adds, in units of 256. */
  function Lost(adds: seq<Add>): nat {
    if adds == [] then 0 else adds[0].num / 256 + Lost(adds[1..])
  }

  /** A number that comes out `drift` units of 256 too high. */
  function Shifted(n: u16, drift: nat): u16 { Low16(n + 256 * Low8(drift)) }

  /** The number under which option `i` is received. */
  function ReceivedNumber(adds: seq<Add>, i: nat): u16
    requires i < |adds|
  {
    Shifted(adds[i].num, Lost(adds[..i]))
  }

  /** The number and value of every option come back as they were added. */
  predicate Recovered(opts: seq<Opt>, adds: seq<Add>) {
    |opts| == |adds| && forall i :: 0 <= i < |adds| ==> opts[i] == Opt(adds[i].num, adds[i].val)
  }

  predicate AllButLastFitOneByte(adds: seq<Add>) {
    forall i :: 0 <= i < |adds| - 1 ==> adds[i].num < 256
  }

  /** One delta more: the sum is as far off as before, and the low byte of the number is off by what the
      running number has lost in addition. */
  lemma {:induction false} DriftStep(n: u16, running: u8, drift: nat)
    ensures Low16(Shifted(running, drift) + Low16(n - running)) == Shifted(n, drift)
    ensures Shifted(n, drift) == Shifted(Low8(n), drift + n / 256)
  {
    DriftSum(n, running, Low8(drift));
    DriftCarry(n, Low8(drift));
    Low8Sum(drift, n / 256);
    hide Low8, Low16;
  }

  lemma {:induction false} DriftSum(n: u16, running: u8, drift: u8)
    ensures Low16(Low16(running + 256 * drift) + Low16(n - running)) == Low16(n + 256 * drift)
  {
    hide Low16;
    var was: int, delta: int := running + 256 * drift, n - running;
    Low16Sum(was, Low16(delta));
    Low16Sum(delta, was);
  }

  lemma {:induction false} DriftCarry(n: u16, drift: u8)
    ensures Low16(n + 256 * drift) == Low16(Low8(n) + 256 * Low8(drift + n / 256))
  {
    var sum := n + 256 * drift;
    var q, r := n / 256, n % 256;
    assert Low8(drift + q) == if drift + q < 256 then drift + q else drift + q - 256;
    assert sum == r + 256 * (drift + q);
  }

  lemma Low8Sum(a: int, b: int)
    ensures Low8(Low8(a) + b) == Low8(a + b)
  {
  }

  lemma {:induction false} BuildCount(adds: seq<Add>, running: u8, pre: u16)
    ensures |Build(adds, running)| == |adds| == |Accumulate(Build(adds, running), pre)|
    decreases |adds|
  {
    if adds != [] {
      BuildCount(adds[1..], Low8(adds[0].num), 0);
      AccumulateKeepsCount(Build(adds, running), pre);
    }
  }

  lemma LostNone(adds: seq<Add>)
    ensures Lost(adds[..0]) == 0
  {
  }

  lemma {:induction false} LostCons(adds: seq<Add>, i: nat)
    requires 0 < i <= |adds|
    ensures Lost(adds[..i]) == adds[0].num / 256 + Lost(adds[1..][..i - 1])
  {
    assert adds[..i][1..] == adds[1..][..i - 1];
  }

  /** The parser's 16-bit sums over the builder's deltas, when `drift` has been lost before. */
  lemma {:induction false} AccumulateBuildAt(adds: seq<Add>, running: u8, pre: u16, drift: nat, i: nat)
    requires pre == Shifted(running, drift) && i < |adds|
    ensures |Accumulate(Build(adds, running), pre)| == |adds|
    ensures Accumulate(Build(adds, running), pre)[i] == Opt(Shifted(adds[i].num, drift + Lost(adds[..i])), adds[i].val)
    decreases |adds|
  {
    hide Low8, Low16, Shifted, Accumulate, Build, Lost;
    var n, rest := adds[0].num, adds[1..];
    var num := Shifted(n, drift);
    DriftStep(n, running, drift);
    BuildCount(adds, running, pre);
    BuildAccumulateStep(adds, running, pre, num);
    if i > 0 {
      AccumulateBuildAt(rest, Low8(n), num, drift + n / 256, i - 1);
      LostCons(adds, i);
      SameAfterHead(Opt(num, adds[0].val), Accumulate(Build(rest, Low8(n)), num), i);
    } else {
      LostNone(adds);
    }
  }

  lemma SameAfterHead(head: Opt, tail: seq<Opt>, i: nat)
    requires 0 < i <= |tail|
    ensures ([head] + tail)[i] == tail[i - 1]
  {
  }

  lemma {:induction false} BuildAccumulateStep(adds: seq<Add>, running: u8, pre: u16, num: u16)
    requires adds != [] && num == Low16(pre + Low16(adds[0].num - running))
    ensures Accumulate(Build(adds, running), pre)
         == [Opt(num, adds[0].val)] + Accumulate(Build(adds[1..], Low8(adds[0].num)), num)
  {
    var rest := Build(adds[1..], Low8(adds[0].num));
    var built := Build(adds, running);
    assert built[1..] == rest;
    assert built[0] == Opt(Low16(adds[0].num - running), adds[0].val);
  }

  predicate Values(opts: seq<Opt>, adds: seq<Add>) {
    |opts| == |adds| && forall i :: 0 <= i < |adds| ==> opts[i].val == adds[i].val
  }

  lemma {:induction false} DriftShows(n: u16, lost: nat)
    ensures Shifted(n, lost) == n <==> lost % 256 == 0
  {
    var d, sum := Low8(lost), n + 256 * Low8(lost);
    assert Low16(sum) == if sum < 0x1_0000 then sum else sum - 0x1_0000;
  }

  /** Option by option: a number survives if and only if what the adds before it have lost vanishes in
      a 16-bit sum. */
  lemma {:induction false} NumberSurvivesIff(adds: seq<Add>, i: nat)
    requires i < |adds|
    ensures ReceivedNumber(adds, i) == adds[i].num <==> Lost(adds[..i]) % 256 == 0
  {
    DriftShows(adds[i].num, Lost(adds[..i]));
  }

  lemma {:induction false} LostSnoc(adds: seq<Add>, a: Add)
    ensures Lost(adds + [a]) == Lost(adds) + a.num / 256
  {
    if adds == [] {
      assert [] + [a] == [a] && [a][1..] == [];
    } else {
      assert (adds + [a])[1..] == adds[1..] + [a];
      LostSnoc(adds[1..], a);
    }
  }

  /** Every number survives if and only if all but the last fit into the running number. */
  lemma {:induction false} AllSurviveIff(adds: seq<Add>)
    ensures (forall i :: 0 <= i < |adds| ==> ReceivedNumber(adds, i) == adds[i].num) <==> AllButLastFitOneByte(adds)
  {
    hide ReceivedNumber, Lost;
    if AllButLastFitOneByte(adds) {
      forall i | 0 <= i < |adds| ensures ReceivedNumber(adds, i) == adds[i].num {
        NothingLost(adds, i);
        NumberSurvivesIff(adds, i);
      }
    } else {
      var i :| 0 <= i < |adds| - 1 && adds[i].num >= 256;
      LargeNumberShows(adds, i);
    }
  }

  lemma {:induction false} LargeNumberShows(adds: seq<Add>, i: nat)
    requires i < |adds| - 1 && adds[i].num >= 256
    ensures ReceivedNumber(adds, i) != adds[i].num || ReceivedNumber(adds, i + 1) != adds[i + 1].num
  {
    hide ReceivedNumber, Lost;
    NumberSurvivesIff(adds, i);
    NumberSurvivesIff(adds, i + 1);
    assert adds[..i + 1] == adds[..i] + [adds[i]];
    LostSnoc(adds[..i], adds[i]);
    assert 0 < adds[i].num / 256 < 256;
  }

  lemma {:induction false} NothingLost(adds: seq<Add>, i: nat)
    requires i < |adds| && AllButLastFitOneByte(adds)
    ensures Lost(adds[..i]) == 0
  {
    if i == 0 {
      assert adds[..0] == [];
    } else {
      NothingLost(adds, i - 1);
      LostSnoc(adds[..i - 1], adds[i - 1]);
      assert adds[..i] == adds[..i - 1] + [adds[i - 1]];
    }
  }

  lemma NoShift()
    ensures Shifted(0, 0) == 0
  {
  }

  lemma {:induction false} ReceivedOption(adds: seq<Add>, i: nat)
    requires i < |adds|
    ensures |Accumulate(Build(adds, 0), 0)| == |adds|
    ensures Accumulate(Build(adds, 0), 0)[i] == Opt(ReceivedNumber(adds, i), adds[i].val)
  {
    hide Shifted, Accumulate, Build, Lost;
    NoShift();
    AccumulateBuildAt(adds, 0, 0, 0, i);
  }

  /** What the receiver makes of the options that these adds build. */
  lemma {:induction false} AccumulateBuild(adds: seq<Add>)
    ensures var opts := Accumulate(Build(adds, 0), 0);
      && Values(opts, adds)
      && (forall i :: 0 <= i < |adds| ==> opts[i].num == ReceivedNumber(adds, i))
      && (Recovered(opts, adds) <==> AllButLastFitOneByte(adds))
  {
    hide ReceivedNumber, AllButLastFitOneByte, Build, Accumulate, Recovered;
    var opts := Accumulate(Build(adds, 0), 0);
    BuildCount(adds, 0, 0);
    forall i | 0 <= i < |adds| ensures opts[i] == Opt(ReceivedNumber(adds, i), adds[i].val) {
      ReceivedOption(adds, i);
    }
    AllSurviveIff(adds);
    RecoveredNumbers(opts, adds);
  }

  lemma {:induction false} RecoveredNumbers(opts: seq<Opt>, adds: seq<Add>)
    requires Values(opts, adds)
    ensures Recovered(opts, adds) <==> forall i :: 0 <= i < |adds| ==> opts[i].num == adds[i].num
  {
    if Recovered(opts, adds) {
      forall i | 0 <= i < |adds| ensures opts[i].num == adds[i].num {
        assert opts[i] == Opt(adds[i].num, adds[i].val);
      }
    }
  }

  /** Whole-message round trip. Header, token, payload and every option value survive the wire in
      order; option `i` is received under its own number if and only if what the adds before it have
      lost vanishes in a 16-bit sum, and all of them are if and only if every number but the last is below
      256. */
  lemma {:induction false} MessageRoundTrip(f: Frame, adds: seq<Add>)
    requires f.options == Build(adds, 0)
    requires |f.token| <= 8 && |adds| <= 12
    requires |Encode(f)| <= 1280 && (f.payload == [] ==> |Encode(f)| < 1280)
    ensures var p := ParseMessage(Received(Encode(f)), |Encode(f)|);
      && p.Parsed? && p.version == f.version && p.kind == f.kind && p.code == f.code && p.msgid == f.msgid
      && p.token == f.token
      && p.payload == (if f.payload == [] then None else Some(f.payload))
      && Values(p.options, adds)
      && (forall i :: 0 <= i < |adds| ==> p.options[i].num == ReceivedNumber(adds, i))
      && (forall i :: 0 <= i < |adds| ==> (ReceivedNumber(adds, i) == adds[i].num <==> Lost(adds[..i]) % 256 == 0))
      && (Recovered(p.options, adds) <==> AllButLastFitOneByte(adds))
  {
    AccumulateBuild(adds);
    AccumulateKeepsCount(f.options, 0);
    FrameRoundTrip(f);
    forall i | 0 <= i < |adds| ensures ReceivedNumber(adds, i) == adds[i].num <==> Lost(adds[..i]) % 256 == 0 {
      NumberSurvivesIff(adds, i);
    }
    hide ReceivedNumber, Lost, ParseMessage, Encode, Received, Build, Accumulate, AllButLastFitOneByte, Recovered;
  }

  /** An input whose numbers do not survive: 2089, then 11, is read back as 2089, then 2059. */
  lemma {:induction false} LargeNumberThenAnother()
    ensures Accumulate(Build([Add(2089, []), Add(11, [])], 0), 0) == [Opt(2089, []), Opt(2059, [])]
  {
    var adds := [Add(2089, []), Add(11, [])];
    assert adds[1..] == [Add(11, [])];
    var built := Build(adds, 0);
    assert built == [Opt(2089, []), Opt(Low16(11 - 41), [])];
    assert built[1..] == [Opt(Low16(11 - 41), [])];
  }

  // ---------------------------------------------------------------- unsigned options

  /** The bytes CoAPUintOption_add stores: 0, 1, 2 or 4 of them, most significant first. */
  function UintBytes(data: u32): (v: Octets) {
    if data == 0 then []
    else if data <= 255 then [data]
    else if data <= 65535 then [data / 256, data % 256]
    else
      var hi, lo := data / 0x1_0000, data % 0x1_0000;
      [hi / 256, hi % 256, lo / 256, lo % 256]
  }

  /** The number that the bytes of an option stand for. */
  function UintValue(v: Octets): u32 {
    if |v| == 1 then v[0]
    else if |v| == 2 then Word(v[0], v[1])
    else if |v| == 3 then 0x1_0000 * Word(0, v[0]) + Word(v[1], v[2])
    else if |v| == 4 then 0x1_0000 * Word(v[0], v[1]) + Word(v[2], v[3])
    else 0
  }

  /** What CoAPUintOption_get leaves in a variable that held `data`: it combines the bytes into it, and
      clears it only for an option whose length is no number's. */
  function Combined(data: u32, v: Octets): u32 {
    if 1 <= |v| <= 4 then Or(data, UintValue(v)) else 0
  }

  /** A variable takes every value that an option can carry if and only if it is zero before. */
  lemma {:induction false} CombinedIff(data: u32)
    ensures (forall v: u32 :: Combined(data, UintBytes(v)) == v) <==> data == 0
  {
    if data == 0 {
      forall v: u32 ensures Combined(data, UintBytes(v)) == v {
        UintRoundTrip(v);
        OrZero(v);
      }
    } else if forall v: u32 :: Combined(data, UintBytes(v)) == v {
      assert Combined(data, UintBytes(1)) == 1 && Combined(data, UintBytes(2)) == 2;
      assert UintBytes(1) == [1] && UintBytes(2) == [2];
      OnlyZeroFitsBoth(data);
      assert false;
    }
  }

  lemma {:induction false} OnlyZeroFitsBoth(data: u32)
    requires Or(data, 1) == 1 && Or(data, 2) == 2
    ensures data == 0
  {
    Pow2Values();
    OrBitsAtLeast(data, 1, 32);
    assert Or(data, 2) % 2 == 0 ==> data % 2 == 0;
  }

  /** The first option with this number, as every getter searches for it. */
  function FindOption(os: seq<Opt>, num: u16): (r: Option<Octets>) {
    if os == [] then None
    else if os[0].num == num then Some(os[0].val)
    else FindOption(os[1..], num)
  }

  /** The search fails exactly when there is no such option. */
  lemma {:induction false} FindOptionIff(os: seq<Opt>, num: u16)
    ensures FindOption(os, num) == None <==> forall i :: 0 <= i < |os| ==> os[i].num != num
  {
    if os != [] {
      FindOptionIff(os[1..], num);
      assert forall i :: 0 < i < |os| ==> os[i] == os[1..][i - 1];
    }
  }

  lemma {:induction false} UintRoundTrip(data: u32)
    ensures UintValue(UintBytes(data)) == data
    ensures |UintBytes(data)| in {0, 1, 2, 4}
  {
    if 65535 < data {
      var hi, lo := data / 0x1_0000, data % 0x1_0000;
      var v := UintBytes(data);
      assert v == [hi / 256, hi % 256, lo / 256, lo % 256];
      assert Word(v[0], v[1]) == hi && Word(v[2], v[3]) == lo;
    }
  }

  lemma {:induction false} FindOptionFirst(os: seq<Opt>, num: u16, k: nat)
    requires k < |os| && os[k].num == num
    requires forall i :: 0 <= i < k ==> os[i].num != num
    ensures FindOption(os, num) == Some(os[k].val)
  {
    if k > 0 {
      assert os[0].num != num;
      FindOptionFirst(os[1..], num, k - 1);
    }
  }

  /** The receiver's getter returns an unsigned option, for every 32-bit value, when the option keeps its
      number and none before it is received under that number. What is added later does not matter. */
  lemma {:induction false} UintOptionThroughTheWire(f: Frame, adds: seq<Add>, k: nat, data: u32)
    requires f.options == Build(adds, 0)
    requires |f.token| <= 8 && |adds| <= 12
    requires |Encode(f)| <= 1280 && (f.payload == [] ==> |Encode(f)| < 1280)
    requires k < |adds| && adds[k].val == UintBytes(data) && Lost(adds[..k]) % 256 == 0
    requires forall i :: 0 <= i < k ==> ReceivedNumber(adds, i) != adds[k].num
    ensures var p := ParseMessage(Received(Encode(f)), |Encode(f)|);
      p.Parsed? && FindOption(p.options, adds[k].num).Some?
      && UintValue(FindOption(p.options, adds[k].num).value) == data
      && Combined(0, FindOption(p.options, adds[k].num).value) == data
  {
    MessageRoundTrip(f, adds);
    CombinedIff(0);
    assert Combined(0, UintBytes(data)) == data;
    hide Combined, UintBytes, UintValue;
    var p := ParseMessage(Received(Encode(f)), |Encode(f)|);
    hide ReceivedNumber, Lost, ParseMessage, Encode, Received, Build, FindOption;
    assert p.options[k].num == adds[k].num && p.options[k].val == adds[k].val;
    FindOptionFirst(p.options, adds[k].num, k);
    UintRoundTrip(data);
  }
}

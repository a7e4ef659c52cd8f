/** The bytes of a message and the numbers in them, as RFC 7252 states them: section 3 for the message,
    section 3.1 for an option, section 3.2 for an unsigned value. CoapWire is held against them. */
module CoapBytes {
  import opened Machine
  import opened Bits
  import opened CoapWire

  // ---------------------------------------------------------------- the message

  /** Where everything is: four header bytes, token, options, and behind a byte of ones the payload. */
  lemma {:induction false} MessageLayout(f: Frame)
    requires |f.token| <= 8
    ensures var e, n, o := Encode(f), |f.token|, |EncodeOptions(f.options)|;
      && |e| == 4 + n + o + (if f.payload == [] then 0 else 1 + |f.payload|)
      && e[0] == 64 * f.version + 16 * f.kind + n && e[1] == f.code
      && f.msgid / 256 == e[2] && f.msgid % 256 == e[3]
      && e[4..4 + n] == f.token && e[4 + n..4 + n + o] == EncodeOptions(f.options)
      && (f.payload != [] ==> e[4 + n + o] == 0xFF && e[4 + n + o + 1..] == f.payload)
  {
    hide EncodeOptions;
  }

  function ExtensionSize(nibble: int): nat { if nibble == 14 then 2 else if nibble == 13 then 1 else 0 }

  /** The number that a nibble and the bytes belonging to it stand for. */
  function Magnitude(nibble: int, bytes: seq<u8>): int
    requires |bytes| == ExtensionSize(nibble)
  {
    if nibble == 14 then 0x100 * Word(0, bytes[0]) + bytes[1] + 269 else if nibble == 13 then bytes[0] + 13 else nibble
  }

  /** One option: delta nibble, length nibble, the extension of the delta, that of the length, the value.
      The shortest form is used, and no option looks like the byte of ones. */
  lemma {:induction false} OptionLayout(o: Opt)
    ensures var e := EncodeOption(o);
      e != [] && var d, l := e[0] / 16, e[0] % 16;
      var x, y := 1 + ExtensionSize(d), 1 + ExtensionSize(d) + ExtensionSize(l);
      && |e| == y + |o.val| && d < 15 && l < 15
      && Magnitude(d, e[1..x]) == o.num && Magnitude(l, e[x..y]) == |o.val| && e[y..] == o.val
      && (d == 13 ==> o.num < 269) && (l == 13 ==> |o.val| < 269)
  {
    NibbleLayout(o.num);
    NibbleLayout(|o.val|);
    var first: u8 := 16 * Nibble(o.num) + Nibble(|o.val|);
    var a, b := Extension(o.num), Extension(|o.val|);
    hide Nibble, Extension, Magnitude, ExtensionSize;
    var e := EncodeOption(o);
    assert e == [first] + a + b + o.val;
    assert e[0] / 16 == Nibble(o.num) && e[0] % 16 == Nibble(|o.val|);
    assert e[1..1 + |a|] == a && e[1 + |a|..1 + |a| + |b|] == b && e[1 + |a| + |b|..] == o.val;
  }

  lemma {:induction false} NibbleLayout(n: u16)
    ensures |Extension(n)| == ExtensionSize(Nibble(n)) && Magnitude(Nibble(n), Extension(n)) == n
    ensures Nibble(n) < 15 && (Nibble(n) == 13 ==> n < 269)
  {
  }

  /** The boundaries of the three forms. */
  lemma {:induction false} OptionSamples(v: Octets)
    ensures EncodeOption(Opt(12, [])) == [0xC0] && EncodeOption(Opt(13, [])) == [0xD0, 0x00]
    ensures EncodeOption(Opt(268, [])) == [0xD0, 0xFF] && EncodeOption(Opt(269, [])) == [0xE0, 0x00, 0x00]
    ensures EncodeOption(Opt(0xFFFF, [])) == [0xE0, 0xFE, 0xF2]
    ensures |v| == 12 ==> EncodeOption(Opt(0, v)) == [0x0C] + v
    ensures |v| == 13 ==> EncodeOption(Opt(0, v)) == [0x0D, 0x00] + v
    ensures |v| == 268 ==> EncodeOption(Opt(0, v)) == [0x0D, 0xFF] + v
    ensures |v| == 269 ==> EncodeOption(Opt(0, v)) == [0x0E, 0x00, 0x00] + v
  {
  }

  /** A whole message: GET, id 0x1234, token "q", path "temp", payload "1". */
  lemma {:induction false} MessageSample()
    ensures Encode(Frame(1, 0, 1, 0x1234, [0x71], Build([Add(11, [0x74, 0x65, 0x6D, 0x70])], 0), [0x31]))
         == [0x41, 0x01, 0x12, 0x34, 0x71, 0xB4, 0x74, 0x65, 0x6D, 0x70, 0xFF, 0x31]
  {
    var o := Opt(11, [0x74, 0x65, 0x6D, 0x70]);
    assert Low16(11 - 0) == 11;
    assert Build([Add(11, o.val)], 0) == [o];
    assert EncodeOption(o) == [0xB4, 0x74, 0x65, 0x6D, 0x70];
    assert [o][1..] == [];
    assert EncodeOptions([o]) == EncodeOption(o) + [] == EncodeOption(o);
  }

  /** What the parser makes of any bytes, those of no serializer included: the forms of the two numbers, and an
      option in which they and the value end within the buffer. */
  lemma {:induction false} ReadOptionLayout(b: seq<u8>, at: nat, pre: u16)
    requires at < |b|
    ensures var d, l := b[at] / 16, b[at] % 16;
      var x, y := at + 1 + ExtensionSize(d), at + 1 + ExtensionSize(d) + ExtensionSize(l);
      ReadOption(b, at, pre) ==
        if y > |b| || y + Magnitude(l, b[x..y]) % 0x1_0000 > |b| then None else
        var end := y + Magnitude(l, b[x..y]) % 0x1_0000;
        Some(OptionRead(Opt((pre + Magnitude(d, b[at + 1..x])) % 0x1_0000, b[y..end]), end))
  {
    var d, l := b[at] / 16, b[at] % 16;
    var x := at + 1 + ExtensionSize(d);
    ReadExtendedLayout(b, d, at + 1);
    if x <= |b| {
      ReadExtendedLayout(b, l, x);
      Low16Sum(Magnitude(d, b[at + 1..x]), pre);
    }
    hide ReadExtended, Magnitude, ExtensionSize;
  }

  lemma {:induction false} ReadExtendedLayout(b: seq<u8>, nibble: u8, at: nat)
    requires nibble < 16 && at <= |b|
    ensures var end := at + ExtensionSize(nibble);
      ReadExtended(b, nibble, at)
      == if end > |b| then None else Some(Reading(Magnitude(nibble, b[at..end]) % 0x1_0000, end))
  {
  }

  /** What the parser makes of any datagram it accepts. */
  lemma {:induction false} ParserLayout(b: seq<u8>, len: nat)
    requires len <= |b| && ParseMessage(b, len).Parsed?
    ensures var p := ParseMessage(b, len);
      var n, read := |p.token|, ReadOptions(b, 4 + |p.token|, len, 0);
      && 4 <= len && n <= 8 && 4 + n <= |b| && |p.options| <= 12
      && b[0] == 64 * p.version + 16 * p.kind + n && b[1] == p.code
      && b[2] == p.msgid / 256 && b[3] == p.msgid % 256 && b[4..4 + n] == p.token
      && read.Some? && p.options == read.value.opts && read.value.next < |b|
      && (b[read.value.next] == 0xFF ==> p.payload == Some(b[read.value.next + 1..len]))
      && (b[read.value.next] != 0xFF ==> p.payload == None)
  {
    hide ReadOptions;
    assert Word(b[2], b[3]) / 256 == b[2] && Word(b[2], b[3]) % 256 == b[3];
  }

  /** What the parser does with two datagrams no serializer produces: a payload marker with nothing behind
      it, and a delta nibble of 15, which it takes for the number. */
  lemma {:induction false} ParserSamples()
    ensures ParseMessage([0x40, 0x01, 0x00, 0x07, 0xFF], 5) == Parsed(1, 0, 1, 7, [], [], Some([]))
    ensures ParseMessage([0x40, 0x01, 0x00, 0x07, 0xF1, 0x41, 0x00], 6)
         == Parsed(1, 0, 1, 7, [], [Opt(15, [0x41])], None)
    ensures ParseMessage([0x40, 0x01, 0x00], 3) == TooShort
  {
    var b := [0x40, 0x01, 0x00, 0x07, 0xF1, 0x41, 0x00];
    assert ReadOptions([0x40, 0x01, 0x00, 0x07, 0xFF], 4, 5, 0) == Some(OptionsRead([], 4));
    assert ReadExtended(b, 15, 5) == Some(Reading(15, 5)) && ReadExtended(b, 1, 5) == Some(Reading(1, 5));
    assert Low16(0 + 15) == 15 && b[5..6] == [0x41];
    assert ReadOption(b, 4, 0) == Some(OptionRead(Opt(15, [0x41]), 6));
    assert ReadOptions(b, 6, 6, 15) == Some(OptionsRead([], 6)) && b[4] != 0xFF;
    ReadOptionsStep(b, 4, 6, 0, OptionRead(Opt(15, [0x41]), 6), OptionsRead([], 6));
    assert [Opt(15, [0x41])] + [] == [Opt(15, [0x41])];
    assert ReadOptions(b, 4, 6, 0) == Some(OptionsRead([Opt(15, [0x41])], 6));
  }

  /** The limits of the message struct: a token of more than eight bytes and more than twelve options do
      not fit into it. */
  lemma {:induction false} TooMuchForTheStruct(f: Frame)
    requires |f.token| < 16 && |Encode(f)| < 1280 && (|f.token| > 8 || |f.options| > 12)
    ensures ParseMessage(Received(Encode(f)), |Encode(f)|) == OutOfBounds
  {
    var b, len := Received(Encode(f)), |Encode(f)|;
    assert b[0] == Encode(f)[0];
    if |f.token| > 8 {
      FirstByte(f);
      hide Encode, Received, ReadOptions;
    } else {
      EncodedParts(f, b);
      PayloadSize(f.payload);
      assert f.payload == [] ==> b[len] == 0;
      hide Encode, Received, EncodeOptions, ReadOptions, Accumulate, ReadPayload;
      ManyOptions(f, b, len);
    }
  }

  lemma {:induction false} FirstByte(f: Frame)
    requires |f.token| < 16
    ensures |Encode(f)| >= 4 && Encode(f)[0] % 16 == |f.token|
  {
    hide EncodeOptions;
    HeaderByteSplits(f.version, f.kind, |f.token|);
  }

  lemma {:induction false} ManyOptions(f: Frame, b: seq<u8>, len: nat)
    requires |f.token| <= 8 && 12 < |f.options| && 4 <= len <= |b| && b[0] % 16 == |f.token|
    requires At(b, 4 + |f.token|, EncodeOptions(f.options))
    requires At(b, 4 + |f.token| + |EncodeOptions(f.options)|, PayloadBytes(f.payload))
    requires len == 4 + |f.token| + |EncodeOptions(f.options)| + |PayloadBytes(f.payload)|
    ensures ParseMessage(b, len) == OutOfBounds
  {
    var at := 4 + |f.token| + |EncodeOptions(f.options)|;
    if f.payload != [] {
      assert b[at] == b[at..at + |PayloadBytes(f.payload)|][0] == PAYLOAD_MARKER;
    }
    hide EncodeOptions, ReadOptions, Accumulate;
    OptionsRoundTrip(b, 4 + |f.token|, len, f.options, 0);
    AccumulateKeepsCount(f.options, 0);
  }

  // ---------------------------------------------------------------- unsigned values

  /** Network byte order: the first byte counts most. */
  function BigEndian(v: seq<u8>): nat {
    if v == [] then 0 else 256 * BigEndian(v[..|v| - 1]) + v[|v| - 1]
  }

  /** The getter combines the variable with the number that one to four bytes stand for, leading zeros and
      all, and clears it for any other length. */
  lemma {:induction false} GetterReadsBigEndian(data: u32, v: Octets)
    ensures 1 <= |v| <= 4 ==> BigEndian(v) < 0x1_0000_0000 && Combined(data, v) == Or(data, BigEndian(v))
    ensures 1 <= |v| <= 4 ==> Combined(0, v) == BigEndian(v)
    ensures |v| == 0 || |v| > 4 ==> Combined(data, v) == 0
  {
    if 1 <= |v| <= 4 {
      BigEndianOfFour(v);
      OrZero(UintValue(v));
    }
    hide Or;
  }

  lemma {:induction false} BigEndianOfFour(v: seq<u8>)
    requires 1 <= |v| <= 4
    ensures BigEndian(v) == UintValue(v)
  {
    assert BigEndian([]) == 0;
    assert v[..1] == [v[0]] && v[..1][..0] == [];
    assert BigEndian(v[..1]) == v[0];
    if |v| == 1 {
      assert v == v[..1];
    } else {
      assert v[..2][..1] == v[..1];
      assert BigEndian(v[..2]) == 256 * BigEndian(v[..1]) + v[1];
      assert BigEndian(v[..2]) == Word(v[0], v[1]);
      if |v| == 2 {
        assert v == v[..2];
      } else {
        BigEndianBeyondTwo(v);
      }
    }
  }

  lemma {:induction false} BigEndianBeyondTwo(v: seq<u8>)
    requires 3 <= |v| <= 4 && BigEndian(v[..2]) == Word(v[0], v[1])
    ensures BigEndian(v) == UintValue(v)
  {
    assert v[..3][..2] == v[..2];
    assert BigEndian(v[..3]) == 256 * BigEndian(v[..2]) + v[2];
    if |v| == 3 {
      assert v == v[..3];
    } else {
      assert v[..4] == v && v[..4][..3] == v[..3];
      assert BigEndian(v) == 256 * BigEndian(v[..3]) + v[3];
    }
  }

  /** The adder writes the number in network byte order, without a leading zero except in the form of four
      bytes, of which there is none of three. */
  lemma {:induction false} AdderWritesBigEndian(data: u32)
    ensures BigEndian(UintBytes(data)) == data
    ensures |UintBytes(data)| == if data == 0 then 0 else if data < 0x100 then 1 else if data < 0x1_0000 then 2 else 4
  {
    UintRoundTrip(data);
    if data > 0 {
      BigEndianOfFour(UintBytes(data));
    }
  }

  /** Max-Age 86400 as a peer sends it, in three bytes, and as the adder writes it, in four. */
  lemma {:induction false} MaxAgeOfOneDay()
    ensures Combined(0, [0x01, 0x51, 0x80]) == 86400 && UintBytes(86400) == [0x00, 0x01, 0x51, 0x80]
  {
    hide Or;
    assert Word(0, 0x01) == 1 && Word(0x51, 0x80) == 20864;
    assert UintValue([0x01, 0x51, 0x80]) == 86400;
    OrZero(86400);
  }

  lemma {:induction false} OneByteOption(num: u16)
    requires num < 13
    ensures |EncodeOption(Opt(num, []))| == 1
  {
  }

  /** An option of 65536 bytes counts as none and ends the sum; otherwise the sum only wraps. */
  lemma {:induction false} LengthStopsAtWrap(v: Octets)
    requires |v| == 0x1_0000 - 5
    ensures OptionsLength([Opt(1, []), Opt(269, v)]) == 0
    ensures |v[1..]| == 0x1_0000 - 6 && OptionsLength([Opt(1, []), Opt(2, []), Opt(269, v[1..])]) == 1
  {
    OneByteOption(1);
    OneByteOption(2);
    var os, x, y := [Opt(1, []), Opt(269, v)], Opt(269, v), Opt(269, v[1..]);
    assert |EncodeOption(x)| == 0x1_0000 && |EncodeOption(y)| == 0xFFFF;
    hide EncodeOption;
    assert os[1] == x;
    var ws := [Opt(1, []), Opt(2, []), y];
    assert ws[1..] == [Opt(2, []), y] && ws[1..][1..] == [y] && [y][1..] == [];
    assert |EncodeOptions([y])| == 0xFFFF && |EncodeOptions(ws[1..])| == 0x1_0000;
    assert |EncodeOptions(ws)| == 0x1_0001;
    assert Low16(0x1_0001) == 1;
  }
}

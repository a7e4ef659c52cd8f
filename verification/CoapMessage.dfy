/** CoAPMessage_common.c, CoAPSerialize_common.c and CoAPDeserialize_common.c: the message struct
    with its setters, and the buffer loops, each proved against the functions of CoapWire. */
module CoapMessage {
  import opened Machine
  import opened Bits
  import opened Buffers
  import opened CoapWire

  datatype Status = Success | InvalidParam | NullPointer | InvalidLength | NotFound

  /** The first `i` options have been written over `was` at `at`, in `count` bytes. */
  ghost predicate WrittenSoFar(was: seq<u8>, now: seq<u8>, at: nat, os: seq<Opt>, i: nat, count: nat)
    requires i <= |os| && at + |EncodeOptions(os)| <= |was|
  {
    && count == |EncodeOptions(os[..i])| <= |EncodeOptions(os)|
    && Appended(was, now, at, EncodeOptions(os[..i]))
  }

  lemma {:induction false} StartsWriting(was: seq<u8>, at: nat, os: seq<Opt>)
    requires at + |EncodeOptions(os)| <= |was|
    ensures WrittenSoFar(was, was, at, os, 0, 0)
  {
    assert os[..0] == [];
    StartsAppending(was, at);
  }

  lemma {:induction false} RoomForNext(was: seq<u8>, now: seq<u8>, at: nat, os: seq<Opt>, i: nat, count: nat)
    requires i < |os| && at + |EncodeOptions(os)| <= |was| && WrittenSoFar(was, now, at, os, i, count)
    ensures |now| == |was| && count + |EncodeOption(os[i])| <= |EncodeOptions(os)|
  {
    hide Splice, EncodeOption, EncodeOptions;
    EncodeOptionsSnoc(os, i);
  }

  lemma {:induction false} ExtendsWriting(was: seq<u8>, now: seq<u8>, at: nat, os: seq<Opt>, i: nat, count: nat)
    requires i < |os| && at + |EncodeOptions(os)| <= |was| && WrittenSoFar(was, now, at, os, i, count)
    requires |now| == |was| && count + |EncodeOption(os[i])| <= |EncodeOptions(os)|
    ensures WrittenSoFar(was, Splice(now, at + count, EncodeOption(os[i])), at, os, i + 1,
                         count + |EncodeOption(os[i])|)
  {
    hide Splice, EncodeOption, EncodeOptions;
    EncodeOptionsSnoc(os, i);
    Appends(was, now, at, EncodeOptions(os[..i]), EncodeOption(os[i]));
  }

  lemma {:induction false} EndsWriting(was: seq<u8>, now: seq<u8>, at: nat, os: seq<Opt>, count: nat)
    requires at + |EncodeOptions(os)| <= |was| && WrittenSoFar(was, now, at, os, |os|, count)
    ensures count == |EncodeOptions(os)| && now == Splice(was, at, EncodeOptions(os))
  {
    assert os[..|os|] == os;
  }

  function BytesOf(p: PayloadRead): Option<Octets> { if p.Present? then Some(p.bytes) else None }

  /** A payload that was read is stored; without one the fields keep their values. */
  predicate Stored(bytes: Option<Octets>, was: Option<Octets>, wasLen: u16, now: Option<Octets>, nowLen: u16) {
    if bytes.Some? then now == bytes && nowLen == |bytes.value| else now == was && nowLen == wasLen
  }

  class Message {
    var version: u2
    var kind: u2
    var tokenlen: u8
    var code: u8
    var msgid: u16
    const token: array<u8>
    const options: array<Opt>
    var optcount: u8
    var optdelta: u8
    var payloadlen: u16
    var payload: Option<Octets>
    ghost var adds: seq<Add>  // the option-add calls that succeeded since the last initialization

    ghost predicate Valid()
      reads this
    {
      && token.Length == MAX_TOKEN && options.Length == MAX_OPTIONS
      && tokenlen <= MAX_TOKEN && optcount <= MAX_OPTIONS
      && (payload.Some? ==> payloadlen <= |payload.value|)
    }

    /** The options are exactly what the recorded add calls build. */
    ghost predicate Built()
      requires Valid()
      reads this, options
    {
      && options[..optcount] == Build(adds, 0)
      && optdelta == Running(adds, 0)
      && |adds| == optcount
    }

    ghost function PayloadView(): Octets
      requires Valid()
      reads this
    {
      if payload.Some? then payload.value[..payloadlen] else []
    }

    ghost function View(): Frame
      requires Valid()
      reads this, token, options
    {
      Frame(version, kind, code, msgid, token[..tokenlen], options[..optcount], PayloadView())
    }

    constructor Init()
      ensures Valid() && Built() && adds == []
      ensures View() == Frame(1, 2, 0, 0, [], [], []) && payload == None && payloadlen == 0
      ensures fresh(token) && fresh(options)
    {
      version, kind, tokenlen, code, msgid := 1, 2, 0, 0, 0;
      token := new u8[MAX_TOKEN](_ => 0);
      options := new Opt[MAX_OPTIONS](_ => Opt(0, []));
      optcount, optdelta, payloadlen, payload := 0, 0, 0, None;
      adds := [];
    }

    // -------------------------------------------------------------- setters

    /** The tail that both option adders share. */
    method AddOption(optnum: u16, val: Octets) returns (r: Status)
      requires Valid()
      modifies this`optcount, this`optdelta, this`adds, options
      ensures Valid()
      ensures r == if old(optcount) < 12 then Success else InvalidParam
      ensures View() == old(View()).(options := if r.Success?
        then old(View()).options + [Opt(Low16(optnum - old(optdelta)), val)] else old(View()).options)
      ensures r.Success? ==> optdelta == Low8(optnum) && adds == old(adds) + [Add(optnum, val)]
      ensures !r.Success? ==> optdelta == old(optdelta) && adds == old(adds)
      ensures old(Built()) ==> Built()
    {
      if MAX_OPTIONS <= optcount {
        return InvalidParam;
      }
      ghost var before, was := options[..optcount], adds;
      options[optcount] := Opt(Low16(optnum - optdelta), val);
      optdelta := Low8(optnum);
      optcount := optcount + 1;
      adds := adds + [Add(optnum, val)];
      assert options[..optcount] == before + [Opt(Low16(optnum - old(optdelta)), val)];
      BuildSnoc(was, 0, Add(optnum, val));
      r := Success;
    }

    method StrOptionAdd(optnum: u16, data: Octets) returns (r: Status)
      requires Valid()
      modifies this`optcount, this`optdelta, this`adds, options
      ensures Valid() && (old(Built()) ==> Built())
      ensures r == if old(optcount) < 12 then Success else InvalidParam
      ensures adds == if r.Success? then old(adds) + [Add(optnum, data)] else old(adds)
      ensures View() == old(View()).(options := if r.Success?
        then old(View()).options + [Opt(Low16(optnum - old(optdelta)), data)] else old(View()).options)
    {
      r := AddOption(optnum, data);
    }

    method UintOptionAdd(optnum: u16, data: u32) returns (r: Status)
      requires Valid()
      modifies this`optcount, this`optdelta, this`adds, options
      ensures Valid() && (old(Built()) ==> Built())
      ensures r == if old(optcount) < 12 then Success else InvalidParam
      ensures adds == if r.Success? then old(adds) + [Add(optnum, UintBytes(data))] else old(adds)
      ensures View() == old(View()).(options := if r.Success?
        then old(View()).options + [Opt(Low16(optnum - old(optdelta)), UintBytes(data))] else old(View()).options)
    {
      var val: Octets;
      if data == 0 {
        val := [];
      } else if data <= 255 {
        val := [data];
      } else if data <= 65535 {
        val := [data / 256, data % 256];
      } else {
        var hi, lo := data / 0x1_0000, data % 0x1_0000;
        val := [hi / 256, hi % 256, lo / 256, lo % 256];
      }
      r := AddOption(optnum, val);
    }

    /** The switch of CoAPUintOption_get on one option's length. */
    static method CombineBytes(data: u32, val: Octets) returns (data': u32)
      ensures data' == Combined(data, val)
    {
      if |val| == 1 {
        data' := Or(data, val[0]);
      } else if |val| == 2 {
        OrByte(data, val[0], val[1]);
        data' := Or(Or(data, 0x100 * Word(0, val[0])), val[1]);
      } else if |val| == 3 {
        OrThree(data, val[0], val[1], val[2]);
        data' := Or(Or(Or(data, 0x1_0000 * Word(0, val[0])), 0x100 * Word(0, val[1])), val[2]);
      } else if |val| == 4 {
        OrFour(data, val[0], val[1], val[2], val[3]);
        data' := Or(data, 0x100_0000 * Word(0, val[0]));
        data' := Or(Or(Or(data', 0x1_0000 * Word(0, val[1])), 0x100 * Word(0, val[2])), val[3]);
      } else {
        data' := 0;
      }
    }

    /** `data` is what the caller's variable holds, and `data'` what it holds then. */
    method UintOptionGet(optnum: u16, data: u32) returns (r: Status, data': u32)
      requires Valid()
      ensures match FindOption(View().options, optnum)
              case None => r == NotFound && data' == data
              case Some(val) => r == Success && data' == Combined(data, val)
    {
      var index := 0;
      while index < optcount
        invariant 0 <= index <= optcount
        invariant FindOption(options[..optcount], optnum) == FindOption(options[..optcount][index..], optnum)
      {
        if options[index].num == optnum {
          data' := CombineBytes(data, options[index].val);
          return Success, data';
        }
        assert options[..optcount][index..][1..] == options[..optcount][index + 1..];
        index := index + 1;
      }
      r, data' := NotFound, data;
    }

    method TokenSet(data: Option<seq<u8>>, len: u8) returns (r: Status)
      requires Valid() && (data.Some? ==> len <= |data.value| || 8 < len)
      modifies this`tokenlen, token
      ensures Valid() && (old(Built()) ==> Built())
      ensures r == if data == None then NullPointer else if 8 < len then InvalidLength else Success
      ensures View() == old(View()).(token := if r.Success? then data.value[..len] else old(View()).token)
    {
      if data == None {
        return NullPointer;
      }
      if MAX_TOKEN < len {
        return InvalidLength;
      }
      Copy(token, 0, data.value[..len]);
      tokenlen := len;
      r := Success;
    }

    method PayloadSet(data: Option<Octets>, len: u16) returns (r: Status)
      requires Valid() && (data.Some? ==> len <= |data.value|)
      modifies this`payload, this`payloadlen
      ensures Valid() && (old(Built()) ==> Built())
      ensures r == if 0 < len && data == None then NullPointer else Success
      ensures r.Success? ==> payload == data && payloadlen == len && (0 < payloadlen ==> payload.Some?)
      ensures View() == old(View()).(payload := if !r.Success? then old(View()).payload
                                                else if data.Some? then data.value[..len] else [])
      ensures !r.Success? ==> payload == old(payload) && payloadlen == old(payloadlen)
    {
      if 0 < len && data == None {
        return NullPointer;
      }
      payload, payloadlen := data, len;
      r := Success;
    }

    // -------------------------------------------------------------- serializer

    method SerializeHeader(buf: array<u8>, at: nat, room: u16) returns (count: u16)
      requires Valid() && buf != token && at + room <= buf.Length
      modifies buf
      ensures View() == old(View())
      ensures count == |if 4 > room then [] else HeaderBytes(View())|
      ensures buf[..] == Splice(old(buf[..]), at, if 4 > room then [] else HeaderBytes(View()))
    {
      if 4 > room {
        SpliceNothing(buf[..], at);
        return 0;
      }
      buf[at] := 64 * version + 16 * kind + tokenlen;
      buf[at + 1] := code;
      buf[at + 2] := msgid / 256;
      buf[at + 3] := msgid % 256;
      count := 4;
    }

    static method CopyNext(c: u8, ghost data: seq<u8>, i: nat, buf: array<u8>, at: nat, ghost was: seq<u8>)
      requires i < |data| && c == data[i] && at + |data| <= |was| && Appended(was, buf[..], at, data[..i])
      modifies buf
      ensures Appended(was, buf[..], at, data[..i + 1])
    {
      hide Splice, Appended;
      TakeNext(data, i);
      Appends(was, buf[..], at, data[..i], [data[i]]);
      Put(buf, at + i, c);
    }

    static method CopyToken(token: array<u8>, len: nat, buf: array<u8>, at: nat)
      requires buf != token && len <= token.Length && at + len <= buf.Length
      modifies buf
      ensures buf[..] == Splice(old(buf[..]), at, token[..len])
    {
      ghost var was, data := buf[..], token[..len];
      hide Splice, Appended;
      StartsAppending(was, at);
      assert data[..0] == [];
      var i := 0;
      while i < len
        invariant 0 <= i <= len && Appended(was, buf[..], at, data[..i])
      {
        CopyNext(token[i], data, i, buf, at, was);
        i := i + 1;
      }
      assert data[..i] == data;
      EndsAppending(was, buf[..], at, data);
    }

    method SerializeToken(buf: array<u8>, at: nat, room: u16) returns (count: u16)
      requires Valid() && buf != token && at + room <= buf.Length
      modifies buf
      ensures View() == old(View())
      ensures count == |if room < tokenlen then [] else View().token|
      ensures buf[..] == Splice(old(buf[..]), at, if room < tokenlen then [] else View().token)
    {
      SpliceNothing(buf[..], at);
      hide Splice;
      if room < tokenlen {
        return 0;
      }
      CopyToken(token, tokenlen, buf, at);
      count := tokenlen;
    }

    static method SerializeExtension(n: u16, buf: array<u8>, at: nat) returns (next: nat)
      requires at + |Extension(n)| <= buf.Length
      modifies buf
      ensures next == at + |Extension(n)|
      ensures buf[..] == Splice(old(buf[..]), at, Extension(n))
    {
      if 269 <= n {
        buf[at] := (n - 269) / 256;
        buf[at + 1] := (n - 269) % 256;
        next := at + 2;
      } else if 13 <= n {
        buf[at] := n - 13;
        next := at + 1;
      } else {
        SpliceNothing(buf[..], at);
        next := at;
      }
    }

    static method SerializeNibbles(o: Opt, buf: array<u8>, at: nat)
      requires at < buf.Length
      modifies buf
      ensures buf[..] == Splice(old(buf[..]), at, [16 * Nibble(o.num) + Nibble(|o.val|)])
    {
      if 269 <= o.num {
        buf[at] := 16 * 14;
      } else if 13 <= o.num {
        buf[at] := 16 * 13;
      } else {
        buf[at] := 16 * o.num;
      }
      if 269 <= |o.val| {
        buf[at] := buf[at] + 14;
      } else if 13 <= |o.val| {
        buf[at] := buf[at] + 13;
      } else {
        buf[at] := buf[at] + |o.val|;
      }
    }

    static method SerializePrefix(o: Opt, buf: array<u8>, at: nat) returns (next: nat)
      requires at + |OptionPrefix(o)| <= buf.Length
      modifies buf
      ensures next == at + |OptionPrefix(o)|
      ensures buf[..] == Splice(old(buf[..]), at, OptionPrefix(o))
    {
      ghost var was := buf[..];
      ghost var first := [16 * Nibble(o.num) + Nibble(|o.val|)];
      hide Nibble, Extension, Splice;
      SerializeNibbles(o, buf, at);
      next := SerializeExtension(o.num, buf, at + 1);
      SpliceTwice(was, at, first, Extension(o.num));
      next := SerializeExtension(|o.val|, buf, next);
      SpliceTwice(was, at, first + Extension(o.num), Extension(|o.val|));
    }

    static method SerializeOption(o: Opt, buf: array<u8>, at: nat) returns (len: u16)
      requires at + |EncodeOption(o)| <= buf.Length && |EncodeOption(o)| < 0x1_0000
      modifies buf
      ensures len == |EncodeOption(o)|
      ensures buf[..] == Splice(old(buf[..]), at, EncodeOption(o))
    {
      hide OptionPrefix, Splice;
      ghost var was := buf[..];
      var next := SerializePrefix(o, buf, at);
      Copy(buf, next, o.val);
      SpliceTwice(was, at, OptionPrefix(o), o.val);
      len := next + |o.val| - at;
    }

    static method SerializeNext(os: seq<Opt>, i: nat, buf: array<u8>, at: nat, sofar: u16, ghost was: seq<u8>)
        returns (count: u16)
      requires i < |os| && at + |EncodeOptions(os)| <= |was| == buf.Length && |EncodeOptions(os)| < 0x1_0000
      requires WrittenSoFar(was, buf[..], at, os, i, sofar)
      modifies buf
      ensures WrittenSoFar(was, buf[..], at, os, i + 1, count)
    {
      hide Splice, EncodeOption, EncodeOptions, WrittenSoFar;
      RoomForNext(was, buf[..], at, os, i, sofar);
      ExtendsWriting(was, buf[..], at, os, i, sofar);
      var len := SerializeOption(os[i], buf, at + sofar);
      count := sofar + len;
    }

    static method SerializeOptions(os: seq<Opt>, buf: array<u8>, at: nat) returns (count: u16)
      requires at + |EncodeOptions(os)| <= buf.Length && |EncodeOptions(os)| < 0x1_0000
      modifies buf
      ensures count == |EncodeOptions(os)|
      ensures buf[..] == Splice(old(buf[..]), at, EncodeOptions(os))
    {
      ghost var was := buf[..];
      hide Splice, EncodeOption, EncodeOptions, WrittenSoFar;
      StartsWriting(was, at, os);
      count := 0;
      var i := 0;
      while i < |os|
        invariant 0 <= i <= |os| && WrittenSoFar(was, buf[..], at, os, i, count)
      {
        count := SerializeNext(os, i, buf, at, count, was);
        i := i + 1;
      }
      EndsWriting(was, buf[..], at, os, count);
    }

    method SerializePayload(buf: array<u8>, at: nat, room: u16) returns (count: u16)
      requires Valid() && buf != token && at + room <= buf.Length
      modifies buf
      ensures View() == old(View())
      ensures count == |if payloadlen + 1 > room then [] else PayloadBytes(View().payload)|
      ensures buf[..] == Splice(old(buf[..]), at, if payloadlen + 1 > room then [] else PayloadBytes(View().payload))
    {
      SpliceNothing(buf[..], at);
      if payloadlen + 1 > room {
        return 0;
      }
      if payloadlen > 0 && payload.Some? {
        ghost var was := buf[..];
        Put(buf, at, PAYLOAD_MARKER);
        Copy(buf, at + 1, payload.value[..payloadlen]);
        SpliceTwice(was, at, [PAYLOAD_MARKER], payload.value[..payloadlen]);
        count := payloadlen + 1;
      } else {
        count := 0;
      }
    }

    method SerializeMessageOptions(buf: array<u8>, at: nat) returns (count: u16)
      requires Valid() && buf != token
      requires at + |EncodeOptions(View().options)| <= buf.Length && |EncodeOptions(View().options)| < 0x1_0000
      modifies buf
      ensures View() == old(View())
      ensures count == |EncodeOptions(View().options)|
      ensures buf[..] == Splice(old(buf[..]), at, EncodeOptions(View().options))
    {
      hide EncodeOptions, Splice;
      count := SerializeOptions(options[..optcount], buf, at);
    }

    method SerializeFront(buf: array<u8>, buflen: u16) returns (count: u16)
      requires Valid() && buf != token && buflen <= buf.Length
      modifies buf
      ensures View() == old(View())
      ensures count == |FrontBytes(View(), buflen)| <= buflen
      ensures buf[..] == Splice(old(buf[..]), 0, FrontBytes(View(), buflen))
    {
      ghost var was, f := buf[..], View();
      ghost var head := if 4 > buflen then [] else HeaderBytes(f);
      ghost var tail := if buflen - |head| < |f.token| then [] else f.token;
      assert |f.token| == tokenlen;
      FrontParts(f, buflen);
      hide HeaderBytes, FrontBytes, Splice, View, Valid;
      var part := SerializeHeader(buf, 0, buflen);
      count := SerializeToken(buf, part, buflen - part);
      SpliceTwice(was, 0, head, tail);
      count := part + count;
    }

    method SerializeBack(buf: array<u8>, at: nat, room: u16) returns (count: u16)
      requires Valid() && buf != token && at + room <= buf.Length
      requires |EncodeOptions(View().options)| <= room
      modifies buf
      ensures View() == old(View())
      ensures count == |BackBytes(View(), room)|
      ensures buf[..] == Splice(old(buf[..]), at, BackBytes(View(), room))
    {
      ghost var was, f := buf[..], View();
      BackParts(f, room);
      ghost var tail := if payloadlen + 1 > room - |EncodeOptions(f.options)| then [] else PayloadBytes(f.payload);
      assert BackBytes(f, room) == EncodeOptions(f.options) + tail by {
        PayloadIsThere();
      }
      hide PayloadBytes, EncodeOptions, BackBytes, Splice, View;
      var part := SerializeMessageOptions(buf, at);
      count := SerializePayload(buf, at + part, room - part);
      SpliceTwice(was, at, EncodeOptions(f.options), tail);
      count := part + count;
    }

    /** A payload length without a payload writes nothing, whatever the length says. */
    lemma PayloadIsThere()
      requires Valid()
      ensures payloadlen == |View().payload| || View().payload == []
    {
    }

    /** The options must fit where they go: the C code writes them unchecked. `buf` changes only in
        the prefix whose length is returned. */
    method Serialize(buf: array<u8>, buflen: u16) returns (count: u16)
      requires Valid() && buf != token && buflen <= buf.Length
      requires |FrontBytes(View(), buflen)| + |EncodeOptions(View().options)| <= buflen
      modifies buf
      ensures View() == old(View())
      ensures count == |Written(View(), buflen)|
      ensures buf[..] == Splice(old(buf[..]), 0, Written(View(), buflen))
    {
      ghost var was, f := buf[..], View();
      WrittenParts(f, buflen);
      hide Written, FrontBytes, EncodeOptions, BackBytes, Splice, View;
      var remlen := buflen;
      var part := SerializeFront(buf, remlen);
      remlen := remlen - part;
      part := SerializeBack(buf, part, remlen);
      SpliceTwice(was, 0, FrontBytes(f, buflen), BackBytes(f, remlen));
      remlen := remlen - part;
      count := buflen - remlen;
    }

    // -------------------------------------------------------------- length calculators

    static method OptionLen(o: Opt) returns (len: u16)
      ensures len == Low16(|EncodeOption(o)|)
    {
      len := 1;
      if 269 <= o.num {
        len := len + 2;
      } else if 13 <= o.num {
        len := len + 1;
      }
      if 269 <= |o.val| {
        len := len + 2;
      } else if 13 <= |o.val| {
        len := len + 1;
      }
      len := Low16(len + |o.val|);
    }

    method OptionsLen() returns (count: u16)
      requires Valid()
      ensures count == OptionsLength(options[..optcount])
    {
      ghost var os := options[..optcount];
      StartsLength(os);
      hide EncodeOption, EncodeOptions, Low16, OptionsLength, LengthSoFar;
      count := 0;
      var i := 0;
      while i < optcount
        invariant 0 <= i <= optcount && LengthSoFar(os, i, count)
      {
        var len := OptionLen(options[i]);
        ExtendsLength(os, i, count);
        if 0 < len {
          count := Low16(count + len);
        } else {
          return 0;
        }
        i := i + 1;
      }
      EndsLength(os, count);
    }

    method Length() returns (len: u16)
      requires Valid()
      ensures len == MessageLength(View(), payloadlen)
    {
      hide OptionsLength, Low16;
      len := Low16(4 + tokenlen);
      var opts := OptionsLen();
      LengthSums(4 + tokenlen, opts, payloadlen);
      len := Low16(len + opts);
      if 0 < payloadlen {
        len := Low16(len + payloadlen);
        len := Low16(len + 1);
      }
    }

    // -------------------------------------------------------------- parser

    static method DeserializeDelta(buf: array<u8>, nibble: u8, at: nat, pre: u16) returns (predelta: u16, next: nat)
      requires ReadExtended(buf[..], nibble, at).Some?
      ensures var delta := ReadExtended(buf[..], nibble, at).value;
        predelta == Low16(pre + delta.value) && next == delta.next
    {
      if 13 == nibble {
        predelta := Low16(pre + 13 + Word(0, buf[at]));
        next := at + 1;
      } else if 14 == nibble {
        var word: int := Word(buf[at], buf[at + 1]);
        Low16Sum(pre + 269, word);
        Low16Sum(pre, 269 + word);
        predelta := Low16(Low16(pre + 269) + word);
        next := at + 2;
      } else {
        predelta := Low16(pre + nibble);
        next := at;
      }
    }

    static method DeserializeLength(buf: array<u8>, nibble: u8, at: nat) returns (len: u16, next: nat)
      requires ReadExtended(buf[..], nibble, at).Some?
      ensures ReadExtended(buf[..], nibble, at) == Some(Reading(len, next))
    {
      len, next := nibble, at;
      if 13 == nibble {
        len := 13 + Word(0, buf[at]);
        next := at + 1;
      } else if 14 == nibble {
        len := Low16(269 + Word(buf[at], buf[at + 1]));
        next := at + 2;
      }
    }

    static method DeserializeOption(buf: array<u8>, at: nat, pre: u16) returns (o: Opt, len: u16)
      requires buf.Length < 0x1_0000 && ReadOption(buf[..], at, pre).Some?
      ensures ReadOption(buf[..], at, pre) == Some(OptionRead(o, at + len))
    {
      ReadOptionParts(buf[..], at, pre);
      hide ReadOption, ReadExtended, Low16;
      var predelta, ptr := DeserializeDelta(buf, buf[at] / 16, at + 1, pre);
      var optlen, value := DeserializeLength(buf, buf[at] % 16, ptr);
      o := Opt(predelta, buf[value..value + optlen]);
      len := value - at + optlen;
    }

    method StoreOption(o: Opt)
      requires Valid() && optcount < MAX_OPTIONS
      modifies this`optcount, options
      ensures Valid() && optcount == old(optcount) + 1
      ensures options[..optcount] == old(options[..optcount]) + [o]
    {
      options[optcount] := o;
      optcount := optcount + 1;
    }

    method DeserializeNext(buf: array<u8>, ghost at: nat, ghost end: nat, next: nat, optdeltas: u16, ghost b: seq<u8>)
        returns (optdeltas': u16, next': nat)
      requires Valid() && buf != token && b == buf[..] && |b| < 0x1_0000 && end <= |b|
      requires ReadOptions(b, at, end, 0).Some? && |ReadOptions(b, at, end, 0).value.opts| <= MAX_OPTIONS
      requires next < end && PAYLOAD_MARKER != b[next] && SoFar(b, at, end, options[..optcount], next, optdeltas)
      modifies this`optcount, options
      ensures Valid() && buf[..] == b && next < next' <= |b|
      ensures SoFar(b, at, end, options[..optcount], next', optdeltas')
    {
      hide ReadOption, ReadOptions, SoFar;
      ExtendsSoFar(b, at, end, options[..optcount], next, optdeltas);
      var o, len := DeserializeOption(buf, next, optdeltas);
      StoreOption(o);
      optdeltas', next' := o.num, next + len;
    }

    method DeserializeOptions(buf: array<u8>, at: nat, end: nat) returns (next: nat)
      requires Valid() && buf != token && end <= buf.Length < 0x1_0000
      requires ReadOptions(buf[..], at, end, 0).Some?
      requires |ReadOptions(buf[..], at, end, 0).value.opts| <= MAX_OPTIONS
      modifies this`optcount, options
      ensures Valid()
      ensures ReadOptions(buf[..], at, end, 0) == Some(OptionsRead(options[..optcount], next))
    {
      ghost var b, opts := buf[..], ReadOptions(buf[..], at, end, 0).value.opts;
      hide ReadOption, ReadOptions, SoFar;
      StartsSoFar(b, at, end);
      var optdeltas: u16 := 0;
      next := at;
      optcount := 0;
      assert options[..0] == [];
      while next < end && PAYLOAD_MARKER != buf[next]
        invariant Valid() && buf[..] == b && SoFar(b, at, end, options[..optcount], next, optdeltas)
        decreases buf.Length - next
      {
        optdeltas, next := DeserializeNext(buf, at, end, next, optdeltas, b);
      }
      EndsSoFar(b, at, end, options[..optcount], next, optdeltas);
    }

    method DeserializePayload(buf: array<u8>, at: nat, len: nat)
      requires Valid() && len <= buf.Length && !ReadPayload(buf[..], at, len).Outside?
      modifies this`payload, this`payloadlen
      ensures Valid()
      ensures Stored(BytesOf(ReadPayload(buf[..], at, len)), old(payload), old(payloadlen), payload, payloadlen)
    {
      if PAYLOAD_MARKER == buf[at] {
        payloadlen := len - at - 1;
        payload := Some(buf[at + 1..len]);
      }
    }

    method DeserializeHeader(buf: array<u8>)
      requires Valid() && 4 <= buf.Length && buf[0] % 16 <= MAX_TOKEN
      modifies this`version, this`kind, this`tokenlen, this`code, this`msgid
      ensures Valid()
      ensures version == buf[0] / 64 && kind == buf[0] / 16 % 4 && tokenlen == buf[0] % 16
      ensures code == buf[1] && msgid == Word(buf[2], buf[3])
    {
      version, kind, tokenlen := buf[0] / 64, buf[0] / 16 % 4, buf[0] % 16;
      code, msgid := buf[1], Word(buf[2], buf[3]);
    }

    method DeserializeToken(buf: array<u8>, at: nat)
      requires Valid() && buf != token && at + tokenlen <= buf.Length
      modifies token
      ensures token[..tokenlen] == buf[at..at + tokenlen]
    {
      Copy(token, 0, buf[at..at + tokenlen]);
    }

    method DeserializeFront(buf: array<u8>, ghost b: seq<u8>)
      requires Valid() && buf != token && b == buf[..] && 4 <= |b| && b[0] % 16 <= MAX_TOKEN && 4 + b[0] % 16 <= |b|
      modifies this`version, this`kind, this`tokenlen, this`code, this`msgid, token
      ensures Valid() && buf[..] == b
      ensures version == b[0] / 64 && kind == b[0] / 16 % 4 && tokenlen == b[0] % 16
      ensures code == b[1] && msgid == Word(b[2], b[3]) && token[..tokenlen] == b[4..4 + b[0] % 16]
    {
      hide Word;
      DeserializeHeader(buf);
      DeserializeToken(buf, 4);
    }

    method DeserializeRest(buf: array<u8>, len: nat, ghost b: seq<u8>)
      requires Valid() && buf != token && 4 + tokenlen <= buf.Length < 0x1_0000 && len <= buf.Length && b == buf[..]
      requires var options := ReadOptions(b, 4 + tokenlen, len, 0);
        && options.Some? && |options.value.opts| <= MAX_OPTIONS
        && !ReadPayload(b, options.value.next, len).Outside?
      modifies this`optcount, this`payload, this`payloadlen, options
      ensures Valid()
      ensures var read := ReadOptions(b, 4 + tokenlen, len, 0).value;
        && options[..optcount] == read.opts
        && Stored(BytesOf(ReadPayload(b, read.next, len)), old(payload), old(payloadlen), payload, payloadlen)
    {
      hide ReadOptions, ReadPayload, Stored, BytesOf;
      var next := DeserializeOptions(buf, 4 + tokenlen, len);
      assert buf[..] == b;
      DeserializePayload(buf, next, len);
    }

    /** Everything behind the length test. */
    method DeserializeParts(buf: array<u8>, len: nat, ghost b: seq<u8>)
      requires Valid() && buf != token && 4 <= len <= buf.Length < 0x1_0000 && b == buf[..]
      requires ParseMessage(b, len) != OutOfBounds
      modifies this`version, this`kind, this`tokenlen, this`code, this`msgid, this`optcount,
               this`payload, this`payloadlen, token, options
      ensures Valid()
      ensures var p := ParseMessage(b, len);
        && p.Parsed? && version == p.version && kind == p.kind && code == p.code && msgid == p.msgid
        && token[..tokenlen] == p.token && options[..optcount] == p.options
        && Stored(p.payload, old(payload), old(payloadlen), payload, payloadlen)
    {
      ParsedParts(b, len);
      hide ParseMessage, ReadOptions, ReadPayload, Word, Stored, BytesOf, Valid;
      DeserializeFront(buf, b);
      DeserializeRest(buf, len, b);
    }

    /** The precondition is memory safety alone; a datagram under four bytes is an error. */
    method Deserialize(buf: array<u8>, len: nat) returns (r: Status)
      requires Valid() && buf != token && len <= buf.Length < 0x1_0000
      requires ParseMessage(buf[..], len) != OutOfBounds
      modifies this`version, this`kind, this`tokenlen, this`code, this`msgid, this`optcount,
               this`payload, this`payloadlen, token, options
      ensures Valid()
      ensures r == if len < 4 then InvalidLength else Success
      ensures r != Success ==> View() == old(View())
      ensures r == Success ==> var p := ParseMessage(buf[..], len);
        && View() == Frame(p.version, p.kind, p.code, p.msgid, p.token, p.options, PayloadView())
        && Stored(p.payload, old(payload), old(payloadlen), payload, payloadlen)
    {
      hide ParseMessage, View, PayloadView, Stored;
      if len < 4 {
        return InvalidLength;
      }
      DeserializeParts(buf, len, buf[..]);
      ViewParts();
      r := Success;
    }

    lemma ViewParts()
      requires Valid()
      ensures View() == Frame(version, kind, code, msgid, token[..tokenlen], options[..optcount], PayloadView())
    {
    }
  }

  lemma TakeNext(data: seq<u8>, i: nat)
    requires i < |data|
    ensures data[..i + 1] == data[..i] + [data[i]]
  {
  }

  lemma {:induction false} OrByte(data: u32, high: u8, low: u8)
    ensures Or(Or(data, 0x100 * Word(0, high)), low) == Or(data, Word(high, low))
  {
    Pow2Values();
    OrTwice(data, high, 8, low);
    hide Or;
  }

  lemma {:induction false} OrThree(data: u32, a: u8, b: u8, c: u8)
    ensures Or(Or(Or(data, 0x1_0000 * Word(0, a)), 0x100 * Word(0, b)), c)
         == Or(data, 0x1_0000 * Word(0, a) + Word(b, c))
  {
    Pow2Values();
    OrTwice(data, a, 16, 0x100 * Word(0, b));
    OrTwice(data, 0x100 * Word(0, a) + b, 8, c);
    hide Or, Pow2;
  }

  lemma {:induction false} OrFour(data: u32, a: u8, b: u8, c: u8, d: u8)
    ensures Or(Or(Or(Or(data, 0x100_0000 * Word(0, a)), 0x1_0000 * Word(0, b)), 0x100 * Word(0, c)), d)
         == Or(data, 0x1_0000 * Word(a, b) + Word(c, d))
  {
    Pow2Values();
    OrTwice(data, a, 24, 0x1_0000 * Word(0, b));
    OrTwice(data, Word(a, b), 16, 0x100 * Word(0, c));
    OrTwice(data, 0x100 * Word(a, b) + c, 8, d);
    hide Or, Pow2;
  }

  lemma {:induction false} LengthSums(front: nat, opts: u16, payloadlen: u16)
    ensures Low16(Low16(front) + opts) == Low16(front + opts)
    ensures Low16(Low16(Low16(front + opts) + payloadlen) + 1) == Low16(front + opts + (payloadlen + 1))
  {
    Low16Sum(front, opts);
    Low16Sum(front + opts, payloadlen);
    Low16Sum(front + opts + payloadlen, 1);
    hide Low16;
  }

  lemma {:induction false} ReadOptionParts(b: seq<u8>, at: nat, pre: u16)
    requires ReadOption(b, at, pre).Some?
    ensures at < |b|
    ensures var delta := ReadExtended(b, b[at] / 16, at + 1);
      delta.Some? && var len := ReadExtended(b, b[at] % 16, delta.value.next);
      && len.Some? && len.value.next + len.value.value <= |b|
      && ReadOption(b, at, pre)
         == Some(OptionRead(Opt(Low16(pre + delta.value.value), b[len.value.next..len.value.next + len.value.value]),
                            len.value.next + len.value.value))
  {
    hide ReadExtended, Low16;
  }

  lemma {:induction false} ParsedParts(b: seq<u8>, len: nat)
    requires 4 <= len <= |b| && ParseMessage(b, len) != OutOfBounds
    ensures var p, options := ParseMessage(b, len), ReadOptions(b, 4 + b[0] % 16, len, 0);
      && p.Parsed? && b[0] % 16 <= MAX_TOKEN && 4 + b[0] % 16 <= |b|
      && p.version == b[0] / 64 && p.kind == b[0] / 16 % 4 && p.code == b[1] && p.msgid == Word(b[2], b[3])
      && p.token == b[4..4 + b[0] % 16]
      && options.Some? && |options.value.opts| <= MAX_OPTIONS && p.options == options.value.opts
      && !ReadPayload(b, options.value.next, len).Outside?
      && p.payload == BytesOf(ReadPayload(b, options.value.next, len))
  {
    hide ReadOptions, ReadPayload, Word;
  }

  /** The parser has read `before` and stands at `next`; the rest of the options is still to come. */
  ghost predicate SoFar(b: seq<u8>, at: nat, end: nat, before: seq<Opt>, next: nat, pre: u16)
    requires end <= |b|
  {
    var all, rest := ReadOptions(b, at, end, 0), ReadOptions(b, next, end, pre);
    && all.Some? && rest.Some?
    && all.value.opts == before + rest.value.opts && all.value.next == rest.value.next
  }

  lemma StartsSoFar(b: seq<u8>, at: nat, end: nat)
    requires end <= |b| && ReadOptions(b, at, end, 0).Some?
    ensures SoFar(b, at, end, [], at, 0)
  {
  }

  lemma {:induction false} ExtendsSoFar(b: seq<u8>, at: nat, end: nat, before: seq<Opt>, next: nat, pre: u16)
    requires end <= |b| && next < end && b[next] != PAYLOAD_MARKER
    requires SoFar(b, at, end, before, next, pre)
    ensures ReadOption(b, next, pre).Some?
    ensures var first := ReadOption(b, next, pre).value;
      && next < first.next <= |b|
      && SoFar(b, at, end, before + [first.opt], first.next, first.opt.num)
    ensures |before| < |ReadOptions(b, at, end, 0).value.opts|
  {
    ReadOptionsUnfold(b, next, end, pre);
    hide ReadOption, ReadOptions;
    var first := ReadOption(b, next, pre).value;
    AppendOne(before, first.opt, ReadOptions(b, first.next, end, first.opt.num).value.opts);
  }

  lemma AppendOne<T>(a: seq<T>, x: T, rest: seq<T>)
    ensures a + ([x] + rest) == (a + [x]) + rest
  {
  }

  lemma {:induction false} EndsSoFar(b: seq<u8>, at: nat, end: nat, before: seq<Opt>, next: nat, pre: u16)
    requires end <= |b| && !(next < end && b[next] != PAYLOAD_MARKER)
    requires SoFar(b, at, end, before, next, pre)
    ensures ReadOptions(b, at, end, 0) == Some(OptionsRead(before, next))
  {
    ReadOptionsUnfold(b, next, end, pre);
    assert before + [] == before;
  }

  lemma EncodedOptionSize(o: Opt)
    ensures 1 <= |EncodeOption(o)| <= 0x1_0004
    ensures Low16(|EncodeOption(o)|) == 0 <==> |EncodeOption(o)| == 0x1_0000
  {
  }

  /** The first `i` options were summed up to `count`, and none of them had a length that wraps to 0. */
  ghost predicate LengthSoFar(os: seq<Opt>, i: nat, count: u16)
    requires i <= |os|
  {
    && count == Low16(|EncodeOptions(os[..i])|)
    && forall j :: 0 <= j < i ==> |EncodeOption(os[j])| != 0x1_0000
  }

  lemma {:induction false} StartsLength(os: seq<Opt>)
    ensures LengthSoFar(os, 0, 0)
  {
    assert os[..0] == [];
  }

  lemma {:induction false} ExtendsLength(os: seq<Opt>, i: nat, count: u16)
    requires i < |os| && LengthSoFar(os, i, count)
    ensures var len := Low16(|EncodeOption(os[i])|);
      if len == 0 then OptionsLength(os) == 0 else LengthSoFar(os, i + 1, Low16(count + len))
  {
    EncodedOptionSize(os[i]);
    hide EncodeOption, EncodeOptions, Low16;
    var len := Low16(|EncodeOption(os[i])|);
    if len != 0 {
      EncodeOptionsSnoc(os, i);
      Low16Join(|EncodeOptions(os[..i])|, |EncodeOption(os[i])|);
    }
  }

  lemma Low16Join(a: nat, b: nat)
    ensures Low16(a + b) == Low16(Low16(a) + Low16(b))
  {
  }

  lemma {:induction false} EndsLength(os: seq<Opt>, count: u16)
    requires LengthSoFar(os, |os|, count)
    ensures count == OptionsLength(os)
  {
    assert os[..|os|] == os;
  }
}

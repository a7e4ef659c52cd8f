/** utils_base64encode, utils_base64decode and ota_base64_decode as they run over output buffers,
    proved to compute the functions of Base64Spec. */
module Base64Codec {
  import opened Machine
  import opened Base64Spec

  /** `a` and `b` agree outside `lo..hi`. */
  ghost predicate SameOutside(a: seq<u8>, b: seq<u8>, lo: nat, hi: nat)
    requires lo <= hi <= |a|
  {
    |a| == |b| && a[..lo] == b[..lo] && a[hi..] == b[hi..]
  }

  // ---------------------------------------------------------------- encoding

  method EncodeGroup(a: u8, b: u8, c: u8, out: array<u8>, j: nat)
    requires j + 4 <= out.Length
    modifies out
    ensures out[j..j + 4] == Quad(a, b, c) && SameOutside(out[..], old(out[..]), j, j + 4)
  {
    TripleSextets(a, b, c);
    var triple: int := 0x1_0000 * a + 0x100 * b + c;
    out[j] := Symbol(triple / 0x4_0000 % 64);
    out[j + 1] := Symbol(triple / 0x1000 % 64);
    out[j + 2] := Symbol(triple / 0x40 % 64);
    out[j + 3] := Symbol(triple % 64);
  }

  /** The first `k` groups have been written. */
  ghost predicate EncodedSoFar(out: seq<u8>, data: seq<u8>, k: nat) {
    |out| >= EncodedLength(|data|) >= 4 * k && |Raw(data)| >= 4 * k && out[..4 * k] == Raw(data)[..4 * k]
  }

  lemma RoomForGroup(out: seq<u8>, data: seq<u8>, k: nat)
    requires EncodedSoFar(out, data, k) && 3 * k < |data|
    ensures 4 * k + 4 <= EncodedLength(|data|) <= |out|
  {
  }

  lemma {:induction false} ExtendsEncoded(before: seq<u8>, after: seq<u8>, data: seq<u8>, k: nat)
    requires EncodedSoFar(before, data, k) && 3 * k < |data| && 4 * k + 4 <= |after|
    requires SameOutside(after, before, 4 * k, 4 * k + 4)
    requires after[4 * k..4 * k + 4] == Quad(data[3 * k], Octet(data, 3 * k + 1), Octet(data, 3 * k + 2))
    ensures EncodedSoFar(after, data, k + 1)
  {
    RawAt(data, k);
    hide Raw, Quad;
    TakeMore(after, Raw(data), 4 * k, 4 * k + 4);
  }

  lemma {:induction false} TakeMore(a: seq<u8>, b: seq<u8>, lo: nat, hi: nat)
    requires lo <= hi <= |a| && hi <= |b|
    requires a[..lo] == b[..lo] && a[lo..hi] == b[lo..hi]
    ensures a[..hi] == b[..hi]
  {
    assert a[..hi] == a[..lo] + a[lo..hi];
    assert b[..hi] == b[..lo] + b[lo..hi];
  }

  method WritePads(out: array<u8>, len: nat, count: nat)
    requires count <= 2 && count <= len <= out.Length
    modifies out
    ensures out[..len] == old(out[..len - count]) + PadText(count)
    ensures out[len..] == old(out[len..])
  {
    var i := 0;
    while i < count
      invariant 0 <= i <= count
      invariant out[..len - i] == old(out[..len - i]) && out[len..] == old(out[len..])
      invariant forall k :: len - i <= k < len ==> out[k] == PAD
    {
      out[len - 1 - i] := PAD;
      i := i + 1;
    }
    assert out[..len] == out[..len - count] + out[len - count..len];
    assert out[len - count..len] == PadText(count);
  }

  /** utils_base64encode */
  method Encode64(data: seq<u8>, outputLenMax: u32, out: array?<u8>) returns (ok: bool, outputLength: u32)
    requires EncodedLength(|data|) < 0x1_0000_0000
    requires out != null ==> outputLenMax <= out.Length
    modifies out
    ensures ok <==> out != null && |Encode(data)| <= outputLenMax
    ensures out != null ==> outputLength == |Encode(data)|
    ensures ok ==> out[..outputLength] == Encode(data) && out[outputLength..] == old(out[outputLength..])
    ensures !ok && out != null ==> out[..] == old(out[..])
  {
    EncodeIsPaddedRaw(data);
    hide Raw, Encode, Quad, EncodedSoFar;
    if out == null {
      return false, 0;
    }
    outputLength := 4 * ((|data| + 2) / 3);
    if outputLenMax < outputLength {
      return false, outputLength;
    }
    ghost var k := 0;
    var i, j := 0, 0;
    StartsEncoded(out[..], data);
    while i < |data|
      invariant i == (if 3 * k <= |data| then 3 * k else |data|) && j == 4 * k && 3 * k < |data| + 3
      invariant EncodedSoFar(out[..], data, k) && out[outputLength..] == old(out[outputLength..])
    {
      var a, b, c := data[i], 0, 0;
      i := i + 1;
      if i < |data| {
        b := data[i];
        i := i + 1;
      }
      if i < |data| {
        c := data[i];
        i := i + 1;
      }
      ghost var before := out[..];
      RoomForGroup(before, data, k);
      EncodeGroup(a, b, c, out, j);
      ExtendsEncoded(before, out[..], data, k);
      assert out[outputLength..] == before[outputLength..] by {
        SuffixOfSuffix(out[..], before, 4 * k + 4, outputLength);
      }
      j := j + 4;
      k := k + 1;
    }
    EndsEncoded(out[..], data, k);
    WritePads(out, outputLength, Pads(|data|));
    ok := true;
  }

  lemma {:induction false} SuffixOfSuffix(a: seq<u8>, b: seq<u8>, lo: nat, hi: nat)
    requires lo <= hi <= |a| == |b| && a[lo..] == b[lo..]
    ensures a[hi..] == b[hi..]
  {
    assert a[hi..] == a[lo..][hi - lo..];
    assert b[hi..] == b[lo..][hi - lo..];
  }

  lemma StartsEncoded(out: seq<u8>, data: seq<u8>)
    requires EncodedLength(|data|) <= |out|
    ensures EncodedSoFar(out, data, 0)
  {
  }

  lemma {:induction false} EndsEncoded(out: seq<u8>, data: seq<u8>, k: nat)
    requires EncodedSoFar(out, data, k) && |data| <= 3 * k < |data| + 3
    ensures 4 * k == EncodedLength(|data|) == |Raw(data)| <= |out| && out[..4 * k] == Raw(data)
    ensures Pads(|data|) <= 4 * k
    ensures out[..4 * k - Pads(|data|)] == Raw(data)[..4 * k - Pads(|data|)]
  {
    RawLength(data);
    hide Raw;
    assert Raw(data)[..4 * k] == Raw(data);
    PadsFit(|data|);
    assert out[..4 * k - Pads(|data|)] == out[..4 * k][..4 * k - Pads(|data|)];
  }

  lemma PadsFit(n: nat)
    ensures Pads(n) <= EncodedLength(n)
  {
  }

  // ---------------------------------------------------------------- the decoder of alcs_base64.c

  lemma ValueInverse(c: u8)
    ensures AlcsValue(c) != 0 ==> Symbol(AlcsValue(c)) == c
  {
  }

  /** build_decoding_table on a zeroed table: bytes that are no symbol keep the value 0. */
  method BuildDecodingTable(table: array<u8>)
    requires table.Length == 256 && forall c :: 0 <= c < 256 ==> table[c] == 0
    modifies table
    ensures forall c :: 0 <= c < 256 ==> table[c] == AlcsValue(c)
  {
    var i := 0;
    while i < 64
      invariant 0 <= i <= 64
      invariant forall c :: 0 <= c < 256 ==> table[c] == if AlcsValue(c) < i then AlcsValue(c) else 0
    {
      SymbolInverse(i);
      forall c | 0 <= c < 256 ensures AlcsValue(c) == i ==> i == 0 || c == Symbol(i) {
        ValueInverse(c);
      }
      hide AlcsValue, Symbol;
      table[Symbol(i)] := i;
      i := i + 1;
    }
  }

  method ReadSymbol(c: u8, table: array<u8>) returns (v: sextet)
    requires table.Length == 256 && forall c :: 0 <= c < 256 ==> table[c] == AlcsValue(c)
    ensures v == AlcsValue(c)
  {
    if c == PAD {
      v := 0;
    } else {
      v := table[c];
    }
  }

  method DecodeGroup(data: seq<u8>, i: nat, table: array<u8>) returns (bytes: seq<u8>)
    requires i + 4 <= |data| && table.Length == 256 && forall c :: 0 <= c < 256 ==> table[c] == AlcsValue(c)
    ensures |bytes| == 3
    ensures bytes == Bytes(AlcsValue(data[i]), AlcsValue(data[i + 1]), AlcsValue(data[i + 2]), AlcsValue(data[i + 3]))
  {
    hide AlcsValue;
    var a := ReadSymbol(data[i], table);
    var b := ReadSymbol(data[i + 1], table);
    var c := ReadSymbol(data[i + 2], table);
    var d := ReadSymbol(data[i + 3], table);
    bytes := SplitTriple(a, b, c, d);
  }

  method SplitTriple(a: sextet, b: sextet, c: sextet, d: sextet) returns (bytes: seq<u8>)
    ensures bytes == Bytes(a, b, c, d) && |bytes| == 3
  {
    TripleBytes(a, b, c, d);
    var triple: int := 0x4_0000 * a + 0x1000 * b + 0x40 * c + d;
    bytes := [triple / 0x1_0000 % 256, triple / 0x100 % 256, triple % 256];
  }

  /** The first `k` groups have been decoded, and what of them fits in `len` bytes has been written. */
  ghost predicate DecodedSoFar(out: seq<u8>, s: seq<u8>, k: nat, j: nat, len: nat)
    requires |s| % 4 == 0
  {
    && 4 * k <= |s| && j == (if 3 * k < len then 3 * k else len) && len <= |out|
    && |DecodeQuads(s)| == |s| / 4 * 3 >= len && out[..j] == DecodeQuads(s)[..j]
  }

  lemma SliceStart(s: seq<u8>, lo: nat, hi: nat, n: nat)
    requires lo + n <= hi <= |s|
    ensures s[lo..hi][..n] == s[lo..lo + n]
  {
  }

  lemma {:induction false} ExtendsDecoded(before: seq<u8>, after: seq<u8>, s: seq<u8>, k: nat, j: nat, j': nat,
                                          len: nat, bytes: seq<u8>)
    requires |s| % 4 == 0 && DecodedSoFar(before, s, k, j, len) && 4 * k < |s|
    requires bytes
          == Bytes(AlcsValue(s[4 * k]), AlcsValue(s[4 * k + 1]), AlcsValue(s[4 * k + 2]), AlcsValue(s[4 * k + 3]))
    requires |bytes| == 3 && j' == (if 3 * k + 3 < len then 3 * k + 3 else len)
    requires |after| == |before| && after[..j] == before[..j] && after[j..j'] == bytes[..j' - j]
    ensures DecodedSoFar(after, s, k + 1, j', len)
  {
    DecodeQuadsAt(s, k);
    hide DecodeQuads, Bytes, AlcsValue;
    var full := DecodeQuads(s);
    if j < len {
      SliceStart(full, 3 * k, 3 * k + 3, j' - j);
      TakeMore(after, full, j, j');
    }
  }

  /** utils_base64decode. It reads the last two characters, so a length of zero is not its business. */
  method Decode64(data: seq<u8>, outputLenMax: u32, out: array<u8>, table: array<u8>)
    returns (ok: bool, outputLength: nat)
    requires data != [] && |data| < 0x1_0000_0000
    requires table.Length == 256 && out != table && forall c :: 0 <= c < 256 ==> table[c] == AlcsValue(c)
    requires outputLenMax <= out.Length
    modifies out
    ensures ok <==> |data| % 4 == 0 && |AlcsDecode(data)| <= outputLenMax
    ensures |data| % 4 == 0 ==> outputLength == |AlcsDecode(data)|
    ensures ok ==> out[..outputLength] == AlcsDecode(data) && out[outputLength..] == old(out[outputLength..])
    ensures !ok ==> out[..] == old(out[..])
  {
    if |data| % 4 != 0 {
      return false, 0;
    }
    DecodeQuadsLength(data);
    hide DecodeQuads, DecodedSoFar, AlcsValue;
    outputLength := |data| / 4 * 3;
    if data[|data| - 1] == PAD {
      outputLength := outputLength - 1;
    }
    if data[|data| - 2] == PAD {
      outputLength := outputLength - 1;
    }
    if outputLenMax < outputLength {
      return false, outputLength;
    }
    DecodeGroups(data, outputLength, out, table);
    ok := true;
  }

  method DecodeGroups(data: seq<u8>, len: nat, out: array<u8>, table: array<u8>)
    requires |data| % 4 == 0 && len <= |DecodeQuads(data)| == |data| / 4 * 3 && len <= out.Length
    requires table.Length == 256 && out != table && forall c :: 0 <= c < 256 ==> table[c] == AlcsValue(c)
    modifies out
    ensures out[..len] == DecodeQuads(data)[..len] && out[len..] == old(out[len..])
  {
    StartsDecoded(out[..], data, len);
    hide DecodeQuads, DecodedSoFar, AlcsValue;
    ghost var k := 0;
    var i, j := 0, 0;
    while i < |data|
      invariant i == 4 * k <= |data| && 0 <= j <= len
      invariant DecodedSoFar(out[..], data, k, j, len) && out[len..] == old(out[len..])
    {
      DecodedBounds(out[..], data, k, j, len);
      var bytes := DecodeGroup(data, i, table);
      ghost var before := out[..];
      var j' := WriteWhileRoom(out, j, len, bytes);
      ExtendsDecoded(before, out[..], data, k, j, j', len, bytes);
      j, i, k := j', i + 4, k + 1;
    }
    EndsDecoded(out[..], data, k, j, len);
  }

  /** Three conditional writes. */
  method WriteWhileRoom(out: array<u8>, j: nat, len: nat, bytes: seq<u8>) returns (next: nat)
    requires j <= len <= out.Length && |bytes| == 3
    modifies out
    ensures next == if j + 3 < len then j + 3 else len
    ensures out[..j] == old(out[..j]) && out[j..next] == bytes[..next - j] && out[next..] == old(out[next..])
    ensures out[len..] == old(out[len..])
  {
    next := j;
    if next < len {
      out[next] := bytes[0];
      next := next + 1;
    }
    if next < len {
      out[next] := bytes[1];
      next := next + 1;
    }
    if next < len {
      out[next] := bytes[2];
      next := next + 1;
    }
  }

  lemma {:induction false} StartsDecoded(out: seq<u8>, s: seq<u8>, len: nat)
    requires |s| % 4 == 0 && len <= |out| && len <= |s| / 4 * 3
    ensures DecodedSoFar(out, s, 0, 0, len)
  {
    DecodeQuadsLength(s);
  }

  lemma DecodedBounds(out: seq<u8>, s: seq<u8>, k: nat, j: nat, len: nat)
    requires |s| % 4 == 0 && DecodedSoFar(out, s, k, j, len)
    ensures j == if 3 * k < len then 3 * k else len
  {
  }

  lemma EndsDecoded(out: seq<u8>, s: seq<u8>, k: nat, j: nat, len: nat)
    requires |s| % 4 == 0 && DecodedSoFar(out, s, k, j, len) && 4 * k == |s|
    ensures j == len <= |out| && len <= |DecodeQuads(s)| && out[..len] == DecodeQuads(s)[..len]
  {
  }

  // ---------------------------------------------------------------- the decoder of wrapper_ota.c

  /** The first pass of ota_base64_decode. */
  method FirstPass(src: seq<u8>) returns (r: Option<Scanned>)
    ensures r == Scan(src, 0, 0)
  {
    var i, n, j := 0, 0, 0;
    while i < |src|
      invariant 0 <= i <= |src| && Scan(src[i..], n, j) == Scan(src, 0, 0)
    {
      assert src[i..][0] == src[i] && src[i..][1..] == src[i + 1..];
      if |src| - i >= 2 && src[i] == CR && src[i + 1] == LF {
        assert src[i..][1] == LF;
        i := i + 1;
        continue;
      }
      if src[i] == LF {
        i := i + 1;
        continue;
      }
      if src[i] == PAD {
        j := j + 1;
        if j > 2 {
          return None;
        }
      }
      if src[i] > 127 || OtaValue(src[i]) == 127 {
        return None;
      }
      if OtaValue(src[i]) < 64 && j != 0 {
        return None;
      }
      n := n + 1;
      i := i + 1;
    }
    r := Some(Scanned(n, j));
  }

  /** 64^n: the second pass holds the `n` symbols of an unfinished group in the low 6n bits of `x`. */
  function Weight(n: nat): nat
    requires n <= 4
  {
    if n == 0 then 1 else if n == 1 then 0x40 else if n == 2 then 0x1000 else if n == 3 then 0x4_0000 else 0x100_0000
  }

  function Pending(s: seq<u8>): nat {
    if s == [] then 0 else 64 * Pending(s[..|s| - 1]) + Low6(s[|s| - 1])
  }

  lemma {:induction false} ShiftInBy(x: u32, m: nat, k: nat, v: sextet)
    requires m > 0 && 64 * m * k == 0x1_0000_0000
    ensures Low32(64 * x + v) % (64 * m) == 64 * (x % m) + v
  {
    var q, r, y: int := x / m, x % m, 64 * x + v;
    var w := y / 0x1_0000_0000;
    assert x == q * m + r;
    assert Low32(y) == y - w * (64 * m * k);
    assert w * (64 * m * k) == (w * k) * (64 * m);
    assert 64 * (q * m) == q * (64 * m);
    assert (q - w * k) * (64 * m) == q * (64 * m) - (w * k) * (64 * m);
    Divides(Low32(y), 64 * m, q - w * k, 64 * r + v);
  }

  lemma {:induction false} ShiftIn(x: u32, s: seq<u8>, c: u8)
    requires |s| < 4 && x % Weight(|s|) == Pending(s)
    ensures Low32(64 * x + Low6(c)) % Weight(|s| + 1) == Pending(s + [c])
  {
    assert (s + [c])[..|s|] == s;
    hide Low6, Low32;
    if |s| == 0 {
      ShiftInBy(x, 1, 0x400_0000, Low6(c));
    } else if |s| == 1 {
      ShiftInBy(x, 0x40, 0x10_0000, Low6(c));
    } else if |s| == 2 {
      ShiftInBy(x, 0x1000, 0x4000, Low6(c));
    } else {
      ShiftInBy(x, 0x4_0000, 0x100, Low6(c));
    }
  }

  lemma {:induction false} PendingOfFour(s: seq<u8>)
    requires |s| == 4
    ensures Pending(s) == 0x4_0000 * Low6(s[0]) + 0x1000 * Low6(s[1]) + 0x40 * Low6(s[2]) + Low6(s[3])
  {
    hide Low6;
    assert s[..3][..2] == s[..2] && s[..2][..1] == s[..1] && s[..1][..0] == [];
    assert Pending(s[..1]) == Low6(s[0]);
    assert Pending(s[..2]) == 64 * Pending(s[..1]) + Low6(s[1]);
    assert Pending(s[..3]) == 64 * Pending(s[..2]) + Low6(s[2]);
  }

  /** The casts to unsigned char keep only the current group. */
  lemma {:induction false} GroupBytes(x: u32, s: seq<u8>)
    requires |s| == 4 && x % Weight(4) == Pending(s)
    ensures [x / 0x1_0000 % 256, x / 0x100 % 256, x % 256] == Bytes(Low6(s[0]), Low6(s[1]), Low6(s[2]), Low6(s[3]))
  {
    PendingOfFour(s);
    TripleBytes(Low6(s[0]), Low6(s[1]), Low6(s[2]), Low6(s[3]));
    LowBytes(x, Pending(s));
    hide Low6, Bytes, Pending;
  }

  /** Whole multiples of 2^24 do not show in a byte below them. */
  lemma {:induction false} DropHigh(y: nat, t: nat, m: nat, k: nat)
    requires 0 < m && m * k == 0x100_0000 && k % 256 == 0 && t < 0x100_0000
    ensures (0x100_0000 * y + t) / m % 256 == t / m % 256
  {
    var q, r := t / m, t % m;
    assert (k * y + q) * m + r == (m * k) * y + (q * m + r);
    Divides(0x100_0000 * y + t, m, k * y + q, r);
    assert k * y + q == 256 * (k / 256 * y) + q;
    Divides(k * y + q, 256, k / 256 * y + q / 256, q % 256);
  }

  lemma {:induction false} LowBytes(x: u32, t: nat)
    requires x % 0x100_0000 == t
    ensures x / 0x1_0000 % 256 == t / 0x1_0000 % 256 && x / 0x100 % 256 == t / 0x100 % 256 && x % 256 == t % 256
  {
    DropHigh(x / 0x100_0000, t, 0x1_0000, 256);
    DropHigh(x / 0x100_0000, t, 0x100, 0x1_0000);
    DropHigh(x / 0x100_0000, t, 1, 0x100_0000);
  }

  /** After `done`, the second pass over `text` produces the rest of `full`. */
  ghost predicate Continues(done: seq<u8>, text: seq<u8>, pads: nat, full: seq<u8>) {
    PadsLast(text, pads) && done + Groups(text, pads) == full
  }

  /** Where the second pass stands: `done` is written, `group` is read but not complete, `pads` counts
      the '=' before that group. */
  ghost predicate PassedSoFar(src: seq<u8>, at: nat, done: seq<u8>, group: seq<u8>, pads: nat) {
    at <= |src| && |group| < 4 && Continues(done, group + Symbols(src[at..]), pads, Groups(Symbols(src), 0))
  }

  lemma {:induction false} StartsPass(src: seq<u8>)
    requires Scan(src, 0, 0).Some?
    ensures PassedSoFar(src, 0, [], [], 0)
  {
    ScanAccepts(src, 0, 0);
    assert src[0..] == src && [] + Symbols(src) == Symbols(src);
  }

  lemma {:induction false} SkipsBreak(src: seq<u8>, at: nat, done: seq<u8>, group: seq<u8>, pads: nat)
    requires PassedSoFar(src, at, done, group, pads) && at < |src| && (src[at] == CR || src[at] == LF)
    ensures PassedSoFar(src, at + 1, done, group, pads)
  {
    assert src[at..][1..] == src[at + 1..];
    assert Symbols(src[at..]) == Symbols(src[at + 1..]);
  }

  lemma {:induction false} SymbolsStep(src: seq<u8>, at: nat, group: seq<u8>)
    requires at < |src| && src[at] != CR && src[at] != LF
    ensures group + Symbols(src[at..]) == (group + [src[at]]) + Symbols(src[at + 1..])
  {
    assert src[at..][1..] == src[at + 1..];
    assert Symbols(src[at..]) == [src[at]] + Symbols(src[at + 1..]);
  }

  lemma {:induction false} GroupsStep(group: seq<u8>, rest: seq<u8>, pads: nat)
    requires |group| == 4 && pads + CountPads(group) <= 2
    ensures Groups(group + rest, pads)
         == Bytes(Low6(group[0]), Low6(group[1]), Low6(group[2]), Low6(group[3]))[..3 - pads - CountPads(group)]
            + Groups(rest, pads + CountPads(group))
  {
    assert (group + rest)[..4] == group && (group + rest)[4..] == rest;
    hide Bytes, Low6, CountPads;
  }

  lemma {:induction false} PadsStep(group: seq<u8>, rest: seq<u8>, pads: nat)
    requires PadsLast(group + rest, pads)
    ensures PadsLast(rest, pads + CountPads(group)) && pads + CountPads(group) <= 2
  {
    PadsLastDrop(group + rest, pads, |group|);
    assert (group + rest)[..|group|] == group && (group + rest)[|group|..] == rest;
  }

  lemma {:induction false} TakesSymbol(src: seq<u8>, at: nat, done: seq<u8>, group: seq<u8>, pads: nat)
    requires PassedSoFar(src, at, done, group, pads) && at < |src| && src[at] != CR && src[at] != LF
    ensures pads + CountPads(group + [src[at]]) <= 2
    ensures |group| < 3 ==> PassedSoFar(src, at + 1, done, group + [src[at]], pads)
  {
    SymbolsStep(src, at, group);
    hide Groups, Symbols, PadsLast, CountPads;
    PadsStep(group + [src[at]], Symbols(src[at + 1..]), pads);
  }

  lemma Regroup(done: seq<u8>, bytes: seq<u8>, tail: seq<u8>)
    ensures done + (bytes + tail) == (done + bytes) + tail
  {
  }

  lemma {:induction false} GroupDone(done: seq<u8>, g: seq<u8>, rest: seq<u8>, pads: nat, full: seq<u8>)
    requires |g| == 4 && Continues(done, g + rest, pads, full) && pads + CountPads(g) <= 2
    ensures var pads' := pads + CountPads(g);
      Continues(done + Bytes(Low6(g[0]), Low6(g[1]), Low6(g[2]), Low6(g[3]))[..3 - pads'], rest, pads', full)
  {
    PadsStep(g, rest, pads);
    GroupsStep(g, rest, pads);
    hide Groups, PadsLast, Bytes, Low6, CountPads;
    var pads' := pads + CountPads(g);
    Regroup(done, Bytes(Low6(g[0]), Low6(g[1]), Low6(g[2]), Low6(g[3]))[..3 - pads'], Groups(rest, pads'));
  }

  lemma {:induction false} CompletesGroup(src: seq<u8>, at: nat, done: seq<u8>, group: seq<u8>, pads: nat)
    requires PassedSoFar(src, at, done, group, pads) && at < |src| && src[at] != CR && src[at] != LF
    requires |group| == 3 && pads + CountPads(group + [src[at]]) <= 2
    ensures var g, pads' := group + [src[at]], pads + CountPads(group + [src[at]]);
      PassedSoFar(src, at + 1, done + Bytes(Low6(g[0]), Low6(g[1]), Low6(g[2]), Low6(g[3]))[..3 - pads'], [], pads')
  {
    SymbolsStep(src, at, group);
    hide Symbols, Continues, CountPads, Bytes, Low6, Groups;
    GroupDone(done, group + [src[at]], Symbols(src[at + 1..]), pads, Groups(Symbols(src), 0));
    assert [] + Symbols(src[at + 1..]) == Symbols(src[at + 1..]);
  }

  lemma {:induction false} EndsPass(src: seq<u8>, done: seq<u8>, group: seq<u8>, pads: nat)
    requires PassedSoFar(src, |src|, done, group, pads)
    ensures done == Groups(Symbols(src), 0)
  {
    assert src[|src|..] == [];
    assert group + [] == group;
    assert done + [] == done;
  }

  lemma DoneFits(src: seq<u8>, at: nat, done: seq<u8>, group: seq<u8>, pads: nat)
    requires PassedSoFar(src, at, done, group, pads)
    ensures |done| <= |Groups(Symbols(src), 0)|
  {
  }

  method WriteGroup(x: u32, j: nat, out: array<u8>, p: nat) returns (next: nat)
    requires 1 <= j <= 3 && p + j <= out.Length
    modifies out
    ensures next == p + j && out[..p] == old(out[..p]) && out[next..] == old(out[next..])
    ensures out[p..next] == [x / 0x1_0000 % 256, x / 0x100 % 256, x % 256][..j]
  {
    next := p;
    if j > 0 {
      out[next] := x / 0x1_0000 % 256;
      next := next + 1;
    }
    if j > 1 {
      out[next] := x / 0x100 % 256;
      next := next + 1;
    }
    if j > 2 {
      out[next] := x % 256;
      next := next + 1;
    }
  }

  /** The state of the second pass between two characters. */
  ghost predicate PassInv(src: seq<u8>, at: nat, done: seq<u8>, group: seq<u8>, x: u32, j: nat) {
    && |group| < 4 && x % Weight(|group|) == Pending(group)
    && 1 <= j && j + CountPads(group) <= 3 && PassedSoFar(src, at, done, group, 3 - j - CountPads(group))
  }

  /** One symbol later; a complete group is about to be written. */
  lemma {:induction false} PassStep(src: seq<u8>, at: nat, done: seq<u8>, group: seq<u8>, x: u32, j: nat)
    requires PassInv(src, at, done, group, x, j) && at < |src| && src[at] != CR && src[at] != LF
    ensures var c := src[at];
      var g, x', j' := group + [c], Low32(64 * x + Low6(c)), j - (if c == PAD then 1 else 0);
      && 1 <= j' && x' % Weight(|g|) == Pending(g)
      && (|g| < 4 ==> PassInv(src, at + 1, done, g, x', j'))
      && (|g| == 4 ==>
            PassedSoFar(src, at + 1, done + Bytes(Low6(g[0]), Low6(g[1]), Low6(g[2]), Low6(g[3]))[..j'], [], 3 - j'))
  {
    var c, pads := src[at], 3 - j - CountPads(group);
    TakesSymbol(src, at, done, group, pads);
    CountPadsAppend(group, c);
    ShiftIn(x, group, c);
    if |group| == 3 {
      CompletesGroup(src, at, done, group, pads);
    }
    hide PassedSoFar, Bytes, Low6, Low32, CountPads, Pending, Weight;
  }

  method FlushGroup(x: u32, j: nat, out: array<u8>, p: nat, ghost src: seq<u8>, ghost at: nat, ghost group: seq<u8>)
      returns (next: nat)
    requires 1 <= j <= 3 && p <= out.Length && |group| == 4 && x % Weight(4) == Pending(group)
    requires |Groups(Symbols(src), 0)| <= out.Length
    requires var bytes := Bytes(Low6(group[0]), Low6(group[1]), Low6(group[2]), Low6(group[3]));
      PassedSoFar(src, at, out[..p] + bytes[..j], [], 3 - j)
    modifies out
    ensures p <= next <= out.Length && PassInv(src, at, out[..next], [], x, j)
    ensures out[next..] == old(out[next..])
  {
    ghost var done, bytes := out[..p], Bytes(Low6(group[0]), Low6(group[1]), Low6(group[2]), Low6(group[3]));
    GroupBytes(x, group);
    DoneFits(src, at, done + bytes[..j], [], 3 - j);
    EmptyGroup();
    hide PassedSoFar, Groups, Symbols, Bytes, Low6, Pending, CountPads;
    next := WriteGroup(x, j, out, p);
    assert out[..next] == out[..p] + out[p..next];
  }

  /** One character that is no line break: four symbols make a group, whose bytes are written. */
  method TakeSymbol(c: u8, n: nat, j: nat, x: u32, out: array<u8>, p: nat,
                    ghost src: seq<u8>, ghost at: nat, ghost group: seq<u8>)
      returns (n': nat, j': nat, x': u32, p': nat, ghost group': seq<u8>)
    requires p <= out.Length && n == |group| && |Groups(Symbols(src), 0)| <= out.Length
    requires at < |src| && c == src[at] && c != CR && c != LF && PassInv(src, at, out[..p], group, x, j)
    modifies out
    ensures p <= p' <= out.Length && n' == |group'| && PassInv(src, at + 1, out[..p'], group', x', j')
    ensures out[p'..] == old(out[p'..])
  {
    PassStep(src, at, out[..p], group, x, j);
    PassBounds(src, at, out[..p], group, x, j);
    LowSix(c);
    hide Groups, Symbols, PassedSoFar, PassInv, Bytes, Low6, Low32, Pending, CountPads, Weight, OtaValue;
    j' := j - (if OtaValue(c) == 64 then 1 else 0);
    x' := Low32(64 * x + OtaValue(c) % 64);
    n', group', p' := n + 1, group + [c], p;
    if n' == 4 {
      p' := FlushGroup(x', j', out, p, src, at + 1, group');
      n', group' := 0, [];
    }
  }

  lemma PassBounds(src: seq<u8>, at: nat, done: seq<u8>, group: seq<u8>, x: u32, j: nat)
    requires PassInv(src, at, done, group, x, j)
    ensures |group| < 4 && 1 <= j <= 3
  {
  }

  /** The second pass of ota_base64_decode: it writes the decoded bytes, no more of them than the first
      pass promised, and leaves everything behind them alone. */
  method SecondPass(src: seq<u8>, out: array<u8>) returns (p: nat)
    requires Scan(src, 0, 0).Some? && Size(Scan(src, 0, 0).value) <= out.Length
    modifies out
    ensures p == |Groups(Symbols(src), 0)| <= Size(Scan(src, 0, 0).value)
    ensures out[..p] == Groups(Symbols(src), 0) && out[p..] == old(out[p..])
  {
    TwoPassBound(src);
    StartsPass(src);
    PassStarts(src);
    hide Scan, Symbols, Groups, PassedSoFar, PassInv, OtaValue;
    ghost var group := [];
    var at, n, j, x := 0, 0, 3, 0;
    p := 0;
    assert out[..0] == [];
    while at < |src|
      invariant 0 <= at <= |src| && p <= out.Length && n == |group|
      invariant PassInv(src, at, out[..p], group, x, j) && out[p..] == old(out[p..])
    {
      if src[at] == CR || src[at] == LF {
        PassBreak(src, at, out[..p], group, x, j);
      } else {
        ghost var was, q := out[..], p;
        n, j, x, p, group := TakeSymbol(src[at], n, j, x, out, p, src, at, group);
        SuffixOfSuffix(was, old(out[..]), q, p);
      }
      at := at + 1;
    }
    PassEnds(src, out[..p], group, x, j);
  }

  lemma {:induction false} PassStarts(src: seq<u8>)
    requires PassedSoFar(src, 0, [], [], 0)
    ensures PassInv(src, 0, [], [], 0, 3)
  {
    EmptyGroup();
  }

  lemma {:induction false} PassBreak(src: seq<u8>, at: nat, done: seq<u8>, group: seq<u8>, x: u32, j: nat)
    requires PassInv(src, at, done, group, x, j) && at < |src| && (src[at] == CR || src[at] == LF)
    ensures PassInv(src, at + 1, done, group, x, j)
  {
    hide PassedSoFar, Symbols, Groups, Pending, CountPads;
    SkipsBreak(src, at, done, group, 3 - j - CountPads(group));
  }

  lemma {:induction false} PassEnds(src: seq<u8>, done: seq<u8>, group: seq<u8>, x: u32, j: nat)
    requires PassInv(src, |src|, done, group, x, j)
    ensures done == Groups(Symbols(src), 0)
  {
    hide PassedSoFar, Symbols, Groups, Pending, CountPads;
    EndsPass(src, done, group, 3 - j - CountPads(group));
  }

  lemma EmptyGroup()
    ensures CountPads([]) == 0 && Pending([]) == 0
  {
  }

  lemma LowSix(c: u8)
    ensures Low6(c) == OtaValue(c) % 64 && (OtaValue(c) == 64 <==> c == PAD)
  {
  }

  lemma {:induction false} CountPadsAppend(s: seq<u8>, c: u8)
    ensures CountPads(s + [c]) == CountPads(s) + (if c == PAD then 1 else 0)
  {
    CountPadsSplit(s + [c], |s|);
    assert (s + [c])[..|s|] == s && (s + [c])[|s|..] == [c];
  }

  /** ota_base64_decode: `dlen` is the capacity on entry and the decoded or required size on exit. An
      input without symbols succeeds and leaves it alone. */
  method OtaDecode64(src: seq<u8>, out: array?<u8>, dlen: nat) returns (ret: int, dlen': int)
    requires 6 * |src| + 7 < 0x1_0000_0000
    requires out != null ==> dlen <= out.Length
    modifies out
    ensures match OtaDecode(src, if out == null then 0 else dlen)
      case Bad => ret == -1 && dlen' == dlen
      case Empty => ret == 0 && dlen' == dlen
      case TooSmall(size) => ret == -2 && dlen' == size
      case Done(bytes) => if out == null then ret == -2 && dlen' == 0
                          else ret == 0 && dlen' == |bytes| <= dlen && out[..] == bytes + old(out[..])[|bytes|..]
    ensures out != null && (ret != 0 || OtaDecode(src, dlen).Empty?) ==> out[..] == old(out[..])
  {
    dlen' := dlen;
    var r := FirstPass(src);
    if r == None {
      return -1, dlen';
    }
    if r.value.symbols == 0 {
      return 0, dlen';
    }
    TwoPassBound(src);
    hide Scan, Groups, Symbols;
    var size := (r.value.symbols * 6 + 7) / 8 - r.value.pads;
    if out == null || dlen < size {
      return -2, size;
    }
    ghost var was := out[..];
    dlen' := SecondPass(src, out);
    assert out[..] == out[..dlen'] + out[dlen'..] && was[dlen'..] == out[dlen'..];
    ret := 0;
  }
}

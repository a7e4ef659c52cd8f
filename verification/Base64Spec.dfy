/** Base64 (RFC 4648, section 4) as alcs_base64.c encodes it, and the two decoders of the SDK: the one
    of alcs_base64.c and the two-pass one of wrapper_ota.c. */
module Base64Spec {
  import opened Machine

  type sextet = x: int | 0 <= x < 64

  const PAD: u8 := 61
  const CR: u8 := 13
  const LF: u8 := 10

  /** g_encodingTable: A-Z, a-z, 0-9, +, / */
  function Symbol(v: sextet): (c: u8)
    ensures c != PAD && c != CR && c != LF && c < 128
  {
    if v < 26 then 65 + v else if v < 52 then 71 + v else if v < 62 then v - 4 else if v == 62 then 43 else 47
  }

  /** g_decodingTable, which is zero wherever the encoding table does not reach, and for '='. */
  function AlcsValue(c: u8): sextet {
    if 65 <= c <= 90 then c - 65
    else if 97 <= c <= 122 then c - 71
    else if 48 <= c <= 57 then c + 4
    else if c == 43 then 62
    else if c == 47 then 63
    else 0
  }

  /** base64_dec_map: 64 for '=', 127 for everything that is not a symbol. */
  function OtaValue(c: u8): u8 {
    if c == PAD then 64
    else if AlcsValue(c) == 0 && c != 65 then 127
    else AlcsValue(c)
  }

  lemma SymbolInverse(v: sextet)
    ensures AlcsValue(Symbol(v)) == v && OtaValue(Symbol(v)) == v
  {
  }

  // ---------------------------------------------------------------- groups

  function Sextets(a: u8, b: u8, c: u8): seq<sextet> {
    [a / 4, a % 4 * 16 + b / 16, b % 16 * 4 + c / 64, c % 64]
  }

  function Bytes(w: sextet, x: sextet, y: sextet, z: sextet): (r: seq<u8>)
    ensures |r| == 3
  {
    [w * 4 + x / 16, x % 16 * 16 + y / 4, y % 4 * 64 + z]
  }

  lemma GroupInverse(a: u8, b: u8, c: u8)
    ensures var s := Sextets(a, b, c); Bytes(s[0], s[1], s[2], s[3]) == [a, b, c]
  {
  }

  lemma {:induction false} Divides(t: int, m: nat, q: int, r: nat)
    requires r < m && t == q * m + r
    ensures t / m == q && t % m == r
  {
    var q', r' := t / m, t % m;
    assert t == q' * m + r';
    assert (q' - q) * m == r - r';
    if q' > q {
      AtLeast(q' - q, m);
    } else if q' < q {
      assert (q - q') * m == -((q' - q) * m);
      AtLeast(q - q', m);
    }
  }

  lemma {:induction false} AtLeast(x: nat, m: nat)
    requires x >= 1
    ensures x * m >= m
  {
    assert x * m == (x - 1) * m + m;
  }

  lemma {:induction false} FourDigits(t: int, s0: sextet, s1: sextet, s2: sextet, s3: sextet)
    requires t == 0x4_0000 * s0 + 0x1000 * s1 + 0x40 * s2 + s3
    ensures [t / 0x4_0000 % 64, t / 0x1000 % 64, t / 0x40 % 64, t % 64] == [s0, s1, s2, s3]
  {
    Divides(t, 0x4_0000, s0, 0x1000 * s1 + 0x40 * s2 + s3);
    Divides(t, 0x1000, 64 * s0 + s1, 0x40 * s2 + s3);
    Divides(t, 0x40, 0x1000 * s0 + 64 * s1 + s2, s3);
    Divides(64 * s0 + s1, 64, s0, s1);
    Divides(0x1000 * s0 + 64 * s1 + s2, 64, 64 * s0 + s1, s2);
  }

  lemma {:induction false} ThreeDigits(t: int, b0: u8, b1: u8, b2: u8)
    requires t == 0x1_0000 * b0 + 0x100 * b1 + b2
    ensures [t / 0x1_0000 % 256, t / 0x100 % 256, t % 256] == [b0, b1, b2]
  {
    Divides(t, 0x1_0000, b0, 0x100 * b1 + b2);
    Divides(t, 0x100, 256 * b0 + b1, b2);
  }

  /** The encoder's 24-bit word holds the four sextets, and the decoder's the three bytes. */
  lemma {:induction false} TripleSextets(a: u8, b: u8, c: u8)
    ensures var t: int := 0x1_0000 * a + 0x100 * b + c;
      [t / 0x4_0000 % 64, t / 0x1000 % 64, t / 0x40 % 64, t % 64] == Sextets(a, b, c)
  {
    FourDigits(0x1_0000 * a + 0x100 * b + c, a / 4, a % 4 * 16 + b / 16, b % 16 * 4 + c / 64, c % 64);
  }

  lemma {:induction false} TripleBytes(w: sextet, x: sextet, y: sextet, z: sextet)
    ensures var t: int := 0x4_0000 * w + 0x1000 * x + 0x40 * y + z;
      [t / 0x1_0000 % 256, t / 0x100 % 256, t % 256] == Bytes(w, x, y, z)
  {
    ThreeDigits(0x4_0000 * w + 0x1000 * x + 0x40 * y + z, w * 4 + x / 16, x % 16 * 16 + y / 4, y % 4 * 64 + z);
  }

  // ---------------------------------------------------------------- encoding

  function Octet(d: seq<u8>, i: nat): u8 { if i < |d| then d[i] else 0 }

  function Quad(a: u8, b: u8, c: u8): (r: seq<u8>)
    ensures |r| == 4
  {
    var s := Sextets(a, b, c);
    [Symbol(s[0]), Symbol(s[1]), Symbol(s[2]), Symbol(s[3])]
  }

  function Pads(n: nat): nat { if n % 3 == 1 then 2 else if n % 3 == 2 then 1 else 0 }

  /** The encoding before '=' is written over its end. */
  function Raw(d: seq<u8>): seq<u8>
    decreases |d|
  {
    if d == [] then [] else
    Quad(d[0], Octet(d, 1), Octet(d, 2)) + Raw(if |d| <= 3 then [] else d[3..])
  }

  function Encode(d: seq<u8>): seq<u8> {
    if d == [] then []
    else if |d| == 1 then Quad(d[0], 0, 0)[..2] + [PAD, PAD]
    else if |d| == 2 then Quad(d[0], d[1], 0)[..3] + [PAD]
    else Quad(d[0], d[1], d[2]) + Encode(d[3..])
  }

  function EncodedLength(n: nat): nat { 4 * ((n + 2) / 3) }

  lemma {:induction false} RawLength(d: seq<u8>)
    ensures |Raw(d)| == EncodedLength(|d|)
    decreases |d|
  {
    hide Symbol, Sextets, Octet;
    if d != [] {
      RawLength(if |d| <= 3 then [] else d[3..]);
    }
  }

  /** Group `k` of the raw encoding. */
  lemma {:induction false} RawAt(d: seq<u8>, k: nat)
    requires 3 * k < |d|
    ensures |Raw(d)| == EncodedLength(|d|) >= 4 * k + 4
    ensures Raw(d)[4 * k..4 * k + 4] == Quad(d[3 * k], Octet(d, 3 * k + 1), Octet(d, 3 * k + 2))
    decreases k
  {
    RawLength(d);
    hide Sextets, Symbol;
    var rest := if |d| <= 3 then [] else d[3..];
    if k > 0 {
      RawAt(rest, k - 1);
      assert Raw(d)[4 * k..4 * k + 4] == Raw(rest)[4 * (k - 1)..4 * (k - 1) + 4];
    }
  }

  lemma {:induction false} EncodeIsPaddedRaw(d: seq<u8>)
    ensures |Encode(d)| == |Raw(d)| == EncodedLength(|d|) && Pads(|d|) <= |Raw(d)|
    ensures Encode(d) == Raw(d)[..|Raw(d)| - Pads(|d|)] + PadText(Pads(|d|))
    decreases |d|
  {
    hide Sextets, Symbol;
    RawLength(d);
    if |d| > 3 {
      var head, rest := Quad(d[0], d[1], d[2]), Raw(d[3..]);
      EncodeIsPaddedRaw(d[3..]);
      PadsPeriodic(|d|);
      assert Raw(d)[..|Raw(d)| - Pads(|d|)] == head + rest[..|rest| - Pads(|d|)];
    } else if |d| == 3 {
      assert d[3..] == [];
      assert Raw([]) == [] && Encode([]) == [];
    }
  }

  function PadText(n: nat): seq<u8> { if n == 0 then [] else if n == 1 then [PAD] else [PAD, PAD] }

  lemma PadsPeriodic(n: nat)
    requires n >= 3
    ensures Pads(n) == Pads(n - 3) && EncodedLength(n) == 4 + EncodedLength(n - 3)
  {
  }

  // ---------------------------------------------------------------- the decoder of alcs_base64.c

  function DecodeQuads(s: seq<u8>): seq<u8>
    requires |s| % 4 == 0
  {
    if s == [] then [] else
    Bytes(AlcsValue(s[0]), AlcsValue(s[1]), AlcsValue(s[2]), AlcsValue(s[3])) + DecodeQuads(s[4..])
  }

  function AlcsLength(s: seq<u8>): nat
    requires |s| % 4 == 0 && s != []
  {
    |s| / 4 * 3 - (if s[|s| - 1] == PAD then 1 else 0) - (if s[|s| - 2] == PAD then 1 else 0)
  }

  lemma BeyondHead(head: seq<u8>, tail: seq<u8>, lo: nat, hi: nat)
    requires lo <= hi <= |tail|
    ensures (head + tail)[..|head|] == head
    ensures (head + tail)[|head| + lo..|head| + hi] == tail[lo..hi]
  {
  }

  lemma {:induction false} DecodeQuadsAt(s: seq<u8>, k: nat)
    requires |s| % 4 == 0 && 4 * k < |s|
    ensures |DecodeQuads(s)| == |s| / 4 * 3
    ensures DecodeQuads(s)[3 * k..3 * k + 3]
         == Bytes(AlcsValue(s[4 * k]), AlcsValue(s[4 * k + 1]), AlcsValue(s[4 * k + 2]), AlcsValue(s[4 * k + 3]))
  {
    hide Bytes, AlcsValue;
    DecodeQuadsLength(s);
    var head, tail := Bytes(AlcsValue(s[0]), AlcsValue(s[1]), AlcsValue(s[2]), AlcsValue(s[3])), DecodeQuads(s[4..]);
    assert DecodeQuads(s) == head + tail;
    hide DecodeQuads;
    if k > 0 {
      DecodeQuadsAt(s[4..], k - 1);
      BeyondHead(head, tail, 3 * (k - 1), 3 * (k - 1) + 3);
    } else {
      BeyondHead(head, tail, 0, 0);
    }
  }

  lemma {:induction false} DecodeQuadsLength(s: seq<u8>)
    requires |s| % 4 == 0
    ensures |DecodeQuads(s)| == |s| / 4 * 3
  {
    if s != [] {
      DecodeQuadsLength(s[4..]);
    }
  }

  function AlcsDecode(s: seq<u8>): seq<u8>
    requires |s| % 4 == 0 && s != []
  {
    DecodeQuadsLength(s);
    DecodeQuads(s)[..AlcsLength(s)]
  }

  lemma {:induction false} EncodeEnds(d: seq<u8>)
    requires d != []
    ensures |Encode(d)| == EncodedLength(|d|) >= 4
    ensures Encode(d)[|Encode(d)| - 1] == PAD <==> |d| % 3 != 0
    ensures Encode(d)[|Encode(d)| - 2] == PAD <==> |d| % 3 == 1
  {
    hide Sextets, Symbol;
    if |d| > 3 {
      EncodeEnds(d[3..]);
      PadsPeriodic(|d|);
    } else if |d| == 3 {
      assert d[3..] == [];
      QuadHasNoPads(d[0], d[1], d[2]);
      assert Encode(d) == Quad(d[0], d[1], d[2]) + [];
    } else {
      QuadHasNoPads(d[0], Octet(d, 1), 0);
    }
  }

  lemma QuadHasNoPads(a: u8, b: u8, c: u8)
    ensures var q := Quad(a, b, c); |q| == 4 && q[0] != PAD && q[1] != PAD && q[2] != PAD && q[3] != PAD
  {
  }

  lemma {:induction false} QuadDecodes(a: u8, b: u8, c: u8)
    ensures var q := Quad(a, b, c);
      Bytes(AlcsValue(q[0]), AlcsValue(q[1]), AlcsValue(q[2]), AlcsValue(q[3])) == [a, b, c]
  {
    var s := Sextets(a, b, c);
    SymbolInverse(s[0]);
    SymbolInverse(s[1]);
    SymbolInverse(s[2]);
    SymbolInverse(s[3]);
    GroupInverse(a, b, c);
  }

  /** '=' reads as zero, which is what the last symbol of a padded group stands for. */
  lemma PaddedGroup(a: u8, b: u8)
    ensures AlcsValue(Quad(a, b, 0)[3]) == AlcsValue(PAD) && AlcsValue(Quad(a, 0, 0)[2]) == AlcsValue(PAD)
    ensures AlcsValue(Quad(a, 0, 0)[3]) == AlcsValue(PAD)
  {
  }

  lemma {:induction false} DecodeQuadsOfEncode(d: seq<u8>)
    ensures |Encode(d)| % 4 == 0
    ensures DecodeQuads(Encode(d)) == d + Zeros(Pads(|d|))
  {
    hide Sextets, Symbol, AlcsValue, Bytes;
    if |d| >= 3 {
      PadsPeriodic(|d|);
      var q, rest := Quad(d[0], d[1], d[2]), Encode(d[3..]);
      QuadDecodes(d[0], d[1], d[2]);
      DecodeQuadsOfEncode(d[3..]);
      assert Encode(d) == q + rest && (q + rest)[4..] == rest;
      assert d == [d[0], d[1], d[2]] + d[3..];
    } else if d != [] {
      QuadDecodes(d[0], Octet(d, 1), 0);
      PaddedGroup(d[0], Octet(d, 1));
      assert Encode(d)[4..] == [];
    }
  }

  function Zeros(n: nat): seq<u8> { if n == 0 then [] else if n == 1 then [0] else [0, 0] }

  /** utils_base64decode undoes utils_base64encode on every non-empty input. */
  lemma {:induction false} AlcsRoundTrip(d: seq<u8>)
    requires d != []
    ensures |Encode(d)| % 4 == 0 && Encode(d) != []
    ensures AlcsDecode(Encode(d)) == d
  {
    hide Encode, DecodeQuads, EncodedLength, Zeros, Pads;
    EncodeEnds(d);
    DecodeQuadsOfEncode(d);
    DecodedSize(|d|);
    assert (d + Zeros(Pads(|d|)))[..|d|] == d;
  }

  lemma {:induction false} DecodedSize(n: nat)
    requires n > 0
    ensures EncodedLength(n) / 4 * 3 == n + Pads(n)
    ensures Pads(n) == (if n % 3 != 0 then 1 else 0) + (if n % 3 == 1 then 1 else 0)
    ensures EncodedLength(n) % 4 == 0 && |Zeros(Pads(n))| == Pads(n)
    ensures Size(Scanned(EncodedLength(n), Pads(n))) == n
  {
    var k := (n + 2) / 3;
    assert n + Pads(n) == 3 * k;
    assert EncodedLength(n) == 4 * k;
  }

  // ---------------------------------------------------------------- the decoder of wrapper_ota.c

  datatype Scanned = Scanned(symbols: nat, pads: nat)

  /** The first pass: counts symbols, and rejects a third '=', a symbol after '=', a CR that no LF
      follows, and anything that is not a symbol. */
  function Scan(src: seq<u8>, n: nat, j: nat): Option<Scanned> {
    if src == [] then Some(Scanned(n, j))
    else if |src| >= 2 && src[0] == CR && src[1] == LF then Scan(src[1..], n, j)
    else if src[0] == LF then Scan(src[1..], n, j)
    else
      var j' := if src[0] == PAD then j + 1 else j;
      if j' > 2 && src[0] == PAD then None
      else if src[0] > 127 || OtaValue(src[0]) == 127 then None
      else if OtaValue(src[0]) < 64 && j' != 0 then None
      else Scan(src[1..], n + 1, j')
  }

  /** The size the first pass computes. */
  function Size(r: Scanned): int { (r.symbols * 6 + 7) / 8 - r.pads }

  function Symbols(src: seq<u8>): seq<u8> {
    if src == [] then [] else
    (if src[0] == CR || src[0] == LF then [] else [src[0]]) + Symbols(src[1..])
  }

  function CountPads(s: seq<u8>): nat {
    if s == [] then 0 else (if s[0] == PAD then 1 else 0) + CountPads(s[1..])
  }

  function Low6(c: u8): sextet { OtaValue(c) % 64 }

  /** The second pass: three bytes a group, fewer once '=' has been seen; an incomplete last group
      produces nothing. */
  function Groups(s: seq<u8>, pads: nat): seq<u8> {
    if |s| < 4 then [] else
    var pads' := pads + CountPads(s[..4]);
    Bytes(Low6(s[0]), Low6(s[1]), Low6(s[2]), Low6(s[3]))[..if pads' <= 3 then 3 - pads' else 0] + Groups(s[4..], pads')
  }

  datatype OtaResult = Bad | Empty | TooSmall(size: int) | Done(bytes: seq<u8>)

  function OtaDecode(src: seq<u8>, capacity: nat): OtaResult {
    match Scan(src, 0, 0)
    case None => Bad
    case Some(r) =>
      if r.symbols == 0 then Empty
      else if capacity < Size(r) then TooSmall(Size(r))
      else Done(Groups(Symbols(src), 0))
  }

  /** What an accepted input looks like: at most two '=', and nothing but '=' after the first. */
  predicate PadsLast(s: seq<u8>, pads: nat) {
    && pads + CountPads(s) <= 2
    && (s != [] ==> (pads > 0 ==> s[0] == PAD) && PadsLast(s[1..], pads + (if s[0] == PAD then 1 else 0)))
  }

  lemma {:induction false} ScanAccepts(src: seq<u8>, n: nat, j: nat)
    requires j <= 2 && Scan(src, n, j).Some?
    ensures Scan(src, n, j).value == Scanned(n + |Symbols(src)|, j + CountPads(Symbols(src)))
    ensures PadsLast(Symbols(src), j)
  {
    if src != [] {
      var c, rest := src[0], src[1..];
      if c == CR || c == LF {
        assert OtaValue(CR) == 127;
        ScanAccepts(rest, n, j);
        assert Symbols(src) == Symbols(rest);
      } else {
        ScanAccepts(rest, n + 1, if c == PAD then j + 1 else j);
        assert Symbols(src) == [c] + Symbols(rest);
        assert Symbols(src)[1..] == Symbols(rest);
      }
    }
  }

  lemma {:induction false} CountPadsBound(s: seq<u8>)
    ensures CountPads(s) <= |s|
  {
    if s != [] {
      CountPadsBound(s[1..]);
    }
  }

  lemma {:induction false} PadsLastStep(s: seq<u8>, pads: nat)
    requires |s| >= 4 && PadsLast(s, pads)
    ensures PadsLast(s[4..], pads + CountPads(s[..4])) && CountPads(s) == CountPads(s[..4]) + CountPads(s[4..])
  {
    CountPadsSplit(s, 4);
    PadsLastDrop(s, pads, 4);
  }

  lemma {:induction false} CountPadsSplit(s: seq<u8>, k: nat)
    requires k <= |s|
    ensures CountPads(s) == CountPads(s[..k]) + CountPads(s[k..])
  {
    if k > 0 {
      CountPadsSplit(s[1..], k - 1);
      assert s[..k][1..] == s[1..][..k - 1] && s[k..] == s[1..][k - 1..];
    } else {
      assert s[0..] == s;
    }
  }

  lemma {:induction false} PadsLastDrop(s: seq<u8>, pads: nat, k: nat)
    requires k <= |s| && PadsLast(s, pads)
    ensures PadsLast(s[k..], pads + CountPads(s[..k]))
  {
    if k > 0 {
      var first := if s[0] == PAD then 1 else 0;
      PadsLastDrop(s[1..], pads + first, k - 1);
      assert s[..k][1..] == s[1..][..k - 1] && s[k..] == s[1..][k - 1..];
    } else {
      assert s[0..] == s;
    }
  }

  lemma {:induction false} AllPads(s: seq<u8>, pads: nat)
    requires pads > 0 && PadsLast(s, pads)
    ensures CountPads(s) == |s|
  {
    if s != [] {
      AllPads(s[1..], pads + 1);
    }
  }

  lemma {:induction false} GroupsBound(s: seq<u8>)
    requires PadsLast(s, 0)
    ensures |Groups(s, 0)| + CountPads(s) <= (6 * |s| + 7) / 8
  {
    CountPadsBound(s);
    if |s| >= 4 {
      var pads, rest := CountPads(s[..4]), s[4..];
      PadsLastStep(s, 0);
      if pads == 0 {
        GroupsBound(rest);
      } else {
        AllPads(rest, pads);
        assert |rest| <= 1;
        assert Groups(rest, pads) == [];
      }
    }
  }

  /** For every input the first pass accepts, of any length, the size it computes does not underflow and
      is enough for what the second pass writes. */
  lemma {:induction false} TwoPassBound(src: seq<u8>)
    requires Scan(src, 0, 0).Some?
    ensures |Groups(Symbols(src), 0)| <= Size(Scan(src, 0, 0).value)
  {
    ScanAccepts(src, 0, 0);
    GroupsBound(Symbols(src));
  }

  // ---------------------------------------------------------------- the two decoders agree

  /** A text with line breaks anywhere between its characters. */
  datatype Piece = Char(c: u8) | LineFeed | ReturnLineFeed

  function Render(pieces: seq<Piece>): seq<u8> {
    if pieces == [] then [] else
    (match pieces[0] case Char(c) => [c] case LineFeed => [LF] case ReturnLineFeed => [CR, LF]) + Render(pieces[1..])
  }

  function Chars(pieces: seq<Piece>): seq<u8> {
    if pieces == [] then [] else
    (if pieces[0].Char? then [pieces[0].c] else []) + Chars(pieces[1..])
  }

  lemma {:induction false} SkipLineFeed(text: seq<u8>, n: nat, j: nat)
    ensures Scan([LF] + text, n, j) == Scan(text, n, j) && Symbols([LF] + text) == Symbols(text)
  {
    assert ([LF] + text)[1..] == text;
  }

  lemma {:induction false} SkipReturnLineFeed(text: seq<u8>, n: nat, j: nat)
    ensures Scan([CR, LF] + text, n, j) == Scan(text, n, j) && Symbols([CR, LF] + text) == Symbols(text)
  {
    SkipLineFeed(text, n, j);
    assert ([CR, LF] + text)[1..] == [LF] + text;
  }

  /** A character is treated alike whatever text it is followed by. */
  lemma {:induction false} ScanChar(c: u8, text: seq<u8>, text': seq<u8>, n: nat, j: nat)
    requires c != CR && c != LF
    requires Scan(text, n + 1, if c == PAD then j + 1 else j) == Scan(text', n + 1, if c == PAD then j + 1 else j)
    ensures Scan([c] + text, n, j) == Scan([c] + text', n, j) && Symbols([c] + text) == [c] + Symbols(text)
  {
    hide OtaValue;
    assert ([c] + text)[1..] == text && ([c] + text')[1..] == text';
  }

  lemma {:induction false} ScanRender(pieces: seq<Piece>, n: nat, j: nat)
    requires forall k :: 0 <= k < |pieces| && pieces[k].Char? ==> pieces[k].c != CR && pieces[k].c != LF
    ensures Scan(Render(pieces), n, j) == Scan(Chars(pieces), n, j)
    ensures Symbols(Render(pieces)) == Chars(pieces)
    decreases |pieces|
  {
    if pieces != [] {
      hide Scan, Symbols;
      var rest := pieces[1..];
      var text := Render(rest);
      match pieces[0] {
        case Char(c) =>
          ScanRender(rest, n + 1, if c == PAD then j + 1 else j);
          ScanChar(c, text, Chars(rest), n, j);
        case LineFeed =>
          ScanRender(rest, n, j);
          SkipLineFeed(text, n, j);
          assert [] + Chars(rest) == Chars(rest);
        case ReturnLineFeed =>
          ScanRender(rest, n, j);
          SkipReturnLineFeed(text, n, j);
          assert [] + Chars(rest) == Chars(rest);
      }
    }
  }

  lemma {:induction false} ScanSymbol(v: sextet, rest: seq<u8>, n: nat)
    ensures Scan([Symbol(v)] + rest, n, 0) == Scan(rest, n + 1, 0)
  {
    SymbolInverse(v);
    assert ([Symbol(v)] + rest)[1..] == rest;
  }

  lemma {:induction false} ScanPads(n: nat)
    ensures Scan([PAD], n, 0) == Some(Scanned(n + 1, 1)) && Scan([PAD, PAD], n, 0) == Some(Scanned(n + 2, 2))
  {
    assert [PAD, PAD][1..] == [PAD] && [PAD][1..] == [];
    assert Scan([PAD], n + 1, 1) == Scan([], n + 2, 2);
  }

  lemma {:induction false} ScanQuad(a: u8, b: u8, c: u8, k: nat, rest: seq<u8>, n: nat)
    requires k <= 4
    ensures Scan(Quad(a, b, c)[..k] + rest, n, 0) == Scan(rest, n + k, 0)
    decreases k
  {
    var q, s := Quad(a, b, c), Sextets(a, b, c);
    if k == 0 {
      assert q[..0] + rest == rest;
    } else {
      assert q[..k] + rest == q[..k - 1] + ([q[k - 1]] + rest);
      ScanQuad(a, b, c, k - 1, [q[k - 1]] + rest, n);
      ScanSymbol(s[k - 1], rest, n + k - 1);
    }
  }

  lemma {:induction false} ScanEncode(d: seq<u8>, n: nat)
    ensures Scan(Encode(d), n, 0) == Some(Scanned(n + |Encode(d)|, Pads(|d|)))
    decreases |d|
  {
    hide Quad;
    if |d| >= 3 {
      var q := Quad(d[0], d[1], d[2]);
      assert q[..4] == q;
      PadsPeriodic(|d|);
      assert Encode(d) == q + Encode(d[3..]);
      hide Scan, Encode, Pads, EncodedLength;
      ScanQuad(d[0], d[1], d[2], 4, Encode(d[3..]), n);
      ScanEncode(d[3..], n + 4);
    } else if |d| == 2 {
      ScanPads(n + 3);
      hide Scan;
      ScanQuad(d[0], d[1], 0, 3, [PAD], n);
    } else if |d| == 1 {
      ScanPads(n + 2);
      hide Scan;
      ScanQuad(d[0], 0, 0, 2, [PAD, PAD], n);
    }
  }

  lemma {:induction false} SymbolLow6(v: sextet)
    ensures Low6(Symbol(v)) == v && Low6(PAD) == 0
  {
    SymbolInverse(v);
  }

  /** A whole group, and one with a '=' for each sextet that stands for no byte. */
  lemma {:induction false} QuadLow6(a: u8, b: u8, c: u8)
    ensures var q := Quad(a, b, c);
      Bytes(Low6(q[0]), Low6(q[1]), Low6(q[2]), Low6(q[3])) == [a, b, c]
    ensures var q := Quad(a, b, 0);
      Bytes(Low6(q[0]), Low6(q[1]), Low6(q[2]), Low6(PAD)) == [a, b, 0]
    ensures var q := Quad(a, 0, 0);
      Bytes(Low6(q[0]), Low6(q[1]), Low6(PAD), Low6(PAD)) == [a, 0, 0]
  {
    QuadValues(a, b, c);
    QuadValues(a, b, 0);
    QuadValues(a, 0, 0);
    GroupInverse(a, b, c);
    GroupInverse(a, b, 0);
    GroupInverse(a, 0, 0);
    SymbolLow6(0);
    assert Sextets(a, b, 0)[3] == 0 && Sextets(a, 0, 0)[3] == 0 && Sextets(a, 0, 0)[2] == 0;
    hide Quad, Sextets, Bytes, Low6;
  }

  lemma {:induction false} QuadValues(a: u8, b: u8, c: u8)
    ensures var q, s := Quad(a, b, c), Sextets(a, b, c);
      |q| == 4 && Low6(q[0]) == s[0] && Low6(q[1]) == s[1] && Low6(q[2]) == s[2] && Low6(q[3]) == s[3]
  {
    var s := Sextets(a, b, c);
    hide Symbol, Low6;
    SymbolLow6(s[0]);
    SymbolLow6(s[1]);
    SymbolLow6(s[2]);
    SymbolLow6(s[3]);
  }

  lemma {:induction false} CountPadsOfFour(w: u8, x: u8, y: u8, z: u8)
    ensures CountPads([w, x, y, z]) == (if w == PAD then 1 else 0) + (if x == PAD then 1 else 0)
                                     + (if y == PAD then 1 else 0) + (if z == PAD then 1 else 0)
  {
    assert [w, x, y, z][1..] == [x, y, z] && [x, y, z][1..] == [y, z] && [y, z][1..] == [z] && [z][1..] == [];
    assert CountPads([z]) == (if z == PAD then 1 else 0)
          && CountPads([y, z]) == (if y == PAD then 1 else 0) + CountPads([z]);
  }

  lemma {:induction false} GroupsOfEncode(d: seq<u8>)
    ensures Groups(Encode(d), 0) == d
  {
    hide Sextets, Symbol, Low6, Bytes, CountPads;
    if |d| >= 3 {
      var q, rest := Quad(d[0], d[1], d[2]), Encode(d[3..]);
      QuadLow6(d[0], d[1], d[2]);
      QuadHasNoPads(d[0], d[1], d[2]);
      CountPadsOfFour(q[0], q[1], q[2], q[3]);
      GroupsOfEncode(d[3..]);
      assert (q + rest)[..4] == q && (q + rest)[4..] == rest;
      assert [d[0], d[1], d[2]][..3] + d[3..] == d;
    } else if d != [] {
      var e, q := Encode(d), Quad(d[0], Octet(d, 1), 0);
      QuadLow6(d[0], Octet(d, 1), 0);
      QuadHasNoPads(d[0], Octet(d, 1), 0);
      CountPadsOfFour(e[0], e[1], e[2], e[3]);
      assert e[..4] == e == [e[0], e[1], e[2], e[3]] && e[4..] == [];
    }
  }

  lemma {:induction false} EncodeHasNoBreaks(d: seq<u8>)
    ensures forall k :: 0 <= k < |Encode(d)| ==> Encode(d)[k] != CR && Encode(d)[k] != LF
  {
    if |d| >= 3 {
      EncodeHasNoBreaks(d[3..]);
    }
  }

  lemma {:induction false} CharsCover(pieces: seq<Piece>, k: nat)
    requires k < |pieces| && pieces[k].Char?
    ensures pieces[k].c in Chars(pieces)
  {
    if k > 0 {
      CharsCover(pieces[1..], k - 1);
    }
  }

  /** The update decoder returns the encoded bytes as well, however the text is broken into lines, and
      needs room for exactly those bytes. */
  lemma {:induction false} OtaRoundTrip(d: seq<u8>, pieces: seq<Piece>, capacity: nat)
    requires d != [] && Chars(pieces) == Encode(d)
    ensures OtaDecode(Render(pieces), capacity) == if capacity < |d| then TooSmall(|d|) else Done(d)
    ensures |Encode(d)| % 4 == 0 && Encode(d) != [] && AlcsDecode(Encode(d)) == d
  {
    AlcsRoundTrip(d);
    EncodeEnds(d);
    DecodedSize(|d|);
    NoBreaksInChars(d, pieces);
    ScanRender(pieces, 0, 0);
    ScanEncode(d, 0);
    GroupsOfEncode(d);
    hide Scan, Groups, Symbols, Encode, Render, Chars, AlcsDecode, EncodedLength, Pads, Size;
  }

  lemma {:induction false} NoBreaksInChars(d: seq<u8>, pieces: seq<Piece>)
    requires Chars(pieces) == Encode(d)
    ensures forall k :: 0 <= k < |pieces| && pieces[k].Char? ==> pieces[k].c != CR && pieces[k].c != LF
  {
    forall k | 0 <= k < |pieces| && pieces[k].Char? ensures pieces[k].c != CR && pieces[k].c != LF {
      CharsCover(pieces, k);
      EncodeHasNoBreaks(d);
    }
  }
}

/** Base64 on texts: the alphabet and the vectors of RFC 4648, sections 4 and 10, the texts that the decoder
    of wrapper_ota.c accepts, and what the two decoders make of any of them. */
module Base64Texts {
  import opened Machine
  import opened Base64Spec

  // ---------------------------------------------------------------- the alphabet

  /** Eight symbols in a row. */
  function Row(k: nat): seq<int>
    requires k < 8
  {
    [Symbol(8 * k), Symbol(8 * k + 1), Symbol(8 * k + 2), Symbol(8 * k + 3),
     Symbol(8 * k + 4), Symbol(8 * k + 5), Symbol(8 * k + 6), Symbol(8 * k + 7)]
  }

  lemma {:induction false} Alphabet()
    ensures Row(0) == Ascii("ABCDEFGH") && Row(1) == Ascii("IJKLMNOP")
    ensures Row(2) == Ascii("QRSTUVWX") && Row(3) == Ascii("YZabcdef")
    ensures Row(4) == Ascii("ghijklmn") && Row(5) == Ascii("opqrstuv")
    ensures Row(6) == Ascii("wxyz0123") && Row(7) == Ascii("456789+/")
    ensures [PAD as int, CR, LF] == Ascii("=\r\n")
  {
  }

  /** The codes of symbols, in literals. */
  predicate Symbolic(c: u8) { 65 <= c <= 90 || 97 <= c <= 122 || 48 <= c <= 57 || c == 43 || c == 47 }

  /** Both decoders invert the alphabet; any other code is zero to the one, and to the other 64 if it is the
      pad and else 127. */
  lemma {:induction false} DecodingTables(c: u8)
    ensures Symbolic(c) <==> exists v: sextet :: Symbol(v) == c
    ensures Symbolic(c) ==> Symbol(AlcsValue(c)) == c && OtaValue(c) == AlcsValue(c)
    ensures !Symbolic(c) ==> AlcsValue(c) == 0 && OtaValue(c) == if c == 61 then 64 else 127
  {
    if Symbolic(c) {
      assert Symbol(AlcsValue(c)) == c;
    }
  }

  /** The vectors of RFC 4648, section 10. */
  lemma {:induction false} Vectors()
    ensures var foobar: seq<u8> := [102, 111, 111, 98, 97, 114];
      && foobar == Ascii("foobar") && Encode(foobar[..0]) == []
      && Encode(foobar[..1]) == Ascii("Zg==") && Encode(foobar[..2]) == Ascii("Zm8=")
      && Encode(foobar[..3]) == Ascii("Zm9v") && Encode(foobar[..4]) == Ascii("Zm9vYg==")
      && Encode(foobar[..5]) == Ascii("Zm9vYmE=") && Encode(foobar) == Ascii("Zm9vYmFy")
  {
    ShortVectors();
    GroupVectors();
    var f: seq<u8> := [102, 111, 111, 98, 97, 114];
    assert f[..3] == f[..3] + [] && f[..4] == f[..3] + [98] && f[..5] == f[..3] + [98, 97];
    assert f == f[..3] + [98, 97, 114] && [98, 97, 114] == [98, 97, 114] + [];
    assert f[..1] == [102] && f[..2] == [102, 111] && f[..3] == [102, 111, 111];
    hide Quad, Encode;
    EncodeGroupFirst([102, 111, 111], []);
    EncodeGroupFirst([102, 111, 111], [98]);
    EncodeGroupFirst([102, 111, 111], [98, 97]);
    EncodeGroupFirst([102, 111, 111], [98, 97, 114]);
    EncodeGroupFirst([98, 97, 114], []);
  }

  lemma {:induction false} ShortVectors()
    ensures Encode([]) == [] && Encode([102]) == Ascii("Zg==") && Encode([102, 111]) == Ascii("Zm8=")
    ensures Encode([98]) == Ascii("Yg==") && Encode([98, 97]) == Ascii("YmE=")
  {
  }

  lemma {:induction false} GroupVectors()
    ensures Quad(102, 111, 111) == Ascii("Zm9v") && Quad(98, 97, 114) == Ascii("YmFy")
  {
  }

  lemma {:induction false} EncodeGroupFirst(group: seq<u8>, rest: seq<u8>)
    requires |group| == 3
    ensures Encode(group + rest) == Quad(group[0], group[1], group[2]) + Encode(rest)
  {
    hide Quad;
    assert (group + rest)[3..] == rest;
  }

  // ---------------------------------------------------------------- accepted texts

  predicate Break(src: seq<u8>, i: nat)
    requires i < |src|
  {
    src[i] == 10 || (src[i] == 13 && i + 1 < |src| && src[i + 1] == 10)
  }

  function Pads61(src: seq<u8>): nat { multiset(src)[61] }

  /** Nothing but symbols, pads and line breaks. */
  predicate Legible(src: seq<u8>) {
    forall i :: 0 <= i < |src| ==> Symbolic(src[i]) || src[i] == 61 || Break(src, i)
  }

  /** At most two pads, with the `seen` before this text, and no symbol behind one. */
  predicate Ended(src: seq<u8>, seen: nat) {
    && seen + Pads61(src) <= 2
    && (seen > 0 ==> forall j :: 0 <= j < |src| ==> !Symbolic(src[j]))
    && forall i, j :: 0 <= i < j < |src| && src[i] == 61 ==> !Symbolic(src[j])
  }

  lemma {:induction false} LegibleTail(src: seq<u8>)
    requires src != []
    ensures Legible(src) <==> (Symbolic(src[0]) || src[0] == 61 || Break(src, 0)) && Legible(src[1..])
  {
    hide Symbolic;
    var rest := src[1..];
    assert forall i :: 0 <= i < |rest| ==> rest[i] == src[i + 1] && (Break(rest, i) <==> Break(src, i + 1));
    hide Break;
    if Legible(rest) {
      forall i | 0 < i < |src| ensures Symbolic(src[i]) || src[i] == 61 || Break(src, i) {
        assert rest[i - 1] == src[i];
      }
    }
  }

  lemma {:induction false} PadsTail(src: seq<u8>)
    requires src != []
    ensures Pads61(src) == Pads61(src[1..]) + if src[0] == 61 then 1 else 0
  {
    assert src == [src[0]] + src[1..];
    assert multiset(src) == multiset([src[0]]) + multiset(src[1..]);
  }

  lemma {:induction false} EndedTail(src: seq<u8>, seen: nat)
    requires src != []
    ensures Ended(src, seen) <==>
      (seen > 0 ==> !Symbolic(src[0])) && Ended(src[1..], if src[0] == 61 then seen + 1 else seen)
  {
    PadsTail(src);
    var rest := src[1..];
    assert !(Symbolic(src[0]) && src[0] == 61);
    hide Symbolic, Pads61;
    assert forall j :: 0 <= j < |rest| ==> rest[j] == src[j + 1];
    assert forall j :: 0 < j < |src| ==> src[j] == rest[j - 1];
  }

  /** The first pass accepts a text if and only if it is legible and ends with at most two pads. */
  lemma {:induction false} ScanIff(src: seq<u8>, n: nat, seen: nat)
    requires seen <= 2
    ensures Scan(src, n, seen).Some? <==> Legible(src) && Ended(src, seen)
  {
    if src != [] {
      LegibleTail(src);
      EndedTail(src, seen);
      DecodingTables(src[0]);
      var c := src[0];
      var seen' := if c == 61 then seen + 1 else seen;
      hide Legible, Symbolic, OtaValue;
      if seen' <= 2 {
        ScanIff(src[1..], n, seen');
        ScanIff(src[1..], n + 1, seen');
      } else {
        PadsTail(src);
      }
    } else {
      assert Pads61([]) == 0;
    }
  }

  // ---------------------------------------------------------------- decoded texts

  /** Symbols and pads without line breaks. */
  predicate Plain(s: seq<u8>) { forall i :: 0 <= i < |s| ==> Symbolic(s[i]) || s[i] == 61 }

  lemma {:induction false} SymbolsArePlain(src: seq<u8>)
    requires Legible(src)
    ensures Plain(Symbols(src))
  {
    if src != [] {
      LegibleTail(src);
      SymbolsArePlain(src[1..]);
      hide Legible;
    }
  }

  lemma {:induction false} SameSextet(c: u8)
    requires Symbolic(c) || c == 61
    ensures Low6(c) == AlcsValue(c)
  {
    DecodingTables(c);
  }

  lemma {:induction false} PadsOfQuad(s: seq<u8>)
    requires |s| >= 4 && PadsLast(s, 0)
    ensures CountPads(s[..4]) <= 2 && s[0] != 61 && s[1] != 61
    ensures CountPads(s[..4]) == (if s[3] == 61 then 1 else 0) + (if s[2] == 61 then 1 else 0)
  {
    hide PadsLast, CountPads;
    PadsLastStep(s, 0);
    CountPadsOfFour(s[0], s[1], s[2], s[3]);
    assert s[..4] == [s[0], s[1], s[2], s[3]];
    NoPadInFront(s, 1);
    NoPadInFront(s, 2);
    PadsAreFew(s, 0);
    CountPadsBound(s[4..]);
  }

  lemma PadsAreFew(s: seq<u8>, pads: nat)
    requires PadsLast(s, pads)
    ensures pads + CountPads(s) <= 2
  {
  }

  /** A pad is one of the last two characters. */
  lemma {:induction false} NoPadInFront(s: seq<u8>, k: nat)
    requires 0 < k && k + 2 <= |s| && PadsLast(s, 0)
    ensures s[k - 1] != 61
  {
    hide PadsLast;
    PadsLastDrop(s, 0, k);
    CountPadsSplit(s[..k], k - 1);
    PadsAreFew(s[k..], CountPads(s[..k]));
    assert s[..k][k - 1..] == [s[k - 1]];
    if s[k - 1] == 61 {
      AllPads(s[k..], CountPads(s[..k]));
    }
  }

  function FirstBytes(s: seq<u8>): (r: seq<u8>)
    requires |s| >= 4
    ensures |r| == 3
  {
    Bytes(AlcsValue(s[0]), AlcsValue(s[1]), AlcsValue(s[2]), AlcsValue(s[3]))
  }

  lemma {:induction false} AlcsDecodeGroupFirst(s: seq<u8>)
    requires |s| % 4 == 0 && |s| > 4
    ensures AlcsDecode(s) == FirstBytes(s) + AlcsDecode(s[4..])
  {
    hide Bytes, AlcsValue;
    DecodeQuadsLength(s[4..]);
    assert s[4..][|s| - 5] == s[|s| - 1] && s[4..][|s| - 6] == s[|s| - 2];
    assert AlcsLength(s) == 3 + AlcsLength(s[4..]);
  }

  lemma {:induction false} AlcsDecodeGroup(s: seq<u8>)
    requires |s| == 4
    ensures AlcsDecode(s) == FirstBytes(s)[..3 - (if s[3] == 61 then 1 else 0) - (if s[2] == 61 then 1 else 0)]
  {
    hide Bytes, AlcsValue;
    var b := FirstBytes(s);
    assert s[4..] == [] && DecodeQuads([]) == [] && DecodeQuads(s) == b + [] == b;
  }

  lemma {:induction false} GroupsFirst(s: seq<u8>)
    requires |s| >= 4 && Plain(s) && CountPads(s[..4]) <= 2
    ensures Groups(s, 0) == FirstBytes(s)[..3 - CountPads(s[..4])] + Groups(s[4..], CountPads(s[..4]))
  {
    hide Bytes, AlcsValue, Low6, CountPads, Symbolic;
    SameSextet(s[0]);
    SameSextet(s[1]);
    SameSextet(s[2]);
    SameSextet(s[3]);
  }

  lemma {:induction false} GroupsAreQuads(s: seq<u8>)
    requires |s| % 4 == 0 && s != [] && Plain(s) && PadsLast(s, 0)
    ensures Groups(s, 0) == AlcsDecode(s)
  {
    hide FirstBytes, Groups, AlcsDecode, PadsLast, CountPads, Symbolic;
    PadsOfQuad(s);
    PadsLastStep(s, 0);
    GroupsFirst(s);
    var rest, pads := s[4..], CountPads(s[..4]);
    if pads > 0 {
      AllPads(rest, pads);
      PadsAreFew(rest, pads);
    }
    if rest == [] {
      NoGroup(pads);
      AlcsDecodeGroup(s);
    } else {
      AlcsDecodeGroupFirst(s);
      GroupsAreQuads(rest);
    }
  }

  lemma NoGroup(pads: nat)
    ensures Groups([], pads) == []
  {
  }

  lemma {:induction false} GroupsDropRest(s: seq<u8>, rest: seq<u8>, pads: nat)
    requires |s| % 4 == 0 && |rest| < 4
    ensures Groups(s + rest, pads) == Groups(s, pads)
    decreases |s|
  {
    if s == [] {
      assert s + rest == rest;
    } else {
      assert (s + rest)[..4] == s[..4] && (s + rest)[4..] == s[4..] + rest;
      hide Bytes, Low6, CountPads;
      GroupsDropRest(s[4..], rest, pads + CountPads(s[..4]));
    }
  }

  /** One to three characters behind the last whole group are dropped. */
  lemma {:induction false} IncompleteGroupIsDropped(s: seq<u8>)
    ensures Groups(s, 0) == Groups(s[..|s| - |s| % 4], 0)
  {
    hide Groups;
    var whole := |s| - |s| % 4;
    assert s == s[..whole] + s[whole..];
    GroupsDropRest(s[..whole], s[whole..], 0);
  }

  /** On every text of whole groups that the first pass accepts, canonical or not, the decoder of wrapper_ota.c
      returns what that of alcs_base64.c makes of its characters without the line breaks. */
  lemma {:induction false} DecodersAgree(src: seq<u8>)
    requires Scan(src, 0, 0).Some? && |Symbols(src)| % 4 == 0 && Symbols(src) != []
    ensures Groups(Symbols(src), 0) == AlcsDecode(Symbols(src))
  {
    hide Groups, Scan, AlcsDecode, PadsLast, Plain, Symbols, Legible, Ended, CountPads;
    ScanIff(src, 0, 0);
    ScanAccepts(src, 0, 0);
    SymbolsArePlain(src);
    GroupsAreQuads(Symbols(src));
  }

  /** How a decoding ends. The size asked for is six bits a character, rounded up to bytes, without the pads. */
  lemma {:induction false} OtaOutcome(src: seq<u8>, capacity: nat)
    ensures var s := Symbols(src);
      var size := (6 * |s| + 7) / 8 - Pads61(s);
      OtaDecode(src, capacity) ==
        if !(Legible(src) && Ended(src, 0)) then Bad
        else if s == [] then Empty
        else if capacity < size then TooSmall(size)
        else Done(Groups(s, 0))
  {
    hide Scan, Symbols, CountPads, Pads61, PadsLast, Legible, Ended, Groups;
    ScanIff(src, 0, 0);
    if Scan(src, 0, 0).Some? {
      ScanAccepts(src, 0, 0);
    }
    CountIsPads61(Symbols(src));
  }

  lemma {:induction false} CountIsPads61(s: seq<u8>)
    ensures CountPads(s) == Pads61(s)
  {
    if s != [] {
      PadsTail(s);
      CountIsPads61(s[1..]);
    }
  }
}

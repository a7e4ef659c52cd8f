/** Cipher block chaining (NIST SP 800-38A, section 6.2) over an abstract block permutation, the padding
    of RFC 5652, section 6.3, and the two ways in which the SDK combines them. */
module Cbc {
  import opened Machine
  import opened Bits
  import opened Buffers

  const BLOCK := 16

  type block = s: seq<u8> | |s| == BLOCK witness [0, 0, 0, 0, 0, 0, 0, 0, 0, 0, 0, 0, 0, 0, 0, 0]

  /** AES-128 under one key. */
  datatype Cipher = Cipher(enc: block -> block, dec: block -> block)

  ghost predicate Permutes(c: Cipher) { forall b: block :: c.dec(c.enc(b)) == b }

  // ---------------------------------------------------------------- exclusive or

  function Xor(a: u8, b: u8): u8 {
    assert Pow2(8) == 0x100;
    XorBits(a, b, 8)
  }

  function XorBlock(a: block, b: block): block { seq(BLOCK, i requires 0 <= i < BLOCK => Xor(a[i], b[i])) }

  lemma {:induction false} XorBlockCancels(a: block, b: block)
    ensures XorBlock(XorBlock(a, b), b) == a
  {
    assert Pow2(8) == 0x100;
    forall i | 0 <= i < BLOCK ensures XorBlock(XorBlock(a, b), b)[i] == a[i] {
      XorBitsCancels(a[i], b[i], 8);
    }
  }

  lemma {:induction false} XorBlockInjective(a: block, b: block, b': block)
    requires XorBlock(a, b) == XorBlock(a, b')
    ensures b == b'
  {
    assert Pow2(8) == 0x100;
    forall i | 0 <= i < BLOCK ensures b[i] == b'[i] {
      assert XorBlock(a, b)[i] == XorBlock(a, b')[i];
      XorBitsInjective(a[i], b[i], b'[i], 8);
    }
  }

  // ---------------------------------------------------------------- chaining

  predicate Whole(data: seq<u8>) { |data| % BLOCK == 0 }

  function Encrypt(c: Cipher, iv: block, data: seq<u8>): (r: seq<u8>)
    requires Whole(data)
    ensures |r| == |data|
    decreases |data|
  {
    if data == [] then [] else
    var e := c.enc(XorBlock(data[..BLOCK], iv));
    e + Encrypt(c, e, data[BLOCK..])
  }

  function Decrypt(c: Cipher, iv: block, data: seq<u8>): (r: seq<u8>)
    requires Whole(data)
    ensures |r| == |data|
    decreases |data|
  {
    if data == [] then [] else
    XorBlock(c.dec(data[..BLOCK]), iv) + Decrypt(c, data[..BLOCK], data[BLOCK..])
  }

  /** What the chaining value is after the ciphertext `data`. */
  function LastBlock(iv: block, data: seq<u8>): block
    requires Whole(data)
  {
    if data == [] then iv else data[|data| - BLOCK..]
  }

  function BlockAt(data: seq<u8>, i: nat): block
    requires BLOCK * i + BLOCK <= |data|
  {
    data[BLOCK * i..BLOCK * i + BLOCK]
  }

  lemma {:induction false} EncryptAppend(c: Cipher, iv: block, a: seq<u8>, b: seq<u8>)
    requires Whole(a) && Whole(b)
    ensures Whole(a + b)
    ensures Encrypt(c, iv, a + b) == Encrypt(c, iv, a) + Encrypt(c, LastBlock(iv, Encrypt(c, iv, a)), b)
    decreases |a|
  {
    if a == [] {
      assert a + b == b;
    } else {
      var e := c.enc(XorBlock(a[..BLOCK], iv));
      EncryptAppend(c, e, a[BLOCK..], b);
      assert (a + b)[..BLOCK] == a[..BLOCK] && (a + b)[BLOCK..] == a[BLOCK..] + b;
      hide XorBlock;
      LastOfTail(iv, e, Encrypt(c, e, a[BLOCK..]));
    }
  }

  lemma LastOfTail(iv: block, e: block, rest: seq<u8>)
    requires Whole(rest)
    ensures Whole(e + rest) && LastBlock(iv, e + rest) == LastBlock(e, rest)
  {
  }

  lemma {:induction false} DecryptAppend(c: Cipher, iv: block, a: seq<u8>, b: seq<u8>)
    requires Whole(a) && Whole(b)
    ensures Whole(a + b)
    ensures Decrypt(c, iv, a + b) == Decrypt(c, iv, a) + Decrypt(c, LastBlock(iv, a), b)
    decreases |a|
  {
    hide XorBlock;
    if a == [] {
      assert a + b == b;
    } else {
      var e, rest := a[..BLOCK], a[BLOCK..];
      DecryptAppend(c, e, rest, b);
      LastOfTail(iv, e, rest);
      assert (a + b)[..BLOCK] == e && (a + b)[BLOCK..] == rest + b && a == e + rest;
      var first := XorBlock(c.dec(e), iv);
      assert Decrypt(c, iv, a + b) == first + Decrypt(c, e, rest + b);
      assert Decrypt(c, iv, a) == first + Decrypt(c, e, rest);
      hide Decrypt, LastBlock;
      Associate(first, Decrypt(c, e, rest), Decrypt(c, LastBlock(iv, a), b));
    }
  }

  lemma Associate(x: seq<u8>, y: seq<u8>, z: seq<u8>)
    ensures x + (y + z) == (x + y) + z
  {
  }

  /** Decryption inverts encryption, whatever the initialization vector. */
  lemma {:induction false} DecryptInverts(c: Cipher, iv: block, data: seq<u8>)
    requires Permutes(c) && Whole(data)
    ensures Decrypt(c, iv, Encrypt(c, iv, data)) == data
    decreases |data|
  {
    if data != [] {
      var x := XorBlock(data[..BLOCK], iv);
      var e := c.enc(x);
      assert c.dec(e) == x;
      XorBlockCancels(data[..BLOCK], iv);
      DecryptInverts(c, e, data[BLOCK..]);
      hide XorBlock, Permutes;
      var head: seq<u8>, rest: seq<u8> := e, Encrypt(c, e, data[BLOCK..]);
      assert (head + rest)[..BLOCK] == head && (head + rest)[BLOCK..] == rest;
    }
  }

  lemma BlockBehindHead(e: block, rest: seq<u8>, i: nat)
    requires BLOCK * i + BLOCK <= |rest|
    ensures BlockAt(e + rest, 0) == e && BlockAt(e + rest, i + 1) == BlockAt(rest, i)
  {
  }

  /** Every ciphertext block is the permutation of its plain block combined with the ciphertext block before
      it, the first one with the initialization vector. */
  lemma {:induction false} EncryptedBlock(c: Cipher, iv: block, data: seq<u8>, i: nat)
    requires Whole(data) && 16 * i + 16 <= |data|
    ensures var r := Encrypt(c, iv, data);
      BlockAt(r, i) == c.enc(XorBlock(BlockAt(data, i), if i == 0 then iv else BlockAt(r, i - 1)))
    decreases i
  {
    hide XorBlock;
    var e, rest := c.enc(XorBlock(data[..BLOCK], iv)), data[BLOCK..];
    var head: block := data[..BLOCK];
    assert Encrypt(c, iv, data) == e + Encrypt(c, e, rest) && data == head + rest;
    if i > 0 {
      EncryptedBlock(c, e, rest, i - 1);
      hide BlockAt, Encrypt;
      BlockBehindHead(head, rest, i - 1);
      BlockBehindHead(e, Encrypt(c, e, rest), i - 1);
      if i > 1 {
        BlockBehindHead(e, Encrypt(c, e, rest), i - 2);
      }
    }
  }

  lemma {:induction false} DecryptedBlock(c: Cipher, iv: block, data: seq<u8>, i: nat)
    requires Whole(data) && 16 * i + 16 <= |data|
    ensures BlockAt(Decrypt(c, iv, data), i)
         == XorBlock(c.dec(BlockAt(data, i)), if i == 0 then iv else BlockAt(data, i - 1))
    decreases i
  {
    hide XorBlock;
    var head: block, rest := data[..BLOCK], data[BLOCK..];
    var x := XorBlock(c.dec(head), iv);
    assert Decrypt(c, iv, data) == x + Decrypt(c, head, rest) && data == head + rest;
    if i > 0 {
      DecryptedBlock(c, head, rest, i - 1);
      hide BlockAt, Decrypt;
      BlockBehindHead(head, rest, i - 1);
      BlockBehindHead(x, Decrypt(c, head, rest), i - 1);
      if i > 1 {
        BlockBehindHead(head, rest, i - 2);
      }
    }
  }

  /** The exclusive or of blocks is that of their bits. */
  lemma {:induction false} XorBlockBits(a: block, b: block, i: nat, k: nat)
    requires i < 16 && k < 8
    ensures Bit(XorBlock(a, b)[i], k) == 0 <==> Bit(a[i], k) == Bit(b[i], k)
  {
    BitTables(a[i], b[i], 8, k);
  }

  // ---------------------------------------------------------------- padding

  /** The full blocks of a source, which the C code finds by masking the length. */
  function Full(len: nat): (r: nat)
    ensures r % BLOCK == 0 && r <= len < r + BLOCK
  {
    len - len % BLOCK
  }

  function PadByte(len: nat): (r: u8)
    ensures 1 <= r <= BLOCK && (len + r) % BLOCK == 0
  {
    BLOCK - len % BLOCK
  }

  function Fill(value: u8, n: nat): (r: seq<u8>)
    ensures |r| == n && forall i :: 0 <= i < n ==> r[i] == value
  {
    seq(n, _ => value)
  }

  function Padded(m: seq<u8>): (r: seq<u8>)
    ensures Whole(r) && |r| == Full(|m|) + BLOCK
  {
    m + Fill(PadByte(|m|), PadByte(|m|))
  }

  /** The last block of the padded source. */
  function LastPlain(m: seq<u8>): block { m[Full(|m|)..] + Fill(PadByte(|m|), PadByte(|m|)) }

  lemma {:induction false} PaddedParts(m: seq<u8>)
    ensures Padded(m) == m[..Full(|m|)] + LastPlain(m)
  {
    assert m == m[..Full(|m|)] + m[Full(|m|)..];
  }

  /** What decryption leaves to its caller: the buffer and the length of the message in it. */
  datatype Opened = Opened(buffer: seq<u8>, len: int)

  /** The byte at the end of the ciphertext's length says how much to cut; it must lie in the buffer. */
  predicate CanFinish(buffer: seq<u8>, len: nat) {
    1 <= len <= |buffer| && buffer[len - 1] <= len && len - buffer[len - 1] < |buffer|
  }

  /** The length without padding, and a zero behind it. */
  function Finish(buffer: seq<u8>, len: nat): Opened
    requires CanFinish(buffer, len)
  {
    var end := len - buffer[len - 1];
    Opened(buffer[end := 0], end)
  }

  /** Whatever the last byte of the buffer says, the message ends that much before it, with a zero, and the other
      bytes stay. */
  lemma {:induction false} FinishExactly(buffer: seq<u8>, len: nat, i: nat)
    requires CanFinish(buffer, len) && i < |buffer|
    ensures var o := Finish(buffer, len);
      && o.len == len - buffer[len - 1] && |o.buffer| == |buffer|
      && o.buffer[i] == if i == len - buffer[len - 1] then 0 else buffer[i]
  {
  }

  /** Cutting the padding off returns the message, and ends it with a zero. */
  lemma {:induction false} FinishPadded(buffer: seq<u8>, m: seq<u8>)
    requires |Padded(m)| <= |buffer| && buffer[..|Padded(m)|] == Padded(m)
    ensures CanFinish(buffer, |Padded(m)|)
    ensures var o := Finish(buffer, |Padded(m)|);
      o.len == |m| < |o.buffer| && o.buffer[..|m|] == m && o.buffer[|m|] == 0
  {
    var p := Padded(m);
    assert buffer[|p| - 1] == p[|p| - 1] == PadByte(|m|);
    assert buffer[..|m|] == buffer[..|p|][..|m|] == m;
  }

  // ---------------------------------------------------------------- the two schemes

  /** "543yhjy97ae7fyfg" */
  const IOTX_IV: block := [53, 52, 51, 121, 104, 106, 121, 57, 55, 97, 101, 55, 102, 121, 102, 103]

  /** "a1b1c1d1e1f1g1h1" */
  const ALCS_IV: block := [97, 49, 98, 49, 99, 49, 100, 49, 101, 49, 102, 49, 103, 49, 104, 49]

  lemma {:induction false} VectorsAreTexts()
    ensures IOTX_IV == Ascii("543yhjy97ae7fyfg") && ALCS_IV == Ascii("a1b1c1d1e1f1g1h1")
  {
  }

  /** The padding is 1 to 16 bytes long, up to the next multiple of 16, and every byte of it is its length. */
  lemma {:induction false} PaddingBytes(m: seq<u8>)
    ensures var p := Padded(m);
      && |p| % 16 == 0 && 1 <= |p| - |m| <= 16 && p[..|m|] == m
      && forall i :: |m| <= i < |p| ==> p[i] == |p| - |m|
  {
  }

  /** alcs_encrypt starts again from the initialization vector for the last block. */
  function AlcsEncrypt(c: Cipher, m: seq<u8>): (r: seq<u8>)
    ensures Whole(r) && |r| == Full(|m|) + BLOCK
  {
    Encrypt(c, ALCS_IV, m[..Full(|m|)]) + Encrypt(c, ALCS_IV, LastPlain(m))
  }

  function AlcsDecrypt(c: Cipher, data: seq<u8>): (r: seq<u8>)
    requires Whole(data) && data != []
    ensures |r| == |data|
  {
    Decrypt(c, ALCS_IV, data[..|data| - BLOCK]) + Decrypt(c, ALCS_IV, data[|data| - BLOCK..])
  }

  /** iotx_aes_cbc_decrypt returns the bytes and the length that iotx_aes_cbc_encrypt was given. */
  lemma {:induction false} IotxRoundTrip(c: Cipher, m: seq<u8>, was: seq<u8>)
    requires Permutes(c) && |Padded(m)| <= |was|
    ensures var data := Encrypt(c, IOTX_IV, Padded(m));
      var buffer := Splice(was, 0, Decrypt(c, IOTX_IV, data));
      CanFinish(buffer, |data|) && var o := Finish(buffer, |data|);
      o.len == |m| < |o.buffer| && o.buffer[..|m|] == m && o.buffer[|m|] == 0
  {
    DecryptInverts(c, IOTX_IV, Padded(m));
    hide Encrypt, Decrypt, Padded, Finish, CanFinish;
    var buffer := Splice(was, 0, Padded(m));
    assert buffer[..|Padded(m)|] == Padded(m);
    FinishPadded(buffer, m);
  }

  /** alcs_decrypt undoes alcs_encrypt, in spite of the restarted chain. */
  lemma {:induction false} AlcsRoundTrip(c: Cipher, m: seq<u8>, was: seq<u8>)
    requires Permutes(c) && |Padded(m)| <= |was|
    ensures var data := AlcsEncrypt(c, m);
      |data| == Full(|m|) + BLOCK && var buffer := Splice(was, 0, AlcsDecrypt(c, data));
      CanFinish(buffer, |data|) && var o := Finish(buffer, |data|);
      o.len == |m| < |o.buffer| && o.buffer[..|m|] == m && o.buffer[|m|] == 0
  {
    AlcsDecryptInverts(c, m);
    hide AlcsEncrypt, AlcsDecrypt, Padded, Finish, CanFinish;
    var buffer := Splice(was, 0, Padded(m));
    assert buffer[..|Padded(m)|] == Padded(m);
    FinishPadded(buffer, m);
  }

  lemma {:induction false} AlcsDecryptInverts(c: Cipher, m: seq<u8>)
    requires Permutes(c)
    ensures AlcsDecrypt(c, AlcsEncrypt(c, m)) == Padded(m)
  {
    var full, last := m[..Full(|m|)], LastPlain(m);
    DecryptInverts(c, ALCS_IV, full);
    DecryptInverts(c, ALCS_IV, last);
    PaddedParts(m);
    hide Encrypt, Decrypt, Padded, LastPlain, Permutes;
    var x, y := Encrypt(c, ALCS_IV, full), Encrypt(c, ALCS_IV, last);
    assert (x + y)[..|x + y| - BLOCK] == x && (x + y)[|x + y| - BLOCK..] == y;
  }

  /** The last block is combined with the initialization vector again, and the others are CBC. */
  lemma {:induction false} AlcsBlocks(c: Cipher, m: seq<u8>)
    ensures var r, n := AlcsEncrypt(c, m), |m| / 16 * 16;
      && |r| == n + 16 && r[..n] == Encrypt(c, ALCS_IV, m[..n])
      && r[n..] == c.enc(XorBlock(Padded(m)[n..], ALCS_IV))
  {
    PaddedParts(m);
    EncryptOne(c, ALCS_IV, LastPlain(m));
    hide Encrypt, XorBlock;
    var full := m[..Full(|m|)];
    assert |m| / 16 * 16 == Full(|m|);
    assert Padded(m)[Full(|m|)..] == LastPlain(m);
  }

  /** And back, for any data. */
  lemma {:induction false} AlcsPlainBlocks(c: Cipher, data: seq<u8>)
    requires Whole(data) && data != []
    ensures var r, n := AlcsDecrypt(c, data), |data| - 16;
      && |r| == |data| && r[..n] == Decrypt(c, ALCS_IV, data[..n])
      && r[n..] == XorBlock(c.dec(data[n..]), ALCS_IV)
  {
    var n := |data| - 16;
    var last: block := data[n..];
    DecryptOne(c, ALCS_IV, last);
    hide Decrypt, XorBlock;
  }

  lemma {:induction false} DecryptOne(c: Cipher, iv: block, b: block)
    ensures Decrypt(c, iv, b) == XorBlock(c.dec(b), iv)
  {
    assert b[..BLOCK] == b && b[BLOCK..] == [];
    assert Decrypt(c, b, []) == [];
  }

  lemma {:induction false} EncryptOne(c: Cipher, iv: block, b: block)
    ensures Encrypt(c, iv, b) == c.enc(XorBlock(b, iv))
  {
    assert b[..BLOCK] == b && b[BLOCK..] == [];
    assert Encrypt(c, c.enc(XorBlock(b, iv)), []) == [];
  }

  /** When the restarted chain is ordinary CBC: without a full block before the last one, or when that
      block happens to encrypt to the initialization vector itself. */
  lemma {:induction false} AlcsIsCbcIff(c: Cipher, m: seq<u8>)
    requires Permutes(c)
    ensures AlcsEncrypt(c, m) == Encrypt(c, ALCS_IV, Padded(m))
       <==> |m| < BLOCK || LastBlock(ALCS_IV, Encrypt(c, ALCS_IV, m[..Full(|m|)])) == ALCS_IV
  {
    var full, last := m[..Full(|m|)], LastPlain(m);
    var head := Encrypt(c, ALCS_IV, full);
    var iv := LastBlock(ALCS_IV, head);
    PaddedParts(m);
    EncryptAppend(c, ALCS_IV, full, last);
    assert |m| < BLOCK ==> head == [] && iv == ALCS_IV;
    hide Encrypt, Padded, LastPlain, LastBlock;
    SameTail(head, Encrypt(c, ALCS_IV, last), Encrypt(c, iv, last));
    EncryptOne(c, ALCS_IV, last);
    EncryptOne(c, iv, last);
    EncInjective(c, last, ALCS_IV, iv);
  }

  /** A message whose ALCS encryption is not CBC: one full block, which does not encrypt to the
      initialization vector. */
  lemma {:induction false} AlcsIsNotCbc(c: Cipher, m: seq<u8>)
    requires Permutes(c) && |m| == BLOCK && c.enc(XorBlock(m, ALCS_IV)) != ALCS_IV
    ensures AlcsEncrypt(c, m) != Encrypt(c, ALCS_IV, Padded(m))
  {
    AlcsIsCbcIff(c, m);
    assert m[..Full(|m|)] == m;
    EncryptOne(c, ALCS_IV, m);
    var e: seq<u8> := c.enc(XorBlock(m, ALCS_IV));
    assert e[|e| - BLOCK..] == e;
    hide Encrypt, AlcsEncrypt, Padded;
  }

  const IDENTITY := Cipher(b => b, b => b)

  lemma XorSample()
    ensures Xor(1, 97) == 96
  {
  }

  /** There is such a permutation and such a message. */
  lemma {:induction false} IdentityIsNotCbc()
    ensures Permutes(IDENTITY)
    ensures AlcsEncrypt(IDENTITY, Fill(1, BLOCK)) != Encrypt(IDENTITY, ALCS_IV, Padded(Fill(1, BLOCK)))
  {
    var m: block := Fill(1, BLOCK);
    XorSample();
    hide Xor;
    assert XorBlock(m, ALCS_IV)[0] != ALCS_IV[0];
    hide XorBlock;
    AlcsIsNotCbc(IDENTITY, m);
  }

  lemma {:induction false} SameTail(a: seq<u8>, x: seq<u8>, y: seq<u8>)
    ensures a + x == a + y <==> x == y
  {
    if a + x == a + y {
      assert x == (a + x)[|a|..] == (a + y)[|a|..] == y;
    }
  }

  lemma {:induction false} EncInjective(c: Cipher, b: block, iv: block, iv': block)
    requires Permutes(c)
    ensures c.enc(XorBlock(b, iv)) == c.enc(XorBlock(b, iv')) <==> iv == iv'
  {
    if c.enc(XorBlock(b, iv)) == c.enc(XorBlock(b, iv')) {
      assert c.dec(c.enc(XorBlock(b, iv))) == XorBlock(b, iv);
      assert c.dec(c.enc(XorBlock(b, iv'))) == XorBlock(b, iv');
      XorBlockInjective(b, iv, iv');
    }
  }
}

/** The block loops of wrapper_crypto.c, and the encryption and decryption of iotx_coap_api.c and
    alcs_api.c on top of them, as they run over output buffers. */
module CbcCipher {
  import opened Machine
  import opened Buffers
  import opened Cbc

  /** The first `i` blocks of `data` have been turned into `text`, which is written over `was` at `at`. */
  ghost predicate Chained(was: seq<u8>, now: seq<u8>, at: nat, text: seq<u8>, iv: block, last: block) {
    Appended(was, now, at, text) && iv == last
  }

  ghost predicate EncryptedSoFar(c: Cipher, iv0: block, data: seq<u8>, i: nat, was: seq<u8>, now: seq<u8>,
                                 at: nat, iv: block) {
    && BLOCK * i <= |data| && at + |data| <= |was|
    && var text := Encrypt(c, iv0, data[..BLOCK * i]);
       Chained(was, now, at, text, iv, LastBlock(iv0, text))
  }

  ghost predicate DecryptedSoFar(c: Cipher, iv0: block, data: seq<u8>, i: nat, was: seq<u8>, now: seq<u8>,
                                 at: nat, iv: block) {
    && BLOCK * i <= |data| && at + |data| <= |was|
    && Chained(was, now, at, Decrypt(c, iv0, data[..BLOCK * i]), iv, LastBlock(iv0, data[..BLOCK * i]))
  }

  lemma WholeBlocks(src: seq<u8>, n: nat)
    requires BLOCK * n <= |src|
    ensures Whole(src[..BLOCK * n])
  {
  }

  lemma SourceBlock(src: seq<u8>, n: nat, i: nat)
    requires i < n && BLOCK * n <= |src|
    ensures BLOCK * i + BLOCK <= BLOCK * n && BlockAt(src[..BLOCK * n], i) == src[BLOCK * i..BLOCK * i + BLOCK]
  {
  }

  lemma TakeBlock(data: seq<u8>, i: nat)
    requires BLOCK * i + BLOCK <= |data|
    ensures data[..BLOCK * (i + 1)] == data[..BLOCK * i] + BlockAt(data, i)
    ensures Whole(data[..BLOCK * i])
  {
  }

  lemma {:induction false} StartsEncrypted(c: Cipher, iv0: block, data: seq<u8>, was: seq<u8>, at: nat)
    requires at + |data| <= |was|
    ensures EncryptedSoFar(c, iv0, data, 0, was, was, at, iv0)
  {
    StartsAppending(was, at);
    assert data[..0] == [];
  }

  lemma {:induction false} StartsDecrypted(c: Cipher, iv0: block, data: seq<u8>, was: seq<u8>, at: nat)
    requires at + |data| <= |was|
    ensures DecryptedSoFar(c, iv0, data, 0, was, was, at, iv0)
  {
    StartsAppending(was, at);
    assert data[..0] == [];
  }

  lemma {:induction false} ExtendsEncrypted(c: Cipher, iv0: block, data: seq<u8>, i: nat, was: seq<u8>,
                                            now: seq<u8>, at: nat, iv: block)
    requires EncryptedSoFar(c, iv0, data, i, was, now, at, iv) && BLOCK * i + BLOCK <= |data|
    ensures |now| == |was| && at + BLOCK * i + BLOCK <= |was|
    ensures var e := c.enc(XorBlock(BlockAt(data, i), iv));
      EncryptedSoFar(c, iv0, data, i + 1, was, Splice(now, at + BLOCK * i, e), at, e)
  {
    hide XorBlock, BlockAt, Appended, Splice;
    var x := BlockAt(data, i);
    TakeBlock(data, i);
    EncryptAppend(c, iv0, data[..BLOCK * i], x);
    EncryptOne(c, iv, x);
    hide Encrypt;
    Appends(was, now, at, Encrypt(c, iv0, data[..BLOCK * i]), c.enc(XorBlock(x, iv)));
    LastAppended(iv0, Encrypt(c, iv0, data[..BLOCK * i]), c.enc(XorBlock(x, iv)));
  }

  lemma LastAppended(iv: block, text: seq<u8>, b: block)
    requires Whole(text)
    ensures Whole(text + b) && LastBlock(iv, text + b) == b
  {
  }

  lemma {:induction false} ExtendsDecrypted(c: Cipher, iv0: block, data: seq<u8>, i: nat, was: seq<u8>,
                                            now: seq<u8>, at: nat, iv: block)
    requires DecryptedSoFar(c, iv0, data, i, was, now, at, iv) && BLOCK * i + BLOCK <= |data|
    ensures |now| == |was| && at + BLOCK * i + BLOCK <= |was|
    ensures var x := BlockAt(data, i);
      DecryptedSoFar(c, iv0, data, i + 1, was, Splice(now, at + BLOCK * i, XorBlock(c.dec(x), iv)), at, x)
  {
    hide XorBlock, BlockAt, Appended, Splice;
    var x := BlockAt(data, i);
    TakeBlock(data, i);
    DecryptAppend(c, iv0, data[..BLOCK * i], x);
    DecryptOne(c, iv, x);
    hide Decrypt;
    Appends(was, now, at, Decrypt(c, iv0, data[..BLOCK * i]), XorBlock(c.dec(x), iv));
    LastAppended(iv0, data[..BLOCK * i], x);
  }

  lemma {:induction false} EndsEncrypted(c: Cipher, iv0: block, data: seq<u8>, i: nat, was: seq<u8>,
                                         now: seq<u8>, at: nat, iv: block)
    requires EncryptedSoFar(c, iv0, data, i, was, now, at, iv) && BLOCK * i == |data| && Whole(data)
    ensures now == Splice(was, at, Encrypt(c, iv0, data)) && iv == LastBlock(iv0, Encrypt(c, iv0, data))
  {
    assert data[..BLOCK * i] == data;
    hide Encrypt;
    EndsAppending(was, now, at, Encrypt(c, iv0, data));
  }

  lemma {:induction false} EndsDecrypted(c: Cipher, iv0: block, data: seq<u8>, i: nat, was: seq<u8>,
                                         now: seq<u8>, at: nat, iv: block)
    requires DecryptedSoFar(c, iv0, data, i, was, now, at, iv) && BLOCK * i == |data| && Whole(data)
    ensures now == Splice(was, at, Decrypt(c, iv0, data)) && iv == LastBlock(iv0, data)
  {
    assert data[..BLOCK * i] == data;
    hide Decrypt;
    EndsAppending(was, now, at, Decrypt(c, iv0, data));
  }

  /** platform_aes_t: the chaining value lives in the context, from one call to the next. */
  class Aes {
    const cipher: Cipher
    var iv: block

    constructor (cipher: Cipher, iv: block)
      ensures this.cipher == cipher && this.iv == iv
    {
      this.cipher, this.iv := cipher, iv;
    }

    /** The library's CBC routine on one block. */
    method EncryptBlock(src: block, dst: array<u8>, at: nat)
      requires at + BLOCK <= dst.Length
      modifies this`iv, dst
      ensures iv == cipher.enc(XorBlock(src, old(iv))) && dst[..] == Splice(old(dst[..]), at, iv)
    {
      iv := cipher.enc(XorBlock(src, iv));
      Copy(dst, at, iv);
    }

    method DecryptBlock(src: block, dst: array<u8>, at: nat)
      requires at + BLOCK <= dst.Length
      modifies this`iv, dst
      ensures iv == src && dst[..] == Splice(old(dst[..]), at, XorBlock(cipher.dec(src), old(iv)))
    {
      var plain := XorBlock(cipher.dec(src), iv);
      iv := src;
      Copy(dst, at, plain);
    }

    method EncryptNext(src: seq<u8>, ghost n: nat, i: nat, dst: array<u8>, at: nat, ghost iv0: block,
                       ghost was: seq<u8>)
      requires i < n && BLOCK * n <= |src| && EncryptedSoFar(cipher, iv0, src[..BLOCK * n], i, was, dst[..], at, iv)
      modifies this`iv, dst
      ensures EncryptedSoFar(cipher, iv0, src[..BLOCK * n], i + 1, was, dst[..], at, iv)
    {
      hide EncryptedSoFar, BlockAt, XorBlock, Splice;
      SourceBlock(src, n, i);
      ExtendsEncrypted(cipher, iv0, src[..BLOCK * n], i, was, dst[..], at, iv);
      EncryptBlock(src[BLOCK * i..BLOCK * i + BLOCK], dst, at + BLOCK * i);
    }

    method EncryptBlocks(src: seq<u8>, n: nat, dst: array<u8>, at: nat, ghost iv0: block, ghost was: seq<u8>)
      returns (ret: int)
      requires BLOCK * n <= |src| && EncryptedSoFar(cipher, iv0, src[..BLOCK * n], 0, was, dst[..], at, iv)
      modifies this`iv, dst
      ensures 0 < n ==> ret == 0
      ensures EncryptedSoFar(cipher, iv0, src[..BLOCK * n], n, was, dst[..], at, iv)
    {
      hide EncryptedSoFar;
      ret := *;
      var i := 0;
      while i < n
        invariant i <= n && EncryptedSoFar(cipher, iv0, src[..BLOCK * n], i, was, dst[..], at, iv)
        invariant 0 < i ==> ret == 0
      {
        EncryptNext(src, n, i, dst, at, iv0, was);
        ret := 0;
        i := i + 1;
      }
    }

    /** HAL_Aes128_Cbc_Encrypt. Without a block it returns whatever was in its result variable. */
    method CbcEncrypt(src: seq<u8>, blockNum: nat, dst: array<u8>, at: nat) returns (ret: int)
      requires BLOCK * blockNum <= |src| && at + BLOCK * blockNum <= dst.Length
      modifies this`iv, dst
      ensures 0 < blockNum ==> ret == 0
      ensures dst[..] == Splice(old(dst[..]), at, Encrypt(cipher, old(iv), src[..BLOCK * blockNum]))
      ensures iv == LastBlock(old(iv), Encrypt(cipher, old(iv), src[..BLOCK * blockNum]))
    {
      ghost var was, data, iv0 := dst[..], src[..BLOCK * blockNum], iv;
      hide Encrypt, EncryptedSoFar, Splice, LastBlock, Whole;
      StartsEncrypted(cipher, iv0, data, was, at);
      ret := EncryptBlocks(src, blockNum, dst, at, iv0, was);
      WholeBlocks(src, blockNum);
      EndsEncrypted(cipher, iv0, data, blockNum, was, dst[..], at, iv);
    }

    method DecryptNext(src: seq<u8>, ghost n: nat, i: nat, dst: array<u8>, at: nat, ghost iv0: block,
                       ghost was: seq<u8>)
      requires i < n && BLOCK * n <= |src| && DecryptedSoFar(cipher, iv0, src[..BLOCK * n], i, was, dst[..], at, iv)
      modifies this`iv, dst
      ensures DecryptedSoFar(cipher, iv0, src[..BLOCK * n], i + 1, was, dst[..], at, iv)
    {
      hide DecryptedSoFar, BlockAt, XorBlock, Splice;
      SourceBlock(src, n, i);
      ExtendsDecrypted(cipher, iv0, src[..BLOCK * n], i, was, dst[..], at, iv);
      DecryptBlock(src[BLOCK * i..BLOCK * i + BLOCK], dst, at + BLOCK * i);
    }

    method DecryptBlocks(src: seq<u8>, n: nat, dst: array<u8>, at: nat, ghost iv0: block, ghost was: seq<u8>)
      returns (ret: int)
      requires BLOCK * n <= |src| && DecryptedSoFar(cipher, iv0, src[..BLOCK * n], 0, was, dst[..], at, iv)
      modifies this`iv, dst
      ensures (n == 0 ==> ret == -1) && (n > 0 ==> ret == 0)
      ensures DecryptedSoFar(cipher, iv0, src[..BLOCK * n], n, was, dst[..], at, iv)
    {
      hide DecryptedSoFar;
      ret := -1;
      var i := 0;
      while i < n
        invariant i <= n && DecryptedSoFar(cipher, iv0, src[..BLOCK * n], i, was, dst[..], at, iv)
        invariant (i == 0 ==> ret == -1) && (i > 0 ==> ret == 0)
      {
        DecryptNext(src, n, i, dst, at, iv0, was);
        ret := 0;
        i := i + 1;
      }
    }

    /** HAL_Aes128_Cbc_Decrypt */
    method CbcDecrypt(src: seq<u8>, blockNum: nat, dst: array<u8>, at: nat) returns (ret: int)
      requires BLOCK * blockNum <= |src| && at + BLOCK * blockNum <= dst.Length
      modifies this`iv, dst
      ensures ret == if blockNum == 0 then -1 else 0
      ensures dst[..] == Splice(old(dst[..]), at, Decrypt(cipher, old(iv), src[..BLOCK * blockNum]))
      ensures iv == LastBlock(old(iv), src[..BLOCK * blockNum])
    {
      ghost var was, data, iv0 := dst[..], src[..BLOCK * blockNum], iv;
      hide Decrypt, DecryptedSoFar, Splice, LastBlock, Whole;
      StartsDecrypted(cipher, iv0, data, was, at);
      ret := DecryptBlocks(src, blockNum, dst, at, iv0, was);
      WholeBlocks(src, blockNum);
      EndsDecrypted(cipher, iv0, data, blockNum, was, dst[..], at, iv);
    }
  }

  // ---------------------------------------------------------------- encryption

  /** The 16-byte buffer for the end of the source: memcpy, then memset of the padding. */
  method FillLast(src: seq<u8>, len1: nat, pad: u8) returns (buf: array<u8>)
    requires len1 == Full(|src|) && pad == PadByte(|src|)
    ensures fresh(buf) && buf[..] == LastPlain(src)
  {
    buf := new u8[BLOCK](_ => 0);
    Copy(buf, 0, src[len1..]);
    forall i | |src| - len1 <= i < BLOCK {
      buf[i] := pad;
    }
  }

  /** Two calls on one context are one CBC pass over the padded source. */
  lemma {:induction false} TwoCallsAreOne(c: Cipher, src: seq<u8>, was: seq<u8>)
    requires Full(|src|) + BLOCK <= |was|
    ensures var head := Encrypt(c, IOTX_IV, src[..Full(|src|)]);
      Splice(Splice(was, 0, head), Full(|src|), Encrypt(c, LastBlock(IOTX_IV, head), LastPlain(src)))
      == Splice(was, 0, Encrypt(c, IOTX_IV, Padded(src)))
    ensures src[..Full(|src|)] == [] ==> Splice(was, 0, Encrypt(c, IOTX_IV, src[..Full(|src|)])) == was
  {
    var full := src[..Full(|src|)];
    var head := Encrypt(c, IOTX_IV, full);
    PaddedParts(src);
    EncryptAppend(c, IOTX_IV, full, LastPlain(src));
    SpliceNothing(was, 0);
    hide Encrypt, Splice, Padded, LastPlain, LastBlock;
    SpliceTwice(was, 0, head, Encrypt(c, LastBlock(IOTX_IV, head), LastPlain(src)));
  }

  /** iotx_aes_cbc_encrypt */
  method IotxEncrypt(c: Cipher, src: seq<u8>, out: array<u8>) returns (r: int)
    requires Full(|src|) + BLOCK <= out.Length
    modifies out
    ensures r == |Padded(src)|
    ensures out[..] == Splice(old(out[..]), 0, Encrypt(c, IOTX_IV, Padded(src)))
  {
    TwoCallsAreOne(c, src, out[..]);
    var len1 := |src| - |src| % BLOCK;
    var len2 := len1 + BLOCK;
    var pad := len2 - |src|;
    assert len1 != 0 ==> src[..BLOCK * (len1 / BLOCK)] == src[..len1];
    hide Encrypt, Splice, Padded, LastPlain;
    var ret := 0;
    var aes := new Aes(c, IOTX_IV);
    if len1 != 0 {
      ret := aes.CbcEncrypt(src, len1 / BLOCK, out, 0);
    }
    if ret == 0 && pad != 0 {
      var buf := FillLast(src, len1, pad);
      assert buf[..][..BLOCK * 1] == buf[..];
      ret := aes.CbcEncrypt(buf[..], 1, out, len1);
    }
    r := if ret == 0 then len2 else 0;
  }

  lemma {:induction false} RestartedCalls(c: Cipher, src: seq<u8>, was: seq<u8>)
    requires Full(|src|) + BLOCK <= |was|
    ensures Splice(Splice(was, 0, Encrypt(c, ALCS_IV, src[..Full(|src|)])), Full(|src|),
                   Encrypt(c, ALCS_IV, LastPlain(src)))
         == Splice(was, 0, AlcsEncrypt(c, src))
    ensures src[..Full(|src|)] == [] ==> Splice(was, 0, Encrypt(c, ALCS_IV, src[..Full(|src|)])) == was
  {
    SpliceTwice(was, 0, Encrypt(c, ALCS_IV, src[..Full(|src|)]), Encrypt(c, ALCS_IV, LastPlain(src)));
    SpliceNothing(was, 0);
    hide Splice, LastPlain;
  }

  /** alcs_encrypt */
  method EncryptAlcs(c: Cipher, src: seq<u8>, out: array<u8>) returns (r: int)
    requires Full(|src|) + BLOCK <= out.Length
    modifies out
    ensures r == |AlcsEncrypt(c, src)| == Full(|src|) + BLOCK
    ensures out[..] == Splice(old(out[..]), 0, AlcsEncrypt(c, src))
  {
    RestartedCalls(c, src, out[..]);
    var len1 := |src| - |src| % BLOCK;
    var len2 := len1 + BLOCK;
    var pad := len2 - |src|;
    assert len1 != 0 ==> src[..BLOCK * (len1 / BLOCK)] == src[..len1];
    hide Encrypt, Splice, LastPlain, AlcsEncrypt;
    var ret := 0;
    if len1 != 0 {
      var aes := new Aes(c, ALCS_IV);
      ret := aes.CbcEncrypt(src, len1 / BLOCK, out, 0);
    }
    if ret == 0 && pad != 0 {
      var buf := FillLast(src, len1, pad);
      assert buf[..][..BLOCK * 1] == buf[..];
      var aes := new Aes(c, ALCS_IV);
      ret := aes.CbcEncrypt(buf[..], 1, out, len1);
    }
    r := if ret == 0 then len2 else 0;
  }

  // ---------------------------------------------------------------- decryption

  /** How many blocks the decryption functions read for a length, which need not be whole. */
  function Blocks(len: nat): (n: nat)
    ensures n >= 1 && (if len < 16 then n == 1 else 16 * n <= len < 16 * n + 16)
  {
    if len < BLOCK then 1 else len / BLOCK
  }

  /** Clearing a byte that the last block overwrites makes no difference. */
  lemma ClearedByte(was: seq<u8>, head: seq<u8>, last: seq<u8>)
    requires |head| + |last| <= |was| && 0 < |last|
    ensures Splice(Splice(was, 0, head)[|head| := 0], |head|, last) == Splice(was, 0, head + last)
  {
  }

  method FinishMessage(out: array<u8>, len: nat) returns (r: int)
    requires CanFinish(out[..], len)
    modifies out
    ensures Opened(out[..], r) == Finish(old(out[..]), len)
  {
    var pad := out[len - 1];
    out[len - pad] := 0;
    r := len - pad;
  }

  lemma SplitLast(src: seq<u8>, n: nat)
    requires 1 <= n && BLOCK * n <= |src|
    ensures src[..BLOCK * n] == src[..BLOCK * (n - 1)] + src[BLOCK * (n - 1)..][..BLOCK * 1]
    ensures |src[BLOCK * (n - 1)..][..BLOCK * 1]| == BLOCK && Whole(src[..BLOCK * n])
  {
  }

  lemma {:induction false} DecryptTwice(c: Cipher, src: seq<u8>, n: nat, was: seq<u8>)
    requires 1 <= n && BLOCK * n <= |src| && BLOCK * n <= |was|
    ensures var head, last := src[..BLOCK * (n - 1)], src[BLOCK * (n - 1)..][..BLOCK * 1];
      Splice(Splice(was, 0, Decrypt(c, IOTX_IV, head))[BLOCK * (n - 1) := 0], BLOCK * (n - 1),
             Decrypt(c, LastBlock(IOTX_IV, head), last))
      == Splice(was, 0, Decrypt(c, IOTX_IV, src[..BLOCK * n]))
  {
    SplitLast(src, n);
    hide Splice, Decrypt, LastBlock;
    var head, last := src[..BLOCK * (n - 1)], src[BLOCK * (n - 1)..][..BLOCK * 1];
    DecryptAppend(c, IOTX_IV, head, last);
    ClearedByte(was, Decrypt(c, IOTX_IV, head), Decrypt(c, LastBlock(IOTX_IV, head), last));
  }

  /** The last block, after its first byte in the output has been cleared. */
  method DecryptLast(aes: Aes, src: seq<u8>, offset: nat, out: array<u8>) returns (ret: int)
    requires offset + BLOCK <= |src| && offset + BLOCK <= out.Length
    modifies aes`iv, out
    ensures ret == 0
    ensures out[..] == Splice(old(out[..])[offset := 0], offset,
                              Decrypt(aes.cipher, old(aes.iv), src[offset..][..BLOCK * 1]))
  {
    hide Decrypt, Splice;
    out[offset] := 0;
    assert out[..] == old(out[..])[offset := 0];
    ret := aes.CbcDecrypt(src[offset..], 1, out, offset);
  }

  method IotxDecryptBlocks(c: Cipher, src: seq<u8>, len: nat, out: array<u8>) returns (ret: int)
    requires BLOCK * Blocks(len) <= |src| && BLOCK * Blocks(len) <= out.Length
    modifies out
    ensures ret == 0
    ensures out[..] == Splice(old(out[..]), 0, Decrypt(c, IOTX_IV, src[..BLOCK * Blocks(len)]))
  {
    DecryptTwice(c, src, Blocks(len), out[..]);
    assert src[..BLOCK * 0] == [] && Decrypt(c, IOTX_IV, []) == [];
    SpliceNothing(out[..], 0);
    hide Splice, Decrypt;
    var n := len / BLOCK;
    var aes := new Aes(c, IOTX_IV);
    ret := 0;
    if n > 1 {
      ret := aes.CbcDecrypt(src, n - 1, out, 0);
    }
    if ret == 0 {
      ret := DecryptLast(aes, src, if n > 0 then BLOCK * (n - 1) else 0, out);
    }
  }

  /** iotx_aes_cbc_decrypt. `char` is unsigned. The precondition is memory safety alone. */
  method IotxDecrypt(c: Cipher, src: seq<u8>, len: nat, out: array<u8>) returns (r: int)
    requires BLOCK * Blocks(len) <= |src| && BLOCK * Blocks(len) <= out.Length
    requires CanFinish(Splice(out[..], 0, Decrypt(c, IOTX_IV, src[..BLOCK * Blocks(len)])), len)
    modifies out
    ensures Opened(out[..], r) == Finish(Splice(old(out[..]), 0, Decrypt(c, IOTX_IV, src[..BLOCK * Blocks(len)])), len)
  {
    hide Splice, Decrypt, CanFinish, Finish, Blocks;
    var ret := IotxDecryptBlocks(c, src, len, out);
    if ret == 0 {
      r := FinishMessage(out, len);
    } else {
      r := 0;
    }
  }

  lemma {:induction false} DecryptRestarted(c: Cipher, src: seq<u8>, n: nat, was: seq<u8>)
    requires 1 <= n && BLOCK * n <= |src| && BLOCK * n <= |was|
    ensures var head, last := src[..BLOCK * (n - 1)], src[BLOCK * (n - 1)..][..BLOCK * 1];
      Splice(Splice(was, 0, Decrypt(c, ALCS_IV, head))[BLOCK * (n - 1) := 0], BLOCK * (n - 1),
             Decrypt(c, ALCS_IV, last))
      == Splice(was, 0, AlcsDecrypt(c, src[..BLOCK * n]))
  {
    SplitLast(src, n);
    hide Splice, Decrypt;
    var head, last := src[..BLOCK * (n - 1)], src[BLOCK * (n - 1)..][..BLOCK * 1];
    assert src[..BLOCK * n][..BLOCK * (n - 1)] == head && src[..BLOCK * n][BLOCK * (n - 1)..] == last;
    ClearedByte(was, Decrypt(c, ALCS_IV, head), Decrypt(c, ALCS_IV, last));
  }

  method AlcsDecryptBlocks(c: Cipher, src: seq<u8>, len: nat, out: array<u8>) returns (ret: int)
    requires BLOCK * Blocks(len) <= |src| && BLOCK * Blocks(len) <= out.Length
    modifies out
    ensures ret == 0
    ensures out[..] == Splice(old(out[..]), 0, AlcsDecrypt(c, src[..BLOCK * Blocks(len)]))
  {
    DecryptRestarted(c, src, Blocks(len), out[..]);
    assert src[..BLOCK * 0] == [] && Decrypt(c, ALCS_IV, []) == [];
    SpliceNothing(out[..], 0);
    hide Splice, Decrypt, AlcsDecrypt;
    var n := len / BLOCK;
    ret := 0;
    if n > 1 {
      var aes := new Aes(c, ALCS_IV);
      ret := aes.CbcDecrypt(src, n - 1, out, 0);
    }
    if ret == 0 {
      var aes := new Aes(c, ALCS_IV);
      ret := DecryptLast(aes, src, if n > 0 then BLOCK * (n - 1) else 0, out);
    }
  }

  /** alcs_decrypt, with the same precondition. */
  method DecryptAlcs(c: Cipher, src: seq<u8>, len: nat, out: array<u8>) returns (r: int)
    requires BLOCK * Blocks(len) <= |src| && BLOCK * Blocks(len) <= out.Length
    requires CanFinish(Splice(out[..], 0, AlcsDecrypt(c, src[..BLOCK * Blocks(len)])), len)
    modifies out
    ensures Opened(out[..], r) == Finish(Splice(old(out[..]), 0, AlcsDecrypt(c, src[..BLOCK * Blocks(len)])), len)
  {
    hide Splice, AlcsDecrypt, CanFinish, Finish, Blocks;
    var ret := AlcsDecryptBlocks(c, src, len, out);
    if ret == 0 {
      r := FinishMessage(out, len);
    } else {
      r := 0;
    }
  }
}

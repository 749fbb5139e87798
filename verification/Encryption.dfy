/** AES encryption of passwords (core/utils/encrypt.go): padding, cipher block chaining in place, and hexadecimal
    text. The block cipher is any permutation of the blocks. */
module Encryption {
  import opened Arithmetic
  import opened Hex
  import opened Sequences
  import opened Wrappers

  /** How a call ends: a result, an error, or a panic of the slicing or of the block mode. */
  datatype Outcome<T> = Ok(value: T) | Err | Panic

  const BLOCK_SIZE: nat := 16

  /** constants.DefaultEncryptServerKey, "0123456789abcdef", which is the key and the initialization vector. */
  const KEY: Bytes := [0x30, 0x31, 0x32, 0x33, 0x34, 0x35, 0x36, 0x37, 0x38, 0x39, 0x61, 0x62, 0x63, 0x64, 0x65, 0x66]

  // ---------- padding ----------

  function Repeat(b: byte, n: nat): Bytes {
    seq(n, _ => b)
  }

  function PadNum(length: nat, blockSize: nat): (n: nat)
    requires 1 <= blockSize <= 255
    ensures 1 <= n <= blockSize
  {
    blockSize - length % blockSize
  }

  function Padding(src: Bytes, blockSize: nat): Bytes
    requires 1 <= blockSize <= 255
  {
    var n := PadNum(|src|, blockSize);
    src + Repeat(n, n)
  }

  /** None where the source panics: nothing to index, or more to cut off than there is. */
  function UnPadding(src: Bytes): Option<Bytes> {
    if src == [] then None
    else
      var n := src[|src| - 1];
      if n > |src| then None else Some(src[..|src| - n])
  }

  lemma {:induction false} PaddedLength(length: nat, blockSize: nat)
    requires 1 <= blockSize <= 255
    ensures (length + PadNum(length, blockSize)) % blockSize == 0
  {
    var q := length / blockSize;
    assert length + PadNum(length, blockSize) == blockSize * (q + 1);
    QuotientIs(length + PadNum(length, blockSize), blockSize, q + 1, 0);
  }

  /** Section 6.3 of RFC 5652: whole blocks, and the padding can be taken off again. */
  lemma {:induction false} PaddingRoundTrip(src: Bytes, blockSize: nat)
    requires 1 <= blockSize <= 255
    ensures |Padding(src, blockSize)| > 0 && |Padding(src, blockSize)| % blockSize == 0
    ensures UnPadding(Padding(src, blockSize)) == Some(src)
  {
    var n := PadNum(|src|, blockSize);
    PaddedLength(|src|, blockSize);
  }

  /** What padding produces. */
  ghost predicate Padded(p: Bytes, blockSize: nat)
    requires 1 <= blockSize <= 255
  {
    && p != [] && |p| % blockSize == 0
    && var n := p[|p| - 1];
       1 <= n <= blockSize && n <= |p| && forall i | |p| - n <= i < |p| :: p[i] == p[|p| - 1]
  }

  /** unPadding looks only at the last byte: it undoes padding, and padding undoes it just where padding was. */
  lemma {:induction false} UnPaddingRoundTrip(p: Bytes, blockSize: nat)
    requires 1 <= blockSize <= 255 && UnPadding(p).Some?
    ensures Padding(UnPadding(p).value, blockSize) == p <==> Padded(p, blockSize)
  {
    var src := UnPadding(p).value;
    if Padding(src, blockSize) == p {
      PaddingRoundTrip(src, blockSize);
    }
    if Padded(p, blockSize) {
      var n := p[|p| - 1];
      PadNumIs(|p|, n, blockSize);
      assert p == src + p[|p| - n..];
    }
  }

  /** For one, of fifteen zeros and a two the last two bytes are cut off, although only one of them is padding. */
  lemma {:induction false} LastByteIsTrusted()
    ensures UnPadding(Repeat(0, 15) + [2]) == Some(Repeat(0, 14))
    ensures Padding(Repeat(0, 14), 16) == Repeat(0, 14) + [2, 2] != Repeat(0, 15) + [2]
  {
    var p := Repeat(0, 15) + [2];
    assert p[..14] == Repeat(0, 14);
    assert Repeat(2, 2) == [2, 2];
    assert (Repeat(0, 14) + [2, 2])[14] == 2 && p[14] == 0;
  }

  lemma {:induction false} PadNumIs(length: nat, n: nat, blockSize: nat)
    requires 1 <= n <= blockSize <= 255 && n <= length && length % blockSize == 0
    ensures PadNum(length - n, blockSize) == n
  {
    var q := length / blockSize;
    assert length == blockSize * q;
    assert q >= 1;
    assert length - n == blockSize * (q - 1) + (blockSize - n);
    QuotientIs(length - n, blockSize, q - 1, blockSize - n);
  }

  // ---------- cipher block chaining ----------

  datatype Cipher = Cipher(enc: Bytes -> Bytes, dec: Bytes -> Bytes)
  {
    /** Decryption undoes encryption, block by block. */
    ghost predicate Permutes() {
      && (forall b: Bytes | |b| == BLOCK_SIZE :: |enc(b)| == BLOCK_SIZE && |dec(b)| == BLOCK_SIZE)
      && (forall b: Bytes | |b| == BLOCK_SIZE :: dec(enc(b)) == b)
    }
  }

  function Pow2(n: nat): nat {
    if n == 0 then 1 else 2 * Pow2(n - 1)
  }

  /** Exclusive or, from the lowest bit up. */
  function XorBits(a: nat, b: nat): nat {
    if a == 0 && b == 0 then 0 else 2 * XorBits(a / 2, b / 2) + (if a % 2 == b % 2 then 0 else 1)
  }

  lemma {:induction false} XorBitsBound(a: nat, b: nat, width: nat)
    requires a < Pow2(width) && b < Pow2(width)
    ensures XorBits(a, b) < Pow2(width)
  {
    if width > 0 {
      XorBitsBound(a / 2, b / 2, width - 1);
    }
  }

  lemma {:induction false} XorBitsTwice(a: nat, b: nat)
    ensures XorBits(XorBits(a, b), b) == a
  {
    if a != 0 || b != 0 {
      var half, digit := XorBits(a / 2, b / 2), if a % 2 == b % 2 then 0 else 1;
      XorBitsTwice(a / 2, b / 2);
      XorDigit(a / 2, b / 2, a % 2, b % 2);
      XorDigit(half, b / 2, digit, b % 2);
    }
  }

  lemma {:induction false} XorDigit(x: nat, y: nat, p: nat, q: nat)
    requires p < 2 && q < 2
    ensures XorBits(2 * x + p, 2 * y + q) == 2 * XorBits(x, y) + if p == q then 0 else 1
  {
    Halves(x, p);
    Halves(y, q);
  }

  lemma Halves(x: nat, p: nat)
    requires p < 2
    ensures (2 * x + p) / 2 == x && (2 * x + p) % 2 == p
  {
  }

  /** Bit k of n, from the lowest up. */
  predicate Bit(n: nat, k: nat) {
    if k == 0 then n % 2 == 1 else Bit(n / 2, k - 1)
  }

  /** A bit is set if and only if it is set in one of the two. */
  lemma {:induction false} XorBit(a: nat, b: nat, k: nat)
    ensures Bit(XorBits(a, b), k) <==> Bit(a, k) != Bit(b, k)
  {
    XorHalves(a, b);
    if k > 0 {
      XorBit(a / 2, b / 2, k - 1);
    }
  }

  lemma {:induction false} XorHalves(a: nat, b: nat)
    ensures XorBits(a, b) / 2 == XorBits(a / 2, b / 2)
    ensures XorBits(a, b) % 2 == 1 <==> a % 2 != b % 2
  {
    Halves(XorBits(a / 2, b / 2), if a % 2 == b % 2 then 0 else 1);
  }

  function Xor(a: byte, b: byte): byte {
    assert Pow2(8) == 256;
    XorBitsBound(a, b, 8);
    XorBits(a, b)
  }

  function XorAll(s: Bytes, t: Bytes): (r: Bytes)
    requires |s| == |t|
    ensures |r| == |s|
  {
    seq(|s|, i requires 0 <= i < |s| => Xor(s[i], t[i]))
  }

  lemma {:induction false} XorAllTwice(s: Bytes, t: Bytes)
    requires |s| == |t|
    ensures XorAll(XorAll(s, t), t) == s
  {
    forall i | 0 <= i < |s| ensures XorAll(XorAll(s, t), t)[i] == s[i] {
      XorBitsTwice(s[i], t[i]);
    }
  }

  /** Section 6.2 of NIST SP 800-38A: each block is mixed with the ciphertext before it, then encrypted. */
  ghost function CbcEncrypt(c: Cipher, iv: Bytes, s: Bytes): (r: Bytes)
    requires c.Permutes() && |iv| == BLOCK_SIZE && |s| % BLOCK_SIZE == 0
    ensures |r| == |s|
    decreases |s|
  {
    if s == [] then []
    else
      var block := c.enc(XorAll(s[..BLOCK_SIZE], iv));
      block + CbcEncrypt(c, block, s[BLOCK_SIZE..])
  }

  ghost function CbcDecrypt(c: Cipher, iv: Bytes, s: Bytes): (r: Bytes)
    requires c.Permutes() && |iv| == BLOCK_SIZE && |s| % BLOCK_SIZE == 0
    ensures |r| == |s|
    decreases |s|
  {
    if s == [] then []
    else XorAll(c.dec(s[..BLOCK_SIZE]), iv) + CbcDecrypt(c, s[..BLOCK_SIZE], s[BLOCK_SIZE..])
  }

  function Block(s: Bytes, i: nat): (block: Bytes)
    requires BLOCK_SIZE * i + BLOCK_SIZE <= |s|
    ensures |block| == BLOCK_SIZE
  {
    s[BLOCK_SIZE * i..BLOCK_SIZE * i + BLOCK_SIZE]
  }

  /** Block i of the ciphertext is the encryption of block i of the text, mixed with the block of the ciphertext before
      it or else with the initialization vector. */
  lemma {:induction false} CbcBlocks(c: Cipher, iv: Bytes, s: Bytes, i: nat)
    requires c.Permutes() && |iv| == BLOCK_SIZE && |s| % BLOCK_SIZE == 0 && BLOCK_SIZE * i + BLOCK_SIZE <= |s|
    ensures var r := CbcEncrypt(c, iv, s);
            Block(r, i) == c.enc(XorAll(Block(s, i), if i == 0 then iv else Block(r, i - 1)))
    decreases i
  {
    var first, rest := s[..BLOCK_SIZE], s[BLOCK_SIZE..];
    var block := c.enc(XorAll(first, iv));
    var later := CbcEncrypt(c, block, rest);
    assert s == first + rest && CbcEncrypt(c, iv, s) == block + later;
    FirstBlock(first, rest);
    FirstBlock(block, later);
    if i > 0 {
      CbcBlocks(c, block, rest, i - 1);
      LaterBlock(first, rest, i - 1);
      LaterBlock(block, later, i - 1);
      if i > 1 {
        LaterBlock(block, later, i - 2);
      }
    }
  }

  lemma FirstBlock(first: Bytes, later: Bytes)
    requires |first| == BLOCK_SIZE
    ensures Block(first + later, 0) == first
  {
  }

  lemma LaterBlock(first: Bytes, later: Bytes, i: nat)
    requires |first| == BLOCK_SIZE && BLOCK_SIZE * i + BLOCK_SIZE <= |later|
    ensures Block(first + later, i + 1) == Block(later, i)
  {
  }

  lemma {:induction false} CbcRoundTrip(c: Cipher, iv: Bytes, s: Bytes)
    requires c.Permutes() && |iv| == BLOCK_SIZE && |s| % BLOCK_SIZE == 0
    ensures CbcDecrypt(c, iv, CbcEncrypt(c, iv, s)) == s
    decreases |s|
  {
    if s != [] {
      var mixed := XorAll(s[..BLOCK_SIZE], iv);
      var block := c.enc(mixed);
      var rest := CbcEncrypt(c, block, s[BLOCK_SIZE..]);
      XorAllTwice(s[..BLOCK_SIZE], iv);
      CbcRoundTrip(c, block, s[BLOCK_SIZE..]);
      assert (block + rest)[..BLOCK_SIZE] == block && (block + rest)[BLOCK_SIZE..] == rest;
      assert c.dec(c.enc(mixed)) == mixed;
    }
  }

  /** Writing one block in place. */
  method PutBlock(a: array<byte>, at: nat, block: Bytes)
    requires at + |block| <= a.Length
    modifies a
    ensures a[..] == old(a[..])[..at] + block + old(a[..])[at + |block|..]
  {
    for i := 0 to |block|
      invariant forall k | 0 <= k < a.Length :: a[k] == if at <= k < at + i then block[k - at] else old(a[k])
    {
      a[at + i] := block[i];
    }
  }

  lemma Cut(s: Bytes, before: Bytes, rest: Bytes, n: nat)
    requires s == before + rest && n <= |rest|
    ensures s[..|before|] == before && s[|before|..|before| + n] == rest[..n] && s[|before| + n..] == rest[n..]
  {
  }

  /** The encryption of the whole buffer is what is done, and that of what is to do. */
  ghost predicate Encrypting(c: Cipher, iv: Bytes, all: Bytes, done: Bytes, prev: Bytes, todo: Bytes) {
    && c.Permutes() && |iv| == |prev| == BLOCK_SIZE && |all| % BLOCK_SIZE == 0 && |todo| % BLOCK_SIZE == 0
    && CbcEncrypt(c, iv, all) == done + CbcEncrypt(c, prev, todo)
  }

  lemma {:induction false} EncryptOne(c: Cipher, iv: Bytes, all: Bytes, done: Bytes, prev: Bytes, todo: Bytes,
                                      block: Bytes)
    requires Encrypting(c, iv, all, done, prev, todo) && todo != []
    requires block == c.enc(XorAll(todo[..BLOCK_SIZE], prev))
    ensures Encrypting(c, iv, all, done + block, block, todo[BLOCK_SIZE..])
  {
    Assoc(done, block, CbcEncrypt(c, block, todo[BLOCK_SIZE..]));
  }

  /** The next block, encrypted in its place. */
  method EncryptBlock(c: Cipher, iv: Bytes, a: array<byte>, i: nat, prev: Bytes, ghost all: Bytes, ghost done: Bytes,
                      ghost todo: Bytes) returns (block: Bytes)
    requires Encrypting(c, iv, all, done, prev, todo) && todo != []
    requires a[..] == done + todo && |done| == i
    modifies a
    ensures |block| == BLOCK_SIZE <= |todo| && a[..] == done + block + todo[BLOCK_SIZE..]
    ensures Encrypting(c, iv, all, done + block, block, todo[BLOCK_SIZE..])
  {
    Cut(a[..], done, todo, BLOCK_SIZE);
    block := c.enc(XorAll(a[..][i..i + BLOCK_SIZE], prev));
    EncryptOne(c, iv, all, done, prev, todo, block);
    PutBlock(a, i, block);
  }

  /** The encrypter's CryptBlocks on one buffer: from the first block to the last. */
  method EncryptBlocks(c: Cipher, iv: Bytes, a: array<byte>)
    requires c.Permutes() && |iv| == BLOCK_SIZE && a.Length % BLOCK_SIZE == 0
    modifies a
    ensures a[..] == CbcEncrypt(c, iv, old(a[..]))
  {
    ghost var done, todo: Bytes := [], a[..];
    var prev, i := iv, 0;
    Start(CbcEncrypt(c, iv, a[..]));
    while i < a.Length
      invariant 0 <= i <= a.Length && |done| == i && a[..] == done + todo
      invariant Encrypting(c, iv, old(a[..]), done, prev, todo)
    {
      var block := EncryptBlock(c, iv, a, i, prev, old(a[..]), done, todo);
      prev, done, todo := block, done + block, todo[BLOCK_SIZE..];
      i := i + BLOCK_SIZE;
    }
  }

  lemma Start(s: Bytes)
    ensures [] + s == s && s + [] == s
  {
  }

  /** The block before the end of s, or the initialization vector. */
  function Previous(iv: Bytes, s: Bytes): (block: Bytes)
    requires |iv| == BLOCK_SIZE && |s| % BLOCK_SIZE == 0
    ensures |block| == BLOCK_SIZE
  {
    if s == [] then iv else s[|s| - BLOCK_SIZE..]
  }

  /** Decryption block by block can be taken apart anywhere. */
  lemma {:induction false} CbcDecryptLast(c: Cipher, iv: Bytes, s: Bytes, last: Bytes)
    requires c.Permutes() && |iv| == BLOCK_SIZE && |s| % BLOCK_SIZE == 0 && |last| == BLOCK_SIZE
    ensures CbcDecrypt(c, iv, s + last) == CbcDecrypt(c, iv, s) + XorAll(c.dec(last), Previous(iv, s))
    decreases |s|
  {
    if s == [] {
      assert s + last == last && last[..BLOCK_SIZE] == last && last[BLOCK_SIZE..] == [];
      Start(XorAll(c.dec(last), iv));
    } else {
      var first, rest := s[..BLOCK_SIZE], s[BLOCK_SIZE..];
      assert (s + last)[..BLOCK_SIZE] == first && (s + last)[BLOCK_SIZE..] == rest + last;
      CbcDecryptLast(c, first, rest, last);
      PreviousOfRest(iv, s);
      Assoc(XorAll(c.dec(first), iv), CbcDecrypt(c, first, rest), XorAll(c.dec(last), Previous(iv, s)));
    }
  }

  lemma PreviousOfRest(iv: Bytes, s: Bytes)
    requires |iv| == BLOCK_SIZE && s != [] && |s| % BLOCK_SIZE == 0
    ensures Previous(s[..BLOCK_SIZE], s[BLOCK_SIZE..]) == Previous(iv, s)
  {
    if |s| == BLOCK_SIZE {
      assert s[..BLOCK_SIZE] == s == s[0..];
    } else {
      assert |s| >= 2 * BLOCK_SIZE;
      DropTwice(s, BLOCK_SIZE, |s| - BLOCK_SIZE);
    }
  }

  lemma DropTwice(s: Bytes, i: nat, j: nat)
    requires i <= j <= |s|
    ensures s[i..][j - i..] == s[j..]
  {
  }

  ghost predicate Decrypting(c: Cipher, iv: Bytes, all: Bytes, todo: Bytes, done: Bytes) {
    && c.Permutes() && |iv| == BLOCK_SIZE && |all| % BLOCK_SIZE == 0 && |todo| % BLOCK_SIZE == 0
    && CbcDecrypt(c, iv, all) == CbcDecrypt(c, iv, todo) + done
  }

  lemma {:induction false} DecryptOne(c: Cipher, iv: Bytes, all: Bytes, before: Bytes, last: Bytes, done: Bytes,
                                      block: Bytes)
    requires Decrypting(c, iv, all, before + last, done) && |last| == BLOCK_SIZE && |before| % BLOCK_SIZE == 0
    requires block == XorAll(c.dec(last), Previous(iv, before))
    ensures Decrypting(c, iv, all, before, block + done)
  {
    CbcDecryptLast(c, iv, before, last);
    Assoc(CbcDecrypt(c, iv, before), block, done);
  }

  lemma {:induction false} DecryptNone(c: Cipher, iv: Bytes, all: Bytes)
    requires c.Permutes() && |iv| == BLOCK_SIZE && |all| % BLOCK_SIZE == 0
    ensures Decrypting(c, iv, all, all, [])
  {
  }

  lemma {:induction false} DecryptDone(c: Cipher, iv: Bytes, all: Bytes, todo: Bytes, done: Bytes)
    requires Decrypting(c, iv, all, todo, done) && todo == []
    ensures todo + done == CbcDecrypt(c, iv, all)
  {
  }

  lemma SplitLast(s: Bytes) returns (before: Bytes, last: Bytes)
    requires s != [] && |s| % BLOCK_SIZE == 0
    ensures s == before + last && |last| == BLOCK_SIZE && |before| % BLOCK_SIZE == 0
  {
    before, last := s[..|s| - BLOCK_SIZE], s[|s| - BLOCK_SIZE..];
  }

  /** One round: the block at i, whose predecessor is still ciphertext. */
  method DecryptBlock(c: Cipher, iv: Bytes, a: array<byte>, i: nat, ghost before: Bytes, ghost last: Bytes,
                      ghost done: Bytes)
    returns (block: Bytes)
    requires c.Permutes() && |iv| == BLOCK_SIZE && i % BLOCK_SIZE == 0
    requires |before| == i && |last| == BLOCK_SIZE && a[..] == before + last + done
    modifies a
    ensures |block| == BLOCK_SIZE && block == XorAll(c.dec(last), Previous(iv, before))
    ensures a[..] == before + (block + done)
  {
    CutThree(a[..], before, last, done);
    block := XorAll(c.dec(a[..][i..i + BLOCK_SIZE]), Previous(iv, a[..][..i]));
    PutBlock(a, i, block);
    Assoc(before, block, done);
  }

  lemma CutThree(s: Bytes, before: Bytes, last: Bytes, done: Bytes)
    requires s == before + last + done
    ensures |before| + |last| <= |s| && s[..|before|] == before && s[|before|..|before| + |last|] == last
    ensures s[|before| + |last|..] == done
  {
  }

  /** The decrypter's CryptBlocks on one buffer: from the last block to the first, for each needs the ciphertext before
      it. */
  method DecryptBlocks(c: Cipher, iv: Bytes, a: array<byte>)
    requires c.Permutes() && |iv| == BLOCK_SIZE && a.Length % BLOCK_SIZE == 0
    modifies a
    ensures a[..] == CbcDecrypt(c, iv, old(a[..]))
  {
    ghost var todo, done: Bytes := a[..], [];
    var i := a.Length;
    Start(a[..]);
    DecryptNone(c, iv, a[..]);
    while i > 0
      invariant 0 <= i <= a.Length && |todo| == i && a[..] == todo + done
      invariant Decrypting(c, iv, old(a[..]), todo, done)
    {
      i := i - BLOCK_SIZE;
      ghost var before, last := SplitLast(todo);
      var block := DecryptBlock(c, iv, a, i, before, last, done);
      DecryptOne(c, iv, old(a[..]), before, last, done, block);
      todo, done := before, block + done;
    }
    DecryptDone(c, iv, old(a[..]), todo, done);
  }

  // ---------- the two functions ----------

  ghost function Encrypted(c: Cipher, src: Bytes): string
    requires c.Permutes()
  {
    PaddingRoundTrip(src, BLOCK_SIZE);
    EncodeToString(CbcEncrypt(c, KEY, Padding(src, BLOCK_SIZE)))
  }

  method EncryptAES(c: Cipher, src: Bytes) returns (res: string)
    requires c.Permutes()
    ensures res == Encrypted(c, src)
  {
    PaddingRoundTrip(src, BLOCK_SIZE);
    var padded := Padding(src, BLOCK_SIZE);
    var srcBytes := new byte[|padded|](i requires 0 <= i < |padded| => padded[i]);
    assert srcBytes[..] == padded;
    EncryptBlocks(c, KEY, srcBytes);
    res := EncodeToString(srcBytes[..]);
  }

  ghost function Decrypted(c: Cipher, src: string): Outcome<Bytes>
    requires c.Permutes()
  {
    match DecodeString(src)
    case None => Err
    case Some(s) =>
      if |s| % BLOCK_SIZE != 0 then Panic
      else
        match UnPadding(CbcDecrypt(c, KEY, s))
        case None => Panic
        case Some(text) => Ok(text)
  }

  method DecryptAES(c: Cipher, src: string) returns (res: Outcome<Bytes>)
    requires c.Permutes()
    ensures res == Decrypted(c, src)
  {
    var decoded := DecodeString(src);
    if decoded.None? { return Err; }
    var srcBytes := new byte[|decoded.value|](i requires 0 <= i < |decoded.value| => decoded.value[i]);
    assert srcBytes[..] == decoded.value;
    if srcBytes.Length % BLOCK_SIZE != 0 { return Panic; }
    DecryptBlocks(c, KEY, srcBytes);
    var text := UnPadding(srcBytes[..]);
    res := if text.None? then Panic else Ok(text.value);
  }

  /** A text that is not hexadecimal is an error; one that does not decode to whole blocks, or whose last byte asks to
      cut off more than there is, panics, and so does the empty one; from any other, as many bytes are cut off as the
      last one says. */
  lemma {:induction false} DecryptsExactlyWhen(c: Cipher, src: string)
    requires c.Permutes()
    ensures Decrypted(c, src).Err? <==> |src| % 2 == 1 || !AllHex(src)
    ensures |src| % 2 == 0 && |src| % 32 != 0 && AllHex(src) ==> Decrypted(c, src).Panic?
    ensures |src| % 32 == 0 && AllHex(src) ==>
              && DecodeString(src).Some? && |DecodeString(src).value| % BLOCK_SIZE == 0
              && Unpadded(CbcDecrypt(c, KEY, DecodeString(src).value), Decrypted(c, src))
  {
    DecodesExactlyWhen(src);
    if DecodeString(src).Some? {
      WholeBlocks(|DecodeString(src).value|);
      if |src| % 32 == 0 {
        UnPaddingExactlyWhen(CbcDecrypt(c, KEY, DecodeString(src).value));
      }
    }
  }

  /** What is left of decrypted blocks. */
  ghost predicate Unpadded(plain: Bytes, res: Outcome<Bytes>) {
    if plain == [] || plain[|plain| - 1] > |plain| then res == Panic
    else res.Ok? && exists cut: Bytes :: plain == res.value + cut && |cut| == plain[|plain| - 1]
  }

  lemma UnPaddingExactlyWhen(plain: Bytes)
    ensures Unpadded(plain, if UnPadding(plain).Some? then Ok(UnPadding(plain).value) else Panic)
  {
    if plain != [] && plain[|plain| - 1] <= |plain| {
      var n := |plain| - plain[|plain| - 1];
      assert plain == plain[..n] + plain[n..];
    }
  }

  lemma WholeBlocks(n: nat)
    ensures n % 16 == 0 <==> (2 * n) % 32 == 0
  {
    QuotientIs(2 * n, 32, n / 16, 2 * (n % 16));
  }

  /** What was encrypted comes back, whatever the text and the cipher. */
  lemma {:induction false} RoundTrip(c: Cipher, src: Bytes)
    requires c.Permutes()
    ensures Decrypted(c, Encrypted(c, src)) == Ok(src)
  {
    PaddingRoundTrip(src, BLOCK_SIZE);
    var padded := Padding(src, BLOCK_SIZE);
    HexRoundTrip(CbcEncrypt(c, KEY, padded));
    CbcRoundTrip(c, KEY, padded);
  }
}

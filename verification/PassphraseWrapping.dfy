/** Wrapping a passphrase in a file under another passphrase
    (src/libecryptfs/key_management.c), with the key derivation and hex text
    behind it (src/libecryptfs/main.c) and the program that changes the wrapping
    passphrase (src/utils/ecryptfs_rewrap_passphrase.c). The hash and the block
    cipher are parameters of which only `Sound` is known. */
module PassphraseWrapping {
  import opened Common

  const MAX_PASSPHRASE := 64
  const SALT_SIZE := 8
  const SIG_SIZE := 8
  const SIG_SIZE_HEX := 16
  const BLOCK := 16
  const DIGEST := 64
  const HASH_ITERATIONS := 65536

  type Bytes = seq<Byte>

  /** The bytes of a C string. */
  type Text = s: Bytes | 0 !in s

  type Salt = s: Bytes | |s| == SALT_SIZE witness [0, 0, 0, 0, 0, 0, 0, 0]

  /** SHA-512 and AES on one block; the first argument of the cipher is the key. */
  datatype Crypto = Crypto(hash: Bytes -> Bytes, encrypt: (Bytes, Bytes) -> Bytes, decrypt: (Bytes, Bytes) -> Bytes)

  /** Digests have 64 bytes, blocks have 16, and decryption undoes encryption. */
  ghost predicate Sound(c: Crypto) {
    && (forall s :: |c.hash(s)| == DIGEST)
    && (forall k, b :: |k| == BLOCK && |b| == BLOCK ==> |c.encrypt(k, b)| == BLOCK && |c.decrypt(k, b)| == BLOCK)
    && (forall k, b :: |k| == BLOCK && |b| == BLOCK ==> c.decrypt(k, c.encrypt(k, b)) == b)
  }

  /* ---- hex text ---- */

  function HexDigit(d: nat): (b: Byte)
    requires d < 16
    ensures b != 0
  {
    if d < 10 then '0' as int + d else 'a' as int + d - 10
  }

  /** to_hex */
  function Hex(s: Bytes): (r: Bytes)
    ensures |r| == 2 * |s|
  {
    if s == [] then [] else Hex(s[..|s| - 1]) + HexPair(s[|s| - 1])
  }

  function HexPair(b: Byte): (r: Bytes)
    ensures |r| == 2
  {
    [HexDigit(b / 16), HexDigit(b % 16)]
  }

  function DigitOf(b: Byte): (d: Option<nat>)
    ensures d.Some? ==> d.value < 16
  {
    if '0' as int <= b <= '9' as int then Some(b - '0' as int)
    else if 'a' as int <= b <= 'f' as int then Some(b - 'a' as int + 10)
    else if 'A' as int <= b <= 'F' as int then Some(b - 'A' as int + 10)
    else None
  }

  /** strtol(base 16) on two characters, cut to a byte: white space or a sign may
      stand in front of a single digit, and reading stops at the first other
      character. */
  function ReadPair(x: Byte, y: Byte): Byte {
    var hi, lo := DigitOf(x), DigitOf(y);
    if hi.Some? && lo.Some? then 16 * hi.value + lo.value
    else if hi.Some? then hi.value
    else if lo.Some? then
      if x == ' ' as int || 9 <= x <= 13 || x == '+' as int then lo.value
      else if x == '-' as int then (256 - lo.value) % 256
      else 0
    else 0
  }

  /** Two hex digits of either case are read as their number. */
  lemma DigitsAreRead(a: nat, b: nat)
    requires a < 16 && b < 16
    ensures ReadPair(HexDigit(a), HexDigit(b)) == 16 * a + b
    ensures ReadPair("0123456789ABCDEF"[a] as int, HexDigit(b)) == 16 * a + b
    ensures ReadPair(HexDigit(a), "0123456789ABCDEF"[b] as int) == 16 * a + b
  {
    UpperDigit(a);
    UpperDigit(b);
  }

  /** Of two characters that are not both digits a digit counts if it stands first,
      or behind a space or a sign, which may negate it; otherwise they are zero. */
  lemma OddPairsAreRead(d: nat, x: Byte)
    requires d < 16 && forall i :: 0 <= i < 22 ==> x != "0123456789abcdefABCDEF"[i] as int
    ensures ReadPair(HexDigit(d), x) == d
    ensures ReadPair(x, HexDigit(d)) ==
      if x in {9, 10, 11, 12, 13, 32, 43} then d else if x == 45 && d > 0 then 256 - d else 0
    ensures forall y :: DigitOf(y).None? ==> ReadPair(x, y) == 0
  {
    assert DigitOf(x).None? by {
      var digits := "0123456789abcdefABCDEF";
      assert digits[0] == '0' && digits[1] == '1' && digits[2] == '2' && digits[3] == '3' && digits[4] == '4';
      assert digits[5] == '5' && digits[6] == '6' && digits[7] == '7' && digits[8] == '8' && digits[9] == '9';
      assert digits[10] == 'a' && digits[11] == 'b' && digits[12] == 'c' && digits[13] == 'd';
      assert digits[14] == 'e' && digits[15] == 'f' && digits[16] == 'A' && digits[17] == 'B';
      assert digits[18] == 'C' && digits[19] == 'D' && digits[20] == 'E' && digits[21] == 'F';
    }
  }

  lemma UpperDigit(d: nat)
    requires d < 16
    ensures "0123456789ABCDEF"[d] as int == if d < 10 then '0' as int + d else 'A' as int + d - 10
  {
    var digits := "0123456789ABCDEF";
    assert digits[0] == '0' && digits[1] == '1' && digits[2] == '2' && digits[3] == '3' && digits[4] == '4';
    assert digits[5] == '5' && digits[6] == '6' && digits[7] == '7' && digits[8] == '8' && digits[9] == '9';
    assert digits[10] == 'A' && digits[11] == 'B' && digits[12] == 'C' && digits[13] == 'D';
    assert digits[14] == 'E' && digits[15] == 'F';
  }

  /** from_hex for n bytes. */
  function Unhex(s: Bytes, n: nat): (r: Bytes)
    requires 2 * n <= |s|
    ensures |r| == n
  {
    if n == 0 then [] else Unhex(s, n - 1) + [ReadPair(s[2 * n - 2], s[2 * n - 1])]
  }

  lemma PairRoundTrip(b: Byte)
    ensures ReadPair(HexPair(b)[0], HexPair(b)[1]) == b
  {
    assert b == 16 * (b / 16) + b % 16;
  }

  lemma {:induction false} UnhexPrefix(s: Bytes, t: Bytes, n: nat)
    requires 2 * n <= |s|
    ensures Unhex(s + t, n) == Unhex(s, n)
  {
    if n > 0 { UnhexPrefix(s, t, n - 1); }
  }

  /** Reading hex text back, with whatever follows it. */
  lemma {:induction false} HexRoundTrip(s: Bytes, rest: Bytes)
    ensures Unhex(Hex(s) + rest, |s|) == s
    decreases |s|
  {
    UnhexPrefix(Hex(s), rest, |s|);
    if s != [] {
      var front, b := s[..|s| - 1], s[|s| - 1];
      HexRoundTrip(front, HexPair(b));
      PairRoundTrip(b);
    }
  }

  /** The text is the bytes in lower-case hex, two digits each. */
  ghost predicate LowerHex(text: Bytes, bytes: Bytes) {
    && |text| == 2 * |bytes|
    && (forall k :: 0 <= k < |bytes| ==>
          text[2 * k] == "0123456789abcdef"[bytes[k] / 16] as int
          && text[2 * k + 1] == "0123456789abcdef"[bytes[k] % 16] as int)
  }

  lemma DigitIsLower(d: nat)
    requires d < 16
    ensures HexDigit(d) == "0123456789abcdef"[d] as int
  {
    var digits := "0123456789abcdef";
    assert digits[0] == '0' && digits[1] == '1' && digits[2] == '2' && digits[3] == '3' && digits[4] == '4';
    assert digits[5] == '5' && digits[6] == '6' && digits[7] == '7' && digits[8] == '8' && digits[9] == '9';
    assert digits[10] == 'a' && digits[11] == 'b' && digits[12] == 'c' && digits[13] == 'd';
    assert digits[14] == 'e' && digits[15] == 'f';
  }

  lemma {:induction false} HexIsLower(s: Bytes)
    ensures LowerHex(Hex(s), s)
    decreases |s|
  {
    if s != [] {
      var n := |s| - 1;
      HexIsLower(s[..n]);
      DigitIsLower(s[n] / 16);
      DigitIsLower(s[n] % 16);
      LowerHexAppend(Hex(s[..n]), s[..n], HexPair(s[n]), s[n]);
      assert s[..n] + [s[n]] == s;
    }
  }

  lemma LowerHexAppend(text: Bytes, s: Bytes, pair: Bytes, b: Byte)
    requires LowerHex(text, s) && |pair| == 2
    requires pair[0] == "0123456789abcdef"[b / 16] as int && pair[1] == "0123456789abcdef"[b % 16] as int
    ensures LowerHex(text + pair, s + [b])
  {
  }

  method ToHex(dst: array<Byte>, src: Bytes)
    requires dst.Length > 2 * |src|
    modifies dst
    ensures dst[..2 * |src| + 1] == Hex(src) + [0] && dst[2 * |src| + 1..] == old(dst[2 * |src| + 1..])
  {
    var x := 0;
    while x < |src|
      invariant 0 <= x <= |src|
      invariant dst[..2 * x] == Hex(src[..x])
      invariant dst[2 * |src| + 1..] == old(dst[2 * |src| + 1..])
    {
      assert src[..x + 1][..x] == src[..x];
      dst[2 * x], dst[2 * x + 1] := HexDigit(src[x] / 16), HexDigit(src[x] % 16);
      assert dst[..2 * (x + 1)] == dst[..2 * x] + HexPair(src[x]);
      x := x + 1;
    }
    assert src[..x] == src;
    dst[2 * |src|] := 0;
  }

  method FromHex(dst: array<Byte>, src: Bytes, size: nat)
    requires size <= dst.Length && 2 * size <= |src|
    modifies dst
    ensures dst[..size] == Unhex(src, size) && dst[size..] == old(dst[size..])
  {
    var x := 0;
    while x < size
      invariant 0 <= x <= size
      invariant dst[..x] == Unhex(src, x) && dst[size..] == old(dst[size..])
    {
      dst[x] := ReadPair(src[x * 2], src[x * 2 + 1]);
      assert dst[..x + 1] == dst[..x] + [dst[x]];
      x := x + 1;
    }
  }

  /* ---- the key and its signature ---- */

  /** The hash applied n times. */
  function Iterated(c: Crypto, n: nat, s: Bytes): Bytes {
    if n == 0 then s else c.hash(Iterated(c, n - 1, s))
  }

  function Fekek(c: Crypto, salt: Salt, passphrase: Text): Bytes {
    Iterated(c, HASH_ITERATIONS, salt + passphrase)
  }

  /** The signature names the key by a further digest of it. */
  function Signature(c: Crypto, salt: Salt, passphrase: Text): (sig: Bytes)
    requires Sound(c)
    ensures |sig| == SIG_SIZE_HEX
  {
    Hex(c.hash(Fekek(c, salt, passphrase))[..SIG_SIZE])
  }

  /** The bytes of the key that the cipher uses. */
  function CipherKey(c: Crypto, salt: Salt, passphrase: Text): (k: Bytes)
    requires Sound(c)
    ensures |k| == BLOCK
  {
    FekekSize(c, HASH_ITERATIONS, salt + passphrase);
    Fekek(c, salt, passphrase)[..BLOCK]
  }

  lemma FekekSize(c: Crypto, n: nat, s: Bytes)
    requires Sound(c) && n > 0
    ensures |Iterated(c, n, s)| == DIGEST
  {
  }

  /** The loop: one hash of s and n - 1 of the digest. */
  method HashRepeatedly(c: Crypto, s: Bytes, n: nat) returns (buf: Bytes)
    requires n > 0
    ensures buf == Iterated(c, n, s)
  {
    buf := c.hash(s);
    var left := n - 1;
    assert Iterated(c, 0, s) == s;
    while left > 0
      invariant 0 <= left < n && buf == Iterated(c, n - left, s)
    {
      buf := c.hash(buf);
      left := left - 1;
    }
  }

  /** r comes of s by hashing n times. */
  ghost predicate HashedTimes(c: Crypto, n: nat, s: Bytes, r: Bytes) {
    exists chain: seq<Bytes> :: |chain| == n + 1 && IsHashChain(c, chain) && chain[0] == s && chain[n] == r
  }

  ghost predicate IsHashChain(c: Crypto, chain: seq<Bytes>) {
    forall i :: 0 <= i < |chain| - 1 ==> chain[i + 1] == c.hash(chain[i])
  }

  lemma {:induction false} IteratedIsHashed(c: Crypto, n: nat, s: Bytes) returns (chain: seq<Bytes>)
    ensures |chain| == n + 1 && IsHashChain(c, chain) && chain[0] == s && chain[n] == Iterated(c, n, s)
  {
    if n == 0 {
      chain := [s];
    } else {
      var front := IteratedIsHashed(c, n - 1, s);
      chain := front + [c.hash(front[n - 1])];
    }
  }

  lemma HashedByIteration(c: Crypto, n: nat, s: Bytes)
    ensures HashedTimes(c, n, s, Iterated(c, n, s))
  {
    var chain := IteratedIsHashed(c, n, s);
    hide Iterated;
  }

  lemma OneMoreHash(c: Crypto, n: nat, s: Bytes, r: Bytes)
    requires HashedTimes(c, n, s, r)
    ensures HashedTimes(c, n + 1, s, c.hash(r))
  {
    var chain: seq<Bytes> :| |chain| == n + 1 && IsHashChain(c, chain) && chain[0] == s && chain[n] == r;
    var longer := chain + [c.hash(r)];
    assert |longer| == n + 2 && IsHashChain(c, longer) && longer[0] == s && longer[n + 1] == c.hash(r);
  }

  /** The text names a key by the hash of s that follows the key's own: the first
      eight bytes of the 65537th, in lower-case hex. */
  ghost predicate NamesKey(c: Crypto, text: Bytes, s: Bytes) {
    exists r :: HashedTimes(c, 65537, s, r) && |r| >= 8 && LowerHex(text, r[..8])
  }

  /** The key is the 65536th hash of salt and passphrase, and the signature names it. */
  lemma KeyAndSignature(c: Crypto, salt: Salt, passphrase: Text)
    requires Sound(c)
    ensures HashedTimes(c, 65536, salt + passphrase, Fekek(c, salt, passphrase))
    ensures NamesKey(c, Signature(c, salt, passphrase), salt + passphrase)
  {
    hide Iterated;
    HashedByIteration(c, HASH_ITERATIONS, salt + passphrase);
    var key := Fekek(c, salt, passphrase);
    OneMoreHash(c, HASH_ITERATIONS, salt + passphrase, key);
    hide HashedTimes, LowerHex, Hex;
    HexIsLower(c.hash(key)[..SIG_SIZE]);
  }

  /** generate_passphrase_sig: the key of 65536 hashes and the text of one more. */
  method GeneratePassphraseSig(c: Crypto, sig: array<Byte>, salt: Salt, passphrase: Text)
    returns (rc: int, fekek: Bytes)
    requires Sound(c) && sig.Length == SIG_SIZE_HEX + 1
    modifies sig
    ensures rc == (if |passphrase| > MAX_PASSPHRASE then -EINVAL else 0)
    ensures rc == 0 ==> fekek == Fekek(c, salt, passphrase) && sig[..] == Signature(c, salt, passphrase) + [0]
    ensures rc == 0 ==> HashedTimes(c, 65536, salt + passphrase, fekek) && NamesKey(c, sig[..16], salt + passphrase)
    ensures rc != 0 ==> sig[..] == old(sig[..])
  {
    hide Iterated, HashedTimes, NamesKey;
    if |passphrase| > MAX_PASSPHRASE {
      return -EINVAL, [];
    }
    rc := 0;
    fekek := HashRepeatedly(c, salt + passphrase, HASH_ITERATIONS);
    var buf := c.hash(fekek);
    ToHex(sig, buf[..SIG_SIZE]);
    assert sig[..] == sig[..SIG_SIZE_HEX + 1];
    assert sig[..16] == Signature(c, salt, passphrase);
    KeyAndSignature(c, salt, passphrase);
  }

  /* ---- padding and the cipher ---- */

  function Zeros(n: nat): (z: Bytes)
    ensures |z| == n && forall k :: 0 <= k < n ==> z[k] == 0
  {
    seq(n, k => 0)
  }

  function PaddedSize(n: nat): (m: nat)
    ensures n <= m < n + BLOCK && m % BLOCK == 0
    ensures n <= MAX_PASSPHRASE ==> m <= MAX_PASSPHRASE
  {
    if n % BLOCK != 0 then n + (BLOCK - n % BLOCK) else n
  }

  function Padded(p: Bytes): (r: Bytes)
    ensures |r| == PaddedSize(|p|)
  {
    p + Zeros(PaddedSize(|p|) - |p|)
  }

  /** What is in front of the first NUL. */
  function StringIn(s: Bytes): (t: Text) {
    CString(s, 0)
  }

  lemma {:induction false} StringOfPadded(p: Text, n: nat)
    ensures StringIn(p + Zeros(n)) == p
    decreases |p|
  {
    if p == [] {
      assert p + Zeros(n) == Zeros(n);
    } else {
      var rest: Text := p[1..];
      assert (p + Zeros(n))[1..] == rest + Zeros(n);
      StringOfPadded(rest, n);
    }
  }

  /** A block function applied block by block. */
  function Blockwise(f: (Bytes, Bytes) -> Bytes, key: Bytes, s: Bytes): Bytes
    requires |s| % BLOCK == 0
    decreases |s|
  {
    if s == [] then [] else f(key, s[..BLOCK]) + Blockwise(f, key, s[BLOCK..])
  }

  lemma {:induction false} BlockwiseSize(f: (Bytes, Bytes) -> Bytes, key: Bytes, s: Bytes)
    requires |s| % BLOCK == 0
    requires forall b :: |b| == BLOCK ==> |f(key, b)| == BLOCK
    ensures |Blockwise(f, key, s)| == |s|
    decreases |s|
  {
    if s != [] { BlockwiseSize(f, key, s[BLOCK..]); }
  }

  lemma OneBlock(c: Crypto, key: Bytes, b: Bytes)
    requires Sound(c) && |key| == BLOCK && |b| == BLOCK
    ensures |c.encrypt(key, b)| == BLOCK && c.decrypt(key, c.encrypt(key, b)) == b
  {
  }

  lemma BlockwiseStep(f: (Bytes, Bytes) -> Bytes, key: Bytes, first: Bytes, rest: Bytes)
    requires |first| == BLOCK && |rest| % BLOCK == 0
    ensures Blockwise(f, key, first + rest) == f(key, first) + Blockwise(f, key, rest)
  {
    assert (first + rest)[..BLOCK] == first && (first + rest)[BLOCK..] == rest;
  }

  lemma {:induction false} BlockwiseRoundTrip(c: Crypto, key: Bytes, s: Bytes)
    requires Sound(c) && |key| == BLOCK && |s| % BLOCK == 0
    ensures |Blockwise(c.encrypt, key, s)| == |s|
    ensures Blockwise(c.decrypt, key, Blockwise(c.encrypt, key, s)) == s
    decreases |s|
  {
    hide Sound;
    if s != [] {
      var first, rest := s[..BLOCK], s[BLOCK..];
      assert first + rest == s;
      BlockwiseRoundTrip(c, key, rest);
      OneBlock(c, key, first);
      BlockwiseStep(c.encrypt, key, first, rest);
      BlockwiseStep(c.decrypt, key, c.encrypt(key, first), Blockwise(c.encrypt, key, rest));
    }
  }

  /* ---- wrapping ---- */

  function Sealed(c: Crypto, salt: Salt, wrapper: Text, p: Text): Bytes
    requires Sound(c)
  {
    Signature(c, salt, wrapper) + Blockwise(c.encrypt, CipherKey(c, salt, wrapper), Padded(p))
  }

  /** The return code of a wrap, and the file after it. An empty passphrase is
      noticed only when its empty ciphertext is written. */
  function Wrap(c: Crypto, file: Option<Bytes>, salt: Salt, wrapper: Text, p: Text): (int, Option<Bytes>)
    requires Sound(c)
  {
    if |p| > MAX_PASSPHRASE then (-EIO, file)
    else if |wrapper| > MAX_PASSPHRASE then (-EINVAL, file)
    else (if p == [] then -EIO else 0, Some(Sealed(c, salt, wrapper, p)))
  }

  /** What an unwrap reads behind the signature. */
  function Body(content: Bytes): (body: Bytes)
    requires |content| > SIG_SIZE_HEX
    ensures 0 < |body| <= MAX_PASSPHRASE
  {
    var end := SIG_SIZE_HEX + MAX_PASSPHRASE;
    content[SIG_SIZE_HEX..if |content| < end then |content| else end]
  }

  /** Which files an unwrap accepts. */
  ghost predicate Opens(c: Crypto, file: Option<Bytes>, salt: Salt, wrapper: Text)
    requires Sound(c)
  {
    && |wrapper| <= MAX_PASSPHRASE
    && file.Some? && |file.value| > SIG_SIZE_HEX
    && file.value[..SIG_SIZE_HEX] == Signature(c, salt, wrapper)
    && |Body(file.value)| % BLOCK == 0
  }

  /** The bytes decrypted from an accepted file. */
  ghost function Plain(c: Crypto, file: Option<Bytes>, salt: Salt, wrapper: Text): (s: Bytes)
    requires Sound(c) && Opens(c, file, salt, wrapper)
    ensures |s| == |Body(file.value)|
  {
    BlockwiseSize(c.decrypt, CipherKey(c, salt, wrapper), Body(file.value));
    Blockwise(c.decrypt, CipherKey(c, salt, wrapper), Body(file.value))
  }

  ghost function Unwrap(c: Crypto, file: Option<Bytes>, salt: Salt, wrapper: Text): (int, Text)
    requires Sound(c)
  {
    if |wrapper| > MAX_PASSPHRASE then (-EINVAL, [])
    else if !Opens(c, file, salt, wrapper) then (-EIO, [])
    else (0, StringIn(Plain(c, file, salt, wrapper)))
  }

  /** The layout of a wrapped file. */
  lemma SealedParts(c: Crypto, salt: Salt, wrapper: Text, p: Text)
    requires Sound(c) && 0 < |p| <= MAX_PASSPHRASE
    ensures var f := Sealed(c, salt, wrapper, p);
      |f| == SIG_SIZE_HEX + PaddedSize(|p|) && f[..SIG_SIZE_HEX] == Signature(c, salt, wrapper)
      && Body(f) == Blockwise(c.encrypt, CipherKey(c, salt, wrapper), Padded(p)) && |Body(f)| % BLOCK == 0
  {
    hide Blockwise, Fekek, Padded, Hex;
    BlockwiseSize(c.encrypt, CipherKey(c, salt, wrapper), Padded(p));
  }

  /** Byte j of block i of the padded passphrase. */
  function PaddedByte(p: Bytes, i: nat, j: nat): Byte {
    if 16 * i + j < |p| then p[16 * i + j] else 0
  }

  function PaddedBlock(p: Bytes, i: nat): (b: Bytes)
    ensures |b| == 16 && forall j :: 0 <= j < 16 ==> b[j] == PaddedByte(p, i, j)
  {
    seq(16, j requires 0 <= j < 16 => PaddedByte(p, i, j))
  }

  /** A file wrapped under `secret` (salt and wrapping passphrase): the name of the
      key in 16 bytes, then the passphrase in whole blocks, each encrypted on its
      own under the first 16 bytes of the 65536th hash. */
  ghost predicate IsWrappedFile(c: Crypto, f: Bytes, secret: Bytes, p: Bytes) {
    && |f| == 16 + (|p| + 15) / 16 * 16 && NamesKey(c, f[..16], secret)
    && exists key :: |key| == 64 && HashedTimes(c, 65536, secret, key) && BlocksOf(c, f[16..], key[..16], p)
  }

  ghost predicate BlocksOf(c: Crypto, body: Bytes, key: Bytes, p: Bytes) {
    && |body| == (|p| + 15) / 16 * 16
    && forall i: nat :: 16 * i < |body| ==> IsBlock(c, body, key, p, i)
  }

  ghost predicate IsBlock(c: Crypto, body: Bytes, key: Bytes, p: Bytes, i: nat) {
    16 * i + 16 <= |body| && body[16 * i..16 * i + 16] == c.encrypt(key, PaddedBlock(p, i))
  }

  lemma {:induction false} BlockAt(f: (Bytes, Bytes) -> Bytes, key: Bytes, s: Bytes, i: nat)
    requires |s| % BLOCK == 0 && 16 * i < |s| && forall b :: |b| == BLOCK ==> |f(key, b)| == BLOCK
    ensures |Blockwise(f, key, s)| == |s|
    ensures Blockwise(f, key, s)[16 * i..16 * i + 16] == f(key, s[16 * i..16 * i + 16])
    decreases i
  {
    BlockwiseSize(f, key, s);
    var first, rest := s[..BLOCK], s[BLOCK..];
    assert first + rest == s;
    BlockwiseStep(f, key, first, rest);
    var all := Blockwise(f, key, s);
    if i > 0 {
      BlockAt(f, key, rest, i - 1);
      assert all[16..] == Blockwise(f, key, rest);
      assert all[16 * i..16 * i + 16] == all[16..][16 * (i - 1)..16 * (i - 1) + 16];
      assert s[16 * i..16 * i + 16] == rest[16 * (i - 1)..16 * (i - 1) + 16];
    }
  }

  lemma PaddedBlocks(p: Bytes, i: nat)
    requires 16 * i < |Padded(p)|
    ensures 16 * i + 16 <= |Padded(p)| && Padded(p)[16 * i..16 * i + 16] == PaddedBlock(p, i)
  {
  }

  lemma PaddedSizeIs(n: nat)
    ensures PaddedSize(n) == (n + 15) / 16 * 16
  {
  }

  /** What a successful wrap leaves. */
  lemma WrappedLayout(c: Crypto, file: Option<Bytes>, salt: Salt, wrapper: Text, p: Text)
    requires Sound(c)
    ensures var (rc, file') := Wrap(c, file, salt, wrapper, p);
      rc == 0 ==> file'.Some? && IsWrappedFile(c, file'.value, salt + wrapper, p)
  {
    hide Iterated, HashedTimes, NamesKey, Blockwise, Padded, BlocksOf, Hex;
    if Wrap(c, file, salt, wrapper, p).0 == 0 {
      KeyAndSignature(c, salt, wrapper);
      var key := Fekek(c, salt, wrapper);
      FekekSize(c, HASH_ITERATIONS, salt + wrapper);
      var body := Blockwise(c.encrypt, key[..16], Padded(p));
      EncryptedBlocks(c, key[..16], p);
      BlockwiseSize(c.encrypt, key[..16], Padded(p));
      PaddedSizeIs(|p|);
      var f, sig := Sealed(c, salt, wrapper, p), Signature(c, salt, wrapper);
      assert f == sig + body && |sig| == 16 && f[..16] == sig && f[16..] == body;
      hide Sealed, Signature, Fekek;
      assert |key| == 64 && HashedTimes(c, 65536, salt + wrapper, key) && BlocksOf(c, f[16..], key[..16], p);
    }
  }

  lemma EncryptedBlocks(c: Crypto, key: Bytes, p: Bytes)
    requires Sound(c) && |key| == BLOCK && p != []
    ensures BlocksOf(c, Blockwise(c.encrypt, key, Padded(p)), key, p)
  {
    hide Blockwise, Padded, PaddedBlock, PaddedSize;
    var s := Padded(p);
    PaddedSizeIs(|p|);
    BlockwiseSize(c.encrypt, key, s);
    var body := Blockwise(c.encrypt, key, s);
    forall i: nat | 16 * i < |body|
      ensures IsBlock(c, body, key, p, i)
    {
      OneEncryptedBlock(c, key, p, i);
    }
  }

  lemma OneEncryptedBlock(c: Crypto, key: Bytes, p: Bytes, i: nat)
    requires Sound(c) && |key| == BLOCK && 16 * i < |Padded(p)|
    ensures |Blockwise(c.encrypt, key, Padded(p))| == |Padded(p)| && 16 * i + 16 <= |Padded(p)|
    ensures Blockwise(c.encrypt, key, Padded(p))[16 * i..16 * i + 16] == c.encrypt(key, PaddedBlock(p, i))
  {
    hide Blockwise, Padded, PaddedBlock;
    PaddedBlocks(p, i);
    BlockAt(c.encrypt, key, Padded(p), i);
  }

  /** Unwrapping a wrapped file succeeds exactly with the signature it was wrapped
      under, and whoever has the cipher key as well gets the passphrase. */
  lemma OpensIffSameSignature(c: Crypto, salt: Salt, wrapper: Text, p: Text, salt': Salt, wrapper': Text)
    requires Sound(c) && 0 < |p| <= MAX_PASSPHRASE
    ensures var r := Unwrap(c, Some(Sealed(c, salt, wrapper, p)), salt', wrapper');
      && (r.0 == 0 <==> |wrapper'| <= MAX_PASSPHRASE && Signature(c, salt', wrapper') == Signature(c, salt, wrapper))
      && (r.0 == 0 && CipherKey(c, salt', wrapper') == CipherKey(c, salt, wrapper) ==> r.1 == p)
  {
    hide Blockwise, Sealed, Fekek, Signature, CipherKey, Body, StringIn;
    SealedParts(c, salt, wrapper, p);
    BlockwiseRoundTrip(c, CipherKey(c, salt, wrapper), Padded(p));
    StringOfPadded(p, PaddedSize(|p|) - |p|);
  }

  /** Wrap, then unwrap: for every passphrase of 1 to 64 bytes and no other. */
  lemma WrapRoundTrip(c: Crypto, file: Option<Bytes>, salt: Salt, wrapper: Text, p: Text)
    requires Sound(c)
    ensures var (rc, file') := Wrap(c, file, salt, wrapper, p);
      && (rc == 0 <==> 1 <= |p| <= MAX_PASSPHRASE && |wrapper| <= MAX_PASSPHRASE)
      && (rc == 0 ==> Unwrap(c, file', salt, wrapper) == (0, p))
  {
    hide Unwrap, Sealed;
    if 1 <= |p| <= MAX_PASSPHRASE {
      OpensIffSameSignature(c, salt, wrapper, p, salt, wrapper);
    }
  }

  /** Wrapping the empty passphrase fails, but only after the old file has been
      replaced by a bare signature, which nothing ever unwraps. */
  lemma EmptyPassphraseIsLost(c: Crypto, file: Option<Bytes>, salt: Salt, wrapper: Text)
    requires Sound(c) && |wrapper| <= MAX_PASSPHRASE
    ensures Wrap(c, file, salt, wrapper, []) == (-EIO, Some(Signature(c, salt, wrapper)))
    ensures forall salt': Salt, wrapper': Text :: Unwrap(c, Some(Signature(c, salt, wrapper)), salt', wrapper').0 != 0
  {
    hide Iterated, Hex;
    assert Padded([]) == [];
    assert Sealed(c, salt, wrapper, []) == Signature(c, salt, wrapper) + [] == Signature(c, salt, wrapper);
  }

  /* ---- the file, updated in place ---- */

  /** The padded copy: a cleared buffer that the passphrase is copied into. */
  method PadPassphrase(p: Text) returns (padded: array<Byte>, bytes: nat)
    requires |p| <= MAX_PASSPHRASE
    ensures fresh(padded) && padded.Length == MAX_PASSPHRASE + BLOCK + 1
    ensures bytes == PaddedSize(|p|) && padded[..bytes] == Padded(p)
  {
    hide Zeros;
    padded := new Byte[MAX_PASSPHRASE + BLOCK + 1];
    CopyInto(padded, 0, Zeros(MAX_PASSPHRASE + 1));
    ghost var cleared := padded[..];
    assert padded[..MAX_PASSPHRASE + 1] == cleared[..MAX_PASSPHRASE + 1];
    CopyInto(padded, 0, p);
    bytes := |p|;
    if bytes % BLOCK != 0 {
      bytes := bytes + (BLOCK - bytes % BLOCK);
    }
    PaddedOver(cleared, padded[..], p, bytes);
    assert padded[..][..bytes] == padded[..bytes];
  }

  /** Copying p to the front of a cleared buffer leaves it padded with zeros. */
  lemma PaddedOver(cleared: Bytes, after: Bytes, p: Bytes, bytes: nat)
    requires |p| <= bytes <= MAX_PASSPHRASE < |cleared| == |after|
    requires cleared[..MAX_PASSPHRASE + 1] == Zeros(MAX_PASSPHRASE + 1)
    requires after[..|p|] == p && after[|p|..] == cleared[|p|..]
    ensures after[..bytes] == p + Zeros(bytes - |p|)
  {
    forall k | 0 <= k < bytes
      ensures after[k] == (p + Zeros(bytes - |p|))[k]
    {
      if k < |p| {
        assert after[k] == after[..|p|][k];
      } else {
        assert after[k] == after[|p|..][k - |p|] == cleared[|p|..][k - |p|] == cleared[k];
        assert cleared[k] == cleared[..MAX_PASSPHRASE + 1][k];
      }
    }
  }

  /** Clears the caller's buffer, then decrypts into it. */
  method FillBuffer(decrypted: array<Byte>, plain: Bytes)
    requires decrypted.Length == MAX_PASSPHRASE + 1 && |plain| <= MAX_PASSPHRASE
    modifies decrypted
    ensures decrypted[..] == plain + Zeros(MAX_PASSPHRASE + 1 - |plain|)
  {
    CopyInto(decrypted, 0, Zeros(MAX_PASSPHRASE + 1));
    assert decrypted[..] == decrypted[..MAX_PASSPHRASE + 1] == Zeros(MAX_PASSPHRASE + 1);
    CopyInto(decrypted, 0, plain);
    assert decrypted[..] == decrypted[..|plain|] + decrypted[|plain|..];
  }

  class WrappedFile {
    /** None while the file does not exist. */
    var content: Option<Bytes>

    constructor ()
      ensures content == None
    {
      content := None;
    }

    method WrapPassphrase(c: Crypto, wrapper: Text, salt: Salt, passphrase: Text) returns (rc: int)
      requires Sound(c)
      modifies this
      ensures (rc, content) == Wrap(c, old(content), salt, wrapper, passphrase)
    {
      hide Blockwise, Iterated, Hex, Padded;
      if |passphrase| > MAX_PASSPHRASE {
        return -EIO;
      }
      var sig := new Byte[SIG_SIZE_HEX + 1];
      var key;
      rc, key := GeneratePassphraseSig(c, sig, salt, wrapper);
      if rc != 0 {
        return rc;
      }
      var padded, bytes := PadPassphrase(passphrase);
      FekekSize(c, HASH_ITERATIONS, salt + wrapper);
      var encrypted := Blockwise(c.encrypt, key[..BLOCK], padded[..bytes]);
      BlockwiseSize(c.encrypt, key[..BLOCK], padded[..bytes]);
      content := Some(sig[..SIG_SIZE_HEX]);
      content := Some(content.value + encrypted);
      if encrypted == [] {
        rc := -EIO;
      }
    }

    /** ecryptfs_unwrap_passphrase: the caller's buffer receives the passphrase. */
    method UnwrapPassphrase(c: Crypto, decrypted: array<Byte>, wrapper: Text, salt: Salt) returns (rc: int)
      requires Sound(c) && decrypted.Length == MAX_PASSPHRASE + 1
      modifies decrypted
      ensures rc == Unwrap(c, content, salt, wrapper).0
      ensures rc == 0 ==> StringIn(decrypted[..]) == Unwrap(c, content, salt, wrapper).1
      ensures rc != 0 ==> decrypted[..] == old(decrypted[..]) || decrypted[..] == Zeros(MAX_PASSPHRASE + 1)
    {
      hide Blockwise, Iterated, Hex, Zeros, StringIn;
      var sig := new Byte[SIG_SIZE_HEX + 1];
      var key;
      rc, key := GeneratePassphraseSig(c, sig, salt, wrapper);
      if rc != 0 {
        return rc;
      }
      if content.None? {
        return -EIO;
      }
      var fromFile := content.value[..if |content.value| < SIG_SIZE_HEX then |content.value| else SIG_SIZE_HEX];
      if |fromFile| == 0 || |content.value| <= SIG_SIZE_HEX {
        return -EIO;
      }
      var encrypted := Body(content.value);
      if fromFile != sig[..SIG_SIZE_HEX] {
        return -EIO;
      }
      if |encrypted| % BLOCK != 0 {
        FillBuffer(decrypted, []);
        return -EIO;
      }
      FekekSize(c, HASH_ITERATIONS, salt + wrapper);
      var plain := Blockwise(c.decrypt, key[..BLOCK], encrypted);
      assert plain == Plain(c, content, salt, wrapper);
      FillBuffer(decrypted, plain);
      StringBeforeZeros(plain, MAX_PASSPHRASE + 1 - |plain|);
    }

    /** The end of the rewrap program: nothing is tried if a passphrase is too long. */
    method Rewrap(c: Crypto, salt: Salt, a: Attempt) returns (rc: int)
      requires Sound(c)
      modifies this
      ensures (rc, content) == Rewrapped(c, old(content), salt, a)
    {
      hide Unwrap, Wrap;
      if |a.oldWrapper| > MAX_PASSPHRASE || |a.newWrapper| > MAX_PASSPHRASE {
        return 0;
      }
      var passphrase := new Byte[MAX_PASSPHRASE + 1];
      rc := UnwrapPassphrase(c, passphrase, a.oldWrapper, salt);
      if rc != 0 {
        return 1;
      }
      rc := WrapPassphrase(c, a.newWrapper, salt, StringIn(passphrase[..]));
      if rc != 0 {
        return 1;
      }
    }
  }

  lemma {:induction false} StringBeforeZeros(s: Bytes, n: nat)
    ensures StringIn(s + Zeros(n)) == StringIn(s)
    decreases |s|
  {
    if s == [] {
      assert s + Zeros(n) == Zeros(n);
    } else if s[0] != 0 {
      assert (s + Zeros(n))[1..] == s[1..] + Zeros(n);
      StringBeforeZeros(s[1..], n);
    }
  }

  /* ---- changing the wrapping passphrase ---- */

  datatype Attempt = Attempt(oldWrapper: Text, newWrapper: Text)

  ghost function Rewrapped(c: Crypto, file: Option<Bytes>, salt: Salt, a: Attempt): (int, Option<Bytes>)
    requires Sound(c)
  {
    if |a.oldWrapper| > MAX_PASSPHRASE || |a.newWrapper| > MAX_PASSPHRASE then (0, file)
    else
      var (rc, p) := Unwrap(c, file, salt, a.oldWrapper);
      if rc != 0 then (1, file)
      else
        var (rc', file') := Wrap(c, file, salt, a.newWrapper, p);
        (if rc' != 0 then 1 else 0, file')
  }

  ghost function RewrappedAll(c: Crypto, file: Option<Bytes>, salt: Salt, attempts: seq<Attempt>): Option<Bytes>
    requires Sound(c)
    decreases |attempts|
  {
    if attempts == [] then file
    else RewrappedAll(c, Rewrapped(c, file, salt, attempts[0]).1, salt, attempts[1..])
  }

  /** An attempt that knows the wrapping passphrase, as far as its signature tells. */
  ghost predicate Knows(c: Crypto, salt: Salt, wrapper: Text, a: Attempt)
    requires Sound(c)
  {
    |a.oldWrapper| <= MAX_PASSPHRASE && |a.newWrapper| <= MAX_PASSPHRASE
    && Signature(c, salt, a.oldWrapper) == Signature(c, salt, wrapper)
  }

  /** The wrapping passphrase after some attempts. */
  ghost function Holder(c: Crypto, salt: Salt, wrapper: Text, attempts: seq<Attempt>): Text
    requires Sound(c)
    decreases |attempts|
  {
    if attempts == [] then wrapper
    else
      var next := if Knows(c, salt, wrapper, attempts[0]) then attempts[0].newWrapper else wrapper;
      Holder(c, salt, next, attempts[1..])
  }

  /** No attempt has the signature of the current wrapping passphrase but not its
      key. Attempts with the passphrase itself never clash. */
  ghost predicate NoClash(c: Crypto, salt: Salt, wrapper: Text, attempts: seq<Attempt>)
    requires Sound(c)
    decreases |attempts|
  {
    attempts == [] ||
    var known := Knows(c, salt, wrapper, attempts[0]);
    && (known ==> CipherKey(c, salt, attempts[0].oldWrapper) == CipherKey(c, salt, wrapper))
    && NoClash(c, salt, if known then attempts[0].newWrapper else wrapper, attempts[1..])
  }

  /** One attempt on a wrapped file: it takes effect exactly if it knows the
      wrapping passphrase, and fails without a change if it does not. */
  lemma RewrapOnce(c: Crypto, salt: Salt, wrapper: Text, p: Text, a: Attempt)
    requires Sound(c) && 0 < |p| <= MAX_PASSPHRASE && NoClash(c, salt, wrapper, [a])
    ensures var (rc, file') := Rewrapped(c, Some(Sealed(c, salt, wrapper, p)), salt, a);
      file' == Some(Sealed(c, salt, if Knows(c, salt, wrapper, a) then a.newWrapper else wrapper, p))
      && (rc == 0 <==> Knows(c, salt, wrapper, a) || |a.oldWrapper| > MAX_PASSPHRASE || |a.newWrapper| > MAX_PASSPHRASE)
  {
    hide Unwrap, Sealed, Signature, CipherKey;
    OpensIffSameSignature(c, salt, wrapper, p, salt, a.oldWrapper);
  }

  /** Any number of attempts, right or wrong, leave the same passphrase in the
      file, under the wrapping passphrase of the last that took effect. */
  lemma {:induction false} RewrapsPreserve(c: Crypto, salt: Salt, wrapper: Text, p: Text, attempts: seq<Attempt>)
    requires Sound(c) && 0 < |p| <= MAX_PASSPHRASE && |wrapper| <= MAX_PASSPHRASE
    requires NoClash(c, salt, wrapper, attempts)
    ensures var file := RewrappedAll(c, Some(Sealed(c, salt, wrapper, p)), salt, attempts);
      var holder := Holder(c, salt, wrapper, attempts);
      file == Some(Sealed(c, salt, holder, p)) && Unwrap(c, file, salt, holder) == (0, p)
    decreases |attempts|
  {
    hide Rewrapped, Unwrap, Sealed, Signature, CipherKey;
    if attempts == [] {
      OpensIffSameSignature(c, salt, wrapper, p, salt, wrapper);
    } else {
      var a := attempts[0];
      var next := if Knows(c, salt, wrapper, a) then a.newWrapper else wrapper;
      assert NoClash(c, salt, next, [a][1..]);
      RewrapOnce(c, salt, wrapper, p, a);
      RewrapsPreserve(c, salt, next, p, attempts[1..]);
    }
  }

  /** The usual chain: each attempt gives the passphrase that the last one set. */
  ghost predicate Chained(wrapper: Text, attempts: seq<Attempt>)
    decreases |attempts|
  {
    attempts == [] ||
    (attempts[0].oldWrapper == wrapper && |attempts[0].newWrapper| <= MAX_PASSPHRASE
     && Chained(attempts[0].newWrapper, attempts[1..]))
  }

  lemma {:induction false} ChainHolds(c: Crypto, salt: Salt, wrapper: Text, attempts: seq<Attempt>)
    requires Sound(c) && |wrapper| <= MAX_PASSPHRASE && Chained(wrapper, attempts)
    ensures NoClash(c, salt, wrapper, attempts)
    ensures Holder(c, salt, wrapper, attempts) ==
      if attempts == [] then wrapper else attempts[|attempts| - 1].newWrapper
    decreases |attempts|
  {
    hide Signature, CipherKey;
    if attempts != [] {
      ChainHolds(c, salt, attempts[0].newWrapper, attempts[1..]);
    }
  }

  /** The program run once per attempt. */
  method ExecuteRewraps(file: WrappedFile, c: Crypto, salt: Salt, attempts: seq<Attempt>)
    requires Sound(c)
    modifies file
    ensures file.content == RewrappedAll(c, old(file.content), salt, attempts)
  {
    hide Rewrapped;
    var k := 0;
    assert attempts[0..] == attempts;
    while k < |attempts|
      invariant 0 <= k <= |attempts|
      invariant RewrappedAll(c, file.content, salt, attempts[k..]) == RewrappedAll(c, old(file.content), salt, attempts)
    {
      assert attempts[k..][1..] == attempts[k + 1..];
      var rc := file.Rewrap(c, salt, attempts[k]);
      k := k + 1;
    }
    assert attempts[k..] == [];
  }
}

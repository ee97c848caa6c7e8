/**
 * The legacy-vault and prime-search parts of `src/main.rs`: the
 * EVP_BytesToKey-style key derivation (MD5, 10,000,000 rounds), the
 * 64-byte DKEK backup record, the bounded prime search and the share
 * count check in `main`.
 *
 * MD5, AES-256-CBC block decryption and the prime generator are not
 * modelled; they are parameters: `md5` is any function from bytes to a
 * 16-byte digest, `cbc` any function decrypting a 48-byte buffer in place,
 * and `draws(i)` the prime the generator returns on its i-th call.
 */
module Recrypt {
  import opened Wrappers
  import opened Bytes

  const MAX_PRIME_ITER: nat := 1000
  const KDF_ITERATIONS: nat := 10_000_000

  /** The ASCII bytes of "Salted__". */
  const MAGIC: seq<byte> := [0x53, 0x61, 0x6c, 0x74, 0x65, 0x64, 0x5f, 0x5f]

  /** DKEK backup files are 64 bytes: tag, salt, three AES blocks. */
  const RECORD_LEN: nat := 64
  const BLOCK_SIZE: nat := 16
  const DKEK_LEN: nat := 32

  type Digest = s: seq<byte> | |s| == 16
    witness [0, 0, 0, 0, 0, 0, 0, 0, 0, 0, 0, 0, 0, 0, 0, 0]

  type Buffer48 = s: seq<byte> | |s| == 48
    witness [0, 0, 0, 0, 0, 0, 0, 0, 0, 0, 0, 0, 0, 0, 0, 0,
             0, 0, 0, 0, 0, 0, 0, 0, 0, 0, 0, 0, 0, 0, 0, 0,
             0, 0, 0, 0, 0, 0, 0, 0, 0, 0, 0, 0, 0, 0, 0, 0]

  /** MD5 (RFC 1321) as a function of the message. */
  type Md5 = seq<byte> -> Digest

  /** AES-256-CBC decryption of a 48-byte buffer under (key, iv), before unpadding. */
  type CbcDecrypt = (seq<byte>, seq<byte>, Buffer48) -> Buffer48

  // ---------------------------------------------------------------------
  // Key derivation

  /** The digest applied `count` times: once to `input`, then `count - 1` times to its own output. */
  function IteratedDigest(md5: Md5, count: nat, input: seq<byte>): Digest
    requires count >= 1
  {
    if count == 1 then md5(input) else md5(IteratedDigest(md5, count - 1, input))
  }

  /**
   * OpenSSL's EVP_BytesToKey stream D_1 || D_2 || ... with
   * D_i = HASH^count(D_{i-1} || data || salt), continuing after `prev`.
   */
  function KeyStream(md5: Md5, count: nat, prev: seq<byte>, data: seq<byte>, salt: seq<byte>, blocks: nat): (s: seq<byte>)
    requires count >= 1
    ensures |s| == 16 * blocks
    decreases blocks
  {
    if blocks == 0 then []
    else
      var d := IteratedDigest(md5, count, prev + data + salt);
      d + KeyStream(md5, count, d, data, salt, blocks - 1)
  }

  /** EVP_BytesToKey for aes-256-cbc: a 32-byte key and a 16-byte IV, three digests in all. */
  function EvpBytesToKey(md5: Md5, count: nat, data: seq<byte>, salt: seq<byte>): (r: (seq<byte>, seq<byte>))
    requires count >= 1
    ensures |r.0| == 32 && |r.1| == 16
  {
    var s := KeyStream(md5, count, [], data, salt, 3);
    (s[..32], s[32..48])
  }

  /** The reference unrolled: key = d1 || d2 and iv = d3, each digest chained on the previous one. */
  lemma EvpBytesToKeyChain(md5: Md5, count: nat, data: seq<byte>, salt: seq<byte>)
    requires count >= 1
    ensures var d1 := IteratedDigest(md5, count, data + salt);
            var d2 := IteratedDigest(md5, count, d1 + data + salt);
            var d3 := IteratedDigest(md5, count, d2 + data + salt);
            EvpBytesToKey(md5, count, data, salt) == (d1 + d2, d3)
  {
    var d1 := IteratedDigest(md5, count, data + salt);
    assert [] + data + salt == data + salt;
    var d2 := IteratedDigest(md5, count, d1 + data + salt);
    var d3 := IteratedDigest(md5, count, d2 + data + salt);
    var s3 := KeyStream(md5, count, d2, data, salt, 1);
    assert s3 == d3 + [];
    var s2 := KeyStream(md5, count, d1, data, salt, 2);
    assert s2 == d2 + s3;
    var s := KeyStream(md5, count, [], data, salt, 3);
    assert s == d1 + s2;
    var key: seq<byte> := d1;
    key := key + d2;
    assert s[..32] == key;
    assert s[32..48] == d3;
  }

  /** `copy_from_slice` into `dst[start..start + |src|]`. */
  method CopyFromSlice(dst: array<byte>, start: nat, src: seq<byte>)
    requires start + |src| <= dst.Length
    modifies dst
    ensures dst[..] == old(dst[..start]) + src + old(dst[start + |src|..])
  {
    for i := 0 to |src|
      invariant dst[..start] == old(dst[..start])
      invariant dst[start..start + i] == src[..i]
      invariant dst[start + i..] == old(dst[start + i..])
    {
      dst[start + i] := src[i];
      assert dst[start..start + i + 1] == dst[start..start + i] + [src[i]];
    }
    assert dst[..] == dst[..start] + dst[start..start + |src|] + dst[start + |src|..];
  }

  /**
   * The inner `hash` of `derive_key_iv`: lays out previous || secret || salt
   * in a zeroed 32-byte buffer, digests exactly that prefix and re-digests
   * the result KDF_ITERATIONS - 1 times.
   */
  method Hash(md5: Md5, previous: seq<byte>, salt: seq<byte>, secret: seq<byte>) returns (h: Digest)
    requires |previous| <= 16 && |salt| == 8 && |secret| == 8
    ensures h == IteratedDigest(md5, KDF_ITERATIONS, previous + secret + salt)
  {
    var fullData := new byte[32](_ => 0);
    var n := |previous|;
    CopyFromSlice(fullData, 0, previous);
    CopyFromSlice(fullData, n, secret);
    CopyFromSlice(fullData, n + 8, salt);
    assert fullData[..n + 16] == previous + secret + salt;
    h := md5(fullData[..n + 16]);
    for i := 1 to KDF_ITERATIONS
      invariant h == IteratedDigest(md5, i, previous + secret + salt)
    {
      h := md5(h);
    }
  }

  /** `derive_key_iv`: EVP_BytesToKey with MD5, KDF_ITERATIONS rounds, the share secret as password. */
  method DeriveKeyIv(md5: Md5, salt: seq<byte>, secret: seq<byte>) returns (key: seq<byte>, iv: seq<byte>)
    requires |salt| == 8 && |secret| == 8
    ensures (key, iv) == EvpBytesToKey(md5, KDF_ITERATIONS, secret, salt)
  {
    var d1 := Hash(md5, [], salt, secret);
    var d2 := Hash(md5, d1, salt, secret);
    var d3 := Hash(md5, d2, salt, secret);
    var k := new byte[32](_ => 0);
    CopyFromSlice(k, 0, d1);
    assert k[..16] == d1;
    CopyFromSlice(k, 16, d2);
    var prefix: seq<byte> := d1;
    assert k[..] == prefix + d2;
    key, iv := k[..], d3;
    assert [] + secret + salt == secret + salt;
    EvpBytesToKeyChain(md5, KDF_ITERATIONS, secret, salt);
  }

  // ---------------------------------------------------------------------
  // PKCS#7 padding (RFC 2315 section 10.3) on 16-byte blocks

  /** Unpadding as the `cbc` crate does it: the last byte n must lie in 1..16 and the last n bytes must all equal n. */
  function Pkcs7Unpad(buf: seq<byte>): (r: Option<seq<byte>>)
    requires |buf| >= BLOCK_SIZE
    ensures r.Some? <==>
              var n := buf[|buf| - 1];
              1 <= n <= BLOCK_SIZE && forall i :: |buf| - n <= i < |buf| ==> buf[i] == n
    ensures r.Some? ==> |buf| - BLOCK_SIZE <= |r.value| < |buf|
    ensures r.Some? ==> r.value == buf[..|r.value|]
    ensures r.Some? ==> |r.value| == |buf| - buf[|buf| - 1]
  {
    var n := buf[|buf| - 1];
    if n == 0 || n > BLOCK_SIZE then None
    else if exists i :: |buf| - n <= i < |buf| - 1 && buf[i] != n then None
    else Some(buf[..|buf| - n])
  }

  /** Padding to a whole number of blocks, the inverse of `Pkcs7Unpad`. */
  function Pkcs7Pad(msg: seq<byte>): (r: seq<byte>)
    ensures |r| % BLOCK_SIZE == 0 && |msg| < |r| <= |msg| + BLOCK_SIZE
  {
    var n := BLOCK_SIZE - |msg| % BLOCK_SIZE;
    msg + seq(n, _ => n)
  }

  lemma UnpadPad(msg: seq<byte>)
    ensures Pkcs7Unpad(Pkcs7Pad(msg)) == Some(msg)
  {
    var n := BLOCK_SIZE - |msg| % BLOCK_SIZE;
    var buf := Pkcs7Pad(msg);
    assert buf[|buf| - 1] == n;
    assert buf[..|buf| - n] == msg;
  }

  // ---------------------------------------------------------------------
  // The DKEK backup record

  datatype DecryptError = ShortRead | BadHeader | BadPadding | WrongPlaintextLength

  /** A record of at least 64 bytes whose first eight are the tag. */
  predicate Tagged(contents: seq<byte>) {
    |contents| >= RECORD_LEN && contents[..8] == MAGIC
  }

  /** The unpadded plaintext of a tagged record: bytes 8..16 are the salt, 16..64 the ciphertext. */
  function Plaintext(md5: Md5, cbc: CbcDecrypt, contents: seq<byte>, secret: seq<byte>): Option<seq<byte>>
    requires |contents| >= RECORD_LEN
  {
    var (key, iv) := EvpBytesToKey(md5, KDF_ITERATIONS, secret, contents[8..16]);
    Pkcs7Unpad(cbc(key, iv, contents[16..RECORD_LEN]))
  }

  /**
   * `decrypt_dkek` up to unpadding: reads 64 bytes, checks the tag before
   * deriving any key, splits salt and ciphertext, decrypts and unpads.
   */
  method DecryptPadded(md5: Md5, cbc: CbcDecrypt, contents: seq<byte>, secret: seq<byte>)
    returns (r: Result<seq<byte>, DecryptError>)
    requires |secret| == 8
    ensures r == Failure(ShortRead) <==> |contents| < RECORD_LEN
    ensures r == Failure(BadHeader) <==> |contents| >= RECORD_LEN && contents[..8] != MAGIC
    ensures Tagged(contents) && Plaintext(md5, cbc, contents, secret).None? ==> r == Failure(BadPadding)
    ensures Tagged(contents) && Plaintext(md5, cbc, contents, secret).Some? ==>
              r == Success(Plaintext(md5, cbc, contents, secret).value)
  {
    if |contents| < RECORD_LEN {
      return Failure(ShortRead);
    }
    var bytes := new byte[64](_ => 0);
    CopyFromSlice(bytes, 0, contents[..RECORD_LEN]);
    assert bytes[..] == contents[..RECORD_LEN];
    if bytes[0..8] != MAGIC {
      return Failure(BadHeader);
    }
    var salt := bytes[8..16];
    assert salt == contents[8..16];
    var data := new byte[48](_ => 0);
    CopyFromSlice(data, 0, bytes[16..]);
    assert data[..] == bytes[16..];
    var key, iv := DeriveKeyIv(md5, salt, secret);
    var dec := Pkcs7Unpad(cbc(key, iv, data[..]));
    assert data[..] == contents[16..RECORD_LEN];
    assert (key, iv) == EvpBytesToKey(md5, KDF_ITERATIONS, secret, contents[8..16]);
    assert dec == Plaintext(md5, cbc, contents, secret);
    if dec.None? {
      return Failure(BadPadding);
    }
    return Success(dec.value);
  }

  /** What the code as written does: a `Dkek`, an error, or a panic. */
  datatype DkekOutcome = Decrypted(dkek: seq<byte>) | Failed(error: DecryptError) | Panicked

  /**
   * `decrypt_dkek` as written: `Dkek::copy_from_slice` panics when the
   * unpadded plaintext is not exactly 32 bytes long.
   */
  method DecryptDkekAsWritten(md5: Md5, cbc: CbcDecrypt, contents: seq<byte>, secret: seq<byte>)
    returns (o: DkekOutcome)
    requires |secret| == 8
    ensures |contents| < RECORD_LEN ==> o == Failed(ShortRead)
    ensures |contents| >= RECORD_LEN && contents[..8] != MAGIC ==> o == Failed(BadHeader)
    ensures Tagged(contents) && Plaintext(md5, cbc, contents, secret).None? ==> o == Failed(BadPadding)
    ensures Tagged(contents) && Plaintext(md5, cbc, contents, secret).Some? ==>
              var plain := Plaintext(md5, cbc, contents, secret).value;
              o == if |plain| == DKEK_LEN then Decrypted(plain) else Panicked
  {
    var r := DecryptPadded(md5, cbc, contents, secret);
    if r.Failure? {
      return Failed(r.error);
    }
    if |r.value| != DKEK_LEN {
      return Panicked;
    }
    var dkek := new byte[32](_ => 0);
    CopyFromSlice(dkek, 0, r.value);
    assert dkek[..] == r.value;
    return Decrypted(dkek[..]);
  }

  /** A padding byte of 0x01 passes unpadding and leaves 47 bytes, which `copy_from_slice` rejects. */
  lemma ShortPlaintextPassesUnpadding()
    ensures Pkcs7Unpad(seq(47, _ => 0) + [1]) == Some(seq(47, _ => 0))
  {
    var buf: seq<byte> := seq(47, _ => 0) + [1];
    assert buf[..47] == seq(47, _ => 0);
  }

  /**
   * `decrypt_dkek` as evidently intended: every failure, including an
   * unpadded plaintext of the wrong length, is reported as an error.
   */
  method DecryptDkek(md5: Md5, cbc: CbcDecrypt, contents: seq<byte>, secret: seq<byte>)
    returns (r: Result<seq<byte>, DecryptError>)
    requires |secret| == 8
    ensures r == Failure(ShortRead) <==> |contents| < RECORD_LEN
    ensures r == Failure(BadHeader) <==> |contents| >= RECORD_LEN && contents[..8] != MAGIC
    ensures Tagged(contents) && Plaintext(md5, cbc, contents, secret).None? ==> r == Failure(BadPadding)
    ensures Tagged(contents) && Plaintext(md5, cbc, contents, secret).Some? ==>
              var plain := Plaintext(md5, cbc, contents, secret).value;
              r == if |plain| == DKEK_LEN then Success(plain) else Failure(WrongPlaintextLength)
    ensures r.Success? ==> |r.value| == DKEK_LEN
  {
    var padded := DecryptPadded(md5, cbc, contents, secret);
    if padded.Failure? {
      return Failure(padded.error);
    }
    if |padded.value| != DKEK_LEN {
      return Failure(WrongPlaintextLength);
    }
    var dkek := new byte[32](_ => 0);
    CopyFromSlice(dkek, 0, padded.value);
    assert dkek[..] == padded.value;
    return Success(dkek[..]);
  }

  // ---------------------------------------------------------------------
  // Prime search

  /**
   * `generate_prime_min_with_rng`: up to MAX_PRIME_ITER draws, the first
   * one above `min` wins.
   */
  method GeneratePrimeMin(draws: nat -> nat, min: nat) returns (r: Option<nat>)
    ensures r.Some? ==> r.value > min
    ensures r.Some? ==> exists i :: 0 <= i < MAX_PRIME_ITER && draws(i) == r.value &&
                                   forall j :: 0 <= j < i ==> draws(j) <= min
    ensures r.None? <==> forall i :: 0 <= i < MAX_PRIME_ITER ==> draws(i) <= min
  {
    for i := 0 to MAX_PRIME_ITER
      invariant forall j :: 0 <= j < i ==> draws(j) <= min
    {
      var prime := draws(i);
      if prime > min {
        return Some(prime);
      }
    }
    return None;
  }

  // ---------------------------------------------------------------------
  // `main`

  datatype MainError = FileMissing | NotAFile | RequiredExceedsTotal | WorkflowFailed(reason: string)

  datatype Args = Args(sharesTotal: nat, sharesRequired: nat)

  /** What `main` does to the terminal and when it runs the share workflow. */
  datatype Effect = InitTerm | RunWorkflow | RestoreTerm

  /**
   * `main` after argument parsing: the file checks, then the share-count
   * check, and only then the terminal and the workflow (`main_result`),
   * whose outcome it passes on after restoring the terminal.
   */
  method RunMain(fileExists: bool, isFile: bool, sharesTotal: nat, sharesRequired: nat,
                 workflow: Args -> Result<(), string>)
    returns (r: Result<(), MainError>, effects: seq<Effect>)
    requires sharesTotal >= 2 && sharesRequired >= 2
    ensures r == Failure(FileMissing) <==> !fileExists
    ensures r == Failure(NotAFile) <==> fileExists && !isFile
    ensures r == Failure(RequiredExceedsTotal) <==> fileExists && isFile && sharesRequired > sharesTotal
    ensures !(fileExists && isFile && sharesRequired <= sharesTotal) ==> effects == []
    ensures fileExists && isFile && sharesRequired <= sharesTotal ==>
              effects == [InitTerm, RunWorkflow, RestoreTerm] &&
              (r.Success? <==> workflow(Args(sharesTotal, sharesRequired)).Success?)
  {
    effects := [];
    if !fileExists {
      return Failure(FileMissing), effects;
    }
    if !isFile {
      return Failure(NotAFile), effects;
    }
    if sharesRequired > sharesTotal {
      return Failure(RequiredExceedsTotal), effects;
    }
    var args := Args(sharesTotal, sharesRequired);
    effects := effects + [InitTerm];
    var result := workflow(args);
    effects := effects + [RunWorkflow, RestoreTerm];
    r := if result.Success? then Success(()) else Failure(WorkflowFailed(result.error));
  }
}

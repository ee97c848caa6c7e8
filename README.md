# Dynamic-residue shares, DKEK recovery and the prompt editor

This project models the core of a small command-line tool. The tool splits
and recombines a secret with Shamir secret sharing over a prime field
chosen at run time. Its purpose is to recover a device key-encryption key
(DKEK) from an encrypted backup file.

The model covers three parts:

- **`DynResidue`** (`dynresidue.dfy`) models the share element
  `WrappedDynResidue`. An element is either a plain one-word integer or a
  residue bound to an odd modulus. The module covers:
  - the element's arithmetic, `is_zero`, `invert` and `retrieve`;
  - the `IdentifierDynResidue` wrapper, whose inner element `inc` and the
    `*Assign` operators overwrite in place;
  - the wrapper's `ShareElement`/`ShareIdentifier` glue.

  A residue is represented by its canonical value below the modulus. The
  Montgomery form appears only in `is_zero`, the one place that inspects
  it. crypto-bigint's `Invert::invert` is not part of this model; the
  extended Euclidean algorithm stands in for it. An inverse modulo p is
  unique, so which algorithm finds it cannot be observed.
- **`Recrypt`** (`recrypt.dfy`) models the backup side of `main.rs`:
  - the EVP_BytesToKey-style key derivation, with 10,000,000 MD5 rounds;
  - the layout of the 64-byte DKEK record: the `Salted__` tag, an 8-byte
    salt, then 48 bytes of AES-256-CBC ciphertext;
  - PKCS#7 unpadding (RFC 2315 section 10.3);
  - the bounded prime search;
  - the share-count check in `main`.

  MD5, AES-CBC block decryption and the prime generator appear as
  function-typed parameters.
- **`Ui`** (`ui.dfy`) models the pure string logic of `ui.rs`:
  - `parse_hex_string` and `format_bigint`, and the round trip between
    them;
  - the `Input` line editor: a class whose text and cursor the key
    handler updates, together with the pure step function that specifies
    it.

`Bytes` (`bytes.dfy`) holds the fixed-width big-endian encoding. `ModArith`
(`mod_arith.dfy`) holds facts about `%`. `Wrappers` (`wrappers.dfy`) holds
`Option` and `Result`.

Two ranges are fixed throughout. Plain integers are `U64` values, below
2^64. Moduli are odd, greater than one and below 2^64.

## Model

| member | source | states |
|---|---|---|
| DynResidue.Lift | src/dynresidue.rs:29-34 | `DynResidue::new`: an integer reduced into the modulus gives a valid residue under that modulus |
| DynResidue.WrappedDynResidue.Retrieve | src/dynresidue.rs:90-95 | `retrieve` returns the integer itself, or the residue's canonical representative: below the modulus and congruent to the value; always below 2^64 |
| DynResidue.WrappedDynResidue.IsZero | src/dynresidue.rs:72-78 | Testing the Montgomery form for zero holds exactly when `retrieve()` is zero, as the comment at line 75 relies on |
| DynResidue.MontgomeryZeroOnlyAtZero | src/dynresidue.rs:75-76 | For an odd modulus, v·2^64 ≡ 0 forces v ≡ 0, so a residue whose Montgomery form is zero is zero |
| DynResidue.WrappedDynResidue.Sub | src/dynresidue.rs:27-40 | Residue−residue, residue−integer and integer−residue give a residue under the common modulus whose value is (a − b) mod p of the retrieved values; integer−integer is exact, and underflow is excluded as `checked_sub(..).unwrap()` panics |
| DynResidue.WrappedDynResidue.Add | src/dynresidue.rs:42-55 | The same four cases for +: a residue (a + b) mod p, or the exact integer sum when it fits in a word |
| DynResidue.WrappedDynResidue.Mul | src/dynresidue.rs:57-70 | The same four cases for ×: a residue (a · b) mod p, or the exact integer product when it fits in a word |
| DynResidue.WrappedDynResidue.Invert | src/dynresidue.rs:80-88 | An integer has no inverse. A residue has one exactly when some w < p has v·w ≡ 1, and the result is such a w under the same modulus |
| DynResidue.ExtGcd | src/dynresidue.rs:80-84 | Stands in for crypto-bigint's `Invert::invert` (line 83; that library is not part of this model): the extended Euclidean algorithm, with a·x + b·y = g and g a common divisor of a and b. An inverse modulo p is unique, so the choice of algorithm cannot be observed |
| DynResidue.GcdOfInvertible | src/dynresidue.rs:80-84 | Any common divisor of an invertible value and its modulus is 1, so a gcd other than 1 means no inverse |
| DynResidue.MulInverseIsOne | src/dynresidue.rs:57-88 | A residue times its inverse is the residue 1 |
| DynResidue.InvertPrime | src/dynresidue.rs:80-88 | Under a prime modulus, `invert` fails exactly on the zero residue |
| DynResidue.AddUndoesSub | src/dynresidue.rs:27-55 | (a − b) + b is a again for integers and for a residue a; an integer a comes back lifted into b's modulus |
| DynResidue.Default | src/dynresidue.rs:107-111 | `Default` is the plain integer zero, and it is zero |
| DynResidue.PlainConstants | src/dynresidue.rs:24-25 | `ZERO` and `ONE` are plain integers; `ZERO` is zero, and `ONE` retrieves to 1 and is not zero |
| DynResidue.IdentifierDynResidue.New | src/dynresidue.rs:98-105 | `IdentifierDynResidue::new` holds a residue under the given modulus whose retrieved value is the integer mod p |
| DynResidue.IdentifierDynResidue.Wrap | src/dynresidue.rs:217-221 | `From<WrappedDynResidue>` wraps the element unchanged |
| DynResidue.IdentifierDynResidue.Zero | src/dynresidue.rs:249-251 | `ShareElement::zero` holds `ZERO` |
| DynResidue.IdentifierDynResidue.One | src/dynresidue.rs:253-255 | `ShareElement::one` holds `ONE` |
| DynResidue.IdentifierDynResidue.Random | src/dynresidue.rs:277-280 | `random` holds the drawn word as a plain integer, not a residue |
| DynResidue.IdentifierDynResidue.IsZero | src/dynresidue.rs:257-259 | The wrapper is zero exactly when its element retrieves to 0 |
| DynResidue.IdentifierDynResidue.Serialize | src/dynresidue.rs:261-263 | `serialize` yields 8 bytes whose big-endian value is `retrieve()` |
| DynResidue.IdentifierDynResidue.ToVec | src/dynresidue.rs:273-275 | `to_vec` yields the same 8 big-endian bytes |
| DynResidue.IdentifierDynResidue.Deserialize | src/dynresidue.rs:265-267 | `deserialize` always fails with `NotImplemented` |
| DynResidue.IdentifierDynResidue.FromSlice | src/dynresidue.rs:269-271 | `from_slice` always fails with `NotImplemented` |
| DynResidue.IdentifierDynResidue.SubAssign | src/dynresidue.rs:127-137 | In-place `-=`: the new element is the old one minus rhs |
| DynResidue.IdentifierDynResidue.AddAssign | src/dynresidue.rs:153-163 | In-place `+=`: the new element is the old one plus rhs |
| DynResidue.IdentifierDynResidue.MulAssign | src/dynresidue.rs:179-189 | In-place `*=`: the new element is the old one times rhs |
| DynResidue.IdentifierDynResidue.Inc | src/dynresidue.rs:287-289 | `inc` replaces the element with old element + increment, and the result stays valid |
| DynResidue.IdentifierDynResidue.Mul | src/dynresidue.rs:235-240 | `Mul<&Self>` returns a fresh wrapper holding the product |
| DynResidue.IdentifierDynResidue.Invert | src/dynresidue.rs:291-295 | `ShareIdentifier::invert` fails with `NotImplemented` exactly when the element has no inverse; otherwise it wraps the inverse |
| Bytes.FromToBeBytes | src/dynresidue.rs:261-263 | Decoding the n-byte big-endian encoding gives back every value below 256^n |
| Bytes.ToFromBeBytes | src/dynresidue.rs:261-263 | Encoding a decoded byte string gives back the bytes |
| Recrypt.EvpBytesToKeyChain | src/main.rs:154-155 | The EVP_BytesToKey reference for aes-256-cbc: key = D1‖D2 and IV = D3, where D1 = MD5^count(data‖salt) and each later Di digests D(i−1)‖data‖salt |
| Recrypt.CopyFromSlice | src/main.rs:161-163 | `copy_from_slice` writes src at `start` and leaves the rest of the buffer unchanged |
| Recrypt.Hash | src/main.rs:158-170 | `hash` returns MD5 applied KDF_ITERATIONS times to exactly previous‖secret‖salt, the first \|previous\|+16 bytes of the zeroed buffer |
| Recrypt.DeriveKeyIv | src/main.rs:156-180 | `derive_key_iv` equals EVP_BytesToKey with MD5, 10,000,000 rounds, the share secret as password and the file's salt |
| Recrypt.Pkcs7Unpad | src/main.rs:145-146 | PKCS#7 unpadding succeeds exactly when the last byte n lies in 1..16 and the last n bytes all equal n; the result is exactly buf without those last n bytes (its length is the length of buf minus n) |
| Recrypt.UnpadPad | src/main.rs:145-146 | Unpadding inverts padding for every message |
| Recrypt.DecryptPadded | src/main.rs:134-146 | A file under 64 bytes fails to read. A wrong tag fails before any key is derived. Otherwise the result is the unpadded decryption of bytes 16..64, under the key from salt bytes 8..16, or a padding error |
| Recrypt.DecryptDkekAsWritten | src/main.rs:134-152 | `decrypt_dkek` as written: it panics whenever the unpadded plaintext is not exactly 32 bytes |
| Recrypt.ShortPlaintextPassesUnpadding | src/main.rs:145-149 | A decryption ending in byte 0x01 unpads to 47 bytes, the input behind the panic |
| Recrypt.DecryptDkek | src/main.rs:134-152 | Corrected `decrypt_dkek`: every outcome is an error or a 32-byte DKEK; the wrong-length case is an error |
| Recrypt.GeneratePrimeMin | src/main.rs:183-195 | Returns the first of at most 1000 draws that exceeds `min`, and `None` exactly when all 1000 draws are ≤ `min` |
| Recrypt.RunMain | src/main.rs:63-96 | Checks in order: missing file, then not a file, then shares_required > shares_total. Each rejection happens before the terminal is touched; otherwise it inits the terminal, runs the workflow, restores the terminal and passes the outcome on |
| Ui.HexDigit | src/ui.rs:251 | `{:02x}` writes a lowercase hex digit whose value is the nibble |
| Ui.FromBeHex | src/ui.rs:241 | `from_be_hex` of n digits is below 16^n |
| Ui.RemoveColonsLength | src/ui.rs:231 | `replace(':', "")` leaves exactly the non-colon characters |
| Ui.ParseHexString | src/ui.rs:226-245 | `InputNotHex` exactly when some character is neither a hex digit nor ':'. `WrongLength` exactly when the rest has a non-colon count other than 16. No other error, including `Other`, occurs. A result is below 2^64 |
| Ui.ParseIgnoresColons | src/ui.rs:228-234 | For every input, inserting a colon anywhere does not change the parse. This covers the errors too: a non-hex character gives `InputNotHex` with or without the colon |
| Ui.ColonTerminatedLayout | src/ui.rs:249-252 | The collected `hh:` pieces have a colon exactly at every third position and lowercase hex digits elsewhere |
| Ui.TrimOneColon | src/ui.rs:253 | `trim_end_matches(':')` removes exactly the one trailing colon |
| Ui.FormatBigint | src/ui.rs:247-255 | `format_bigint` prints 3·8 − 1 = 23 characters, and the last is not a colon. The full layout is FormatBigintLayout, the digits FormatDigits |
| Ui.FormatBigintLayout | src/ui.rs:247-255 | `format_bigint` prints 23 characters: colons exactly at positions ≡ 2 mod 3, lowercase hex digits elsewhere, no trailing colon |
| Ui.FormatDigits | src/ui.rs:247-255 | Without its colons, the printed value is the 16 hex digits of the 8 big-endian bytes |
| Ui.ParseFormatRoundTrip | src/ui.rs:226-255 | `parse_hex_string(format_bigint(v)) == Ok(v)` for every 64-bit v |
| Ui.MoveRight | src/ui.rs:50-53 | `cursor_right` moves one step right, stops at the end, keeps the text, and always leaves cursor ≤ length |
| Ui.MoveLeft | src/ui.rs:55-58 | `cursor_left` moves one step left, stops at 0, keeps the text, and always leaves cursor ≤ length |
| Ui.Step | src/ui.rs:62-92 | One pass of the `event_loop` match keeps cursor ≤ length. Enter returns the text unchanged, and Ctrl+C changes nothing |
| Ui.Replay | src/ui.rs:60-93 | The loop over successive events keeps cursor ≤ length |
| Ui.InsertAtCursor | src/ui.rs:77-80 | A typed character lands at the cursor and the cursor advances past it. The text before and after is unchanged |
| Ui.BackspaceRemovesBefore | src/ui.rs:83-88 | Backspace with cursor > 0 removes exactly the character before the cursor and steps left; at 0 it does nothing |
| Ui.BackspaceUndoesInsert | src/ui.rs:77-88 | Backspace right after typing any character (plain `c` included; only Ctrl+C aborts) restores the previous text and cursor |
| Ui.CursorKeys | src/ui.rs:81-90 | Left at 0 and Right at the end stay put, and Left/Right undo each other in between. Home goes to 0 and End to the length |
| Ui.IgnoredAndAbort | src/ui.rs:62-75 | Non-key events and non-press key events change nothing; Ctrl+C aborts |
| Ui.TypingAppends | src/ui.rs:77-80 | Typing a string at the end of the text appends it and leaves the cursor at the end |
| Ui.TypeThenEnter | src/ui.rs:77-91 | Typing a line into a fresh editor and pressing Enter returns exactly that line |
| Ui.Input.constructor | src/ui.rs:36-41 | `Input::new` starts with empty text and the cursor at 0 |
| Ui.Input.ByteIndex | src/ui.rs:43-48 | `byte_index` is the UTF-8 length of the characters before the cursor. It lies between the cursor and the text's byte length, and equals `text.len()` at the end |
| Ui.AsciiByteIndex | src/ui.rs:43-48 | On ASCII text the byte index equals the character index |
| Ui.Input.CursorRight | src/ui.rs:50-53 | In place, the new state is `MoveRight` of the old one |
| Ui.Input.CursorLeft | src/ui.rs:55-58 | In place, the new state is `MoveLeft` of the old one |
| Ui.Input.HandleKey | src/ui.rs:62-92 | In place, the key match gives the state and outcome of `Step` on the old state |
| Ui.Input.EventLoop | src/ui.rs:60-93 | In place, handling a sequence of events gives the state and outcome of `Replay` |

## Left out

- Splitting and combining shares: `vsss_rs`'s split and combine evaluate a
  random polynomial and do Lagrange interpolation. That crate is not part of
  this model; only the field arithmetic they call on (`DynResidue`) is.
- The share workflow in `main_result` and the prompting loops `get_shares`
  and `print_shares`. They do terminal I/O around the modelled parsing,
  formatting and share-count check.
- MD5 and AES-256-CBC are parameters (`Md5`, `CbcDecrypt`), not
  implementations. The model proves how they are chained, not what they
  compute.
- The prime generator is a parameter `draws`. Primality of the draws, and
  the random number generator, are not modelled.
- Reading the file is modelled as its contents. `read_exact` failing on a
  short file is `ShortRead`; open and other I/O errors are not modelled.
- Argument parsing is not modelled. Its range check (both counts ≥ 2) is
  `RunMain`'s precondition.
- Terminal setup and teardown, the redraw after each key (cursor moves,
  clear, print) and the panic-hook juggling around `from_be_hex` are not
  modelled.
- Montgomery multiplication and reduction inside the big-integer library
  are not modelled. Residues carry their canonical value.
- Mixing residues under different moduli is a precondition
  (`CompatibleWith`). The source does not check it.
- Plain-integer overflow or underflow is a precondition (`SubDefined`,
  `AddDefined`, `MulDefined`). The source panics there through `unwrap`.
- The by-value `Sub`/`Add`/`Mul` operator impls and the `Deref`, `AsRef`,
  `AsMut` and other `From` conversions are one-line forwards to the
  modelled operations.
- Ui.Input.HandleKey: inserts at the character index. The source converts
  it with `byte_index` before `String::insert`; that conversion is the
  separately modelled `ByteIndex`.
- Ui.Input.CursorRight: does not model `usize` saturation of `char_index +
  1`. The cursor never exceeds the text length, so the addition cannot
  reach the limit.
- Recrypt.RunMain: the workflow result is kept only as success or failure
  with its message. The `anyhow` error chain is not modelled.

## Findings

| source | as written | input that shows it | evidently intended | confidence | as-written member | corrected member |
|---|---|---|---|---|---|---|
| src/main.rs:148-149 | `Dkek::copy_from_slice(dec)` panics unless the unpadded plaintext is exactly 32 bytes; unpadding accepts any valid PKCS#7 tail | A wrong share secret whose decrypted 48-byte block ends in 0x01 unpads to 47 bytes, and the program panics instead of reporting an error | A plaintext of the wrong length is reported as an error, like a bad tag or bad padding | medium, not executed | Recrypt.DecryptDkekAsWritten (with Recrypt.ShortPlaintextPassesUnpadding) | Recrypt.DecryptDkek |

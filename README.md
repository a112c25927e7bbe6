# Ledger web UI: master fingerprint and descriptor key

A model of the two computations in `src/main.js` of a small browser client for a
Ledger hardware wallet running the Bitcoin app:

- **Master-fingerprint rendering** (`getFingerprint`). The device's reply to the
  GET_MASTER_FINGERPRINT command (class `0xE1`, instruction `0x05`) is turned into
  text. Each byte becomes two lowercase, zero-padded hex digits. The digits are
  joined in order, and the first 8 characters are kept. That is the 4-byte key
  identifier prefix of BIP 32, section "Key identifiers".
- **Descriptor-key assembly**. The result is `[<fingerprint><path without its first character>]<xpub>`.
  This is the key-origin form of a key expression in BIP 380, section "Key
  Expressions". The path is fixed to the BIP 48 multisig path `M/48'/0'/0'/2'`.

Everything is pure. The device reply is a `seq<Byte>` parameter, with `Byte` the
integers 0..255. The xpub is an opaque string parameter.

Modules:

- `Wrappers`: `Option` and `Result`.
- `Hex`: lowercase hex digits and their values. Also `DecodeHex`, which reads a
  digit string back pairwise and is the inverse used in the round-trip lemmas.
- `JsStrings`: the JavaScript built-ins the code uses, for the arguments it uses
  them with: `toString(16)` on a non-negative integer, `padStart` with a
  one-character pad, `join('')`, and `substr` with one or two non-negative arguments.
- `Fingerprint`: the per-byte rendering, the join, `getFingerprint`, and their properties.
- `Descriptor`: the descriptor template. Also `ParseKeyExpression`, which splits
  `[origin]key` at the first `]` and serves as the template's inverse.
- `GetXpub`: the "get xpub" click handler as a function of the two device
  replies. The xpub is requested first, then the fingerprint, and the first
  rejection is the outcome.

In three places the code is more permissive than a strict client of this protocol would be. The model follows the code:

- A reply shorter than 4 bytes is not rejected. It yields a shorter fingerprint
  (`2 * |reply|` characters), with no error and no padding.
- The path's first character is dropped whatever it is (for text in the Basic
  Multilingual Plane; see "Left out"). Neither the path root nor
  the fingerprint's format is checked before the template is filled.
- The xpub version `0x0488B21E` is passed through to the device. Nothing checks it
  against a network.

## Model

| member | source | states |
|---|---|---|
| `JsStrings.ToHexString` | src/main.js:59 | `n.toString(16)` is a non-empty lowercase hex string whose value is `n`, with no leading zero, and is one character long exactly when `n < 16` |
| `JsStrings.PadStart` | src/main.js:59 | `padStart` keeps `s` as the suffix, fills the front with the pad character, and gives length `max(|s|, target)` |
| `JsStrings.Substr` | src/main.js:60 | `substr(start, length)` has length `min(length, |s| - start)` (0 past the end), and character `i` is `s[start + i]` |
| `JsStrings.SubstrFrom` | src/main.js:73 | `substr(start)` is the whole rest of `s` from `start`: `s[..start] + r == s` |
| `JsStrings.Join` | src/main.js:60 | `join('')` of no parts is the empty string; its contents for two-character parts are stated by `JoinPairsLength`, `JoinPairsAt` and `JoinPairsPrefix` |
| `JsStrings.JoinPairsLength` | src/main.js:60 | joining `n` two-character parts with `''` gives `2n` characters |
| `JsStrings.JoinPairsAt` | src/main.js:60 | in the join, part `i` sits at characters `2i` and `2i + 1` |
| `JsStrings.JoinPairsPrefix` | src/main.js:60 | joining the first `n` parts gives the first `2n` characters of the whole join |
| `Hex.HexDigit` | src/main.js:59 | the digit alphabet of `toString(16)`: values 0..15 map to `0-9a-f`, and a value below 10 gives a decimal digit |
| `Hex.HexValue` | src/main.js:59 | every lowercase hex digit has a value 0..15, and `HexDigit` maps that value back to the same digit |
| `Fingerprint.ByteToHex` | src/main.js:59 | a byte renders as two hex digits whose value is the byte; values below 16 get a leading `'0'` |
| `Fingerprint.PaddedHexStringIsByteToHex` | src/main.js:59 | `byte.toString(16).padStart(2, '0')` equals `ByteToHex` for every byte |
| `Fingerprint.Renderings` | src/main.js:58-59 | the `map` produces one rendering per byte, in order: the high digit then the low digit of byte `i` |
| `Fingerprint.HexJoin` | src/main.js:58-60 | the joined rendering has exactly two characters per byte |
| `Fingerprint.HexJoinAt` | src/main.js:58-60 | characters `2i` and `2i + 1` of the join are the high and low digits of byte `i` |
| `Fingerprint.HexJoinIsHex` | src/main.js:58-60 | the join uses only the characters `0-9a-f` |
| `Fingerprint.HexJoinPrefix` | src/main.js:58-60 | the first `2n` characters of the join are the join of the first `n` bytes |
| `Fingerprint.HexJoinCons` | src/main.js:58-60 | the join is the first byte's rendering followed by the join of the rest, with nothing in between |
| `Fingerprint.DecodeHexJoin` | src/main.js:58-60 | reading the join back pairwise recovers the bytes exactly, so the rendering is injective |
| `Fingerprint.GetFingerprint` | src/main.js:56-61 | the fingerprint has length `min(8, 2 * |reply|)` and is the rendering of the first `min(4, |reply|)` bytes only; a short reply is not rejected |
| `Fingerprint.FingerprintDecodes` | src/main.js:58-60 | decoding the fingerprint pairwise gives back reply bytes 0..3, or the whole reply when it is shorter |
| `Fingerprint.FingerprintInjective` | src/main.js:58-60 | for replies of any length, the fingerprints are equal if and only if the first four bytes (the whole reply, when shorter) are equal |
| `Fingerprint.FingerprintIgnoresTrailingBytes` | src/main.js:58-60 | bytes after the fourth, such as the status word, do not change the fingerprint |
| `Fingerprint.FingerprintOfFourBytes` | src/main.js:58-60 | the reply `AB 01 2F 00` gives `"ab012f00"` |
| `Fingerprint.FingerprintWithStatusWord` | src/main.js:57-60 | the reply `12 34 56 78 90 00` gives `"12345678"` |
| `Fingerprint.FingerprintOfShortReply` | src/main.js:60 | the one-byte reply `AB` gives `"ab"`, with no error and no padding |
| `Descriptor.DescriptorKey` | src/main.js:73 | the template literal: the key starts with `[` and its length is the parts' lengths plus the two brackets, less the dropped first path character; where each part sits is stated by `DescriptorKeyLayout`, and the inverse by `DescriptorKeySplits` |
| `Descriptor.DescriptorKeyLayout` | src/main.js:73 | the key is `'['`, then the fingerprint, then the path from its second character, then `']'`, then the xpub, with nothing else; its length is fixed by those parts |
| `Descriptor.ParseKeyExpression` | src/main.js:73 | splitting `[origin]key` at the first `]` succeeds exactly when the string starts with `[` and has a later `]`, and the two parts rebuild the string |
| `Descriptor.DescriptorKeySplits` | src/main.js:73 | if the fingerprint and the path after its first character have no `]`, the first `]` is at `|fgp| + |path|`, and splitting there gives back fingerprint + path remainder and the unchanged xpub |
| `Descriptor.DescriptorKeyInjective` | src/main.js:73 | with same-length fingerprints and path remainders (after the first character) free of `]`, equal keys come only from equal fingerprints, path remainders and xpubs |
| `Descriptor.PathRootIgnored` | src/main.js:73 | `substr(1)` drops the path's first character whatever it is, for a first character inside the Basic Multilingual Plane |
| `Descriptor.FixedPathKeySplits` | src/main.js:65-73 | with the fixed path, any fingerprint free of `]` splits back out of the key followed by `/48'/0'/0'/2'`, and the key is 15 characters longer than fingerprint and xpub together |
| `Descriptor.FixedPathDescriptorKey` | src/main.js:65-73 | for the fixed path and fingerprint `"12345678"`, the key is `"[12345678/48'/0'/0'/2']"` followed by the xpub |
| `GetXpub.FingerprintHasNoBracket` | src/main.js:58-60 | a rendered fingerprint never contains the `]` that closes the key origin |
| `GetXpub.HandleGetXpub` | src/main.js:63-74 | the action succeeds if and only if both replies succeed; a failed xpub request wins over the fingerprint reply; the key is built with the same path the xpub was requested for; on success the key splits into the fingerprint + `/48'/0'/0'/2'` and the unchanged xpub, and is `23 + |xpub|` characters long for a reply of at least 4 bytes |
| `GetXpub.HandleGetXpubExample` | src/main.js:63-74 | xpub `"xpubD6..."` and reply `12 34 56 78 90 00` give `"[12345678/48'/0'/0'/2']xpubD6..."` |

## Left out

- Transport creation (`TransportClass.create()` over WebUSB, WebHID or Web Bluetooth) and the connect buttons (src/main.js:5-7, 16-51). This is I/O through external libraries.
- `transport.send` (src/main.js:57). It is an asynchronous call into the transport library. Only the bytes it resolves with, or the error it rejects with, are modelled, as parameters. Its own status-word check and the framing of the command are not part of this model. The class byte `0xE1` and instruction byte `0x05` of the command are not modelled.
- `ledgerapp.getWalletXpub` (src/main.js:67-69). It is a call into the Bitcoin app library. Its result is an opaque string parameter. The request it is given (the path and version `0x0488B21E`) is recorded as a constant and is not checked.
- The module-level `transport` and `ledgerapp` variables (src/main.js:11-12, 20, 26). This is session plumbing around foreign objects. Its only observable rule is that the last successful connection is the one used.
- Logging, DOM updates and the display of caught errors (src/main.js:14, 22-36, 75-81). This is presentation.
- `JsStrings.ToHexString`, `JsStrings.PadStart`, `JsStrings.Substr`, `JsStrings.SubstrFrom`: only the argument ranges the code uses are modelled. That means a non-negative integer for `toString(16)`, a one-character pad string for `padStart`, and non-negative start and length for `substr`.
- `JsStrings.Substr`, `JsStrings.SubstrFrom`, `JsStrings.PadStart`: strings are modelled as sequences of Unicode scalar values, while JavaScript counts UTF-16 code units. These agree with JavaScript only on text in the Basic Multilingual Plane. For a character outside it, `substr(1)` keeps a lone low surrogate where `SubstrFrom` drops the whole character, and lengths such as the `23 + |xpub|` of `GetXpub.HandleGetXpub` count characters rather than `.length`. The code only handles hex digits, the ASCII path and base58 xpubs, for which the two agree.

# ssh2-streams `lib/utils.js` in Dafny

This project models the helpers of `lib/utils.js` in the ssh2-streams SSH2
protocol library and proves what they promise:

- `iv_inc`, the counter step of a 12-byte AES-GCM nonce (section 7.1 of RFC 5647);
- `isStreamCipher` and `isGCM`, the cipher-name tests `/^arcfour/i` and `/^aes\d+-gcm/i`;
- `readInt` and `readString`, which read the `uint32` and `string` types of
  section 5 of RFC 4251 from a buffer that may be too short;
- `decryptKey`, which rewrites a parsed, encrypted PEM private key in place:
  - the SSH-to-OpenSSL cipher-name map;
  - the key-length table;
  - the MD5-chained key derivation;
  - the decipher;
  - the 70-column re-armouring between the original header and footer lines;
- `genPublicKey`, which derives the public key:
  - a hand-written DER walk over the private key's INTEGERs;
  - the SSH public-key blob of section 6.6 of RFC 4253, built in a buffer;
  - the blob re-read from offset 11;
  - the SubjectPublicKeyInfo tree of sections 2.3.1 and 2.3.2 of RFC 3279;
  - its 64-column "PUBLIC KEY" PEM text.

Each module matches one part of the file:

| file | module | contents |
|---|---|---|
| `wrappers.dfy` | `Wrappers` | Option and Result |
| `bytes.dfy` | `Bytes` | bytes, big-endian values, `readUInt32BE`/`writeUInt32BE`, the latin1 encoding |
| `counter.dfy` | `Counter` | `iv_inc` |
| `wire.dfy` | `Wire` | `readInt` and `readString`; a `Buffer` class holding the `_pos` that `readString` sets |
| `names.dfy` | `CipherNames` | the two regular expressions |
| `kdf.dfy` | `LegacyKdf` | the key-length table and the key loop |
| `armor.dfy` | `Armor` | line wrapping and the header and footer regular expressions |
| `keyinfo.dfy` | `Keys` | the `KeyInfo` record as a class, with `DecryptKey` |
| `der.dfy` | `Der` | the DER walk, written both as a specification and as the source's cursor loop, plus a DER encoder |
| `blob.dfy` | `Blob` | building and re-reading the public-key blob |
| `publickey.dfy` | `PublicKey` | `genPublicKey` |

The model takes the form of the source:

- Mutating code is imperative Dafny:
  - `iv_inc` works on an `array`;
  - `readString` writes into a `Buffer`;
  - `decryptKey` updates the fields of a `KeyInfo` object;
  - the counter loop, the DER length-octet loop and the key-derivation loop are `while` loops;
  - the blob is filled by array assignments and `forall` statements.
- Each method that computes a value is proved equal to a specification function.
- The methods that change state (`Counter.IvInc`, `Wire.ReadString`, `Blob.PutString`, `Blob.PutTwo`, `Keys.KeyInfo.DecryptKey`) state their whole new state in their ensures.
- The properties of those functions and states are proved as lemmas.

Where the code and its documentation disagree, the model follows the code:

- `iv_inc` steps bytes 4..11 of a 12-byte nonce, not a 16-byte IV.
- A cipher name that the key-length switch does not list gets key length 0. The empty key then goes to the decipher, which is where an error can arise.
- The key loop agrees with OpenSSL's `EVP_BytesToKey` only for keys up to 16 bytes, and for keys up to 24 bytes with an 8-byte IV.
  - With a 16-byte IV a 24-byte key already differs, because the second block hashes the whole IV instead of the 8-byte salt (`LegacyKdf.DiffersFromBytesToKeyFor16ByteIv`).
  - A 32-byte key differs whatever the IV, because the third block hashes the whole 24-byte key so far instead of the second digest (`LegacyKdf.DiffersFromBytesToKeyAt32Bytes`).
  - This is how the code works, so it is modelled as such and is not reported as a defect.

## Model

| member | source | states |
|---|---|---|
| Bytes.UInt32BE | lib/utils.js:270-277 | `writeUInt32BE(v, off, true)` writes four bytes |
| Bytes.UInt32BEValue | lib/utils.js:270-277 | the four bytes written spell `v` modulo 2^32, most significant first |
| Bytes.ReadUInt32BE | lib/utils.js:38 | the value read is below 2^32, and writing it back gives the same four bytes |
| Bytes.UInt32BEOfBigEndian | lib/utils.js:314 | four bytes read big-endian are written back unchanged |
| Bytes.ReadUInt32BEOfWrite | lib/utils.js:314-319 | a value below 2^32 written at any offset is read back exactly |
| Bytes.BigEndianBound | lib/utils.js:165-168 | an octet run of length k has a value below 256^k |
| Bytes.BigEndianOfFour | lib/utils.js:38 | the value of four big-endian bytes, written out as a weighted sum |
| Bytes.BigEndian | lib/utils.js:165-168 | the number a byte run spells, most significant first, as the octet loop and `readUInt32BE` compute it; its properties are `Bytes.BigEndianBound`, `Bytes.UInt32BEValue` and `Der.BytesBEValue` |
| Bytes.Latin1 | lib/utils.js:106-110 | the 'binary' encoding keeps one byte per code unit: its low 8 bits |
| Bytes.Ascii | lib/utils.js:271 | the 'ascii' write of a 7-bit name is one byte per character, with the same code |
| Counter.Zeros | lib/utils.js:18 | n zero bytes |
| Counter.Increment | lib/utils.js:14-23 | a big-endian increment with carry keeps the length |
| Counter.IncrementValue | lib/utils.js:14-23 | the increment adds one to the number the bytes spell, modulo 256^length |
| Counter.IncrementAt | lib/utils.js:16-21 | the carry stops at the last byte below 255: that byte goes up by one, and the 255s after it become 0 |
| Counter.IncrementAllMax | lib/utils.js:17-18 | a counter of all 255s wraps to all zeros |
| Counter.NonceIncremented | lib/utils.js:12-24 | the nonce after `iv_inc`; its properties are `Counter.NonceIncrementedSpec`, `Counter.NonceWraps` and `Counter.NonceFromZero`, and `Counter.IvInc` computes it |
| Counter.NonceIncrementedSpec | lib/utils.js:12-24 | bytes 0..3 and 12.. are untouched; the 64-bit counter in bytes 4..11 goes up by one modulo 2^64 |
| Counter.NonceWraps | lib/utils.js:23 | after eight 255s the loop stops at byte 4, and the counter is all zero |
| Counter.NonceFromZero | lib/utils.js:12-24 | from the all-zero nonce only byte 11 becomes 1 |
| Counter.IvInc | lib/utils.js:12-24 | the do-while loop leaves the array equal to `NonceIncremented` of its old contents |
| Wire.SshString | lib/utils.js:55-62 | a string on the wire is 4 length bytes followed by its bytes |
| Wire.ReadInt | lib/utils.js:31-39 | `false` exactly when fewer than 4 bytes remain, with cleanup exactly when a stream was passed; otherwise a uint32 whose encoding is the four bytes at `start` |
| Wire.ReadIntOfWrite | lib/utils.js:31-39 | a uint32 written anywhere inside a buffer is read back |
| Wire.StringBounds | lib/utils.js:47-62 | `false` exactly when the length header or the bytes it announces are missing; otherwise the range [start+4, end) within the buffer, where end is start + 4 + the header's value |
| Wire.StringBoundsOfWrite | lib/utils.js:47-62 | a length-prefixed string written into a buffer is found again: exactly its bytes |
| Wire.StringBoundsExample | lib/utils.js:55-62 | `00 00 00 07 "ssh-rsa"` is the string at 4..11 |
| Wire.CopiedAt0 | lib/utils.js:67 | `copy` into a target at 0 writes as many bytes as fit and leaves the rest of the target alone |
| Wire.ReadString | lib/utils.js:40-73 | when too short: returns `false` and changes nothing. Otherwise: sets `_pos` to the end offset, and returns the slice, the decoded text, or the target buffer with the bytes copied in |
| CipherNames.PrefixMatch | lib/utils.js:7-8 | an anchored, case-insensitive literal match |
| CipherNames.IsStreamCipher | lib/utils.js:25-27 | true exactly when the name's first 7 characters, ASCII-lower-cased, are "arcfour" |
| CipherNames.DigitRun | lib/utils.js:8 | `\d+` matches greedily: all digits from i on, stopping at a non-digit or the end |
| CipherNames.IsGcm | lib/utils.js:28-30 | true exactly when the name is "aes", one or more digits, then "-gcm" (ignoring case), for some split point |
| CipherNames.StreamCipherExample | lib/utils.js:25-27 | "arcfour256" is a stream cipher |
| CipherNames.UpperCaseStreamCipherExample | lib/utils.js:25-27 | "ARCFOUR" is a stream cipher: the `i` flag |
| CipherNames.NotStreamCipherExamples | lib/utils.js:25-27 | "arcfou" and "aes128-ctr" are not stream ciphers |
| CipherNames.GcmExample | lib/utils.js:28-30 | "aes128-gcm@openssh.com" is GCM |
| CipherNames.UpperCaseGcmExample | lib/utils.js:28-30 | "AES256-GCM" is GCM |
| CipherNames.NotGcmExamples | lib/utils.js:28-30 | "aes-gcm" (no digits) and "aes128-ctr" are not GCM |
| LegacyKdf.KeyLength | lib/utils.js:88-105 | 32, 24 or 16 bytes for the ten listed ciphers, and exactly the unlisted names get 0 |
| LegacyKdf.KeyLengthExamples | lib/utils.js:88-105 | sample entries of the switch, and 0 for a GCM name |
| LegacyKdf.Salt | lib/utils.js:108 | `iv.toString('binary', 0, 8)`: the first 8 bytes of the IV, or all of a shorter IV |
| LegacyKdf.BlockStart | lib/utils.js:112-122 | key byte k >= 16 lies in the 8-byte block that starts at 16 + 8i |
| LegacyKdf.IsDerivedKey | lib/utils.js:106-124 | the byte-by-byte description of the key the loop produces; `LegacyKdf.IsDerivedKeyUnique` shows it fixes the key |
| LegacyKdf.Extend | lib/utils.js:112-122 | the loop grows the key to at least `keylen` bytes and never changes bytes already present |
| LegacyKdf.DerivedKey | lib/utils.js:106-124 | the derived key as a value; `LegacyKdf.DerivedKeyIsDerived` shows it meets `IsDerivedKey`, and `LegacyKdf.DeriveKey` computes it |
| LegacyKdf.ExtendKeepsBlocks | lib/utils.js:112-122 | every appended block is the first half of MD5(key so far, passphrase, whole IV) |
| LegacyKdf.DerivedKeyIsDerived | lib/utils.js:106-124 | the derived key has `keylen` bytes; the first 16 come from MD5(passphrase, salt), and each later byte from its block's digest |
| LegacyKdf.IsDerivedKeyUnique | lib/utils.js:106-124 | that description admits exactly one key |
| LegacyKdf.DerivedPrefixesAgree | lib/utils.js:106-124 | two keys meeting the description agree on every prefix |
| LegacyKdf.DeriveKey | lib/utils.js:106-124 | the while loop and the final slice compute `DerivedKey` |
| LegacyKdf.BytesToKey | lib/utils.js:106-124 | the reference derivation (OpenSSL `EVP_BytesToKey`, MD5, one round) always gives `keylen` bytes |
| LegacyKdf.AgreesWithBytesToKeyUpTo16 | lib/utils.js:106-110 | keys of up to 16 bytes match `EVP_BytesToKey` |
| LegacyKdf.AgreesWithBytesToKeyFor8ByteIv | lib/utils.js:106-124 | with an 8-byte IV, keys of up to 24 bytes match `EVP_BytesToKey` |
| LegacyKdf.DiffersFromBytesToKeyFor16ByteIv | lib/utils.js:112-122 | with a 16-byte IV and a 24-byte key, byte 16 differs from `EVP_BytesToKey` |
| LegacyKdf.DiffersFromBytesToKeyAt32Bytes | lib/utils.js:112-122 | with an 8-byte IV and a 32-byte key, byte 24 differs from `EVP_BytesToKey` |
| Armor.Chunked70Shape | lib/utils.js:135 | `match(/.{1,70}/g).join('\n')`: removing newlines gives the text back; there is a newline exactly after every 70 characters except the last group; the length grows by one newline per full group of 70 before the last |
| Armor.Wrapped64Shape | lib/utils.js:378 | `replace(/(.{64})/g, '$1\n')`: removing newlines gives the text back, with a newline exactly after every complete 64 characters |
| Armor.PemBodyShape | lib/utils.js:378-382 | the PEM body ends in exactly one newline before the END line, breaks every 64 characters and holds the base64 text unchanged |
| Armor.StripNewlinesAppend | lib/utils.js:135 | removing newlines distributes over concatenation |
| Armor.StripNewlinesNone | lib/utils.js:135 | text without newlines is unchanged by removing them |
| Armor.Chunked | lib/utils.js:135 | the 70-column join; its properties are `Armor.Chunked70Shape` |
| Armor.Wrapped | lib/utils.js:378 | the 64-column replace; its properties are `Armor.Wrapped64Shape` |
| Armor.FirstTerminator | lib/utils.js:133 | `.+` stops at the first line terminator |
| Armor.AfterLastTerminator | lib/utils.js:136 | `.+$` starts just after the last line terminator |
| Armor.Header | lib/utils.js:133 | the first-line regex of `decryptKey`: a match when found, and none exists when it is not |
| Armor.NoHeader | lib/utils.js:133 | without "\n" or "\r\n" after a non-empty first line, the header regex cannot match |
| Armor.HeaderBreakAt | lib/utils.js:133 | every header match ends its line at the first terminator of the text |
| Armor.LineEndsAt | lib/utils.js:133 | a prefix's first terminator is the text's first terminator |
| Armor.NoTerminatorsBefore | lib/utils.js:133 | a prefix without terminators, stated index by index |
| Armor.FooterSpec | lib/utils.js:136 | the last-line regex of `decryptKey` gives a match, the leftmost (longest) one, and it fails only when no match exists |
| Armor.NoFooter | lib/utils.js:136 | without "\n" before a non-empty last line, the footer regex cannot match |
| Armor.FooterFound | lib/utils.js:136 | the suffix from the last "\n" (or the "\r\n" ending there) is the leftmost footer match |
| Armor.FooterBreakAt | lib/utils.js:136 | every footer match begins at the final line break |
| Armor.ArmorExample | lib/utils.js:131-136 | the header and footer of "\n" and "\r\n" files are their outer lines; a leading break or a trailing break gives no match |
| Keys.MappedCipher | lib/utils.js:85-86 | the OpenSSL name lookup: the mapped name when present and non-empty, else the name itself |
| Keys.HexDecodeDefined | lib/utils.js:76 | `new Buffer(iv, 'hex')` succeeds exactly on an even number of hex digits, in either case |
| Keys.HexDecodeBytes | lib/utils.js:76 | a successful decode has half as many bytes as digits; byte j is 16 × digit 2j + digit 2j+1 |
| Keys.HexDecodeOfEncode | lib/utils.js:76 | decoding the hex spelling of any bytes gives those bytes back |
| Keys.HexDecodeCons | lib/utils.js:76 | two hex digits in front of a decodable text add one byte in front |
| Keys.KeyInfo.DecryptKey | lib/utils.js:75-140 | a missing IV, or one that is not an even number of hex digits, fails before any change. Otherwise the cipher name is always replaced by its OpenSSL name, and the key and decipher use the decoded IV. `private` and `privateOrig` change to the cleartext and its re-armoured text exactly when the decipher and both regexes succeed. Nothing else changes |
| Keys.RearmoredOutcome | lib/utils.js:131-136 | the rebuild fails with the armour error exactly when the header regex fails, or the footer regex fails on a non-empty body; it fails with the empty-body error exactly when the header matches and the body is empty; a success is exactly the matched header line + the body broken every 70 characters + the matched footer line |
| Keys.RearmoredShape | lib/utils.js:131-139 | the new text starts with the old first line and ends with the old last line; between them is the new base64 body, broken exactly every 70 characters |
| Der.LengthAt | lib/utils.js:161-169 | a length read ends after the index it starts at and within the buffer; running out of bytes is `Truncated` |
| Der.IntegerAt | lib/utils.js:174-186 | "expected integer for <name>" exactly when the byte at i is absent or not 0x02; otherwise the value starts after the tag and the next index is its end |
| Der.IntegersAt | lib/utils.js:172-261 | one span per field name, each after the start index; a missing or wrong tag at the start index is "expected integer" for the first field; every failure is `Truncated` or "expected integer" naming one of the fields |
| Der.IntegersAtOrdered | lib/utils.js:172-261 | the spans found lie one after another without overlap |
| Der.PrivateFields | lib/utils.js:154-261 | "expected sequence" exactly when the first byte is absent or not 0x30; "expected integer for version" when the tag at the version index is absent or not 0x02; every "expected integer" error names version or one of the key type's fields; a success is n, e (RSA) or p, q, g, y, all within the buffer |
| Der.PrivateFieldsOrdered | lib/utils.js:154-261 | the spans of a successful walk are in order and disjoint |
| Der.VersionStart | lib/utils.js:154-157 | the index after the SEQUENCE tag and its skipped length; `Der.SequenceHeader` shows it is where an encoded SEQUENCE's contents start |
| Der.ReadLength | lib/utils.js:161-169 | the octet loop computes `LengthAt` |
| Der.BigEndianShift | lib/utils.js:165-168 | one loop step: the new octet has weight 256^(octets-1) |
| Der.ReadInteger | lib/utils.js:174-186 | the tag test and length read compute `IntegerAt` |
| Der.ReadRsaFields | lib/utils.js:172-200 | the RSA branch computes `IntegersAt` for n, e |
| Der.ReadDsaFields | lib/utils.js:201-261 | the DSA branch computes `IntegersAt` for p, q, g, y |
| Der.ParsePrivateKey | lib/utils.js:147-261 | the cursor walk computes `PrivateFields` |
| Der.BytesBE | lib/utils.js:161-169 | the k-byte big-endian spelling used by the long length form |
| Der.BytesBEValue | lib/utils.js:165-168 | those k bytes read back as the number |
| Der.OctetCount | lib/utils.js:162-163 | the long form needs at least one length octet |
| Der.OctetCountFits | lib/utils.js:162-168 | n fits in `OctetCount(n)` octets |
| Der.OctetCountAtMost | lib/utils.js:162-168 | below 256^k, at most k octets are needed |
| Der.EncodeLength | lib/utils.js:161-169 | a length encoding is never empty |
| Der.OccursAtSplit | lib/utils.js:172-261 | a concatenation found at i splits into its two parts |
| Der.LengthOfEncoding | lib/utils.js:161-169 | an encoded length reads back as itself and uses up all of its bytes (short and long form) |
| Der.LengthAtMoved | lib/utils.js:161-169 | a length read depends only on the bytes it covers |
| Der.IntegerAtEncoded | lib/utils.js:174-186 | an encoded INTEGER is found at i; its span covers exactly the value |
| Der.IntegerAtOf | lib/utils.js:174-186 | a tag, a length that reads as the size of v, then v: the walk finds exactly v |
| Der.Contents | lib/utils.js:185-186 | one value per span |
| Der.IntegersAtTail | lib/utils.js:172-261 | encoded INTEGERs are the first one followed by the rest |
| Der.IntegersAtCons | lib/utils.js:172-261 | an INTEGER read at i followed by the walk from where it ends is the walk from i |
| Der.ContentsCons | lib/utils.js:185-186 | the values of a span list are the first span's value followed by the rest |
| Der.IntegersAtJoin | lib/utils.js:172-261 | an INTEGER in front of the later spans gives the spans found from i |
| Der.IntegersAtEncoded | lib/utils.js:172-261 | encoded INTEGERs are found again, one span per value, exactly the values, and the last ends where the encoding ends |
| Der.SequenceHeader | lib/utils.js:154-157 | the walk's version index is just past the SEQUENCE tag and length |
| Der.PrivateFieldsWhen | lib/utils.js:154-261 | when the version and field reads succeed and the last value fits, the walk returns those spans |
| Der.PrivateFieldsOfEncoded | lib/utils.js:154-261 | on a DER-encoded private key (SEQUENCE, version, the type's INTEGERs, anything after them) the walk succeeds and recovers exactly the encoded values |
| Blob.TypeName | lib/utils.js:265-286 | "ssh-rsa" or "ssh-dss": seven ASCII characters, so the fields always start at 11 |
| Blob.WireOrder | lib/utils.js:273-277 | the blob carries the same number of fields; RSA puts e before n |
| Blob.SshStrings | lib/utils.js:273-298 | the fields as length-prefixed strings one after another; `Blob.SshStringsSize` gives its size and `Blob.FieldsFromOfWrite` reads it back |
| Blob.WireBlob | lib/utils.js:263-299 | the blob layout: the type string, then the fields; `Blob.WireBlobSize` gives its size and `Blob.BlobFieldsOfWireBlob` reads it back |
| Blob.SshStringsSize | lib/utils.js:266-283 | the fields take 4 + len bytes each |
| Blob.WireBlobSize | lib/utils.js:266-283 | the buffer size the source allocates is the blob's length |
| Blob.PutString | lib/utils.js:273-274 | write the length header and copy the bytes: everything up to the new offset is the old prefix plus the string, and the bytes after it are unchanged |
| Blob.PutTwo | lib/utils.js:273-277 | two strings written one after the other at the moving offset; the bytes after them are unchanged |
| Blob.ContentsWithin | lib/utils.js:274-298 | each copied range is exactly the DER bytes of its span |
| Blob.SshStringsOfTwo | lib/utils.js:273-277 | the two RSA fields as two strings |
| Blob.SshStringsOfFour | lib/utils.js:288-298 | the four DSA fields as four strings |
| Blob.WireBlobOfFour | lib/utils.js:285-298 | the DSA blob is the type string followed by the four field strings |
| Blob.BuildRsaBlob | lib/utils.js:266-277 | the RSA buffer holds "ssh-rsa", e, n as strings |
| Blob.BuildDsaBlob | lib/utils.js:279-298 | the DSA buffer holds "ssh-dss", p, q, g, y as strings |
| Blob.BuildBlob | lib/utils.js:263-299 | the blob is the wire blob of the walked values in blob order |
| Blob.BlobField | lib/utils.js:314-324 | `Truncated` exactly when the length header is missing; otherwise the next offset is p + 4 + len, and the bytes are `slice` clamped at the end of the blob |
| Blob.FieldsFrom | lib/utils.js:309-360 | `count` fields read one after another, or `Truncated` |
| Blob.BlobFields | lib/utils.js:309-360 | two fields for RSA and four otherwise, or `Truncated` |
| Blob.BlobFieldOfWrite | lib/utils.js:314-324 | a string written at p is read back at p |
| Blob.FieldsFromOfWrite | lib/utils.js:309-360 | strings written one after another are read back in order |
| Blob.BlobFieldsOfWireBlob | lib/utils.js:263-360 | re-reading a built blob from offset 11 recovers exactly the fields it was built from |
| PublicKey.SpkiOrder | lib/utils.js:311-376 | read left to right, the SubjectPublicKeyInfo lists the DER-order integers (n, e or p, q, g, y) under the type's OID |
| PublicKey.SourceBlob | lib/utils.js:147-305 | the private-key or public-blob branch; its outcomes are `PublicKey.PublicKeyOfErrors`, `PublicKey.PublicKeyOfPrivate` and `PublicKey.PublicKeyOfPublic` |
| PublicKey.IntegersOfTwo | lib/utils.js:311-376 | the integers of a two-item sequence |
| PublicKey.IntegersOfThree | lib/utils.js:364-368 | the integers of a three-item sequence |
| PublicKey.IntegersOfOne | lib/utils.js:371-374 | the integers of a one-item sequence |
| PublicKey.GenPublicKey | lib/utils.js:141-390 | reads the record, changes nothing, and returns `PublicKeyOf` |
| PublicKey.PublicKeyOfErrors | lib/utils.js:147-305 | "missing data" exactly when there is neither a private nor a public key; "expected sequence" when a private key does not start with 0x30 |
| PublicKey.PublicKeyOfPrivate | lib/utils.js:141-390 | from a walkable private key: the type, "ssh-" + type, the blob of the walked values in blob order, and the PEM of the SPKI over exactly those values |
| PublicKey.FieldsWithin | lib/utils.js:263-299 | values cut from a key shorter than 2^32 bytes have exact uint32 lengths |
| PublicKey.PublicKeyOfPublic | lib/utils.js:302-303 | from a public blob alone: the blob is returned unchanged; the PEM text is BEGIN, the body broken every 64 characters, one final newline, then END |

## Left out

- MD5, `createDecipheriv`, the base64 encoder, and the DER output of `Ber.Writer` are function-typed parameters. Their algorithms are not modelled: `Ber.Writer` is modelled as a logical ASN.1 tree.
- `SSH_TO_OPENSSL` (in `lib/constants.js`) and `parseKey` (`lib/keyParser.js`) are not part of this model. The map is an input, and the record is built by the `KeyInfo` constructor.
- `console.dir` in `readInt` writes to the console and is left out.
- `stream._cleanup(cb)` is a call into the stream layer. The model keeps only whether it happens.
- `readString`'s check of `Buffer.isBuffer` and `typeof` on its third argument is decided before the call, as the three `Destination` cases.
- JavaScript exceptions become `Failure` values, with one error per message.
- A tag byte past the end of `keyInfo.private` is "expected integer" for that field. The source agrees: `undefined !== 0x02` throws the same message.
- Two other reads past the end of `keyInfo.private` become errors instead of JavaScript's `undefined` arithmetic:
  - a length byte past the end is `Truncated`;
  - a last value that runs past the end is `Truncated`.
  The source differs in both cases. A missing length byte or length octet makes its cursor `NaN`, so it throws the next field's "expected integer" error; after the last field it goes on with an undefined or `NaN` length. A last value that runs past the end is copied short into the blob.
- Blob.BlobField: a public blob too short for a length header gives `Truncated`. The source reads that header without a bounds check, gets `NaN`, and goes on.
- Wire.ReadString: without an encoding, the source returns `buffer.slice`, a view that shares memory with the buffer. The model returns a copy of the bytes, so later writes through either one are not seen by the other.
- `new Buffer(size)` memory that is not written is not modelled. The blob is fully written in every case that the model lets through.
- `Math.pow` is floating point in the source. The model computes length octets with exact integers, so a length may differ from JavaScript's once it reaches 2^53. Below that, each `privKey[i] * Math.pow(2, 8k)` term and their sum are exact.
- Der.PrivateFieldsOfEncoded: the encoder behind this round trip writes lengths below 2^32 only (at most four length octets). The walk itself accepts up to 127 length octets.
- Der.Encodable: limited to lengths below 2^32, for the same reason.
- PublicKey.PublicKeyOfPrivate: requires a private key shorter than 2^32 bytes. With a longer key, `writeUInt32BE` would truncate the lengths, and the re-read would not recover the fields.
- Armor.Footer: its properties are stated by `Armor.FooterSpec`, not by its own contract.
- Keys.HexDecode: its properties are stated by `Keys.HexDecodeDefined`, `Keys.HexDecodeBytes` and `Keys.HexDecodeOfEncode`. The model follows Node releases that throw "Invalid hex string" on an odd length or a non-hex character. It does not model releases that parse each pair with `parseInt`, which accepts a pair such as "1z", or releases that stop quietly at the first bad pair.
- Keys.Decrypted and Keys.Rearmored: their properties are stated by `Keys.KeyInfo.DecryptKey`, `Keys.RearmoredOutcome` and `Keys.RearmoredShape`.
- PublicKey.Spki, PublicKey.PublicKeyOf, Armor.PublicPem and Armor.PemBody: their properties are stated by `PublicKey.SpkiOrder`, `PublicKey.PublicKeyOfPrivate`, `PublicKey.PublicKeyOfPublic` and `Armor.PemBodyShape`.
- `keyInfo.privateOrig.toString('utf8')` is taken to already be a string.
- Bytes.Latin1: a Dafny `char` is a Unicode scalar value, not a UTF-16 code unit. A passphrase character outside the Basic Multilingual Plane is one `char` here, and gives one byte. In JavaScript it is two code units, and Node's 'binary' encoding gives two bytes. Within the Basic Multilingual Plane the two agree: each character keeps its low 8 bits.

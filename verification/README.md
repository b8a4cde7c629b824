# PVCertViewer decoding core in Dafny

This project models the pure decoding core of PVCertViewer, a browser viewer for X.509 certificates and certification requests, and proves properties of that model. The core has four parts:

- **`CertHelper`** (`src/utils/cert_helper.js`). This is the layer between the ASN.1/PKI parsers and the viewer. It includes:
  - the Key Usage and Netscape certificate type bit-flag decoders;
  - the `OID`/`SANtypes` tables;
  - distinguished names and subject alternative names;
  - IP address and mask decoding;
  - signature algorithm names;
  - the recursive attribute converter and `flatten`;
  - the `decodeCert` loops over extensions and attributes, with `isCA`, `isRoot` and the RSA key heuristics.
- **`Base64`** (`src/utils/base64.js`). This covers three functions:
  - `decode`, a character-at-a-time decoder for sections 4 and 5 of RFC 4648;
  - `unarmor`, which extracts a PEM or `begin-base64` body;
  - `pretty`.
- **`Hex`** (`src/utils/hex.js`). This is `decode`, the Base16 decoder of section 8 of RFC 4648.
- **`query`** (`src/utils/query.js`). This holds `parse` and `stringify` of the page's query string.

Layout, one module per file:

| file | module | contents |
|---|---|---|
| results.dfy | Results | `Option`, `Result` (a thrown exception is a `Failure`) |
| bits.dfy | Bits | bytes, powers of two, bit tests, the 32-bit shift count of `>>`/`<<`, popcount, prefix masks |
| jstext.dfy | JsText | JavaScript string built-ins: `split`, `join`, `toLowerCase`, decimal `toString`, `\s`, the chunking `replace(/(.{n})/g, …)` |
| bitflags.dfy | BitFlags | `keyUsage`, `keyUsageAttr`, `netscapeCertType` |
| base64.dfy, base64_props.dfy, base64_armor.dfy | Base64, Base64Props, Base64Armor | the decoding loop, its reference definition and properties; `unarmor` and `pretty` |
| hex.dfy, hex_props.dfy | Hex, HexProps | the same for Base16 |
| query.dfy | Query | `parse`, `stringify` |
| certfields.dfy | CertFields | tables, names, SANs, `decodeIP`, `prepareAlgorithm`, the pair separator |
| attributes.dfy | Attributes | `decodeAttributeValue`, `flatten` |
| extensions.dfy | Extensions | the per-extension decoders and the extension loop |
| certificate.dfy | Certificate | source detection, public key, attribute loop, `decodeCert` |

The decoders model the source's loops in two ways:

- As Dafny methods with loop invariants: `Base64.Decode`, `Hex.Decode`, `Extensions.ForEachExtension` (called by `Extensions.DecodeExtensions`), and `Certificate.DecodeAttributes`. `Certificate.DecodeCert` has no loop of its own: it calls `Extensions.DecodeExtensions` and `Certificate.DecodeAttributes`.
- As functions proved equal to independent reference definitions: `Spec` for the decoders, and `Leaves` for `flatten`.

The libraries the core calls are parameters of the model. These are:

- asn1js, pkijs, `Convert` of pvtsutils, `window.atob` and moment;
- the `OIDS` constant table and the certificate transparency log list;
- `decodeURIComponent`.

## Model

| member | source | states |
|---|---|---|
| BitFlags.KeyUsage | src/utils/cert_helper.js:115-160 | Label j (0x80 Digital Signature … 0x01 Encipher Only) is present iff bit 7-j of the first byte is set. When the BitString has exactly one byte, that bit must also lie above the unused bits. Decipher Only is present iff bit 7 of the second byte is set, and masking applies to it only for a two-byte string. Labels come in table order, at most 9. |
| BitFlags.KeyUsageAttrIsKeyUsage | src/utils/cert_helper.js:162-207 | The attribute-side copy, written push by push, equals `keyUsage` on every byte string and unused-bit count. |
| BitFlags.NetscapeCertType | src/utils/cert_helper.js:209-256 | Label j (SSL client … Object Signing CA) is present iff bit 7-j of the first byte is set and lies above the unused bits. Later bytes are ignored, labels come in table order, at most 8. |
| BitFlags.InOrderNoDuplicates | src/utils/cert_helper.js:131-157 | A label list in table order repeats no label. |
| BitFlags.KeyUsageLongIgnoresUnusedBits | src/utils/cert_helper.js:123-130 | For three or more bytes neither byte is masked, and bytes past the second are never read. |
| BitFlags.KeyUsageExample | src/utils/cert_helper.js:131-140 | 0xA0 with no unused bits gives [Digital Signature, Key Encipherment]. |
| Bits.ClearLow | src/utils/cert_helper.js:124-125 | `b >>= n; b <<= n` keeps exactly the bits at or above the shift count n mod 32. |
| CertFields.NameOr | src/utils/cert_helper.js:612 | `OIDS[oid] \|\| oid`: the listed name when it is present and non-empty. Otherwise the result is the identifier itself. |
| CertFields.DecodeAttribute | src/utils/cert_helper.js:419-429 | Type and value are kept. A listed type gets its short and long names; an unlisted one gets '' for both. |
| CertFields.DecodeIssuerSubject | src/utils/cert_helper.js:414-431 | A missing name gives []. Otherwise there is one entry per attribute, in order. |
| CertFields.DecodeIssuerSubjectInjective | src/utils/cert_helper.js:601 | Two names decode alike iff they hold the same attributes in the same order, so `isRoot` compares issuer and subject themselves. |
| CertFields.DecodeIP | src/utils/cert_helper.js:469-487 | 64 zero digits give "::/0". Any other length but 16 gives the text unchanged. 16 digits give four dot-joined decimal octets, then "/", then the set-bit count of the last 8 digits. |
| CertFields.DecodeIPBounds | src/utils/cert_helper.js:478-483 | Each decoded octet is below 256 and the mask count is at most 32. |
| CertFields.DecodeIPOfBytes | src/utils/cert_helper.js:469-487 | Address bytes b0..b3 with a k-bit prefix mask, as the parser's upper-case hex, decode to "b0.b1.b2.b3/k". |
| CertFields.DecodeIPExample | src/utils/cert_helper.js:467 | The address 62.153.108.216 with a 29-bit mask is, in upper-case hex, the documented "3E996CD8FFFFFFF8", which decodes to "62.153.108.216/29". |
| CertFields.HexValueZero | src/utils/cert_helper.js:470 | A run of hex digits reads as 0 iff every digit is '0'. |
| CertFields.SanLabel | src/utils/cert_helper.js:440 | Types 0..8 get their `SANtypes` label. Any other type gets "need handler for this type - " and the number. |
| CertFields.DecodeSan | src/utils/cert_helper.js:438-462 | The item keeps the type and the spread subtree name. A directory name (type 4) gives one `{name: OIDS[type], oid, value}` per attribute, in order. An IP address (type 7) gives `decodeIP` of its upper-case hex. Any other type gives its string value, or "type value is not a string - <type>" when the value is not a string. It throws exactly for a type-4 value that is not a directory name or a type-7 value that is not an IP address. |
| CertFields.DecodeSans | src/utils/cert_helper.js:436-464 | There is one item per entry, each the decoding of that entry, in order. The call throws iff some entry throws. |
| CertFields.DecodeNameConstraints | src/utils/cert_helper.js:621-631 | Every permitted item comes before every excluded one, and a missing list counts as empty. The call throws iff either list throws. |
| CertFields.PrepareAlgorithm | src/utils/cert_helper.js:349-396 | A missing algorithm gives null. The six listed identifiers give their fixed name and hash. Any other identifier gives its own name with no hash. |
| CertFields.SeparatePairs | src/utils/cert_helper.js:335-337 | Length of the pairs joined by the separator. This is the corrected definition. |
| CertFields.SeparatePairsRemove | src/utils/cert_helper.js:335-337 | When the text does not contain the separator character, removing that character from the separated text gives the text back. |
| CertFields.SeparateAgreesOnEvenText | src/utils/cert_helper.js:335-337 | On even-length text with a one-character separator, the code as written equals the corrected definition. |
| CertFields.SeparateAsWrittenDropsLast | src/utils/cert_helper.js:335-337 | On "abc" the code as written gives "ab " where "ab c" is meant. |
| Attributes.DecodeValue | src/utils/cert_helper.js:264-328 | Null, IA5String/OID, Integer, Boolean, string, BitString/OctetString and unknown nodes give the values their branches return. An OID-headed sequence gives the record `{OIDS[oid] \|\| oid, oid}`, whose value is unset iff no OctetString child exists. Otherwise the value is the converted first OctetString child. For Key Usage that child goes through `keyUsageAttr`. Such a sequence throws exactly when `Convert.FromHex` rejects its Key Usage child. Any other sequence maps its children element by element. |
| Attributes.DecodeAll | src/utils/cert_helper.js:305 | One value per child, each the child's conversion. The map throws iff some child throws. |
| Attributes.FirstOctet | src/utils/cert_helper.js:286 | `find` gives the index of the first OctetString child, or none when there is none. |
| Attributes.Total | src/utils/cert_helper.js:264-328 | When `Convert.FromHex` accepts its argument, the converter never throws on any node. |
| Attributes.KeyUsageRecord | src/utils/cert_helper.js:291-296 | A Key Usage attribute record lists exactly the usages `keyUsage` finds in the same bytes. |
| Attributes.Flatten | src/utils/cert_helper.js:12-21 | The result holds no array. |
| Attributes.FlattenIsLeaves | src/utils/cert_helper.js:12-21 | The left fold `reduce` equals the right-recursive leaf list, so leaf order is kept. |
| Attributes.FlattenAppend | src/utils/cert_helper.js:12-21 | Flattening distributes over concatenation. |
| Attributes.FlattenFlat | src/utils/cert_helper.js:12-21 | A sequence without arrays is its own flattening. |
| Attributes.FlattenIdempotent | src/utils/cert_helper.js:12-21 | Flattening twice is flattening once. |
| Extensions.DecodeExtension | src/utils/cert_helper.js:618-754 | The decoder throws exactly in four cases: the parsed value lacks the shape its identifier requires; a name of a SAN or name-constraint list is malformed; a CRL distribution point has no names; or a Netscape value does not parse. Unknown identifiers never throw. |
| Extensions.CrlNamesPrefix | src/utils/cert_helper.js:658-667 | The CRL loop keeps the names of the points before the first point without names, and it throws iff such a point exists. |
| Extensions.KeptOnFailure | src/utils/cert_helper.js:612-758 | A throwing decoder leaves the initial [] as the value, except for the AKI and CRL decoders, which assign before they throw. |
| Extensions.NameConstraintsValue | src/utils/cert_helper.js:621-630 | Name Constraints shows the decoded permitted subtrees followed by the excluded ones. It keeps [] when a name cannot be decoded. |
| Extensions.BasicConstraintsValue | src/utils/cert_helper.js:634-642 | Basic Constraints shows `cA` true iff the parsed `cA` is true (false by default), with the parsed path length. |
| Extensions.KeyUsageValue | src/utils/cert_helper.js:645-647 | Key Usage shows the labels `keyUsage` gives for its BitString. |
| Extensions.ExtKeyUsageValue | src/utils/cert_helper.js:650-655 | Extended Key Usage shows each purpose OID with its `OIDS` name, in order. |
| Extensions.CrlValue | src/utils/cert_helper.js:658-667 | CRL Distribution Points shows every name of every point in order. A point without names makes it throw, keeping the names pushed before it. |
| Extensions.SubjectAltNameValue | src/utils/cert_helper.js:670-672 | Subject Alternative Name shows the `decodeSANs` list. It keeps [] when a name cannot be decoded. |
| Extensions.AuthorityKeyIdValue | src/utils/cert_helper.js:676-697 | Authority Key Identifier shows the key identifier and serial number lower-cased and the issuer as parsed. Each field is present exactly when its parsed field is. |
| Extensions.InfoAccessValue | src/utils/cert_helper.js:700-709 | Authority Info Access shows each method OID with its `OIDS` name and its location's type and value, in order. |
| Extensions.NetscapeCertTypeValue | src/utils/cert_helper.js:712-714 | Netscape Certificate Type shows the labels `netscapeCertType` gives for the reparsed BitString. |
| Extensions.PoliciesValue | src/utils/cert_helper.js:717-731 | Certificate Policies shows each policy OID with its `OIDS` name and its qualifiers (none when they are not an array). Each qualifier shows its OID, its name and its value. |
| Extensions.SctValue | src/utils/cert_helper.js:734-747 | Certificate Transparency shows each timestamp's log id and algorithms. The log name is the description of the first listed log whose hex equals the lower-cased log id, or '' when none does. |
| Extensions.UnknownIsHex | src/utils/cert_helper.js:749-750 | An unknown extension shows the lower-case hex of its raw value. |
| Extensions.LogName | src/utils/cert_helper.js:736-740 | Gives the description of the first log whose hex equals the lower-cased log ID, or '' when none matches. |
| Extensions.Entry | src/utils/cert_helper.js:611-616 | The entry's name is `OIDS[id] \|\| id` and its oid is the identifier. `critical` is true iff the extension says true, and defaults to false. |
| Extensions.DecodeExtensions | src/utils/cert_helper.js:604-758 | One entry per extension in input order, each the isolated decoding of that extension. `isCA` holds iff some Basic Constraints extension has a true cA. |
| Extensions.ForEachExtension | src/utils/cert_helper.js:610-758 | The `forEach` with callback `decode` returns one entry per extension, in input order, each the callback's value for that extension. `isCA` holds iff some Basic Constraints extension has a true cA. |
| Certificate.DetectSource | src/utils/cert_helper.js:514-523 | PEM iff some character is in `[A-Za-z0-9+/=\s]`, else DER. The hex branch is never taken. |
| Certificate.ModulusBits | src/utils/cert_helper.js:557 | `byteLength << 3` is a signed 32-bit value congruent to 8 bits per byte, so it equals 8·length below 2^28 bytes. |
| Certificate.PublicExponent | src/utils/cert_helper.js:558-560 | 65537 iff the exponent is 3 bytes long, else 3. |
| Certificate.KeyName | src/utils/cert_helper.js:546 | The algorithm is "EC" iff the key identifier is 1.2.840.10045.2.1, else "RSA". |
| Certificate.DecodePublicKey | src/utils/cert_helper.js:544-564 | Throws iff a key named RSA has a parsed EC key, which has no `modulus`. A parsed RSA key gets modulus bits and exponent from the lengths. A parsed key under the EC name gets the curve, and an RSA-named key never has one. Without a parsed key, neither is set. The key `value` is the lower-cased key hex. |
| Certificate.AttrEntryOf | src/utils/cert_helper.js:765-776 | The value is the flattened leaves of the decoded values. It holds no array, and it is [] when decoding throws. |
| Certificate.DecodeAttributes | src/utils/cert_helper.js:761-779 | One entry per attribute, in input order. |
| Certificate.Validity | src/utils/cert_helper.js:592-598 | 0 when either date is missing, else the day difference. |
| Certificate.DecodeCert | src/utils/cert_helper.js:508-804 | Gives false iff parsing fails, the signature algorithm is missing or the key throws. Otherwise it gives decoded names, `isRoot` iff issuer and subject hold the same attributes, `isCA` and the entries as above, the lower-cased serial number, the `version` as parsed, and a signature holding the prepared algorithm, the lower-cased signature hex and the signature algorithm identifier. |
| Base64.Classify | src/utils/base64.js:39-54 | '-' and '_' are classified as '+' and '/'. |
| Base64.Groups | src/utils/base64.js:79-109 | Throws "incomplete" iff the digit count is 1 mod 4. Otherwise the output has floor(6n/8) bytes. |
| Base64.Triple | src/utils/base64.js:81-86 | Four 6-bit values give the three bytes of their 24-bit big-endian value. |
| Base64.Tail | src/utils/base64.js:92-105 | Two leftover values give one byte and three give two, the high bits of the accumulated value. |
| Base64.Spec | src/utils/base64.js:35-117 | Independent definition. It throws at the first illegal character before '=', or "incomplete" for a 1 mod 4 digit count. Otherwise it regroups the digits into floor(6n/8) bytes. |
| Base64.Decode | src/utils/base64.js:35-117 | The character loop computes `Spec`, and the output is at most `a.length*3>>2` bytes. |
| Base64Props.RoundTrip | src/utils/base64.js:35-117 | Decoding the RFC 4648 section 4 encoding of any byte sequence gives it back. |
| Base64Props.InsertSkippedAnywhere | src/utils/base64.js:71-73 | Inserting an ignored character (space, form feed, `\n`, `\r`, `\t`, U+00A0, U+2028 or U+2029) anywhere keeps the outcome: the same bytes, the same error, or an illegal-character error again. |
| Base64Props.RemoveSkipped | src/utils/base64.js:71-73 | Removing every occurrence of an ignored character keeps the outcome. |
| Base64Props.StopsAtPadding | src/utils/base64.js:65-67 | Nothing after the first '=' is examined, not even illegal characters. |
| Base64Props.UrlSafeDecodesAsStandard | src/utils/base64.js:52-54 | Rewriting '-' and '_' as '+' and '/' does not change the result. |
| Base64Armor.Unarmor | src/utils/base64.js:7-22 | Decodes the group of the leftmost armor match, or the whole text when nothing matches. |
| Base64Armor.UnarmorPlain | src/utils/base64.js:7-22 | Text without '-' is decoded whole. |
| Base64Armor.UnarmorPem | src/utils/base64.js:7-22 | A PEM block holding the display form of an encoding unarmors to the bytes. |
| Base64Armor.UnarmorBeginBase64 | src/utils/base64.js:7-22 | A `begin-base64` block holding the display form of an encoding unarmors to the bytes. |
| Base64Armor.Pad | src/utils/base64.js:26-28 | Corrected padding: the shortest '=' suffix giving a multiple of four characters. |
| Base64Armor.PadAsWrittenOverpads | src/utils/base64.js:26-28 | The padding as written turns "abc" into "abc===", six characters, where "abc=" is meant. |
| Base64Armor.PadAgreement | src/utils/base64.js:26-28 | The two paddings agree for lengths 0 and 2 mod 4. For lengths 1 and 3 mod 4, the written one leaves a length of 2 mod 4. |
| Base64Armor.PrettyLines | src/utils/base64.js:30-32 | The display form of text without line breaks has no line longer than 80 characters. |
| Base64Armor.PrettyDecodes | src/utils/base64.js:24-33 | Decoding the display form, with either padding, has the outcome of decoding the original. |
| Hex.Spec | src/utils/hex.js:8-75 | Independent definition. It throws at the first illegal character before '=', or "incomplete" for an odd digit count. Otherwise it yields one byte per digit pair. |
| Hex.Decode | src/utils/hex.js:8-75 | The character loop computes `Spec`, and the output is at most `a.length>>1` bytes. |
| Hex.Byte | src/utils/hex.js:54-58 | The pair's byte has high digit hi and low digit lo. |
| HexProps.RoundTrip | src/utils/hex.js:8-75 | Decoding the Base16 encoding of any byte sequence, in either letter case, gives it back. |
| HexProps.CaseInsensitive | src/utils/hex.js:11-25 | Lower-casing the input does not change the result. |
| HexProps.LowerEncoding | src/utils/hex.js:21-25 | The lower-case encoding is the lower-cased upper-case one. |
| HexProps.InsertSkippedAnywhere | src/utils/hex.js:46-48 | Inserting an ignored character anywhere keeps the outcome. |
| HexProps.RemoveSkipped | src/utils/hex.js:46-48 | Removing every occurrence of an ignored character keeps the outcome. |
| HexProps.StopsAtEquals | src/utils/hex.js:40-42 | Nothing after the first '=' is examined. |
| HexProps.OnePair | src/utils/hex.js:54-62 | Two digits decode to the one byte hi*16+lo. |
| Query.Items | src/utils/query.js:4-8 | Items exist iff the path is non-empty and splits into exactly two parts on '?'. They are the '&' pieces of the decoded second part. |
| Query.Parse | src/utils/query.js:1-30 | A falsy path, or one that does not split into two parts, gives {}. |
| Query.KeyValue | src/utils/query.js:9-12 | The key is the text before the first '=', and the value is the rest, later '=' kept. An item without '=' has value ''. |
| Query.CollectSpec | src/utils/query.js:14-23 | A key seen once maps to its value. A key seen k ≥ 2 times maps to the array of its k values in order. No other key appears. |
| Query.ParseKeys | src/utils/query.js:8-23 | The parsed object's keys are exactly the items' keys. |
| Query.ParseValues | src/utils/query.js:14-23 | Each key's value is its single value, or the array of its values in order. |
| Query.Kept | src/utils/query.js:33-34 | Every surviving entry is one of the input's, and it has a value that is neither '' nor null. Every such input entry survives. |
| Query.Stringify | src/utils/query.js:32-39 | Gives '' iff no entry survives, and otherwise starts with '?'. |
| Query.StringifyFields | src/utils/query.js:35-38 | After the '?' come the `key=value` fields of the surviving entries, joined by '&'. |
| Query.RoundTrip | src/utils/query.js:1-39 | Parsing what `stringify` wrote after a '?'-free base rebuilds the object, for distinct plain keys and values and identity URI decoding. |

## Left out

- The ASN.1 parser, the pkijs schema classes, `Convert` and `window.atob` are not modelled. Their results are inputs: the `Node`, `Extension`, `CertInput` and `ParsedKey` datatypes. `Certificate.Env.parse` is None wherever one of them throws.
- The `OIDS` constants and `log_list.json` are not part of this model. They are a read-only map and a log list passed in.
- moment's date formatting (`notBefore`, `notAfter`, the SCT `timestamp`) is locale-dependent text and is left out. `validity` keeps only its rule, with the day difference as a parameter.
- The SCT `signature` bytes and the AKI issuer's inner structure are carried as-is, or left out.
- `console.error` logging is left out.
- `decodeURIComponent` is a parameter of `Query.Parse`. Its throwing on malformed escapes is left out.
- Query.Parse: the `in` test of the source also sees `Object.prototype` members such as `toString`. The model's map starts empty.
- Query.Stringify: `Object.keys` lists integer-like keys first, in numeric order. The model takes the key order as given by the entry sequence.
- CertFields.DecodeIP: it requires hexadecimal text when the length is 16 or 64, which is what the parser produces. `parseInt` on other text (NaN, or precision loss on 64 digits) is not modelled. The 64-digit case is stated as "all digits are '0'".
- JsText.Lower: ASCII case mapping only, and strings are sequences of Unicode scalars, not UTF-16 code units (which `length` and the regex `.` count in JavaScript). Every text the core lowers is hexadecimal, so lowering is unaffected. `Base64Armor.Pretty` counts characters, and differs from the source only on text outside the Basic Multilingual Plane.
- Certificate.DecodeCert: `isRoot` compares the decoded lists themselves. The source compares their `JSON.stringify` texts, which are injective on these records.
- Attributes.DecodeValue: `Convert.FromHex` and `Number(…)` on the Key Usage path are parameters. `Number` is taken as the shift count it becomes, with NaN as 0.
- `Base64.haveU8` and `Hex.haveU8` select a plain array instead of a `Uint8Array`. The bytes are the same, so only the typed-array path is modelled.
- `Hex.re` is never used by the source and is left out.
- The viewer components, `formatDer`, `deformatDer` and `toHexAndFormat` are display formatting and are left out. Only the pair separator they rely on is modelled.
- Extensions.DecodeExtension: `Empty` and `Points([])` both stand for the JavaScript [].
- Extensions.DecodeExtension: the Netscape type's re-parse of the raw value is an input (`reparsed`).

## Findings

| source | as written | input that shows it | evidently intended | confidence | as-written member | corrected member |
|---|---|---|---|---|---|---|
| src/utils/base64.js:26-28 | pads with `length % 4` '=' characters | "abc" becomes "abc===" (six characters) | pad to a multiple of four: "abc=" | high; not executed | Base64Armor.PadAsWritten, Base64Armor.PadAsWrittenOverpads | Base64Armor.Pad, Base64Armor.PadAgreement |
| src/utils/cert_helper.js:335-337 | `slice(0, -1)` removes the last character, whatever it is | "abc" becomes "ab " and the 'c' is lost | pairs joined by the separator: "ab c" | medium (all three call sites, src/components/viewer/index.jsx:441, src/components/viewer/index.jsx:452 and src/utils/cert_helper.js:411, pass hexadecimal text, which has even length); not executed | CertFields.SeparateAsWritten, CertFields.SeparateAsWrittenDropsLast | CertFields.SeparatePairs, CertFields.SeparateAgreesOnEvenText |

`Base64Armor.Pretty` uses the corrected padding and `Base64Armor.PrettyAsWritten` the written one. `Base64Armor.PrettyDecodes` shows that the difference never changes the decoded bytes, because `decode` stops at the first '='.

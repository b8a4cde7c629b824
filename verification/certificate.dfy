/** `decodeCert(source)`: the detection of the source's encoding, and the
    assembly of the display record from the parsed certificate or
    certification request. Any exception outside the per-extension and
    per-attribute `try` blocks makes the whole call return `false` (None). */
module Certificate {
  import opened Bits
  import opened Results
  import opened JsText
  import CertFields
  import Attributes
  import Extensions

  // ---- source detection -----------------------------------------------------------------

  datatype SourceType = Pem | Hex | Der

  /** The class `[A-Za-z0-9+/=\s]` of the source-detection expression. */
  predicate InBase64Class(c: char) {
    ('A' <= c <= 'Z') || ('a' <= c <= 'z') || ('0' <= c <= '9') || c == '+' || c == '/' || c == '='
    || IsJsSpace(c)
  }

  /** The class `[a-f\d]` with the `i` flag. */
  predicate IsHexChar(c: char) {
    ('0' <= c <= '9') || ('a' <= c <= 'f') || ('A' <= c <= 'F')
  }

  /** The `if` chain on the source. The first expression is not anchored:
      its first alternative matches any one character of the class, and its
      second alternative cannot match without one. So a source takes the
      PEM branch as soon as it holds one such character, and since every
      hexadecimal digit is one, the hex branch is never taken. */
  function DetectSource(source: string): (t: SourceType)
    ensures t == Pem <==> exists i :: 0 <= i < |source| && InBase64Class(source[i])
    ensures t == Der <==> forall i :: 0 <= i < |source| ==> !InBase64Class(source[i])
    ensures t != Hex
  {
    if exists i :: 0 <= i < |source| && InBase64Class(source[i]) then Pem
    else if exists i :: 0 <= i < |source| && IsHexChar(source[i]) then Hex
    else Der
  }

  // ---- parsed input ---------------------------------------------------------------------

  /** The parsed `subjectPublicKeyInfo.parsedKey`: an RSA key with the byte
      lengths of its modulus and public exponent, or an EC point. */
  datatype ParsedKey = RsaKey(modulusLength: nat, exponentLength: nat) | EcKey

  datatype AttributeInput = AttributeInput(attrType: string, values: seq<Attributes.Node>)

  /** What `decodeCert` reads of the parsed certificate (or request) and
      of its `toJSON()` form. Dates are abstract instants. */
  datatype CertInput = CertInput(
    issuer: Option<seq<CertFields.TypeAndValue>>,
    subject: Option<seq<CertFields.TypeAndValue>>,
    keyAlgorithmId: string,
    keyHex: string,
    parsedKey: Option<ParsedKey>,
    curve: Option<string>,
    signatureAlgorithm: Option<string>,
    signatureHex: string,
    serialHex: Option<string>,
    version: int,
    notBefore: Option<int>,
    notAfter: Option<int>,
    extensions: Option<seq<Extensions.Extension>>,
    attributes: Option<seq<AttributeInput>>)

  /** The libraries `decodeCert` calls: the conversion of the source and
      the BER and schema parsers (None where one of them throws), the day
      difference of two instants, the `OIDS` table with the two converters
      of the attribute decoder, and the CT log list. */
  datatype Env = Env(
    parse: (SourceType, string) -> Option<CertInput>,
    daysBetween: (int, int) -> int,
    attr: Attributes.Env,
    logs: seq<Extensions.Log>)

  // ---- decoded output -------------------------------------------------------------------

  datatype KeyAlgorithm = KeyAlgorithm(name: string, modulusBits: Option<int>,
                                       publicExponent: Option<int>, namedCurve: Option<string>)

  datatype PublicKey = PublicKey(algorithm: KeyAlgorithm, value: string, oid: string)

  datatype Signature = Signature(algorithm: CertFields.Algorithm, value: string, oid: string)

  datatype AttrEntry = AttrEntry(name: string, oid: string, value: seq<Attributes.AttrValue>)

  datatype Decoded = Decoded(
    issuer: seq<CertFields.NameEntry>,
    subject: seq<CertFields.NameEntry>,
    publicKey: PublicKey,
    signature: Signature,
    serialNumber: Option<string>,
    version: int,
    validity: int,
    isCA: bool,
    isRoot: bool,
    sourceType: SourceType,
    source: string,
    extensions: seq<Extensions.ExtEntry>,
    attributes: seq<AttrEntry>)

  // ---- public key -----------------------------------------------------------------------

  const EcPublicKeyOid := "1.2.840.10045.2.1"

  /** ECMAScript ToInt32 of an integer: wrap to 32 bits, two's complement. */
  function Int32(x: int): (r: int)
    ensures -0x8000_0000 <= r < 0x8000_0000
    ensures (r - x) % 0x1_0000_0000 == 0
  {
    var m := x % 0x1_0000_0000;
    if m >= 0x8000_0000 then m - 0x1_0000_0000 else m
  }

  /** `byteLength << 3`: eight bits per byte, in 32-bit arithmetic. */
  function ModulusBits(byteLength: nat): (r: int)
    ensures byteLength < 0x1000_0000 ==> r == 8 * byteLength
    ensures -0x8000_0000 <= r < 0x8000_0000 && (r - 8 * byteLength) % 0x1_0000_0000 == 0
  {
    Int32(8 * byteLength)
  }

  /** The exponent guess: a three-byte exponent is taken to be 65537, any
      other length to be 3. */
  function PublicExponent(exponentLength: nat): (r: int)
    ensures r == 65537 <==> exponentLength == 3
    ensures r != 65537 ==> r == 3
  {
    if exponentLength == 3 then 65537 else 3
  }

  /** The algorithm is named EC exactly for the EC public key identifier. */
  function KeyName(keyAlgorithmId: string): (name: string)
    ensures name == "EC" <==> keyAlgorithmId == EcPublicKeyOid
    ensures name != "EC" ==> name == "RSA"
  {
    if keyAlgorithmId == EcPublicKeyOid then "EC" else "RSA"
  }

  /** An RSA-named key whose parsed key has no modulus: reading the
      modulus throws. */
  predicate KeyThrows(c: CertInput) {
    KeyName(c.keyAlgorithmId) == "RSA" && c.parsedKey == Some(EcKey)
  }

  /** The `publicKey` record, or None where it throws. */
  function DecodePublicKey(c: CertInput): (r: Option<PublicKey>)
    ensures r.None? <==> KeyThrows(c)
    ensures r.Some? ==> r.value.algorithm.name == KeyName(c.keyAlgorithmId) && r.value.oid == c.keyAlgorithmId
    ensures r.Some? ==> r.value.value == Lower(c.keyHex)
    ensures r.Some? && r.value.algorithm.name == "RSA" ==>
      match c.parsedKey
      case Some(RsaKey(m, e)) =>
        r.value.algorithm.modulusBits == Some(ModulusBits(m))
        && r.value.algorithm.publicExponent == Some(PublicExponent(e))
      case _ => r.value.algorithm.modulusBits.None? && r.value.algorithm.publicExponent.None?
    ensures r.Some? && r.value.algorithm.name == "RSA" ==> r.value.algorithm.namedCurve.None?
    ensures r.Some? && r.value.algorithm.name == "EC" ==>
      r.value.algorithm.modulusBits.None? && r.value.algorithm.publicExponent.None?
      && r.value.algorithm.namedCurve == (if c.parsedKey.Some? then c.curve else None)
  {
    var name := KeyName(c.keyAlgorithmId);
    var plain := KeyAlgorithm(name, None, None, None);
    var alg :=
      (match c.parsedKey
       case None => Some(plain)
       case Some(RsaKey(m, e)) =>
         if name == "RSA" then Some(plain.(modulusBits := Some(ModulusBits(m)), publicExponent := Some(PublicExponent(e))))
         else Some(plain.(namedCurve := c.curve))
       case Some(EcKey) =>
         if name == "RSA" then None else Some(plain.(namedCurve := c.curve)));
    match alg
    case None => None
    case Some(a) => Some(PublicKey(a, Lower(c.keyHex), c.keyAlgorithmId))
  }

  // ---- attributes -----------------------------------------------------------------------

  /** The entry pushed for an attribute: the flattened decoded values, or
      `[]` when decoding throws. */
  function AttrEntryOf(env: Attributes.Env, a: AttributeInput): (e: AttrEntry)
    ensures e.name == CertFields.NameOr(env.oids, a.attrType) && e.oid == a.attrType
    ensures Attributes.Flat(e.value)
    ensures Attributes.DecodeAll(env, a.values).Failure? ==> e.value == []
    ensures Attributes.DecodeAll(env, a.values).Success? ==>
      e.value == Attributes.Leaves(Attributes.DecodeAll(env, a.values).value)
  {
    var value :=
      (match Attributes.DecodeAll(env, a.values)
       case Success(vs) => Attributes.FlattenIsLeaves(vs); Attributes.Flatten(vs)
       case Failure(_) => []);
    AttrEntry(CertFields.NameOr(env.oids, a.attrType), a.attrType, value)
  }

  /** The `forEach` over the attributes: one entry per attribute, in order. */
  method DecodeAttributes(env: Attributes.Env, attrs: seq<AttributeInput>) returns (out: seq<AttrEntry>)
    ensures |out| == |attrs|
    ensures forall i :: 0 <= i < |attrs| ==> out[i] == AttrEntryOf(env, attrs[i])
  {
    out := [];
    var k := 0;
    while k < |attrs|
      invariant 0 <= k <= |attrs|
      invariant |out| == k
      invariant forall i :: 0 <= i < k ==> out[i] == AttrEntryOf(env, attrs[i])
    {
      out := out + [AttrEntryOf(env, attrs[k])];
      k := k + 1;
    }
  }

  // ---- the whole certificate --------------------------------------------------------------

  /** `validity`: the day difference when both dates are present, else 0. */
  function Validity(env: Env, c: CertInput): (v: int)
    ensures c.notBefore.None? || c.notAfter.None? ==> v == 0
    ensures c.notBefore.Some? && c.notAfter.Some? ==> v == env.daysBetween(c.notAfter.value, c.notBefore.value)
  {
    if c.notBefore.Some? && c.notAfter.Some? then env.daysBetween(c.notAfter.value, c.notBefore.value) else 0
  }

  /** When the parsed source makes `decodeCert` throw outside the inner
      `try` blocks: a missing signature algorithm (its `algorithmId` is
      read), or an RSA-named key without a modulus. */
  predicate CertThrows(c: CertInput) {
    c.signatureAlgorithm.None? || KeyThrows(c)
  }

  method DecodeCert(env: Env, source: string) returns (r: Option<Decoded>)
    ensures var c := env.parse(DetectSource(source), source);
            r.None? <==> c.None? || CertThrows(c.value)
    ensures r.Some? ==> r.value.sourceType == DetectSource(source) && r.value.source == source
    ensures r.Some? ==>
      var c := env.parse(DetectSource(source), source).value;
      && r.value.issuer == CertFields.DecodeIssuerSubject(c.issuer)
      && r.value.subject == CertFields.DecodeIssuerSubject(c.subject)
      && (r.value.isRoot <==> CertFields.Attributes(c.issuer) == CertFields.Attributes(c.subject))
      && r.value.serialNumber == (if c.serialHex.Some? then Some(Lower(c.serialHex.value)) else None)
      && r.value.validity == Validity(env, c)
      && Some(r.value.publicKey) == DecodePublicKey(c)
      && r.value.signature.algorithm == CertFields.PrepareAlgorithm(c.signatureAlgorithm).value
      && r.value.signature.value == Lower(c.signatureHex)
      && r.value.signature.oid == c.signatureAlgorithm.value
      && r.value.version == c.version
    ensures r.Some? ==>
      var exts := env.parse(DetectSource(source), source).value.extensions.GetOr([]);
      && |r.value.extensions| == |exts|
      && (forall i :: 0 <= i < |exts| ==>
            r.value.extensions[i] == Extensions.Entry(env.attr.oids, env.logs, exts[i]))
      && (r.value.isCA <==> exists i :: 0 <= i < |exts| && Extensions.SetsCA(exts[i]))
    ensures r.Some? ==>
      var attrs := env.parse(DetectSource(source), source).value.attributes.GetOr([]);
      && |r.value.attributes| == |attrs|
      && forall i :: 0 <= i < |attrs| ==> r.value.attributes[i] == AttrEntryOf(env.attr, attrs[i])
  {
    var sourceType := DetectSource(source);
    var parsed := env.parse(sourceType, source);
    if parsed.None? {
      return None;
    }
    var c := parsed.value;
    var issuer := CertFields.DecodeIssuerSubject(c.issuer);
    var subject := CertFields.DecodeIssuerSubject(c.subject);
    var publicKey := DecodePublicKey(c);
    if publicKey.None? {
      return None;
    }
    var algorithm := CertFields.PrepareAlgorithm(c.signatureAlgorithm);
    if algorithm.None? {
      return None;
    }
    var signature := Signature(algorithm.value, Lower(c.signatureHex), c.signatureAlgorithm.value);
    var serialNumber := if c.serialHex.Some? then Some(Lower(c.serialHex.value)) else None;
    var validity := Validity(env, c);
    CertFields.DecodeIssuerSubjectInjective(c.issuer, c.subject);
    var isRoot := issuer == subject;
    var extensions, isCA := Extensions.DecodeExtensions(env.attr.oids, env.logs, c.extensions.GetOr([]));
    var attributes := DecodeAttributes(env.attr, c.attributes.GetOr([]));
    r := Some(Decoded(issuer, subject, publicKey.value, signature, serialNumber, c.version, validity,
                      isCA, isRoot, sourceType, source, extensions, attributes));
  }
}

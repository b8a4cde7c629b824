/** The extension loop of `decodeCert`: one display entry per X.509
    extension (section 4.2 of RFC 5280), chosen by the extension's object
    identifier. A decoder that throws leaves the entry with whatever its
    `value` held at that moment, and the loop goes on with the next
    extension. */
module Extensions {
  import opened Bits
  import opened Results
  import opened JsText
  import CertFields
  import BitFlags

  type GeneralName = CertFields.GeneralName
  type AltName = CertFields.AltName
  type SanItem = CertFields.SanItem

  // ---- parsed input ------------------------------------------------------------------

  /** A BitString: the bytes of its hexadecimal text and its unused-bit count. */
  datatype BitsValue = BitsValue(bytes: seq<byte>, unusedBits: int)

  /** A point of a CRL distribution point extension: the names of its
      `distributionPoint` (None when it is absent or is a name relative to
      the CRL issuer, which has no `forEach`). */
  datatype DistributionPoint = DistributionPoint(names: Option<seq<GeneralName>>)

  datatype AccessDescription = AccessDescription(accessMethod: string, location: GeneralName)

  /** A policy qualifier whose value is either a list of blocks (each read
      as its value) or a single value. */
  datatype QualifierValue = Parts(values: seq<string>) | Single(value: string)

  datatype PolicyQualifier = PolicyQualifier(policyQualifierId: string, qualifier: QualifierValue)

  /** `policyQualifiers` is None when it is not an array. */
  datatype Policy = Policy(policyIdentifier: string, policyQualifiers: Option<seq<PolicyQualifier>>)

  /** A signed certificate timestamp (section 3.2 of RFC 6962); the time
      and the signature are not part of this model. */
  datatype Timestamp = Timestamp(logID: string, hashAlgorithm: string, signatureAlgorithm: string)

  /** The structure the PKI library parsed out of the extension value.
      `Missing` is an absent `parsedValue` or one of an unexpected shape. */
  datatype Parsed =
    | Missing
    | Constraints(permitted: Option<seq<AltName>>, excluded: Option<seq<AltName>>)
    | Basic(cA: Option<bool>, pathLenConstraint: Option<int>)
    | KeyBits(bits: BitsValue)
    | Purposes(keyPurposes: seq<string>)
    | DistributionPoints(points: seq<DistributionPoint>)
    | AltNames(altNames: seq<AltName>)
    | AuthorityKey(keyIdentifier: Option<string>, authorityCertSerialNumber: Option<string>,
                   authorityCertIssuer: Option<seq<GeneralName>>)
    | InfoAccess(descriptions: seq<AccessDescription>)
    | Policies(policies: seq<Policy>)
    | Timestamps(timestamps: seq<Timestamp>)

  /** An extension of the certificate: `critical` is None when absent;
      `reparsed` is what the BER parser makes of the raw value as a
      BitString (None where that throws); `extnValueHex` is the raw value's
      hexadecimal text. */
  datatype Extension = Extension(extnID: string, critical: Option<bool>, parsed: Parsed,
                                 reparsed: Option<BitsValue>, extnValueHex: string)

  /** An entry of the certificate transparency log list. */
  datatype Log = Log(hex: string, description: string)

  // ---- decoded output ------------------------------------------------------------------

  datatype OidName = OidName(oid: string, name: Option<string>)

  datatype PointItem = PointItem(value: CertFields.NameValue, kind: int)

  datatype AccessItem = AccessItem(oid: string, name: Option<string>, kind: int, value: CertFields.NameValue)

  datatype QualifierItem = QualifierItem(oid: string, name: Option<string>, value: QualifierValue)

  datatype PolicyItem = PolicyItem(oid: string, name: Option<string>, qualifiers: seq<QualifierItem>)

  datatype SctItem = SctItem(logID: string, logName: string, hashAlgorithm: string, signatureAlgorithm: string)

  /** The `value` of an extension entry. `Empty` is the initial `[]`;
      `AuthorityKeyValue` is the object built field by field, `{}` when
      every field is None. */
  datatype ExtValue =
    | Empty
    | Sans(items: seq<SanItem>)
    | BasicValue(cA: bool, pathLenConstraint: Option<int>)
    | Usages(labels: seq<string>)
    | PurposeList(purposes: seq<OidName>)
    | Points(points: seq<PointItem>)
    | AuthorityKeyValue(keyIdentifier: Option<string>, authorityCertSerialNumber: Option<string>,
                        authorityCertIssuer: Option<seq<GeneralName>>)
    | AccessList(access: seq<AccessItem>)
    | PolicyList(policies: seq<PolicyItem>)
    | Scts(scts: seq<SctItem>)
    | HexText(text: string)

  datatype ExtEntry = ExtEntry(name: string, oid: string, critical: bool, value: ExtValue)

  // ---- object identifiers ----------------------------------------------------------------

  const NameConstraintsOid := "2.5.29.30"
  const BasicConstraintsOid := "2.5.29.19"
  const ExtKeyUsageOid := "2.5.29.37"
  const CrlDistributionPointsOid := "2.5.29.31"
  const SubjectAltNameOid := "2.5.29.17"
  const AuthorityKeyIdOid := "2.5.29.35"
  const AuthorityInfoAccessOid := "1.3.6.1.5.5.7.1.1"
  const NetscapeCertTypeOid := "2.16.840.1.113730.1.1"
  const CertificatePoliciesOid := "2.5.29.32"
  const SctListOid := "1.3.6.1.4.1.11129.2.4.2"

  // ---- per-extension decoders -------------------------------------------------------------

  /** The CRL distribution point loop pushes the names point by point: the
      names of every point before the first one without names, and whether
      such a point stopped the loop. */
  function CrlNames(dps: seq<DistributionPoint>): (r: Result<seq<GeneralName>, seq<GeneralName>>)
  {
    if |dps| == 0 then Success([])
    else match CrlNames(dps[..|dps| - 1])
      case Failure(p) => Failure(p)
      case Success(p) =>
        match dps[|dps| - 1].names
        case None => Failure(p)
        case Some(ns) => Success(p + ns)
  }

  /** All names of `dps`, every point having some. */
  function AllNames(dps: seq<DistributionPoint>): seq<GeneralName>
    requires forall i :: 0 <= i < |dps| ==> dps[i].names.Some?
  {
    if |dps| == 0 then [] else AllNames(dps[..|dps| - 1]) + dps[|dps| - 1].names.value
  }

  /** Index of the first point without names, or |dps|. */
  function FirstMissing(dps: seq<DistributionPoint>): (k: nat)
    ensures k <= |dps|
    ensures forall i :: 0 <= i < k ==> dps[i].names.Some?
    ensures k < |dps| ==> dps[k].names.None?
  {
    if |dps| == 0 then 0
    else if dps[0].names.None? then 0
    else 1 + FirstMissing(dps[1..])
  }

  function PointItems(ns: seq<GeneralName>): (r: seq<PointItem>)
    ensures |r| == |ns|
    ensures forall i :: 0 <= i < |ns| ==> r[i] == PointItem(ns[i].value, ns[i].kind)
  {
    seq(|ns|, i requires 0 <= i < |ns| => PointItem(ns[i].value, ns[i].kind))
  }

  /** `logList.logs.filter(l => l.hex === id.toLowerCase())`, first
      description, or '' when no log matches. */
  function LogName(logs: seq<Log>, id: string): (r: string)
    ensures (forall i :: 0 <= i < |logs| ==> logs[i].hex != Lower(id)) ==> r == ""
    ensures forall i :: 0 <= i < |logs| && logs[i].hex == Lower(id)
                        && (forall j :: 0 <= j < i ==> logs[j].hex != Lower(id)) ==>
                        r == logs[i].description
  {
    if |logs| == 0 then ""
    else if logs[0].hex == Lower(id) then logs[0].description
    else LogName(logs[1..], id)
  }

  function PurposeItems(oids: map<string, string>, ps: seq<string>): (r: seq<OidName>)
    ensures |r| == |ps|
    ensures forall i :: 0 <= i < |ps| ==> r[i] == OidName(ps[i], CertFields.Lookup(oids, ps[i]))
  {
    seq(|ps|, i requires 0 <= i < |ps| => OidName(ps[i], CertFields.Lookup(oids, ps[i])))
  }

  function AccessItems(oids: map<string, string>, ds: seq<AccessDescription>): (r: seq<AccessItem>)
    ensures |r| == |ds|
    ensures forall i :: 0 <= i < |ds| ==>
      r[i] == AccessItem(ds[i].accessMethod, CertFields.Lookup(oids, ds[i].accessMethod),
                         ds[i].location.kind, ds[i].location.value)
  {
    seq(|ds|, i requires 0 <= i < |ds| =>
      AccessItem(ds[i].accessMethod, CertFields.Lookup(oids, ds[i].accessMethod),
                 ds[i].location.kind, ds[i].location.value))
  }

  function QualifierItems(oids: map<string, string>, qs: seq<PolicyQualifier>): (r: seq<QualifierItem>)
    ensures |r| == |qs|
    ensures forall i :: 0 <= i < |qs| ==>
      r[i] == QualifierItem(qs[i].policyQualifierId, CertFields.Lookup(oids, qs[i].policyQualifierId), qs[i].qualifier)
  {
    seq(|qs|, i requires 0 <= i < |qs| =>
      QualifierItem(qs[i].policyQualifierId, CertFields.Lookup(oids, qs[i].policyQualifierId), qs[i].qualifier))
  }

  /** `certificatePolicies.map(...)`: a policy whose qualifiers are not an
      array gets none. */
  function PolicyItems(oids: map<string, string>, ps: seq<Policy>): (r: seq<PolicyItem>)
    ensures |r| == |ps|
    ensures forall i :: 0 <= i < |ps| ==>
      r[i].oid == ps[i].policyIdentifier && r[i].name == CertFields.Lookup(oids, ps[i].policyIdentifier)
      && r[i].qualifiers == QualifierItems(oids, ps[i].policyQualifiers.GetOr([]))
  {
    seq(|ps|, i requires 0 <= i < |ps| =>
      PolicyItem(ps[i].policyIdentifier, CertFields.Lookup(oids, ps[i].policyIdentifier),
                 QualifierItems(oids, ps[i].policyQualifiers.GetOr([]))))
  }

  function SctItems(logs: seq<Log>, ts: seq<Timestamp>): (r: seq<SctItem>)
    ensures |r| == |ts|
    ensures forall i :: 0 <= i < |ts| ==>
      r[i] == SctItem(ts[i].logID, LogName(logs, ts[i].logID), ts[i].hashAlgorithm, ts[i].signatureAlgorithm)
  {
    seq(|ts|, i requires 0 <= i < |ts| =>
      SctItem(ts[i].logID, LogName(logs, ts[i].logID), ts[i].hashAlgorithm, ts[i].signatureAlgorithm))
  }

  function LowerOr(s: Option<string>): (r: Option<string>)
    ensures r.None? <==> s.None?
    ensures s.Some? ==> r.value == Lower(s.value)
  {
    match s
    case None => None
    case Some(t) => Some(Lower(t))
  }

  /** The body of the `switch` of the extension loop. A Failure is a
      thrown exception and carries the `value` the entry keeps: the
      initial `[]`, `{}` for the authority key identifier (assigned before
      anything can throw), or the names pushed so far for the CRL
      distribution points. */
  function DecodeExtension(oids: map<string, string>, logs: seq<Log>, ext: Extension): (r: Result<ExtValue, ExtValue>)
    ensures r.Failure? <==> Throws(ext)
  {
    var id := ext.extnID;
    var p := ext.parsed;
    if id == NameConstraintsOid then
      if !p.Constraints? then Failure(Empty)
      else match CertFields.DecodeNameConstraints(oids, p.permitted, p.excluded)
        case Success(items) => Success(Sans(items))
        case Failure(_) => Failure(Empty)
    else if id == BasicConstraintsOid then
      if !p.Basic? then Failure(Empty)
      else Success(BasicValue(p.cA.GetOr(false), p.pathLenConstraint))
    else if id == BitFlags.KeyUsageOid then
      if !p.KeyBits? then Failure(Empty)
      else Success(Usages(BitFlags.KeyUsage(p.bits.bytes, p.bits.unusedBits)))
    else if id == ExtKeyUsageOid then
      if !p.Purposes? then Failure(Empty)
      else Success(PurposeList(PurposeItems(oids, p.keyPurposes)))
    else if id == CrlDistributionPointsOid then
      if !p.DistributionPoints? then Failure(Empty)
      else
        CrlNamesPrefix(p.points);
        match CrlNames(p.points)
        case Success(ns) => Success(Points(PointItems(ns)))
        case Failure(ns) => Failure(if ns == [] then Empty else Points(PointItems(ns)))
    else if id == SubjectAltNameOid then
      if !p.AltNames? then Failure(Empty)
      else match CertFields.DecodeSans(oids, p.altNames, None)
        case Success(items) => Success(Sans(items))
        case Failure(_) => Failure(Empty)
    else if id == AuthorityKeyIdOid then
      if !p.AuthorityKey? then Failure(AuthorityKeyValue(None, None, None))
      else Success(AuthorityKeyValue(LowerOr(p.keyIdentifier), LowerOr(p.authorityCertSerialNumber),
                                     p.authorityCertIssuer))
    else if id == AuthorityInfoAccessOid then
      if !p.InfoAccess? then Failure(Empty)
      else Success(AccessList(AccessItems(oids, p.descriptions)))
    else if id == NetscapeCertTypeOid then
      match ext.reparsed
      case None => Failure(Empty)
      case Some(b) => Success(Usages(BitFlags.NetscapeCertType(b.bytes, b.unusedBits)))
    else if id == CertificatePoliciesOid then
      if !p.Policies? then Failure(Empty)
      else Success(PolicyList(PolicyItems(oids, p.policies)))
    else if id == SctListOid then
      if !p.Timestamps? then Failure(Empty)
      else Success(Scts(SctItems(logs, p.timestamps)))
    else
      Success(HexText(Lower(ext.extnValueHex)))
  }

  /** A name of the list that `decodeSANs` cannot decode: a directory
      name or an IP address whose value has another shape. */
  predicate BadName(an: AltName) {
    var g := CertFields.Chosen(an);
    (g.kind == 4 && !g.value.DirName?) || (g.kind == 7 && !g.value.IpBytes?)
  }

  predicate AnyBad(list: seq<AltName>) {
    exists i :: 0 <= i < |list| && BadName(list[i])
  }

  /** When the decoder of `ext` throws: the parsed value lacks the shape
      its identifier calls for, a name of an alternative-name list is
      malformed, a CRL distribution point has no names, or the raw value of
      a Netscape certificate type does not parse. */
  predicate Throws(ext: Extension) {
    var id := ext.extnID;
    var p := ext.parsed;
    if id == NameConstraintsOid then
      !p.Constraints? || AnyBad(p.permitted.GetOr([])) || AnyBad(p.excluded.GetOr([]))
    else if id == SubjectAltNameOid then !p.AltNames? || AnyBad(p.altNames)
    else if id == CrlDistributionPointsOid then
      !p.DistributionPoints? || FirstMissing(p.points) < |p.points|
    else if id == NetscapeCertTypeOid then ext.reparsed.None?
    else if id == BasicConstraintsOid then !p.Basic?
    else if id == BitFlags.KeyUsageOid then !p.KeyBits?
    else if id == ExtKeyUsageOid then !p.Purposes?
    else if id == AuthorityKeyIdOid then !p.AuthorityKey?
    else if id == AuthorityInfoAccessOid then !p.InfoAccess?
    else if id == CertificatePoliciesOid then !p.Policies?
    else if id == SctListOid then !p.Timestamps?
    else false
  }

  /** What the entry's `value` holds once the `try` is over. */
  function Kept(r: Result<ExtValue, ExtValue>): ExtValue {
    match r
    case Success(v) => v
    case Failure(v) => v
  }

  /** The entry pushed for `ext`. */
  function Entry(oids: map<string, string>, logs: seq<Log>, ext: Extension): (e: ExtEntry)
    ensures e.name == CertFields.NameOr(oids, ext.extnID) && e.oid == ext.extnID
    ensures e.critical == (ext.critical == Some(true))
  {
    ExtEntry(CertFields.NameOr(oids, ext.extnID), ext.extnID, ext.critical.GetOr(false),
             Kept(DecodeExtension(oids, logs, ext)))
  }

  /** `if (ext.parsedValue.cA) isCA = true`, reached only for the Basic
      Constraints identifier and only when the parsed value exists. */
  predicate SetsCA(ext: Extension) {
    ext.extnID == BasicConstraintsOid && ext.parsed.Basic? && ext.parsed.cA == Some(true)
  }

  /** The `forEach` over the extensions with the callback `decode`: one
      entry per extension, in order, and `isCA` raised by any Basic
      Constraints extension with a true `cA`. */
  method ForEachExtension(exts: seq<Extension>, decode: Extension -> ExtEntry)
    returns (out: seq<ExtEntry>, isCA: bool)
    ensures |out| == |exts|
    ensures forall i :: 0 <= i < |exts| ==> out[i] == decode(exts[i])
    ensures isCA <==> exists i :: 0 <= i < |exts| && SetsCA(exts[i])
  {
    out := [];
    isCA := false;
    var k := 0;
    while k < |exts|
      invariant 0 <= k <= |exts|
      invariant |out| == k
      invariant forall i :: 0 <= i < k ==> out[i] == decode(exts[i])
      invariant isCA <==> exists i :: 0 <= i < k && SetsCA(exts[i])
    {
      var ext := exts[k];
      if ext.extnID == BasicConstraintsOid && ext.parsed.Basic? && ext.parsed.cA == Some(true) {
        isCA := true;
      }
      out := out + [decode(ext)];
      k := k + 1;
    }
  }

  /** The extensions loop of `decodeCert`: each extension's entry, whatever
      its decoder throws, and whether any of them marks a CA. */
  method DecodeExtensions(oids: map<string, string>, logs: seq<Log>, exts: seq<Extension>)
    returns (out: seq<ExtEntry>, isCA: bool)
    ensures |out| == |exts|
    ensures forall i :: 0 <= i < |exts| ==> out[i] == Entry(oids, logs, exts[i])
    ensures isCA <==> exists i :: 0 <= i < |exts| && SetsCA(exts[i])
  {
    out, isCA := ForEachExtension(exts, ext => Entry(oids, logs, ext));
  }

  // ---- properties -----------------------------------------------------------------------

  /** The CRL loop keeps the names of the points before the first point
      without names, and throws exactly when there is such a point. */
  lemma {:induction false} CrlNamesPrefix(dps: seq<DistributionPoint>)
    ensures var k := FirstMissing(dps);
            CrlNames(dps) == (if k == |dps| then Success(AllNames(dps[..k])) else Failure(AllNames(dps[..k])))
  {
    if |dps| > 0 {
      var init := dps[..|dps| - 1];
      CrlNamesPrefix(init);
      FirstMissingSnoc(dps);
      var k := FirstMissing(init);
      assert dps[..k] == init[..k];
      if k == |init| && dps[|dps| - 1].names.Some? {
        assert dps[..|dps|][..|dps| - 1] == init;
        assert dps[..|dps|] == dps;
      }
    }
  }

  /** The first point without names of `dps` is that of its initial part,
      or the last point when the initial part has none. */
  lemma FirstMissingSnoc(dps: seq<DistributionPoint>)
    requires |dps| > 0
    ensures var init := dps[..|dps| - 1];
            FirstMissing(dps) == (if FirstMissing(init) < |init| then FirstMissing(init)
                                  else if dps[|dps| - 1].names.None? then |init| else |dps|)
  {
    var init := dps[..|dps| - 1];
    var k := FirstMissing(dps);
    var j := FirstMissing(init);
    assert forall i :: 0 <= i < |init| ==> init[i] == dps[i];
  }

  /** A decoder failure never disturbs the entry's identity, and on the
      identifiers with a fixed shape the default `[]` is what is kept. */
  lemma KeptOnFailure(oids: map<string, string>, logs: seq<Log>, ext: Extension)
    requires DecodeExtension(oids, logs, ext).Failure?
    requires ext.extnID != CrlDistributionPointsOid && ext.extnID != AuthorityKeyIdOid
    ensures Entry(oids, logs, ext).value == Empty
  {
  }

  /** Name Constraints: the decoded permitted and excluded subtrees, or
      the default `[]` when one of their names cannot be decoded. */
  lemma NameConstraintsValue(oids: map<string, string>, logs: seq<Log>, ext: Extension)
    requires ext.extnID == NameConstraintsOid && ext.parsed.Constraints?
    ensures var d := CertFields.DecodeNameConstraints(oids, ext.parsed.permitted, ext.parsed.excluded);
            DecodeExtension(oids, logs, ext) == (if d.Success? then Success(Sans(d.value)) else Failure(Empty))
  {
  }

  /** Basic Constraints: the parsed fields over the default `cA: false`. */
  lemma BasicConstraintsValue(oids: map<string, string>, logs: seq<Log>, ext: Extension)
    requires ext.extnID == BasicConstraintsOid && ext.parsed.Basic?
    ensures var r := DecodeExtension(oids, logs, ext);
            r.Success? && r.value.BasicValue?
            && (r.value.cA <==> ext.parsed.cA == Some(true))
            && r.value.pathLenConstraint == ext.parsed.pathLenConstraint
  {
  }

  /** Key Usage: the labels `keyUsage` gives for the BitString. */
  lemma KeyUsageValue(oids: map<string, string>, logs: seq<Log>, ext: Extension)
    requires ext.extnID == BitFlags.KeyUsageOid && ext.parsed.KeyBits?
    ensures DecodeExtension(oids, logs, ext)
            == Success(Usages(BitFlags.KeyUsage(ext.parsed.bits.bytes, ext.parsed.bits.unusedBits)))
  {
  }

  /** Extended Key Usage: each purpose with its `OIDS` name, in order. */
  lemma ExtKeyUsageValue(oids: map<string, string>, logs: seq<Log>, ext: Extension)
    requires ext.extnID == ExtKeyUsageOid && ext.parsed.Purposes?
    ensures var r := DecodeExtension(oids, logs, ext);
            var ps := ext.parsed.keyPurposes;
            r.Success? && r.value.PurposeList? && |r.value.purposes| == |ps|
            && forall i :: 0 <= i < |ps| ==>
                 r.value.purposes[i] == OidName(ps[i], CertFields.Lookup(oids, ps[i]))
  {
  }

  /** CRL Distribution Points: every name of every point when all points
      have names; otherwise a throw that keeps the names pushed before the
      first point without names. */
  lemma CrlValue(oids: map<string, string>, logs: seq<Log>, ext: Extension)
    requires ext.extnID == CrlDistributionPointsOid && ext.parsed.DistributionPoints?
    ensures var dps := ext.parsed.points;
            var k := FirstMissing(dps);
            var ns := AllNames(dps[..k]);
            DecodeExtension(oids, logs, ext)
            == if k == |dps| then Success(Points(PointItems(ns)))
               else Failure(if ns == [] then Empty else Points(PointItems(ns)))
  {
    CrlNamesPrefix(ext.parsed.points);
  }

  /** Subject Alternative Name: the decoded list, or the default `[]` when
      one of its names cannot be decoded. */
  lemma SubjectAltNameValue(oids: map<string, string>, logs: seq<Log>, ext: Extension)
    requires ext.extnID == SubjectAltNameOid && ext.parsed.AltNames?
    ensures var d := CertFields.DecodeSans(oids, ext.parsed.altNames, None);
            DecodeExtension(oids, logs, ext) == (if d.Success? then Success(Sans(d.value)) else Failure(Empty))
  {
    var id := ext.extnID;
    assert id != NameConstraintsOid && id != BasicConstraintsOid && id != BitFlags.KeyUsageOid
           && id != ExtKeyUsageOid && id != CrlDistributionPointsOid;
  }

  /** Authority Key Identifier: the two identifiers lower-cased and the
      issuer as parsed, each present exactly when the parsed one is. */
  lemma AuthorityKeyIdValue(oids: map<string, string>, logs: seq<Log>, ext: Extension)
    requires ext.extnID == AuthorityKeyIdOid && ext.parsed.AuthorityKey?
    ensures var r := DecodeExtension(oids, logs, ext);
            var p := ext.parsed;
            r.Success? && r.value.AuthorityKeyValue?
            && r.value.keyIdentifier == LowerOr(p.keyIdentifier)
            && r.value.authorityCertSerialNumber == LowerOr(p.authorityCertSerialNumber)
            && r.value.authorityCertIssuer == p.authorityCertIssuer
  {
  }

  /** Authority Info Access: each description's method with its `OIDS`
      name and its location's type and value, in order. */
  lemma InfoAccessValue(oids: map<string, string>, logs: seq<Log>, ext: Extension)
    requires ext.extnID == AuthorityInfoAccessOid && ext.parsed.InfoAccess?
    ensures var r := DecodeExtension(oids, logs, ext);
            var ds := ext.parsed.descriptions;
            r.Success? && r.value.AccessList? && |r.value.access| == |ds|
            && forall i :: 0 <= i < |ds| ==>
                 r.value.access[i] == AccessItem(ds[i].accessMethod, CertFields.Lookup(oids, ds[i].accessMethod),
                                                 ds[i].location.kind, ds[i].location.value)
  {
  }

  /** Netscape Certificate Type: the labels `netscapeCertType` gives for
      the reparsed BitString. */
  lemma NetscapeCertTypeValue(oids: map<string, string>, logs: seq<Log>, ext: Extension)
    requires ext.extnID == NetscapeCertTypeOid && ext.reparsed.Some?
    ensures DecodeExtension(oids, logs, ext)
            == Success(Usages(BitFlags.NetscapeCertType(ext.reparsed.value.bytes, ext.reparsed.value.unusedBits)))
  {
  }

  /** Certificate Policies: each policy with its `OIDS` name and its
      qualifiers, none when they are not an array. */
  lemma PoliciesValue(oids: map<string, string>, logs: seq<Log>, ext: Extension)
    requires ext.extnID == CertificatePoliciesOid && ext.parsed.Policies?
    ensures var r := DecodeExtension(oids, logs, ext);
            var ps := ext.parsed.policies;
            r.Success? && r.value.PolicyList? && |r.value.policies| == |ps|
            && forall i :: 0 <= i < |ps| ==>
                 r.value.policies[i].oid == ps[i].policyIdentifier
                 && r.value.policies[i].name == CertFields.Lookup(oids, ps[i].policyIdentifier)
                 && r.value.policies[i].qualifiers == QualifierItems(oids, ps[i].policyQualifiers.GetOr([]))
  {
  }

  /** Certificate Transparency: each timestamp with the description of the
      first listed log whose hex equals its lower-cased log id, in order. */
  lemma SctValue(oids: map<string, string>, logs: seq<Log>, ext: Extension)
    requires ext.extnID == SctListOid && ext.parsed.Timestamps?
    ensures var r := DecodeExtension(oids, logs, ext);
            var ts := ext.parsed.timestamps;
            r.Success? && r.value.Scts? && |r.value.scts| == |ts|
            && forall i :: 0 <= i < |ts| ==>
                 r.value.scts[i] == SctItem(ts[i].logID, LogName(logs, ts[i].logID),
                                            ts[i].hashAlgorithm, ts[i].signatureAlgorithm)
  {
  }

  /** An extension with an identifier the loop does not know is shown as
      the lower-case hexadecimal text of its raw value, and never fails. */
  lemma UnknownIsHex(oids: map<string, string>, logs: seq<Log>, ext: Extension)
    requires ext.extnID !in {NameConstraintsOid, BasicConstraintsOid, BitFlags.KeyUsageOid, ExtKeyUsageOid,
                             CrlDistributionPointsOid, SubjectAltNameOid, AuthorityKeyIdOid,
                             AuthorityInfoAccessOid, NetscapeCertTypeOid, CertificatePoliciesOid, SctListOid}
    ensures DecodeExtension(oids, logs, ext) == Success(HexText(Lower(ext.extnValueHex)))
  {
  }
}

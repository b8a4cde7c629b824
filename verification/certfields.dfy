/** The small decoders of `CertHelper` that turn parsed certificate fields
    into display records: the `OID` and `SANtypes` tables, distinguished
    names (`decodeIssuerSubject`), alternative names (`decodeSANs`), IP
    addresses with their masks (`decodeIP`), signature algorithms
    (`prepareAlgorithm`) and the pair separator
    (`addSeparatorAfterSecondCharset`). */
module CertFields {
  import opened Bits
  import opened Results
  import opened JsText
  import Hex
  import HexProps

  // ---- tables -----------------------------------------------------------------

  /** An entry of the `OID` table: the short name is absent for some types. */
  datatype Labels = Labels(short: Option<string>, long: string)

  /** The `OID` table of attribute types for issuer and subject names. */
  const OidTable: map<string, Labels> := map[
    "2.5.4.3" := Labels(Some("CN"), "Common Name"),
    "2.5.4.6" := Labels(Some("C"), "Country"),
    "2.5.4.5" := Labels(Some("serialNumber"), "Serial Number"),
    "0.9.2342.19200300.100.1.25" := Labels(Some("DC"), "Domain Component"),
    "1.2.840.113549.1.9.1" := Labels(Some("E"), "Email"),
    "2.5.4.42" := Labels(Some("G"), "Given Name"),
    "2.5.4.43" := Labels(Some("I"), "Initials"),
    "2.5.4.7" := Labels(Some("L"), "Locality"),
    "2.5.4.10" := Labels(Some("O"), "Organization"),
    "2.5.4.11" := Labels(Some("OU"), "Organization Unit"),
    "2.5.4.8" := Labels(Some("ST"), "State"),
    "2.5.4.9" := Labels(Some("Street"), "Street Address"),
    "2.5.4.4" := Labels(Some("SN"), "Surname"),
    "2.5.4.12" := Labels(Some("T"), "Title"),
    "1.2.840.113549.1.9.8" := Labels(None, "Unstructured Address"),
    "1.2.840.113549.1.9.2" := Labels(None, "Unstructured Name"),
    "1.3.6.1.4.1.311.60.2.1.3" := Labels(Some("jurisdictionCountry"), "Jurisdiction Country"),
    "2.5.4.15" := Labels(Some("businessCategory"), "Business Category"),
    "1.3.6.1.2.1.1.5" := Labels(None, "Host Name")
  ]

  /** The `SANtypes` table: labels of the GeneralName choices 0..8 of
      section 4.2.1.6 of RFC 5280. */
  const SanTypes: map<int, string> := map[
    0 := "Other Name", 1 := "Email Address", 2 := "DNS Name", 3 := "X400 Address",
    4 := "Directory Name", 5 := "Edi Party Name", 6 := "Uniform Resource Identifier",
    7 := "IP Address", 8 := "Registered ID"
  ]

  /** `OIDS[oid]` for the injected, read-only table of object identifier
      names: `undefined` when the identifier is not listed. */
  function Lookup(oids: map<string, string>, oid: string): Option<string> {
    if oid in oids then Some(oids[oid]) else None
  }

  /** `OIDS[oid] || oid`: the listed name, unless it is missing or empty. */
  function NameOr(oids: map<string, string>, oid: string): (r: string)
    ensures oid !in oids ==> r == oid
    ensures oid in oids && oids[oid] != "" ==> r == oids[oid]
    ensures r == oid <==> oid !in oids || oids[oid] == "" || oids[oid] == oid
  {
    if oid in oids && oids[oid] != "" then oids[oid] else oid
  }

  // ---- issuer and subject -----------------------------------------------------

  /** One attribute of a distinguished name as the parser reports it. */
  datatype TypeAndValue = TypeAndValue(oid: string, value: string)

  /** A decoded attribute: `name` is `undefined` (None) for table entries
      without a short name. */
  datatype NameEntry = NameEntry(name: Option<string>, nameLong: string, oid: string, value: string)

  function DecodeAttribute(tv: TypeAndValue): (e: NameEntry)
    ensures e.oid == tv.oid && e.value == tv.value
    ensures tv.oid in OidTable ==> e.name == OidTable[tv.oid].short && e.nameLong == OidTable[tv.oid].long
    ensures tv.oid !in OidTable ==> e.name == Some("") && e.nameLong == ""
  {
    if tv.oid in OidTable then NameEntry(OidTable[tv.oid].short, OidTable[tv.oid].long, tv.oid, tv.value)
    else NameEntry(Some(""), "", tv.oid, tv.value)
  }

  /** `decodeIssuerSubject(obj)`: None stands for a missing name or a name
      without `typesAndValues`. */
  function DecodeIssuerSubject(name: Option<seq<TypeAndValue>>): (r: seq<NameEntry>)
    ensures name.None? ==> r == []
    ensures name.Some? ==> |r| == |name.value|
    ensures name.Some? ==> forall i :: 0 <= i < |r| ==> r[i] == DecodeAttribute(name.value[i])
  {
    match name
    case None => []
    case Some(tvs) => seq(|tvs|, i requires 0 <= i < |tvs| => DecodeAttribute(tvs[i]))
  }

  /** The attributes of a name, a missing name having none. */
  function Attributes(name: Option<seq<TypeAndValue>>): seq<TypeAndValue> {
    if name.None? then [] else name.value
  }

  /** Decoding keeps the type and the value of each attribute, so two names
      decode alike exactly when they hold the same attributes in the same
      order: `isRoot`, the comparison of the decoded issuer and subject,
      compares the names themselves. */
  lemma DecodeIssuerSubjectInjective(a: Option<seq<TypeAndValue>>, b: Option<seq<TypeAndValue>>)
    ensures DecodeIssuerSubject(a) == DecodeIssuerSubject(b) <==> Attributes(a) == Attributes(b)
  {
    var da, db := DecodeIssuerSubject(a), DecodeIssuerSubject(b);
    var xa, xb := Attributes(a), Attributes(b);
    assert |da| == |xa| && |db| == |xb|;
    if da == db {
      forall i | 0 <= i < |xa|
        ensures xa[i] == xb[i]
      {
        assert da[i] == DecodeAttribute(xa[i]);
        assert db[i] == DecodeAttribute(xb[i]);
      }
    }
    if xa == xb {
      forall i | 0 <= i < |da|
        ensures da[i] == db[i]
      {
        assert da[i] == DecodeAttribute(xa[i]);
        assert db[i] == DecodeAttribute(xb[i]);
      }
    }
  }

  // ---- IP addresses -----------------------------------------------------------

  predicate IsHexText(s: string) {
    forall i :: 0 <= i < |s| ==> Hex.Classify(s[i]).Digit?
  }

  /** `parseInt(s, 16)` on a run of hexadecimal digits. */
  function HexValue(s: string): nat
    requires IsHexText(s)
  {
    if |s| == 0 then 0 else 16 * HexValue(s[..|s| - 1]) + Hex.Classify(s[|s| - 1]).v
  }

  /** Only zero digits read as zero. */
  lemma {:induction false} HexValueZero(s: string)
    requires IsHexText(s)
    ensures HexValue(s) == 0 <==> forall i :: 0 <= i < |s| ==> s[i] == '0'
  {
    if |s| > 0 {
      var init := s[..|s| - 1];
      HexValueZero(init);
      assert forall i :: 0 <= i < |init| ==> init[i] == s[i];
    }
  }

  /** Two digits read at most 255. */
  lemma HexValueByte(s: string)
    requires IsHexText(s) && |s| == 2
    ensures HexValue(s) < 256
  {
    TwoDigits(s);
  }

  /** Two digits read as high digit times 16 plus low digit. */
  lemma TwoDigits(s: string)
    requires IsHexText(s) && |s| == 2
    ensures HexValue(s) == 16 * Hex.Classify(s[0]).v + Hex.Classify(s[1]).v
  {
    var a := s[..1];
    assert a[..0] == [];
    assert HexValue(a) == Hex.Classify(a[0]).v;
  }

  /** `s.replace(/(.{2})/g, m => `${parseInt(m, 16)}.`)` on hexadecimal text:
      each pair of digits becomes its decimal value and a dot. */
  function DottedPairs(s: string): string
    requires IsHexText(s)
    decreases |s|
  {
    if |s| < 2 then s else NatToString(HexValue(s[..2])) + "." + DottedPairs(s[2..])
  }

  /** An IPv4 address in dotted-decimal notation, "a.b.c.d". */
  function DottedAddress(a: nat, b: nat, c: nat, d: nat): string {
    NatToString(a) + "." + NatToString(b) + "." + NatToString(c) + "." + NatToString(d)
  }

  /** An address and a prefix length in CIDR notation, "a.b.c.d/k". */
  function CidrText(a: nat, b: nat, c: nat, d: nat, k: nat): string {
    DottedAddress(a, b, c, d) + "/" + NatToString(k)
  }

  /** `decodeIP(string)`, on the hexadecimal text the ASN.1 parser produces
      for an IP address (and mask) of a GeneralName. */
  function DecodeIP(s: string): (r: string)
    requires |s| == 16 || |s| == 64 ==> IsHexText(s)
    ensures |s| == 64 && (forall i :: 0 <= i < |s| ==> s[i] == '0') ==> r == "::/0"
    ensures |s| != 16 && !(|s| == 64 && forall i :: 0 <= i < |s| ==> s[i] == '0') ==> r == s
    ensures |s| == 16 ==>
      r == CidrText(HexValue(s[0..2]), HexValue(s[2..4]), HexValue(s[4..6]), HexValue(s[6..8]),
                    PopCount(HexValue(s[8..])))
  {
    if |s| == 64 then
      HexValueZero(s);
      if HexValue(s) == 0 then "::/0" else s
    else if |s| != 16 then s
    else
      DottedQuad(s[..8]);
      assert s[..8][0..2] == s[0..2] && s[..8][2..4] == s[2..4];
      assert s[..8][4..6] == s[4..6] && s[..8][6..8] == s[6..8];
      DropLast(DottedPairs(s[..8])) + "/" + NatToString(PopCount(HexValue(s[8..])))
  }

  /** Four pairs of digits give four numbers, each followed by a dot. */
  lemma DottedQuad(s: string)
    requires IsHexText(s) && |s| == 8
    ensures DropLast(DottedPairs(s)) ==
      DottedAddress(HexValue(s[0..2]), HexValue(s[2..4]), HexValue(s[4..6]), HexValue(s[6..8]))
  {
    var n0, n1 := NatToString(HexValue(s[0..2])), NatToString(HexValue(s[2..4]));
    var n2, n3 := NatToString(HexValue(s[4..6])), NatToString(HexValue(s[6..8]));
    DottedEight(s);
    var w := DottedAddress(HexValue(s[0..2]), HexValue(s[2..4]), HexValue(s[4..6]), HexValue(s[6..8]));
    assert DottedPairs(s) == w + "." by {
      Associate(n0, n1, n2, n3, ".");
    }
    assert (w + ".")[..|w|] == w;
  }

  lemma DottedEight(s: string)
    requires IsHexText(s) && |s| == 8
    ensures DottedPairs(s) ==
      NatToString(HexValue(s[0..2])) + "." + (NatToString(HexValue(s[2..4])) + "."
      + (NatToString(HexValue(s[4..6])) + "." + (NatToString(HexValue(s[6..8])) + ".")))
  {
    DottedSlice(s, 0);
    DottedSlice(s, 2);
    DottedSlice(s, 4);
    DottedLast(s);
    assert s[0..] == s;
  }

  lemma DottedLast(s: string)
    requires IsHexText(s) && |s| >= 2
    ensures IsHexText(s[|s| - 2..]) && IsHexText(s[|s| - 2..|s|])
    ensures DottedPairs(s[|s| - 2..]) == NatToString(HexValue(s[|s| - 2..|s|])) + "."
  {
    var t := s[|s| - 2..];
    assert t == s[|s| - 2..|s|] && t[..2] == t && t[2..] == [];
    DottedStep(t);
    assert DottedPairs(t[2..]) == [];
    assert NatToString(HexValue(t)) + "." + [] == NatToString(HexValue(t)) + ".";
  }

  lemma DottedSlice(s: string, i: nat)
    requires IsHexText(s) && i + 2 <= |s|
    ensures IsHexText(s[i..]) && IsHexText(s[i..i + 2])
    ensures DottedPairs(s[i..]) == NatToString(HexValue(s[i..i + 2])) + "." + DottedPairs(s[i + 2..])
  {
    var t := s[i..];
    assert forall j :: 0 <= j < |t| ==> t[j] == s[i + j];
    DottedStep(t);
    assert t[..2] == s[i..i + 2] && t[2..] == s[i + 2..];
  }

  lemma DottedStep(s: string)
    requires IsHexText(s) && |s| >= 2
    ensures DottedPairs(s) == NatToString(HexValue(s[..2])) + "." + DottedPairs(s[2..])
  {
  }

  lemma Associate(a: string, b: string, c: string, d: string, x: string)
    ensures a + x + (b + x + (c + x + (d + x))) == a + x + b + x + c + x + d + x
  {
  }

  /** Each decoded octet is at most 255 and the mask at most 32. */
  lemma DecodeIPBounds(s: string)
    requires |s| == 16 && IsHexText(s)
    ensures HexValue(s[0..2]) < 256 && HexValue(s[2..4]) < 256
    ensures HexValue(s[4..6]) < 256 && HexValue(s[6..8]) < 256
    ensures PopCount(HexValue(s[8..])) <= 32
  {
    HexValueByte(s[0..2]);
    HexValueByte(s[2..4]);
    HexValueByte(s[4..6]);
    HexValueByte(s[6..8]);
    MaskBound(s[8..]);
  }

  /** Eight digits hold at most 32 set bits. */
  lemma MaskBound(m: string)
    requires |m| == 8 && IsHexText(m)
    ensures PopCount(HexValue(m)) <= 32
  {
    var w := 4 * |m|;
    HexValueBound(m);
    PopCountBound(HexValue(m), w);
  }

  /** `k` digits read below 16^k = 2^(4k). */
  lemma {:induction false} HexValueBound(s: string)
    requires IsHexText(s)
    ensures HexValue(s) < Pow2(4 * |s|)
  {
    if |s| > 0 {
      var init := s[..|s| - 1];
      HexValueBound(init);
      Pow2Add4(4 * |init|);
    }
  }

  lemma Pow2Add4(k: nat)
    ensures Pow2(k + 4) == 16 * Pow2(k)
  {
    assert Pow2(k + 4) == 2 * Pow2(k + 3) == 4 * Pow2(k + 2) == 8 * Pow2(k + 1);
  }

  /** A number below 2^k has at most k set bits. */
  lemma {:induction false} PopCountBound(x: nat, k: nat)
    requires x < Pow2(k)
    ensures PopCount(x) <= k
  {
    if x > 0 {
      assert k > 0;
      assert x / 2 < Pow2(k - 1);
      PopCountBound(x / 2, k - 1);
    }
  }

  /** The example of the source's comment: the address 62.153.108.216
      with a mask of 29 leading ones ("3E996CD8FFFFFFF8") decodes to
      "62.153.108.216/29". */
  lemma DecodeIPExample(x: seq<byte>, k: nat)
    requires x == [62, 153, 108, 216] && k == 29
    ensures HexProps.Encode(x, true) + HexWord(PrefixMask(k)) == "3E996CD8" + "FFFFFFF8"
    ensures var s := HexProps.Encode(x, true) + HexWord(PrefixMask(k));
      |s| == 16 && IsHexText(s) &&
      DecodeIP(s) == "62" + "." + "153" + "." + "108" + "." + "216" + "/" + "29"
  {
    DecodeIPOfBytes(x[0], x[1], x[2], x[3], k);
    assert [x[0], x[1], x[2], x[3]] == x;
    CidrExample();
    AddressExample(x);
    MaskExample(k);
  }

  lemma AddressExample(x: seq<byte>)
    requires x == [62, 153, 108, 216]
    ensures HexProps.Encode(x, true) == "3E996CD8"
  {
    var ds := HexProps.Split(x);
    HexProps.SplitAt(x, 0);
    HexProps.SplitAt(x, 1);
    HexProps.SplitAt(x, 2);
    HexProps.SplitAt(x, 3);
    assert ds == [3, 14, 9, 9, 6, 12, 13, 8];
  }

  lemma MaskExample(k: nat)
    requires k == 29
    ensures HexWord(PrefixMask(k)) == "FFFFFFF" + "8"
  {
    var q := Pow2(28) - 1;
    MaskValue(k, 8, q);
    MaskDigits(PrefixMask(k), 8, q);
    MaskLiteral(FDigits(7), '8');
  }

  /** `w` digits of 16q + 8, with q of `w - 1` all-ones nibbles: `w - 1`
      'F' digits and an '8'. */
  lemma MaskDigits(n: nat, w: nat, q: nat)
    requires w >= 1 && q == Pow2(4 * (w - 1)) - 1 && n == 16 * q + 8
    ensures HexDigits(n, w) == FDigits(w - 1) + ['8']
  {
    OnesThenDigit(q, w - 1, 8);
  }

  /** The 29-bit mask is seven all-ones nibbles and the nibble 8. */
  lemma MaskValue(k: nat, w: nat, q: nat)
    requires k == 29 && w == 8 && q == Pow2(4 * (w - 1)) - 1
    ensures PrefixMask(k) == 16 * q + 8
  {
    assert Pow2(k) == 2 * (q + 1);
    assert Pow2(32 - k) == 8;
  }

  lemma MaskLiteral(t: string, c: char)
    requires |t| == 7 && c == '8' && forall i :: 0 <= i < 7 ==> t[i] == 'F'
    ensures t + [c] == "FFFFFFF" + "8"
  {
  }

  /** `j` digits 'F'. */
  function FDigits(j: nat): (s: string)
    ensures |s| == j && forall i :: 0 <= i < j ==> s[i] == 'F'
  {
    seq(j, i => 'F')
  }

  /** A run of `j` 'F' digits followed by the digit `d`. */
  lemma OnesThenDigit(q: nat, j: nat, d: nat)
    requires d < 16 && q == Pow2(4 * j) - 1
    ensures HexDigits(16 * q + d, j + 1) == FDigits(j) + [HexProps.Digit(d, true)]
  {
    AllOnesDigits(j);
    DigitsSnoc(q, j, FDigits(j), d);
  }

  /** Appending the digit `d` to the digits of `q`. */
  lemma DigitsSnoc(q: nat, k: nat, t: string, d: nat)
    requires d < 16 && HexDigits(q, k) == t
    ensures HexDigits(16 * q + d, k + 1) == t + [HexProps.Digit(d, true)]
  {
    assert (16 * q + d) / 16 == q && (16 * q + d) % 16 == d;
  }

  /** `k` hexadecimal digits of 2^(4k) - 1 are all 'F'. */
  lemma {:induction false} AllOnesDigits(k: nat)
    ensures HexDigits(Pow2(4 * k) - 1, k) == FDigits(k)
  {
    if k > 0 {
      var p := Pow2(4 * (k - 1));
      Pow2Add4(4 * (k - 1));
      assert (16 * p - 1) / 16 == p - 1 && (16 * p - 1) % 16 == 15;
      AllOnesDigits(k - 1);
    }
  }

  lemma CidrExample()
    ensures CidrText(62, 153, 108, 216, 29) == "62" + "." + "153" + "." + "108" + "." + "216" + "/" + "29"
  {
    NatToString2(62);
    NatToString3(153);
    NatToString3(108);
    NatToString3(216);
    NatToString2(29);
    assert NatToString(62) == "62" && NatToString(29) == "29";
    assert NatToString(153) == "153" && NatToString(108) == "108" && NatToString(216) == "216";
  }

  lemma NatToString2(n: nat)
    requires 10 <= n < 100
    ensures NatToString(n) == [DigitChar(n / 10), DigitChar(n % 10)]
  {
  }

  lemma NatToString3(n: nat)
    requires 100 <= n < 1000
    ensures NatToString(n) == [DigitChar(n / 100), DigitChar(n / 10 % 10), DigitChar(n % 10)]
  {
    NatToString2(n / 10);
  }

  /** The address and mask bytes written as the parser's upper-case
      hexadecimal text decode to the dotted address and the mask's number of
      set bits; for a contiguous mask with `k` leading ones, that is `k`. */
  lemma DecodeIPOfBytes(b0: byte, b1: byte, b2: byte, b3: byte, k: nat)
    requires k <= 32
    ensures var s := HexProps.Encode([b0, b1, b2, b3], true) + HexWord(PrefixMask(k));
      |s| == 16 && IsHexText(s) &&
      DecodeIP(s) == CidrText(b0, b1, b2, b3, k)
  {
    var x := [b0, b1, b2, b3];
    AddressText(x);
    MaskText(k);
    DecodeIPJoin(HexProps.Encode(x, true), HexWord(PrefixMask(k)), b0, b1, b2, b3, k);
  }

  /** The eight digits of an address read back, pair by pair, as its bytes. */
  lemma AddressText(x: seq<byte>)
    requires |x| == 4
    ensures var a := HexProps.Encode(x, true);
      |a| == 8 && IsHexText(a) && IsHexText(a[0..2]) && IsHexText(a[2..4])
      && IsHexText(a[4..6]) && IsHexText(a[6..8])
      && HexValue(a[0..2]) == x[0] && HexValue(a[2..4]) == x[1]
      && HexValue(a[4..6]) == x[2] && HexValue(a[6..8]) == x[3]
  {
    EncodedIsHex(x);
    EncodedByte(x, 0);
    EncodedByte(x, 1);
    EncodedByte(x, 2);
    EncodedByte(x, 3);
  }

  /** The eight digits of a prefix mask read back as the mask, which has `k`
      set bits. */
  lemma MaskText(k: nat)
    requires k <= 32
    ensures IsHexText(HexWord(PrefixMask(k))) && PopCount(HexValue(HexWord(PrefixMask(k)))) == k
  {
    PrefixMaskBound(k);
    HexWordValue(PrefixMask(k), 8);
    PrefixMaskPopCount(k);
  }

  /** Eight address digits followed by eight mask digits decode as the
      dotted address and the mask's count of set bits. */
  lemma DecodeIPJoin(a: string, m: string, n0: nat, n1: nat, n2: nat, n3: nat, k: nat)
    requires |a| == 8 && |m| == 8 && IsHexText(a) && IsHexText(m)
    requires IsHexText(a[0..2]) && IsHexText(a[2..4]) && IsHexText(a[4..6]) && IsHexText(a[6..8])
    requires HexValue(a[0..2]) == n0 && HexValue(a[2..4]) == n1
    requires HexValue(a[4..6]) == n2 && HexValue(a[6..8]) == n3
    requires PopCount(HexValue(m)) == k
    ensures var s := a + m;
      |s| == 16 && IsHexText(s) &&
      DecodeIP(s) == CidrText(n0, n1, n2, n3, k)
  {
    var s := a + m;
    assert forall i :: 0 <= i < |s| ==> s[i] == if i < 8 then a[i] else m[i - 8];
    assert s[8..] == m;
    assert s[0..2] == a[0..2] && s[2..4] == a[2..4] && s[4..6] == a[4..6] && s[6..8] == a[6..8];
  }

  /** The upper-case Base16 text of bytes is hexadecimal text. */
  lemma EncodedIsHex(x: seq<byte>)
    ensures IsHexText(HexProps.Encode(x, true))
  {
  }

  /** The two digits of byte `i` read back as that byte. */
  lemma EncodedByte(x: seq<byte>, i: nat)
    requires i < |x|
    ensures IsHexText(HexProps.Encode(x, true)[2 * i..2 * i + 2])
    ensures HexValue(HexProps.Encode(x, true)[2 * i..2 * i + 2]) == x[i]
  {
    var e := HexProps.Encode(x, true);
    var s := e[2 * i..2 * i + 2];
    var ds := HexProps.Split(x);
    HexProps.SplitAt(x, i);
    assert s[0] == e[2 * i] == HexProps.Digit(ds[2 * i], true);
    assert s[1] == e[2 * i + 1] == HexProps.Digit(ds[2 * i + 1], true);
    TwoDigits(s);
    assert 16 * (x[i] / 16) + x[i] % 16 == x[i];
  }

  lemma PrefixMaskBound(k: nat)
    requires k <= 32
    ensures PrefixMask(k) < Pow2(32)
  {
    Pow2Split(k, 32 - k);
    LessOne(Pow2(k), Pow2(32 - k));
  }

  lemma LessOne(a: nat, b: nat)
    requires a >= 1 && b >= 1
    ensures (a - 1) * b < a * b
  {
  }

  lemma {:induction false} Pow2Split(a: nat, b: nat)
    ensures Pow2(a + b) == Pow2(a) * Pow2(b)
  {
    if b > 0 {
      Pow2Split(a, b - 1);
    }
  }

  /** `n` as `k` upper-case hexadecimal digits (the low `4k` bits). */
  function HexWord(n: nat): (s: string)
    ensures |s| == 8
  {
    HexDigits(n, 8)
  }

  function HexDigits(n: nat, k: nat): (s: string)
    ensures |s| == k
  {
    if k == 0 then "" else HexDigits(n / 16, k - 1) + [HexProps.Digit(n % 16, true)]
  }

  /** Reading the `k` digits back gives `n`, when `n` fits in them. */
  lemma {:induction false} HexWordValue(n: nat, k: nat)
    requires n < Pow2(4 * k)
    ensures IsHexText(HexDigits(n, k)) && HexValue(HexDigits(n, k)) == n
  {
    if k > 0 {
      Pow2Add4(4 * (k - 1));
      assert n / 16 < Pow2(4 * (k - 1));
      HexWordValue(n / 16, k - 1);
      var s := HexDigits(n, k);
      assert s[..|s| - 1] == HexDigits(n / 16, k - 1);
    }
  }

  // ---- alternative names ------------------------------------------------------

  /** The value of a GeneralName as the parser reports it: the attributes
      of a directory name, the bytes of an IP address (with its mask in a
      name constraint), a string, or some other object. */
  datatype NameValue = DirName(attributes: seq<TypeAndValue>) | IpBytes(bytes: seq<byte>) | Text(s: string) | Object

  datatype GeneralName = GeneralName(kind: int, value: NameValue)

  /** An entry of `altNames`, or a subtree of a name constraint, whose
      name is its `base`. */
  datatype AltName = Direct(name: GeneralName) | Subtree(base: GeneralName)

  datatype DirEntry = DirEntry(name: Option<string>, oid: string, value: string)

  datatype SanValue = Names(entries: seq<DirEntry>) | Str(s: string)

  /** A decoded entry: `type` label, `typeValue`, the spread `dataForItem`
      (here at most the `subtreeName`), and `value`. */
  datatype SanItem = SanItem(typeLabel: string, typeValue: int, subtreeName: Option<string>, value: SanValue)

  /** `an.base || an`. */
  function Chosen(an: AltName): GeneralName {
    match an
    case Direct(g) => g
    case Subtree(g) => g
  }

  /** `SANtypes[type] || 'need handler for this type - ' + type`. */
  function SanLabel(kind: int): (r: string)
    ensures 0 <= kind <= 8 ==> r == SanTypes[kind]
    ensures !(0 <= kind <= 8) ==> r == "need handler for this type - " + IntToString(kind)
  {
    if kind in SanTypes then SanTypes[kind] else "need handler for this type - " + IntToString(kind)
  }

  /** One entry of `decodeSANs`. A directory name (type 4) or an IP address
      (type 7) whose value has the wrong shape makes the source throw. */
  function DecodeSan(oids: map<string, string>, an: AltName, subtree: Option<string>): (r: Result<SanItem, string>)
    ensures r.Success? ==> r.value.typeValue == Chosen(an).kind && r.value.subtreeName == subtree
    ensures r.Success? ==> r.value.typeLabel == SanLabel(Chosen(an).kind)
    ensures r.Failure? <==> (Chosen(an).kind == 4 && !Chosen(an).value.DirName?)
                            || (Chosen(an).kind == 7 && !Chosen(an).value.IpBytes?)
    ensures r.Success? && Chosen(an).kind == 4 ==>
      var tvs := Chosen(an).value.attributes;
      r.value.value.Names? && |r.value.value.entries| == |tvs|
      && forall i :: 0 <= i < |tvs| ==>
           r.value.value.entries[i] == DirEntry(Lookup(oids, tvs[i].oid), tvs[i].oid, tvs[i].value)
    ensures r.Success? && Chosen(an).kind == 7 ==>
      r.value.value == Str(DecodeIP(HexProps.Encode(Chosen(an).value.bytes, true)))
    ensures r.Success? && Chosen(an).kind != 4 && Chosen(an).kind != 7 ==>
      r.value.value == Str(if Chosen(an).value.Text? then Chosen(an).value.s
                           else "type value is not a string - " + IntToString(Chosen(an).kind))
  {
    var g := Chosen(an);
    var name := SanLabel(g.kind);
    if g.kind == 4 then
      match g.value
      case DirName(tvs) =>
        Success(SanItem(name, 4, subtree,
          Names(seq(|tvs|, i requires 0 <= i < |tvs| => DirEntry(Lookup(oids, tvs[i].oid), tvs[i].oid, tvs[i].value)))))
      case _ => Failure("TypeError")
    else if g.kind == 7 then
      match g.value
      case IpBytes(bytes) =>
        var hex := HexProps.Encode(bytes, true);
        EncodedIsHex(bytes);
        Success(SanItem(name, 7, subtree, Str(DecodeIP(hex))))
      case _ => Failure("TypeError")
    else
      Success(SanItem(name, g.kind, subtree, Str(
        match g.value
        case Text(s) => s
        case _ => "type value is not a string - " + IntToString(g.kind))))
  }

  /** `decodeSANs(list, dataForItem)`: one item per entry, in order, or the
      first entry's exception. */
  function DecodeSans(oids: map<string, string>, list: seq<AltName>, subtree: Option<string>): (r: Result<seq<SanItem>, string>)
    ensures r.Success? ==> |r.value| == |list|
    ensures r.Success? ==> forall i :: 0 <= i < |list| ==> DecodeSan(oids, list[i], subtree) == Success(r.value[i])
    ensures r.Failure? <==> exists i :: 0 <= i < |list| && DecodeSan(oids, list[i], subtree).Failure?
  {
    if |list| == 0 then Success([])
    else
      var head :- DecodeSan(oids, list[0], subtree);
      var rest :- DecodeSans(oids, list[1..], subtree);
      assert forall i :: 1 <= i < |list| ==> list[i] == list[1..][i - 1];
      Success([head] + rest)
  }

  /** The Name Constraints value: every permitted subtree, then every
      excluded one, a missing list counting as empty. */
  function DecodeNameConstraints(oids: map<string, string>, permitted: Option<seq<AltName>>, excluded: Option<seq<AltName>>)
    : (r: Result<seq<SanItem>, string>)
    ensures r.Success? ==>
      var p := DecodeSans(oids, permitted.GetOr([]), Some("permitted"));
      var e := DecodeSans(oids, excluded.GetOr([]), Some("excluded"));
      p.Success? && e.Success? && r.value == p.value + e.value
    ensures r.Success? ==> forall i :: 0 <= i < |r.value| ==>
      r.value[i].subtreeName == Some(if i < |permitted.GetOr([])| then "permitted" else "excluded")
    ensures r.Failure? <==> DecodeSans(oids, permitted.GetOr([]), Some("permitted")).Failure?
                            || DecodeSans(oids, excluded.GetOr([]), Some("excluded")).Failure?
  {
    var p :- DecodeSans(oids, permitted.GetOr([]), Some("permitted"));
    var e :- DecodeSans(oids, excluded.GetOr([]), Some("excluded"));
    Success(p + e)
  }

  // ---- signature algorithms -----------------------------------------------------

  /** `{ name, hash }`; the hash is absent for an unknown algorithm. */
  datatype Algorithm = Algorithm(name: string, hash: Option<string>)

  /** The six algorithms `prepareAlgorithm` knows, as a table. */
  const KnownAlgorithms: map<string, (string, string)> := map[
    "1.2.840.113549.1.1.5" := ("RSASSA-PKCS1-v1_5", "SHA-1"),
    "1.2.840.113549.1.1.11" := ("RSASSA-PKCS1-v1_5", "SHA-256"),
    "1.2.840.113549.1.1.12" := ("RSASSA-PKCS1-v1_5", "SHA-384"),
    "1.2.840.113549.1.1.13" := ("RSASSA-PKCS1-v1_5", "SHA-512"),
    "1.2.840.10045.4.3.2" := ("ECDSA", "SHA-256"),
    "1.2.840.10045.4.1" := ("ECDSA", "SHA-1")
  ]

  /** `prepareAlgorithm(pkiAlg)`, its `switch` written out; None is a
      missing algorithm and the `null` result. */
  function PrepareAlgorithm(alg: Option<string>): (r: Option<Algorithm>)
    ensures alg.None? <==> r.None?
    ensures alg.Some? && alg.value in KnownAlgorithms ==>
      r == Some(Algorithm(KnownAlgorithms[alg.value].0, Some(KnownAlgorithms[alg.value].1)))
    ensures alg.Some? && alg.value !in KnownAlgorithms ==> r == Some(Algorithm(alg.value, None))
  {
    match alg
    case None => None
    case Some(id) =>
      Some(
        if id == "1.2.840.113549.1.1.5" then Algorithm("RSASSA-PKCS1-v1_5", Some("SHA-1"))
        else if id == "1.2.840.113549.1.1.11" then Algorithm("RSASSA-PKCS1-v1_5", Some("SHA-256"))
        else if id == "1.2.840.113549.1.1.12" then Algorithm("RSASSA-PKCS1-v1_5", Some("SHA-384"))
        else if id == "1.2.840.113549.1.1.13" then Algorithm("RSASSA-PKCS1-v1_5", Some("SHA-512"))
        else if id == "1.2.840.10045.4.3.2" then Algorithm("ECDSA", Some("SHA-256"))
        else if id == "1.2.840.10045.4.1" then Algorithm("ECDSA", Some("SHA-1"))
        else Algorithm(id, None))
  }

  // ---- pair separator -----------------------------------------------------------

  /** `addSeparatorAfterSecondCharset(string, separator)` as written: the
      separator after every two characters, then the last character cut off. */
  function SeparateAsWritten(s: string, sep: string): string {
    DropLast(ReplaceChunks(s, 2, sep))
  }

  /** What the name promises: the pairs of `s` joined by the separator, a
      trailing odd character kept. */
  function SeparatePairs(s: string, sep: string): (r: string)
    ensures |r| == |s| + (if |s| == 0 then 0 else (|s| - 1) / 2 * |sep|)
    decreases |s|
  {
    if |s| <= 2 then s
    else
      PairCount(|s|, |sep|);
      s[..2] + sep + SeparatePairs(s[2..], sep)
  }

  /** One more pair adds one more separator. */
  lemma PairCount(n: nat, m: nat)
    requires n > 2
    ensures (n - 1) / 2 * m == (n - 3) / 2 * m + m
  {
    var h := (n - 3) / 2;
    assert (n - 1) / 2 == h + 1;
    assert (h + 1) * m == h * m + m;
  }

  /** Removing a separator character the text does not contain gives the text back. */
  lemma {:induction false} SeparatePairsRemove(s: string, c: char)
    requires c !in s
    ensures Remove(SeparatePairs(s, [c]), c) == s
    decreases |s|
  {
    if |s| <= 2 {
      RemoveAbsent(s, c);
    } else {
      SeparatePairsRemove(s[2..], c);
      RemoveAppend(s[..2] + [c], SeparatePairs(s[2..], [c]), c);
      RemoveAppend(s[..2], [c], c);
      RemoveAbsent(s[..2], c);
      assert Remove([c], c) == [];
      assert s[..2] + s[2..] == s;
    }
  }

  /** On the even-length hexadecimal text the source passes, with the
      default one-character separator, the written code does what is meant. */
  lemma SeparateAgreesOnEvenText(s: string, sep: string)
    requires |s| % 2 == 0 && NoLineTerminator(s) && |sep| == 1
    ensures SeparateAsWritten(s, sep) == SeparatePairs(s, sep)
  {
    if |s| > 0 {
      ChunksOfEvenText(s, sep);
      assert (SeparatePairs(s, sep) + sep)[..|SeparatePairs(s, sep) + sep| - 1] == SeparatePairs(s, sep);
    }
  }

  lemma {:induction false} ChunksOfEvenText(s: string, sep: string)
    requires |s| % 2 == 0 && |s| > 0 && NoLineTerminator(s)
    ensures ReplaceChunks(s, 2, sep) == SeparatePairs(s, sep) + sep
    decreases |s|
  {
    assert NoLineTerminator(s[..2]);
    if |s| == 2 {
      assert s[2..] == [];
      assert s[..2] == s;
    } else {
      assert NoLineTerminator(s[2..]);
      ChunksOfEvenText(s[2..], sep);
    }
  }

  /** On odd-length text the written code drops the last character and
      leaves a separator at the end. */
  lemma SeparateAsWrittenDropsLast()
    ensures SeparateAsWritten("abc", " ") == "ab "
    ensures SeparatePairs("abc", " ") == "ab c"
  {
    assert NoLineTerminator("abc"[..2]);
    assert "abc"[..2] == "ab" && "abc"[2..] == "c";
    assert ReplaceChunks("abc", 2, " ") == "ab c";
  }
}

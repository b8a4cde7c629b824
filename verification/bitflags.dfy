/** The bit-flag decoders of `CertHelper.Extensions`: the Key Usage
    BitString of section 4.2.1.3 of RFC 5280 (`keyUsage` and its copy
    `keyUsageAttr`) and the Netscape certificate type byte
    (`netscapeCertType`). Each tests fixed bit masks of the (partly masked)
    bytes and lists the labels of the set bits in mask order. */
module BitFlags {
  import opened Bits

  /** The object identifier of the Key Usage extension. */
  const KeyUsageOid := "2.5.29.15"

  /** Labels of the Key Usage bits, tested as 0x80 .. 0x01 of the first byte
      and then 0x80 of the second byte. */
  const KeyUsageNames: seq<string> := [
    "Digital Signature", "Non Repudiation", "Key Encipherment", "Data Encipherment",
    "Key Agreement", "Key Cert Sign", "cRL Sign", "Encipher Only", "Decipher Only"
  ]

  /** Labels of the Netscape certificate type bits, tested as 0x80 .. 0x01. */
  const NetscapeCertTypeNames: seq<string> := [
    "SSL client", "SSL server", "S/MIME", "Object Signing",
    "Reserved", "SSL CA", "S/MIME CA", "Object Signing CA"
  ]

  predicate Distinct(xs: seq<string>) {
    forall i, j :: 0 <= i < j < |xs| ==> xs[i] != xs[j]
  }

  /** Position of `x` in `xs`. */
  function Rank(xs: seq<string>, x: string): (r: nat)
    requires x in xs
    ensures r < |xs| && xs[r] == x
    ensures forall j :: 0 <= j < r ==> xs[j] != x
  {
    if xs[0] == x then 0 else 1 + Rank(xs[1..], x)
  }

  /** Every element of `r` is a label and the labels appear in table order,
      so no label appears twice. */
  predicate InOrder(r: seq<string>, labels: seq<string>) {
    && (forall i :: 0 <= i < |r| ==> r[i] in labels)
    && (forall i, j :: 0 <= i < j < |r| ==> Rank(labels, r[i]) < Rank(labels, r[j]))
  }

  /** The labels whose bit is set, in table order. */
  function Flags(bits: seq<bool>, labels: seq<string>): seq<string>
    requires |bits| == |labels|
  {
    if |labels| == 0 then []
    else (if bits[0] then [labels[0]] else []) + Flags(bits[1..], labels[1..])
  }

  /** With distinct labels, a label is listed exactly when its bit is set,
      and the listing follows the table. */
  lemma {:induction false} FlagsSpec(bits: seq<bool>, labels: seq<string>)
    requires |bits| == |labels|
    requires Distinct(labels)
    ensures forall j :: 0 <= j < |labels| ==> (labels[j] in Flags(bits, labels) <==> bits[j])
    ensures InOrder(Flags(bits, labels), labels)
    ensures |Flags(bits, labels)| <= |labels|
  {
    if |labels| > 0 {
      var rest := Flags(bits[1..], labels[1..]);
      FlagsSpec(bits[1..], labels[1..]);
      var r := Flags(bits, labels);
      assert r == (if bits[0] then [labels[0]] else []) + rest;
      forall y | y in labels[1..]
        ensures Rank(labels, y) == 1 + Rank(labels[1..], y)
      {
        assert y != labels[0];
      }
      forall j | 0 <= j < |labels|
        ensures labels[j] in r <==> bits[j]
      {
        if j > 0 {
          assert labels[1..][j - 1] == labels[j];
          assert labels[j] != labels[0];
        }
      }
      InOrderPrepend(labels, rest, bits[0]);
    }
  }

  /** Putting the first label, or nothing, before an ordered listing of
      the later labels keeps the listing in table order. */
  lemma InOrderPrepend(labels: seq<string>, rest: seq<string>, take: bool)
    requires |labels| > 0 && labels[0] !in labels[1..]
    requires InOrder(rest, labels[1..])
    ensures InOrder((if take then [labels[0]] else []) + rest, labels)
  {
    var r := (if take then [labels[0]] else []) + rest;
    forall y | y in labels[1..]
      ensures Rank(labels, y) == 1 + Rank(labels[1..], y)
    {
      assert y != labels[0];
    }
    var h := if take then 1 else 0;
    assert forall i :: h <= i < |r| ==> r[i] == rest[i - h];
  }

  lemma NamesDistinct()
    ensures Distinct(KeyUsageNames)
    ensures Distinct(NetscapeCertTypeNames)
  {
  }

  /** No bit of 0 is set. */
  lemma {:induction false} ZeroBits(k: nat)
    ensures !Bit(0, k)
  {
    if k > 0 {
      ZeroBits(k - 1);
    }
  }

  /** The eight tests `b & 0x80`, `b & 0x40`, ..., `b & 0x01`. */
  function ByteBits(b: byte): (r: seq<bool>)
    ensures |r| == 8
    ensures forall j :: 0 <= j < 8 ==> r[j] == Bit(b, 7 - j)
  {
    seq(8, j requires 0 <= j < 8 => Bit(b, 7 - j))
  }

  /** Indexing a typed array past its end yields `undefined`, and every bit
      test and shift of `undefined` behaves like 0. */
  function ByteAt(bytes: seq<byte>, i: nat): byte {
    if i < |bytes| then bytes[i] else 0
  }

  /** `keyUsage(extension)`: the low `unusedBits` bits are cleared in the
      first byte when the BitString has exactly one byte and in the second
      byte when it has exactly two; otherwise no byte is masked. */
  function KeyUsage(bytes: seq<byte>, unusedBits: int): (r: seq<string>)
    ensures InOrder(r, KeyUsageNames)
    ensures forall j :: 0 <= j < 8 ==>
      (KeyUsageNames[j] in r <==>
         |bytes| >= 1 && Bit(bytes[0], 7 - j) && (|bytes| == 1 ==> 7 - j >= ShiftCount(unusedBits)))
    ensures KeyUsageNames[8] in r <==>
      |bytes| >= 2 && Bit(bytes[1], 7) && (|bytes| == 2 ==> 7 >= ShiftCount(unusedBits))
    ensures |r| <= 9
  {
    var b1 := ByteAt(bytes, 0);
    var b2 := ByteAt(bytes, 1);
    var m1 := if |bytes| == 1 then ClearLow(b1, unusedBits) else b1;
    var m2 := if |bytes| == 2 then ClearLow(b2, unusedBits) else b2;
    ZeroBits(7);
    NamesDistinct();
    FlagsSpec(ByteBits(m1) + [Bit(m2, 7)], KeyUsageNames);
    Flags(ByteBits(m1) + [Bit(m2, 7)], KeyUsageNames)
  }

  /** `usages.push(name)` when the test holds. */
  function Push(usages: seq<string>, holds: bool, name: string): seq<string> {
    if holds then usages + [name] else usages
  }

  /** `keyUsageAttr(hex, unusedBits)`, the attribute-side copy of `keyUsage`,
      written push by push as the source does; the bytes are those the
      hexadecimal text converts to. */
  function KeyUsageAttr(bytes: seq<byte>, unusedBits: int): seq<string> {
    var b1 := ByteAt(bytes, 0);
    var b2 := ByteAt(bytes, 1);
    var m1 := if |bytes| == 1 then ClearLow(b1, unusedBits) else b1;
    var m2 := if |bytes| == 2 then ClearLow(b2, unusedBits) else b2;
    KeyUsageAttrPushes(m1, m2)
  }

  /** The pushes of `keyUsageAttr` on the masked first and second bytes. */
  function KeyUsageAttrPushes(m1: byte, m2: byte): seq<string> {
    var u1 := Push([], Bit(m1, 7), "Digital Signature");
    var u2 := Push(u1, Bit(m1, 6), "Non Repudiation");
    var u3 := Push(u2, Bit(m1, 5), "Key Encipherment");
    var u4 := Push(u3, Bit(m1, 4), "Data Encipherment");
    var u5 := Push(u4, Bit(m1, 3), "Key Agreement");
    var u6 := Push(u5, Bit(m1, 2), "Key Cert Sign");
    var u7 := Push(u6, Bit(m1, 1), "cRL Sign");
    var u8 := Push(u7, Bit(m1, 0), "Encipher Only");
    Push(u8, Bit(m2, 7), "Decipher Only")
  }

  /** The tests from index `i` on, pushed onto `acc` one after another. */
  function PushFrom(acc: seq<string>, bits: seq<bool>, labels: seq<string>, i: nat): seq<string>
    requires |bits| == |labels| && i <= |labels|
    decreases |labels| - i
  {
    if i == |labels| then acc else PushFrom(Push(acc, bits[i], labels[i]), bits, labels, i + 1)
  }

  lemma {:induction false} PushFromIsFlags(acc: seq<string>, bits: seq<bool>, labels: seq<string>, i: nat)
    requires |bits| == |labels| && i <= |labels|
    ensures PushFrom(acc, bits, labels, i) == acc + Flags(bits[i..], labels[i..])
    decreases |labels| - i
  {
    if i < |labels| {
      var rest := Flags(bits[i + 1..], labels[i + 1..]);
      PushFromIsFlags(Push(acc, bits[i], labels[i]), bits, labels, i + 1);
      FlagsFrom(bits, labels, i);
      if bits[i] {
        assert acc + [labels[i]] + rest == acc + ([labels[i]] + rest);
      }
    } else {
      assert bits[i..] == [] && labels[i..] == [];
      assert acc + [] == acc;
    }
  }

  /** `Flags` from index `i`, one step unfolded. */
  lemma FlagsFrom(bits: seq<bool>, labels: seq<string>, i: nat)
    requires |bits| == |labels| && i < |labels|
    ensures bits[i] ==> Flags(bits[i..], labels[i..]) == [labels[i]] + Flags(bits[i + 1..], labels[i + 1..])
    ensures !bits[i] ==> Flags(bits[i..], labels[i..]) == Flags(bits[i + 1..], labels[i + 1..])
  {
    assert bits[i..][1..] == bits[i + 1..];
    assert labels[i..][1..] == labels[i + 1..];
    var rest := Flags(bits[i + 1..], labels[i + 1..]);
    if !bits[i] {
      assert [] + rest == rest;
    }
  }

  /** The two Key Usage decoders agree on every input. */
  lemma KeyUsageAttrIsKeyUsage(bytes: seq<byte>, unusedBits: int)
    ensures KeyUsageAttr(bytes, unusedBits) == KeyUsage(bytes, unusedBits)
  {
    var b1 := ByteAt(bytes, 0);
    var b2 := ByteAt(bytes, 1);
    var m1 := if |bytes| == 1 then ClearLow(b1, unusedBits) else b1;
    var m2 := if |bytes| == 2 then ClearLow(b2, unusedBits) else b2;
    KeyUsagePushes(m1, m2);
  }

  /** The nine pushes of `keyUsageAttr` list the set bits in table order. */
  lemma KeyUsagePushes(m1: byte, m2: byte)
    ensures KeyUsageAttrPushes(m1, m2) == Flags(ByteBits(m1) + [Bit(m2, 7)], KeyUsageNames)
  {
    var bits := ByteBits(m1) + [Bit(m2, 7)];
    PushFromIsFlags([], bits, KeyUsageNames, 0);
    assert bits[0..] == bits && KeyUsageNames[0..] == KeyUsageNames;
    assert [] + Flags(bits, KeyUsageNames) == Flags(bits, KeyUsageNames);
    assert PushFrom([], bits, KeyUsageNames, 0) == KeyUsageAttrPushes(m1, m2);
  }

  /** `netscapeCertType(extension)`: only the first byte of the re-parsed
      BitString is read, with its low `unusedBits` bits cleared. */
  function NetscapeCertType(bytes: seq<byte>, unusedBits: int): (r: seq<string>)
    ensures InOrder(r, NetscapeCertTypeNames)
    ensures forall j :: 0 <= j < 8 ==>
      (NetscapeCertTypeNames[j] in r <==>
         |bytes| >= 1 && Bit(bytes[0], 7 - j) && 7 - j >= ShiftCount(unusedBits))
    ensures |r| <= 8
  {
    var m := ClearLow(ByteAt(bytes, 0), unusedBits);
    forall k | 0 <= k < 8 ensures !Bit(0, k) { ZeroBits(k); }
    NamesDistinct();
    FlagsSpec(ByteBits(m), NetscapeCertTypeNames);
    Flags(ByteBits(m), NetscapeCertTypeNames)
  }

  /** An InOrder list never repeats a label. */
  lemma InOrderNoDuplicates(r: seq<string>, labels: seq<string>)
    requires InOrder(r, labels)
    ensures forall i, j :: 0 <= i < j < |r| ==> r[i] != r[j]
  {
  }

  /** Beyond two bytes the unused-bit count has no effect, and later bytes are never read. */
  lemma KeyUsageLongIgnoresUnusedBits(bytes: seq<byte>, unusedBits: int)
    requires |bytes| >= 3
    ensures KeyUsage(bytes, unusedBits) == KeyUsage(bytes[..2] + [0], 0)
  {
  }

  /** The documented example: 0xA0 with no unused bits. */
  lemma KeyUsageExample()
    ensures KeyUsage([0xA0], 0) == ["Digital Signature", "Key Encipherment"]
  {
    KeyUsageAttrIsKeyUsage([0xA0], 0);
    var m := ClearLow(0xA0, 0);
    assert m == 0xA0;
    assert Bit(m, 7) && !Bit(m, 6) && Bit(m, 5);
    assert !Bit(m, 4) && !Bit(m, 3) && !Bit(m, 2) && !Bit(m, 1) && !Bit(m, 0);
    ZeroBits(7);
  }
}

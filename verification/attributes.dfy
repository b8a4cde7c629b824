/** `decodeAttributeValue`, the recursive converter of the attribute values
    of a certification request, and `flatten`, which merges the decoded
    values of one attribute into a single array.

    The BER blocks are the `Node` datatype, reduced to the parts the
    converter reads; the decoded JavaScript values are `AttrValue`. */
module Attributes {
  import opened Results
  import opened Bits
  import CertFields
  import BitFlags

  /** An ASN.1 block as the BER parser reports it. `Absent` is a falsy
      value; `Other` is a block of any kind the converter does not list,
      with its `blockName`. A string block holds its text and raw bytes; a
      bit or octet string holds its constructed parts (none when it is
      primitive) and its raw bytes. */
  datatype Node =
    | Absent
    | Ia5String(value: string)
    | ObjectIdentifier(value: string)
    | Sequence(children: seq<Node>)
    | Integer(valueDec: int)
    | Utf8String(text: string, valueHex: seq<byte>)
    | BmpString(text: string, valueHex: seq<byte>)
    | BitString(parts: seq<Node>, valueHex: seq<byte>)
    | OctetString(parts: seq<Node>, valueHex: seq<byte>)
    | Boolean(b: bool)
    | Other(blockName: string)

  /** A JavaScript value the converter returns: `null`, an object
      `{name, oid, value}` whose `value` may be `undefined`, an array, a
      number, a string, a boolean, the hexadecimal text of raw bytes (a
      `valueHex` of the `toJSON()` output, kept here as the bytes it
      spells), or a block passed through undecoded. */
  datatype AttrValue =
    | Null
    | Record(name: string, oid: string, value: Option<AttrValue>)
    | Array(items: seq<AttrValue>)
    | Num(n: int)
    | Str(s: string)
    | Bool(b: bool)
    | HexBytes(bytes: seq<byte>)
    | Raw(node: Node)

  /** What the converter depends on outside itself: the read-only `OIDS`
      table, `Convert.FromHex` (None where it throws) and `Number(x)` as
      the shift count it becomes (NaN counting as 0, as `>>=` does). */
  datatype Env = Env(oids: map<string, string>, fromHex: AttrValue -> Option<seq<byte>>, number: AttrValue -> int)

  /** `{name: OIDS[v] || v, oid: v, value: undefined}`. */
  function Named(oids: map<string, string>, v: string): (r: AttrValue)
    ensures r.Record? && r.oid == v && r.value.None?
    ensures v in oids && oids[v] != "" ==> r.name == oids[v]
    ensures v !in oids ==> r.name == v
  {
    Record(CertFields.NameOr(oids, v), v, None)
  }

  /** `children.find(v => v.blockName === 'OctetString')`, as an index. */
  function FirstOctet(cs: seq<Node>): (r: Option<nat>)
    ensures r.Some? ==> r.value < |cs| && cs[r.value].OctetString?
                        && forall j :: 0 <= j < r.value ==> !cs[j].OctetString?
    ensures r.None? ==> forall j :: 0 <= j < |cs| ==> !cs[j].OctetString?
  {
    if |cs| == 0 then None
    else if cs[0].OctetString? then Some(0)
    else match FirstOctet(cs[1..])
      case None => None
      case Some(k) => Some(k + 1)
  }

  /** `value.length ? value : valueHex` for the constructed string kinds:
      the array of parts, or the raw bytes when there are none. */
  function Parts(parts: seq<Node>, valueHex: seq<byte>): (r: AttrValue)
    ensures |parts| > 0 ==> r.Array? && |r.items| == |parts|
                            && forall i :: 0 <= i < |parts| ==> r.items[i] == Raw(parts[i])
    ensures |parts| == 0 ==> r == HexBytes(valueHex)
  {
    if |parts| > 0 then Array(seq(|parts|, i requires 0 <= i < |parts| => Raw(parts[i])))
    else HexBytes(valueHex)
  }

  /** The Key Usage list as an array of strings. */
  function Strings(xs: seq<string>): (r: seq<AttrValue>)
    ensures |r| == |xs| && forall i :: 0 <= i < |xs| ==> r[i] == Str(xs[i])
  {
    seq(|xs|, i requires 0 <= i < |xs| => Str(xs[i]))
  }

  /** `decodeAttributeValue(val)`; a Failure is the exception `Convert.FromHex`
      throws on the Key Usage path. */
  function DecodeValue(env: Env, n: Node): (r: Result<AttrValue, string>)
    ensures n.Absent? ==> r == Success(Null)
    ensures (n.Ia5String? || n.ObjectIdentifier?) ==> r == Success(Named(env.oids, n.value))
    ensures n.Integer? ==> r == Success(Num(n.valueDec))
    ensures n.Boolean? ==> r == Success(Bool(n.b))
    ensures n.Other? ==> r == Success(Str("need decode: " + n.blockName))
    ensures (n.Utf8String? || n.BmpString?) ==>
      r == Success(if n.text != "" then Str(n.text) else HexBytes(n.valueHex))
    ensures (n.BitString? || n.OctetString?) ==> r == Success(Parts(n.parts, n.valueHex))
    ensures n.Sequence? && |n.children| > 0 && n.children[0].ObjectIdentifier? && r.Success? ==>
      r.value.Record? && r.value.oid == n.children[0].value
      && r.value.name == Named(env.oids, n.children[0].value).name
      && (r.value.value.None? <==> FirstOctet(n.children).None?)
    ensures n.Sequence? && |n.children| > 0 && n.children[0].ObjectIdentifier?
            && n.children[0].value != BitFlags.KeyUsageOid && FirstOctet(n.children).Some? ==>
      var c := n.children[FirstOctet(n.children).value];
      r == Success(Record(Named(env.oids, n.children[0].value).name, n.children[0].value,
                          Some(Parts(c.parts, c.valueHex))))
    ensures n.Sequence? && |n.children| > 0 && n.children[0].ObjectIdentifier? ==>
      (r.Failure? <==> n.children[0].value == BitFlags.KeyUsageOid && FirstOctet(n.children).Some?
                       && var c := n.children[FirstOctet(n.children).value];
                          env.fromHex(Parts(c.parts, c.valueHex)).None?)
    ensures n.Sequence? && !(|n.children| > 0 && n.children[0].ObjectIdentifier?) ==>
      r.Failure? == DecodeAll(env, n.children).Failure?
      && (r.Success? ==> r.value == Array(DecodeAll(env, n.children).value))
    decreases n, 1
  {
    match n
    case Absent => Success(Null)
    case Ia5String(v) => Success(Named(env.oids, v))
    case ObjectIdentifier(v) => Success(Named(env.oids, v))
    case Sequence(cs) =>
      if |cs| > 0 && cs[0].ObjectIdentifier? then
        var temp := Named(env.oids, cs[0].value);
        match FirstOctet(cs)
        case None => Success(temp)
        case Some(i) =>
          match DecodeValue(env, cs[i])
          case Failure(e) => Failure(e)
          case Success(v) =>
            if cs[0].value == BitFlags.KeyUsageOid then
              match env.fromHex(v)
              case None => Failure("Convert.FromHex")
              case Some(bytes) =>
                Success(temp.(value := Some(Array(Strings(BitFlags.KeyUsageAttr(bytes, env.number(v)))))))
            else Success(temp.(value := Some(v)))
      else
        var vs :- DecodeAll(env, cs);
        Success(Array(vs))
    case Integer(d) => Success(Num(d))
    case Utf8String(t, h) => Success(if t != "" then Str(t) else HexBytes(h))
    case BmpString(t, h) => Success(if t != "" then Str(t) else HexBytes(h))
    case BitString(ps, h) => Success(Parts(ps, h))
    case OctetString(ps, h) => Success(Parts(ps, h))
    case Boolean(b) => Success(Bool(b))
    case Other(name) => Success(Str("need decode: " + name))
  }

  /** `children.map(v => decodeAttributeValue(v))`: the first exception
      ends the map. */
  function DecodeAll(env: Env, cs: seq<Node>): (r: Result<seq<AttrValue>, string>)
    ensures r.Success? ==> |r.value| == |cs|
                           && forall i :: 0 <= i < |cs| ==> DecodeValue(env, cs[i]) == Success(r.value[i])
    ensures r.Failure? <==> exists i :: 0 <= i < |cs| && DecodeValue(env, cs[i]).Failure?
    decreases cs, 0
  {
    if |cs| == 0 then Success([])
    else
      var head :- DecodeValue(env, cs[0]);
      var rest :- DecodeAll(env, cs[1..]);
      assert forall i :: 1 <= i < |cs| ==> cs[i] == cs[1..][i - 1];
      Success([head] + rest)
  }

  // ---- totality ------------------------------------------------------------------

  /** Every block kind has a value: when `Convert.FromHex` accepts what
      the Key Usage path hands it, the converter never throws. */
  lemma {:induction false} Total(env: Env, n: Node)
    requires forall v :: env.fromHex(v).Some?
    ensures DecodeValue(env, n).Success?
    decreases n, 1
  {
    match n
    case Sequence(cs) =>
      if |cs| > 0 && cs[0].ObjectIdentifier? {
        match FirstOctet(cs)
        case None =>
        case Some(i) => Total(env, cs[i]);
      } else {
        TotalAll(env, cs);
      }
    case _ =>
  }

  lemma {:induction false} TotalAll(env: Env, cs: seq<Node>)
    requires forall v :: env.fromHex(v).Some?
    ensures DecodeAll(env, cs).Success?
    decreases cs, 0
  {
    forall i | 0 <= i < |cs|
      ensures DecodeValue(env, cs[i]).Success?
    {
      Total(env, cs[i]);
    }
  }

  /** A record headed by the Key Usage identifier lists the usages the
      extension decoder `keyUsage` finds in the same bytes. */
  lemma KeyUsageRecord(env: Env, cs: seq<Node>, i: nat, v: AttrValue, bytes: seq<byte>)
    requires |cs| > 0 && cs[0] == ObjectIdentifier(BitFlags.KeyUsageOid)
    requires FirstOctet(cs) == Some(i) && DecodeValue(env, cs[i]) == Success(v)
    requires env.fromHex(v) == Some(bytes)
    ensures DecodeValue(env, Sequence(cs))
            == Success(Record(CertFields.NameOr(env.oids, BitFlags.KeyUsageOid), BitFlags.KeyUsageOid,
                              Some(Array(Strings(BitFlags.KeyUsage(bytes, env.number(v)))))))
  {
    BitFlags.KeyUsageAttrIsKeyUsage(bytes, env.number(v));
  }

  // ---- flatten -------------------------------------------------------------------

  /** No element is an array. */
  predicate Flat(xs: seq<AttrValue>) {
    forall i :: 0 <= i < |xs| ==> !xs[i].Array?
  }

  /** `flatten(arr)`: the `reduce` from the left, each array element
      replaced by its own flattening and every other element kept. */
  function Flatten(xs: seq<AttrValue>): (r: seq<AttrValue>)
    ensures Flat(r)
  {
    if |xs| == 0 then []
    else
      var last := xs[|xs| - 1];
      Flatten(xs[..|xs| - 1]) + (if last.Array? then Flatten(last.items) else [last])
  }

  /** An independent definition from the right: the leaves of the first
      element, then those of the rest. */
  function Leaves(xs: seq<AttrValue>): seq<AttrValue> {
    if |xs| == 0 then []
    else (if xs[0].Array? then Leaves(xs[0].items) else [xs[0]]) + Leaves(xs[1..])
  }

  /** Flattening a concatenation flattens each part. */
  lemma {:induction false} FlattenAppend(a: seq<AttrValue>, b: seq<AttrValue>)
    ensures Flatten(a + b) == Flatten(a) + Flatten(b)
    decreases |b|
  {
    if |b| == 0 {
      assert a + b == a;
    } else {
      var init, last := b[..|b| - 1], b[|b| - 1];
      var t := if last.Array? then Flatten(last.items) else [last];
      assert b == init + [last];
      calc {
        Flatten(a + b);
        { assert a + b == (a + init) + [last]; }
        Flatten((a + init) + [last]);
        { FlattenSnoc(a + init, last); }
        Flatten(a + init) + t;
        { FlattenAppend(a, init); }
        Flatten(a) + Flatten(init) + t;
        Flatten(a) + (Flatten(init) + t);
        { FlattenSnoc(init, last); }
        Flatten(a) + Flatten(b);
      }
    }
  }

  lemma FlattenSnoc(init: seq<AttrValue>, last: AttrValue)
    ensures Flatten(init + [last]) == Flatten(init) + (if last.Array? then Flatten(last.items) else [last])
  {
    assert (init + [last])[..|init|] == init;
  }

  lemma {:induction false} LeavesAppend(a: seq<AttrValue>, b: seq<AttrValue>)
    ensures Leaves(a + b) == Leaves(a) + Leaves(b)
    decreases |a|
  {
    if |a| == 0 {
      assert a + b == b;
    } else {
      assert (a + b)[1..] == a[1..] + b;
      LeavesAppend(a[1..], b);
    }
  }

  /** Both definitions give the leaves in the same order. */
  lemma {:induction false} FlattenIsLeaves(xs: seq<AttrValue>)
    ensures Flatten(xs) == Leaves(xs)
  {
    if |xs| > 0 {
      var init := xs[..|xs| - 1];
      var last := xs[|xs| - 1];
      FlattenIsLeaves(init);
      if last.Array? {
        FlattenIsLeaves(last.items);
      }
      LeavesAppend(init, [last]);
      assert init + [last] == xs;
      assert Leaves([last]) == (if last.Array? then Leaves(last.items) else [last]) + Leaves([]);
    }
  }

  /** A sequence without arrays is its own flattening. */
  lemma {:induction false} FlattenFlat(xs: seq<AttrValue>)
    requires Flat(xs)
    ensures Flatten(xs) == xs
  {
    if |xs| > 0 {
      FlattenFlat(xs[..|xs| - 1]);
    }
  }

  /** Flattening twice is flattening once. */
  lemma FlattenIdempotent(xs: seq<AttrValue>)
    ensures Flatten(Flatten(xs)) == Flatten(xs)
  {
    FlattenFlat(Flatten(xs));
  }
}

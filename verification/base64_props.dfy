/** Properties of `Base64.decode`, stated on its reference definition
    `Base64.Spec` (which `Base64.Decode` computes): the encoding of
    section 4 of RFC 4648 decodes back to the bytes encoded, ignored
    characters may be inserted before the first '=', nothing after the
    first '=' is looked at, and the URL-safe characters of section 5 decode
    like their standard counterparts. */
module Base64Props {
  import opened Bits
  import opened Results
  import opened Base64
  import opened JsText

  /** The character encoding a 6-bit value: the alphabet of section 4 of
      RFC 4648, 'A'..'Z', 'a'..'z', '0'..'9', '+', '/'. */
  function EncChar(k: sextet): (c: char)
    ensures Classify(c) == Sextet(k)
    ensures ('A' <= c <= 'Z') || ('a' <= c <= 'z') || ('0' <= c <= '9') || c == '+' || c == '/'
  {
    if k < 26 then ('A' as int + k) as char
    else if k < 52 then ('a' as int + k - 26) as char
    else if k < 62 then ('0' as int + k - 52) as char
    else if k == 62 then '+'
    else '/'
  }

  function Chars(ds: seq<sextet>): (s: string)
    ensures |s| == |ds|
    ensures forall i :: 0 <= i < |ds| ==> s[i] == EncChar(ds[i])
  {
    seq(|ds|, i requires 0 <= i < |ds| => EncChar(ds[i]))
  }

  /** The 6-bit values of the section 4 encoding of `x`: each three bytes
      give four values; a final one or two bytes give two or three values,
      zero-filled on the right. */
  function EncodeSextets(x: seq<byte>): (ds: seq<sextet>)
    ensures |ds| % 4 != 1
  {
    if |x| == 0 then []
    else if |x| == 1 then Quad(x[0], 0, 0)[..2]
    else if |x| == 2 then Quad(x[0], x[1], 0)[..3]
    else Quad(x[0], x[1], x[2]) + EncodeSextets(x[3..])
  }

  /** Three bytes as four 6-bit values. */
  function Quad(b0: byte, b1: byte, b2: byte): (q: seq<sextet>)
    ensures |q| == 4
  {
    [b0 / 4, (b0 % 4) * 16 + b1 / 16, (b1 % 16) * 4 + b2 / 64, b2 % 64]
  }

  function Padding(n: nat): string {
    if n % 3 == 1 then "==" else if n % 3 == 2 then "=" else ""
  }

  /** The padded Base64 encoding of `x`. */
  function Encode(x: seq<byte>): string {
    Chars(EncodeSextets(x)) + Padding(|x|)
  }

  /** Decoding the Base64 encoding of any byte sequence returns it. */
  lemma RoundTrip(x: seq<byte>)
    ensures Spec(Encode(x)) == Success(x)
  {
    var ds := EncodeSextets(x);
    var e := Chars(ds);
    BodyOf(e, Padding(|x|));
    NoIllegalChars(ds);
    SextetsOfChars(ds);
    GroupsOfEncoding(x);
  }

  lemma NoIllegalChars(ds: seq<sextet>)
    ensures FirstIllegal(Chars(ds)) == None
  {
    var s := Chars(ds);
    assert forall i :: 0 <= i < |s| ==> Classify(s[i]) == Sextet(ds[i]);
  }

  lemma {:induction false} SextetsOfChars(ds: seq<sextet>)
    ensures Sextets(Chars(ds)) == ds
  {
    if |ds| > 0 {
      var s := Chars(ds);
      assert s[..|s| - 1] == Chars(ds[..|ds| - 1]);
      SextetsOfChars(ds[..|ds| - 1]);
    }
  }

  /** Regrouping after a full group of four values. */
  lemma GroupsCons(q: seq<sextet>, e: seq<sextet>)
    requires |q| == 4
    ensures Groups(e).Failure? ==> Groups(q + e) == Groups(e)
    ensures Groups(e).Success? ==> Groups(q + e) == Success(Triple(q) + Groups(e).value)
  {
    var d := q + e;
    assert |d| % 4 == |e| % 4;
    if |e| % 4 != 1 {
      var ce := Complete(e);
      assert Complete(d) == q + ce;
      assert Rest(d) == Rest(e);
      assert (q + ce)[..4] == q;
      assert (q + ce)[4..] == ce;
      assert FullGroups(q + ce) == Triple(q) + FullGroups(ce);
      assert Groups(d).value == (Triple(q) + FullGroups(ce)) + Tail(Rest(e));
      assert Groups(e).value == FullGroups(ce) + Tail(Rest(e));
      assert (Triple(q) + FullGroups(ce)) + Tail(Rest(e)) == Triple(q) + (FullGroups(ce) + Tail(Rest(e)));
    }
  }

  /** Three bytes in base 256 have one representation. */
  lemma ByteDigitsUnique(r0: byte, r1: byte, r2: byte, b0: byte, b1: byte, b2: byte)
    requires 65536 * r0 + 256 * r1 + r2 == 65536 * b0 + 256 * b1 + b2
    ensures r0 == b0 && r1 == b1 && r2 == b2
  {
    assert 65536 * (r0 - b0) == 256 * (b1 - r1) + (b2 - r2);
    assert -65536 < 256 * (b1 - r1) + (b2 - r2) < 65536;
    assert r0 == b0;
    assert 256 * (r1 - b1) == b2 - r2;
  }

  /** Three bytes spread over four 6-bit values come back from `Triple`. */
  lemma TripleOfQuad(b0: byte, b1: byte, b2: byte)
    ensures Triple(Quad(b0, b1, b2)) == [b0, b1, b2]
  {
    var s0, s1, s2, s3 := b0 / 4, (b0 % 4) * 16 + b1 / 16, (b1 % 16) * 4 + b2 / 64, b2 % 64;
    var q := Quad(b0, b1, b2);
    var r := Triple(q);
    assert b0 == 4 * s0 + b0 % 4;
    assert b1 == 16 * (b1 / 16) + b1 % 16;
    assert b2 == 64 * (b2 / 64) + s3;
    assert s0 * 262144 + s1 * 4096 + s2 * 64 + s3 == 65536 * b0 + 256 * b1 + b2;
    ByteDigitsUnique(r[0], r[1], r[2], b0, b1, b2);
  }

  /** One final byte survives its partial group. */
  lemma GroupsOfOneByte(b0: byte)
    ensures Groups(EncodeSextets([b0])) == Success([b0])
  {
    var ds := EncodeSextets([b0]);
    assert ds == [b0 / 4, (b0 % 4) * 16];
    assert Complete(ds) == [] && Rest(ds) == ds;
    assert ds[0] as int * 64 + ds[1] as int == 16 * b0;
    assert Tail(ds) == [b0];
    assert FullGroups([]) == [];
    assert Groups(ds) == Success(FullGroups([]) + Tail(ds));
    assert FullGroups([]) + Tail(ds) == [b0];
  }

  /** Two final bytes survive their partial group. */
  lemma GroupsOfTwoBytes(b0: byte, b1: byte)
    ensures Groups(EncodeSextets([b0, b1])) == Success([b0, b1])
  {
    var ds := EncodeSextets([b0, b1]);
    assert ds == [b0 / 4, (b0 % 4) * 16 + b1 / 16, (b1 % 16) * 4];
    assert Complete(ds) == [] && Rest(ds) == ds;
    assert ds[0] as int * 4096 + ds[1] as int * 64 + ds[2] as int == 4 * (256 * b0 + b1);
    var r := Tail(ds);
    ByteDigitsUnique(0, r[0], r[1], 0, b0, b1);
    assert r == [b0, b1];
    assert FullGroups([]) == [];
    assert Groups(ds) == Success(FullGroups([]) + Tail(ds));
    assert FullGroups([]) + Tail(ds) == [b0, b1];
  }

  /** Regrouping the values of an encoding gives back the encoded bytes. */
  lemma {:induction false} GroupsOfEncoding(x: seq<byte>)
    ensures Groups(EncodeSextets(x)) == Success(x)
  {
    if |x| == 0 {
      assert Groups([]) == Success(FullGroups([]) + Tail([]));
    } else if |x| == 1 {
      GroupsOfOneByte(x[0]);
      assert x == [x[0]];
    } else if |x| == 2 {
      GroupsOfTwoBytes(x[0], x[1]);
      assert x == [x[0], x[1]];
    } else {
      GroupsOfEncoding(x[3..]);
      GroupsOfEncodingStep(x);
    }
  }

  lemma GroupsOfEncodingStep(x: seq<byte>)
    requires |x| >= 3
    requires Groups(EncodeSextets(x[3..])) == Success(x[3..])
    ensures Groups(EncodeSextets(x)) == Success(x)
  {
    var e := EncodeSextets(x[3..]);
    assert EncodeSextets(x) == Quad(x[0], x[1], x[2]) + e;
    QuadGroups(x[0], x[1], x[2], e);
    FirstThree(x);
  }

  lemma FirstThree<T>(x: seq<T>)
    requires |x| >= 3
    ensures [x[0], x[1], x[2]] + x[3..] == x
  {
  }

  lemma QuadGroups(b0: byte, b1: byte, b2: byte, e: seq<sextet>)
    requires Groups(e).Success?
    ensures Groups(Quad(b0, b1, b2) + e) == Success([b0, b1, b2] + Groups(e).value)
  {
    GroupsCons(Quad(b0, b1, b2), e);
    TripleOfQuad(b0, b1, b2);
  }

  // ---- characters that change nothing -------------------------------------

  predicate IsSkipped(c: char) {
    Classify(c).Skip? && c != '='
  }

  lemma {:induction false} SextetsAppend(x: string, y: string)
    ensures Sextets(x + y) == Sextets(x) + Sextets(y)
  {
    if |y| > 0 {
      var y' := y[..|y| - 1];
      assert (x + y)[..|x + y| - 1] == x + y';
      SextetsAppend(x, y');
    } else {
      assert x + y == x;
    }
  }

  /** The effect of an insertion at `p` on a result: an illegal-character
      error at or after `p` moves by one, anything else stays. */
  function Shifted(r: Result<seq<byte>, DecodeError>, p: nat): Result<seq<byte>, DecodeError> {
    if r.Failure? && r.error.IllegalCharacter? then
      Failure(IllegalCharacter(if r.error.offset < p then r.error.offset else r.error.offset + 1))
    else r
  }

  /** Inserting a skipped character anywhere before the first '=' leaves
      the decoded bytes and the incomplete-group error unchanged; an
      illegal-character error at or after the insertion point moves by one. */
  lemma InsertSkipped(a: string, p: nat, c: char)
    requires p <= BodyLength(a)
    requires IsSkipped(c)
    ensures Spec(a[..p] + [c] + a[p..]) == Shifted(Spec(a), p)
  {
    var b := Body(a);
    var x, y := b[..p], b[p..];
    calc {
      Spec(a[..p] + [c] + a[p..]);
      DecodeBody(Body(a[..p] + [c] + a[p..]));
      { BodyInsert(a, p, c); }
      DecodeBody(x + [c] + y);
      { InsertSkippedBody(x, c, y); }
      Shifted(DecodeBody(x + y), |x|);
      { assert x + y == b; }
      Shifted(Spec(a), p);
    }
  }

  lemma InsertSkippedBody(x: string, c: char, y: string)
    requires IsSkipped(c)
    ensures DecodeBody(x + [c] + y) == Shifted(DecodeBody(x + y), |x|)
  {
    FirstWhereInsert(x, c, y, IsIllegal);
    if FirstIllegal(x + y).None? {
      SkippedSextets(x, c, y);
    }
  }

  /** `Spec` looks at the body only. */
  lemma SpecUnfold(a: string)
    ensures FirstIllegal(Body(a)).Some? ==> Spec(a) == Failure(IllegalCharacter(FirstIllegal(Body(a)).value))
    ensures FirstIllegal(Body(a)).None? ==> Spec(a) == Groups(Sextets(Body(a)))
  {
  }

  lemma SkippedSextets(x: string, c: char, y: string)
    requires IsSkipped(c)
    ensures Sextets(x + [c] + y) == Sextets(x + y)
  {
    SextetsAppend(x + [c], y);
    SextetsAppend(x, [c]);
    SextetsAppend(x, y);
    assert [c][..0] == [];
    assert Sextets([c]) == [];
    assert Sextets(x + [c]) == Sextets(x);
  }

  /** Nothing after the first '=' is examined, not even illegal characters. */
  lemma StopsAtPadding(b: string, rest: string)
    requires '=' !in b
    ensures Spec(b + "=" + rest) == Spec(b)
  {
    BodyOf(b, "=" + rest);
    assert b + "=" + rest == b + ("=" + rest);
    BodyOf(b, "");
    assert b + "" == b;
  }

  /** Two decoding results that are equal, or both illegal-character
      errors (possibly at different offsets). */
  predicate SameOutcome(r1: Result<seq<byte>, DecodeError>, r2: Result<seq<byte>, DecodeError>) {
    if r1.Failure? && r1.error.IllegalCharacter? then r2.Failure? && r2.error.IllegalCharacter?
    else r1 == r2
  }

  /** Inserting a skipped character anywhere keeps the outcome; after the
      first '=' it changes nothing at all. */
  lemma InsertSkippedAnywhere(a: string, p: nat, c: char)
    requires p <= |a|
    requires IsSkipped(c)
    ensures SameOutcome(Spec(a[..p] + [c] + a[p..]), Spec(a))
  {
    if p <= BodyLength(a) {
      InsertSkipped(a, p, c);
    } else {
      var n := BodyLength(a);
      var a' := a[..p] + [c] + a[p..];
      BodySplit(a);
      assert a' == Body(a) + (a[n..p] + [c] + a[p..]);
      BodyOf(Body(a), a[n..p] + [c] + a[p..]);
      SpecUnfold(a);
      SpecUnfold(a');
    }
  }

  /** Removing every occurrence of a skipped character keeps the outcome. */
  lemma {:induction false} RemoveSkipped(a: string, c: char)
    requires IsSkipped(c)
    ensures SameOutcome(Spec(Remove(a, c)), Spec(a))
    decreases |a|
  {
    if c in a {
      var i :| 0 <= i < |a| && a[i] == c;
      var x, y := a[..i], a[i + 1..];
      assert a == x + [c] + y;
      RemoveMiddle(x, c, y);
      RemoveSkipped(x + y, c);
      assert (x + y)[..i] == x && (x + y)[i..] == y;
      InsertSkippedAnywhere(x + y, i, c);
      SameOutcomeTrans(Spec(Remove(x + y, c)), Spec(x + y), Spec(a));
    } else {
      RemoveAbsent(a, c);
    }
  }

  lemma SameOutcomeTrans(r1: Result<seq<byte>, DecodeError>, r2: Result<seq<byte>, DecodeError>, r3: Result<seq<byte>, DecodeError>)
    requires SameOutcome(r1, r2) && SameOutcome(r3, r2)
    ensures SameOutcome(r1, r3)
  {
  }

  /** Anything appended after an '=' (or nothing) is never decoded. */
  lemma AppendPadding(a: string, pad: string)
    requires pad == [] || pad[0] == '='
    ensures Spec(a + pad) == Spec(a)
  {
    var n := BodyLength(a);
    BodySplit(a);
    var t := a[n..] + pad;
    assert a + pad == Body(a) + t;
    assert t == [] || t[0] == '=';
    BodyOf(Body(a), t);
    SpecUnfold(a);
    SpecUnfold(a + pad);
  }

  // ---- URL-safe alphabet --------------------------------------------------

  /** Two texts that agree, position by position, on the class of each
      character and on where the '=' are. */
  ghost predicate SameClasses(a: string, b: string) {
    |a| == |b| && forall i :: 0 <= i < |a| ==> Classify(a[i]) == Classify(b[i]) && (a[i] == '=' <==> b[i] == '=')
  }

  /** Decoding only depends on the class of each character and the
      position of the '=': so it cannot tell two such texts apart. */
  lemma SameClassesSameResult(a: string, b: string)
    requires SameClasses(a, b)
    ensures Spec(a) == Spec(b)
  {
    SameClassesBodyLength(a, b);
    var ba := Body(a);
    var bb := Body(b);
    assert SameClasses(ba, bb);
    SameClassesIllegal(ba, bb);
    SameClassesSextets(ba, bb);
  }

  lemma {:induction false} SameClassesBodyLength(a: string, b: string)
    requires SameClasses(a, b)
    ensures BodyLength(a) == BodyLength(b)
  {
    if |a| > 0 {
      assert SameClasses(a[1..], b[1..]);
      SameClassesBodyLength(a[1..], b[1..]);
    }
  }

  lemma {:induction false} SameClassesIllegal(a: string, b: string)
    requires SameClasses(a, b)
    ensures FirstIllegal(a) == FirstIllegal(b)
  {
    if |a| > 0 {
      assert SameClasses(a[1..], b[1..]);
      SameClassesIllegal(a[1..], b[1..]);
      assert IsIllegal(a[0]) == IsIllegal(b[0]);
    }
  }

  lemma {:induction false} SameClassesSextets(a: string, b: string)
    requires SameClasses(a, b)
    ensures Sextets(a) == Sextets(b)
  {
    if |a| > 0 {
      assert SameClasses(a[..|a| - 1], b[..|b| - 1]);
      SameClassesSextets(a[..|a| - 1], b[..|b| - 1]);
    }
  }

  /** Rewriting the URL-safe characters as the standard ones. */
  function Standardize(a: string): (r: string)
    ensures |r| == |a|
  {
    seq(|a|, i requires 0 <= i < |a| => if a[i] == '-' then '+' else if a[i] == '_' then '/' else a[i])
  }

  /** '-' and '_' decode exactly like '+' and '/'. */
  lemma UrlSafeDecodesAsStandard(a: string)
    ensures Spec(Standardize(a)) == Spec(a)
  {
    assert SameClasses(Standardize(a), a);
    SameClassesSameResult(Standardize(a), a);
  }
}

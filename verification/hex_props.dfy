/** Properties of `Hex.decode` stated against the model in `Hex`:
    Base16 encodings (section 8 of RFC 4648) in either letter case decode
    back to their bytes, letter case never matters, characters of the
    ignore set change nothing, and nothing after the first '=' is read. */
module HexProps {
  import opened Bits
  import opened Results
  import opened JsText
  import opened Hex

  // ---- encoding -----------------------------------------------------------

  /** The digit for `k`, from "0123456789ABCDEF" or its lower-case copy. */
  function Digit(k: nibble, upper: bool): (c: char)
    ensures Classify(c) == Hex.Digit(k)
    ensures c != '='
    ensures k < 10 ==> c == ('0' as int + k) as char
    ensures k >= 10 && upper ==> 'A' <= c <= 'F'
    ensures k >= 10 && !upper ==> 'a' <= c <= 'f'
  {
    if k < 10 then ('0' as int + k) as char
    else if upper then ('A' as int + k - 10) as char
    else ('a' as int + k - 10) as char
  }

  /** The digit values of `x`, high digit of each byte first. */
  function Split(x: seq<byte>): (ds: seq<nibble>)
    ensures |ds| == 2 * |x|
  {
    if |x| == 0 then []
    else Split(x[..|x| - 1]) + [x[|x| - 1] / 16, x[|x| - 1] % 16]
  }

  function Digits(ds: seq<nibble>, upper: bool): (s: string)
    ensures |s| == |ds|
    ensures forall i :: 0 <= i < |ds| ==> s[i] == Digit(ds[i], upper)
  {
    seq(|ds|, i requires 0 <= i < |ds| => Digit(ds[i], upper))
  }

  /** The Base16 encoding of `x`: two digits per byte, no separators. */
  function Encode(x: seq<byte>, upper: bool): (s: string)
    ensures |s| == 2 * |x|
  {
    Digits(Split(x), upper)
  }

  /** Decoding the Base16 encoding of any bytes, in either letter case,
      gives those bytes back. */
  lemma RoundTrip(x: seq<byte>, upper: bool)
    ensures Spec(Encode(x, upper)) == Success(x)
  {
    var s := Encode(x, upper);
    var ds := Split(x);
    assert '=' !in s;
    BodyOf(s, "");
    assert s + "" == s;
    NoIllegalDigits(ds, upper);
    NibblesOfDigits(ds, upper);
    PairsOfSplit(x);
  }

  lemma NoIllegalDigits(ds: seq<nibble>, upper: bool)
    ensures FirstIllegal(Digits(ds, upper)) == None
  {
    var s := Digits(ds, upper);
    assert forall j :: 0 <= j < |s| ==> !IsIllegal(s[j]);
  }

  lemma {:induction false} NibblesOfDigits(ds: seq<nibble>, upper: bool)
    ensures Nibbles(Digits(ds, upper)) == ds
  {
    if |ds| > 0 {
      var s := Digits(ds, upper);
      var p := ds[..|ds| - 1];
      assert s[..|s| - 1] == Digits(p, upper);
      NibblesOfDigits(p, upper);
      assert ds == p + [ds[|ds| - 1]];
    }
  }

  /** Pairing the digits of `x` rebuilds every byte of `x`. */
  lemma {:induction false} PairsOfSplit(x: seq<byte>)
    ensures Pairs(Split(x)) == x
  {
    if |x| > 0 {
      var p := x[..|x| - 1];
      var b := x[|x| - 1];
      var ds := Split(x);
      assert ds[..|ds| - 2] == Split(p);
      PairsOfSplit(p);
      ByteOfHalves(b, b / 16, b % 16);
      assert x == p + [b];
    }
  }

  /** Digits `2i` and `2i + 1` are the high and low halves of byte `i`. */
  lemma {:induction false} SplitAt(x: seq<byte>, i: nat)
    requires i < |x|
    ensures Split(x)[2 * i] == x[i] / 16 && Split(x)[2 * i + 1] == x[i] % 16
  {
    var p := x[..|x| - 1];
    if i < |p| {
      SplitAt(p, i);
      assert Split(x)[2 * i] == Split(p)[2 * i] && Split(x)[2 * i + 1] == Split(p)[2 * i + 1];
    }
  }

  /** A byte is determined by its two hexadecimal digits. */
  lemma ByteOfHalves(b: byte, hi: nibble, lo: nibble)
    requires hi == b / 16 && lo == b % 16
    ensures Byte(hi, lo) == b
  {
  }

  /** The lower-case encoding is the upper-case one with its letters lowered. */
  lemma LowerEncoding(x: seq<byte>)
    ensures Encode(x, false) == Lower(Encode(x, true))
  {
    var ds := Split(x);
    var u := Encode(x, true);
    var l := Encode(x, false);
    forall i | 0 <= i < |ds|
      ensures l[i] == LowerChar(u[i])
    {
      LowerDigit(ds[i]);
    }
  }

  lemma LowerDigit(k: nibble)
    ensures LowerChar(Digit(k, true)) == Digit(k, false)
  {
  }

  // ---- letter case ----------------------------------------------------------

  /** Two texts that agree, position by position, on the class of each
      character and on where the '=' are. */
  ghost predicate SameClasses(a: string, b: string) {
    |a| == |b| && forall i :: 0 <= i < |a| ==> Classify(a[i]) == Classify(b[i]) && (a[i] == '=' <==> b[i] == '=')
  }

  /** Decoding cannot tell two such texts apart. */
  lemma SameClassesSameResult(a: string, b: string)
    requires SameClasses(a, b)
    ensures Spec(a) == Spec(b)
  {
    SameClassesBodyLength(a, b);
    var ba := Body(a);
    var bb := Body(b);
    assert SameClasses(ba, bb);
    SameClassesIllegal(ba, bb);
    SameClassesNibbles(ba, bb);
  }

  lemma {:induction false} SameClassesBodyLength(a: string, b: string)
    requires SameClasses(a, b)
    ensures BodyLength(a) == BodyLength(b)
  {
    if |a| > 0 {
      assert SameClasses(a[1..], b[1..]);
      SameClassesBodyLength(a[1..], b[1..]);
    }
  }

  lemma {:induction false} SameClassesIllegal(a: string, b: string)
    requires SameClasses(a, b)
    ensures FirstIllegal(a) == FirstIllegal(b)
  {
    if |a| > 0 {
      assert SameClasses(a[1..], b[1..]);
      SameClassesIllegal(a[1..], b[1..]);
      assert IsIllegal(a[0]) == IsIllegal(b[0]);
    }
  }

  lemma {:induction false} SameClassesNibbles(a: string, b: string)
    requires SameClasses(a, b)
    ensures Nibbles(a) == Nibbles(b)
  {
    if |a| > 0 {
      assert SameClasses(a[..|a| - 1], b[..|b| - 1]);
      SameClassesNibbles(a[..|a| - 1], b[..|b| - 1]);
    }
  }

  /** Decoding is case-insensitive: lowering every letter changes nothing,
      not even the offset of an illegal character. */
  lemma CaseInsensitive(a: string)
    ensures Spec(Lower(a)) == Spec(a)
  {
    assert SameClasses(Lower(a), a);
    SameClassesSameResult(Lower(a), a);
  }

  // ---- characters that change nothing ---------------------------------------

  /** A character of the ignore set " \f\n\r\t   ". */
  predicate IsSkipped(c: char) {
    Classify(c).Skip?
  }

  lemma {:induction false} NibblesAppend(x: string, y: string)
    ensures Nibbles(x + y) == Nibbles(x) + Nibbles(y)
  {
    if |y| > 0 {
      var y' := y[..|y| - 1];
      assert (x + y)[..|x + y| - 1] == x + y';
      NibblesAppend(x, y');
    } else {
      assert x + y == x;
    }
  }

  lemma SkippedNibbles(x: string, c: char, y: string)
    requires IsSkipped(c)
    ensures Nibbles(x + [c] + y) == Nibbles(x + y)
  {
    NibblesAppend(x + [c], y);
    NibblesAppend(x, [c]);
    NibblesAppend(x, y);
    assert [c][..0] == [];
  }

  /** `Spec` looks at the body only. */
  lemma SpecUnfold(a: string)
    ensures FirstIllegal(Body(a)).Some? ==> Spec(a) == Failure(IllegalCharacter(FirstIllegal(Body(a)).value))
    ensures FirstIllegal(Body(a)).None? && |Nibbles(Body(a))| % 2 == 1 ==> Spec(a) == Failure(MissingNibble)
    ensures FirstIllegal(Body(a)).None? && |Nibbles(Body(a))| % 2 == 0 ==> Spec(a) == Success(Pairs(Nibbles(Body(a))))
  {
  }

  /** The effect of an insertion at `p` on a result: an illegal-character
      error at or after `p` moves by one, anything else stays. */
  function Shifted(r: Result<seq<byte>, HexError>, p: nat): Result<seq<byte>, HexError> {
    if r.Failure? && r.error.IllegalCharacter? then
      Failure(IllegalCharacter(if r.error.offset < p then r.error.offset else r.error.offset + 1))
    else r
  }

  /** Inserting an ignore-set character before the first '=' leaves the
      bytes and the missing-digit error unchanged; an illegal-character
      error at or after the insertion point moves by one. */
  lemma InsertSkipped(a: string, p: nat, c: char)
    requires p <= BodyLength(a)
    requires IsSkipped(c)
    ensures Spec(a[..p] + [c] + a[p..]) == Shifted(Spec(a), p)
  {
    var b := Body(a);
    var x, y := b[..p], b[p..];
    calc {
      Spec(a[..p] + [c] + a[p..]);
      DecodeBody(Body(a[..p] + [c] + a[p..]));
      { BodyInsert(a, p, c); }
      DecodeBody(x + [c] + y);
      { InsertSkippedBody(x, c, y); }
      Shifted(DecodeBody(x + y), |x|);
      { assert x + y == b; }
      Shifted(Spec(a), p);
    }
  }

  lemma InsertSkippedBody(x: string, c: char, y: string)
    requires IsSkipped(c)
    ensures DecodeBody(x + [c] + y) == Shifted(DecodeBody(x + y), |x|)
  {
    FirstWhereInsert(x, c, y, IsIllegal);
    if FirstIllegal(x + y).None? {
      SkippedNibbles(x, c, y);
    }
  }

  /** Nothing after the first '=' is examined, not even illegal characters. */
  lemma StopsAtEquals(b: string, rest: string)
    requires '=' !in b
    ensures Spec(b + "=" + rest) == Spec(b)
  {
    BodyOf(b, "=" + rest);
    assert b + "=" + rest == b + ("=" + rest);
    BodyOf(b, "");
    assert b + "" == b;
  }

  /** Two decoding results that are equal, or both illegal-character
      errors (possibly at different offsets). */
  predicate SameOutcome(r1: Result<seq<byte>, HexError>, r2: Result<seq<byte>, HexError>) {
    if r1.Failure? && r1.error.IllegalCharacter? then r2.Failure? && r2.error.IllegalCharacter?
    else r1 == r2
  }

  /** Inserting an ignore-set character anywhere keeps the outcome; after
      the first '=' it changes nothing at all. */
  lemma InsertSkippedAnywhere(a: string, p: nat, c: char)
    requires p <= |a|
    requires IsSkipped(c)
    ensures SameOutcome(Spec(a[..p] + [c] + a[p..]), Spec(a))
  {
    if p <= BodyLength(a) {
      InsertSkipped(a, p, c);
    } else {
      var n := BodyLength(a);
      var a' := a[..p] + [c] + a[p..];
      BodySplit(a);
      assert a' == Body(a) + (a[n..p] + [c] + a[p..]);
      BodyOf(Body(a), a[n..p] + [c] + a[p..]);
      SpecUnfold(a);
      SpecUnfold(a');
    }
  }

  /** Removing every occurrence of an ignore-set character keeps the outcome. */
  lemma {:induction false} RemoveSkipped(a: string, c: char)
    requires IsSkipped(c)
    ensures SameOutcome(Spec(Remove(a, c)), Spec(a))
    decreases |a|
  {
    if c in a {
      var i :| 0 <= i < |a| && a[i] == c;
      var x, y := a[..i], a[i + 1..];
      assert a == x + [c] + y;
      RemoveMiddle(x, c, y);
      RemoveSkipped(x + y, c);
      assert (x + y)[..i] == x && (x + y)[i..] == y;
      InsertSkippedAnywhere(x + y, i, c);
      SameOutcomeTrans(Spec(Remove(x + y, c)), Spec(x + y), Spec(a));
    } else {
      RemoveAbsent(a, c);
    }
  }

  lemma SameOutcomeTrans(r1: Result<seq<byte>, HexError>, r2: Result<seq<byte>, HexError>, r3: Result<seq<byte>, HexError>)
    requires SameOutcome(r1, r2) && SameOutcome(r3, r2)
    ensures SameOutcome(r1, r3)
  {
  }

  // ---- pairs ------------------------------------------------------------------

  /** Two digits make one byte, the first digit being its high half. */
  lemma OnePair(h: char, l: char)
    requires Classify(h).Digit? && Classify(l).Digit?
    ensures Spec([h, l]) == Success([Byte(Classify(h).v, Classify(l).v)])
  {
    var s := [h, l];
    assert '=' !in s;
    BodyOf(s, "");
    assert s + "" == s;
    NibblesSnoc(s, 0);
    NibblesSnoc(s, 1);
    assert s[..2] == s && s[..0] == [];
    var ds := Nibbles(s);
    assert ds == [Classify(h).v, Classify(l).v];
    assert ds[..0] == [];
    assert Pairs(ds) == Pairs([]) + [Byte(ds[0], ds[1])];
    assert Body(s) == s;
    assert FirstIllegal(s) == None by {
      assert !IsIllegal(s[0]) && !IsIllegal(s[1]);
    }
    SpecUnfold(s);
    assert Spec(s) == Success(Pairs(ds));
    assert Pairs(ds) == [Byte(Classify(h).v, Classify(l).v)];
  }
}

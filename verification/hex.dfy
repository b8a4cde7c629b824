/** `Hex.decode`: Base16 decoding (section 8 of RFC 4648) as a
    character-at-a-time state machine that accepts both letter cases,
    skips an ignore set, stops at the first '=', and throws on any other
    character or on an odd number of digits.

    `Decode` is the loop of the source; `Spec` is an independent
    definition (the text before the first '=', its first illegal
    character, its digit values paired into bytes) that the loop is
    proved to compute. */
module Hex {
  import opened Bits
  import opened Results
  import opened JsText

  type nibble = x: int | 0 <= x < 16

  /** The two exceptions `decode` throws: "Illegal character at offset i"
      and "Hex encoding incomplete: 4 bits missing". */
  datatype HexError = IllegalCharacter(offset: nat) | MissingNibble

  /** What `Hex.decoder[c]` holds: a digit value, -1 (skip), or undefined. */
  datatype Class = Digit(v: nibble) | Skip | Illegal

  /** The decoder table: '0'..'9', 'A'..'F' and 'a'..'f', and the ignore
      set " \f\n\r\t   ". Unlike the Base64 table it does not list '=',
      which the loop tests before looking a character up. */
  function Classify(c: char): Class {
    if '0' <= c <= '9' then Digit(c as int - '0' as int)
    else if 'A' <= c <= 'F' then Digit(c as int - 'A' as int + 10)
    else if 'a' <= c <= 'f' then Digit(c as int - 'a' as int + 10)
    else if IsIgnored(c) then Skip
    else Illegal
  }

  predicate IsIllegal(c: char) {
    Classify(c).Illegal?
  }

  /** Offset of the first character that is neither a digit nor in the
      ignore set. */
  function FirstIllegal(s: string): (r: Option<nat>)
    ensures r.Some? ==> r.value < |s| && IsIllegal(s[r.value])
                        && forall j :: 0 <= j < r.value ==> !IsIllegal(s[j])
    ensures r.None? ==> forall j :: 0 <= j < |s| ==> !IsIllegal(s[j])
  {
    FirstWhere(s, IsIllegal)
  }

  /** The digit values of `s`, in order; skipped characters contribute nothing. */
  function Nibbles(s: string): (ds: seq<nibble>)
    ensures |ds| <= |s|
  {
    if |s| == 0 then []
    else Nibbles(s[..|s| - 1]) + (match Classify(s[|s| - 1])
                                  case Digit(v) => [v]
                                  case _ => [])
  }

  /** The byte with high digit `hi` and low digit `lo`. */
  function Byte(hi: nibble, lo: nibble): (b: byte)
    ensures b / 16 == hi && b % 16 == lo
  {
    16 * (hi as int) + lo as int
  }

  /** Consecutive pairs of digit values as bytes, high digit first. */
  function Pairs(ds: seq<nibble>): (r: seq<byte>)
    requires |ds| % 2 == 0
    ensures |r| == |ds| / 2
    ensures forall i :: 0 <= i < |r| ==> r[i] == Byte(ds[2 * i], ds[2 * i + 1])
  {
    if |ds| == 0 then []
    else
      var p := ds[..|ds| - 2];
      assert forall i :: 0 <= i < |p| ==> p[i] == ds[i];
      Pairs(p) + [Byte(ds[|ds| - 2], ds[|ds| - 1])]
  }

  /** Reference definition of decoding `a`. */
  function Spec(a: string): (r: Result<seq<byte>, HexError>)
    ensures r == Failure(MissingNibble) <==>
      FirstIllegal(Body(a)).None? && |Nibbles(Body(a))| % 2 == 1
    ensures (r.Failure? && r.error.IllegalCharacter?) <==> FirstIllegal(Body(a)).Some?
    ensures r.Success? ==> |r.value| == |Nibbles(Body(a))| / 2 && |r.value| <= |a| / 2
  {
    DecodeBody(Body(a))
  }

  /** Decoding the part before the first '=': an error at its first illegal
      character, an error for an odd number of digits, or the digits paired
      into bytes. */
  function DecodeBody(b: string): Result<seq<byte>, HexError> {
    match FirstIllegal(b)
    case Some(i) => Failure(IllegalCharacter(i))
    case None =>
      var ds := Nibbles(b);
      if |ds| % 2 == 1 then Failure(MissingNibble) else Success(Pairs(ds))
  }

  /** Scanning one more character appends its value, if it has one. */
  lemma NibblesSnoc(a: string, i: nat)
    requires i < |a|
    ensures Classify(a[i]).Digit? ==> Nibbles(a[..i + 1]) == Nibbles(a[..i]) + [Classify(a[i]).v]
    ensures !Classify(a[i]).Digit? ==> Nibbles(a[..i + 1]) == Nibbles(a[..i])
  {
    assert a[..i + 1][..i] == a[..i];
  }

  /** The decoder state after the digit values `d`: the bytes of the
      complete pairs in `out`, and the pending high digit, shifted, in `bits`. */
  ghost predicate State(d: seq<nibble>, out: seq<byte>, bits: nat, charCount: nat) {
    && charCount == |d| % 2
    && bits == (if charCount == 1 then 16 * (d[|d| - 1] as int) else 0)
    && out == Pairs(d[..|d| - charCount])
  }

  /** One digit: `bits |= c`, then either the byte is written out and the
      state reset, or the digit is shifted up by four bits. */
  method Feed(ghost d: seq<nibble>, out: seq<byte>, bits: nat, charCount: nat, c: nibble)
    returns (out': seq<byte>, bits': nat, charCount': nat)
    requires State(d, out, bits, charCount)
    ensures State(d + [c], out', bits', charCount')
  {
    bits' := bits + c;
    if charCount + 1 >= 2 {
      assert (d + [c])[..|d| + 1] == d + [c];
      assert d[..|d| - 1] == (d + [c])[..|d| + 1 - 2];
      out' := out + [bits'];
      bits' := 0;
      charCount' := 0;
    } else {
      assert (d + [c])[..|d|] == d;
      out' := out;
      bits' := bits' * 16;
      charCount' := charCount + 1;
    }
  }

  /** The decoding loop of `Hex.decode`, on the `Uint8Array` path: bytes go
      into an output sized `a.length >> 1` and the used part is returned. */
  method Decode(a: string) returns (r: Result<seq<byte>, HexError>)
    ensures r == Spec(a)
    ensures r.Success? ==> |r.value| <= |a| / 2
  {
    var out: seq<byte> := [];
    var bits: nat := 0;
    var charCount: nat := 0;
    ghost var d: seq<nibble> := [];
    var i := 0;
    while i < |a|
      invariant 0 <= i <= |a|
      invariant forall j :: 0 <= j < i ==> a[j] != '=' && !IsIllegal(a[j])
      invariant d == Nibbles(a[..i])
      invariant State(d, out, bits, charCount)
    {
      var ch := a[i];
      if ch == '=' {
        break;
      }
      NibblesSnoc(a, i);
      match Classify(ch) {
        case Skip =>
        case Illegal =>
          BodyAt(a, i);
          return Failure(IllegalCharacter(i));
        case Digit(c) =>
          out, bits, charCount := Feed(d, out, bits, charCount, c);
          d := d + [c];
      }
      i := i + 1;
    }
    BodyAt(a, i);
    if charCount != 0 {
      return Failure(MissingNibble);
    }
    assert d[..|d|] == d;
    return Success(out);
  }

  /** Scanning reached index `i` without meeting '=' or an illegal
      character: if `a[i]` is '=' or the end, the body is `a[..i]`; if it is
      illegal, the first illegal character of the body is at `i`. */
  lemma BodyAt(a: string, i: nat)
    requires i <= |a|
    requires forall j :: 0 <= j < i ==> a[j] != '=' && !IsIllegal(a[j])
    ensures (i == |a| || a[i] == '=') ==> Body(a) == a[..i] && FirstIllegal(Body(a)).None?
    ensures i < |a| && a[i] != '=' && IsIllegal(a[i]) ==> FirstIllegal(Body(a)) == Some(i)
  {
    var n := BodyLength(a);
    if i == |a| || a[i] == '=' {
      assert n == i;
      var b := Body(a);
      assert b == a[..i];
      assert forall j :: 0 <= j < |b| ==> b[j] == a[j];
    } else if IsIllegal(a[i]) {
      assert n > i;
      var b := Body(a);
      assert b[i] == a[i];
      assert forall j :: 0 <= j < i ==> b[j] == a[j];
    }
  }
}

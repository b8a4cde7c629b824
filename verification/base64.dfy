/** `Base64.decode`: a character-at-a-time state machine over the standard
    alphabet of section 4 of RFC 4648 that also accepts the URL-safe
    characters of section 5, skips an ignore set, stops at the first '=',
    and throws on any other character or on a single dangling character.

    `Decode` is the loop of the source; `Spec` is an independent
    definition in three steps (the text before the first '=', the first
    illegal character in it, the 6-bit values of its alphabet characters
    regrouped into bytes) that the loop is proved to compute. */
module Base64 {
  import opened Bits
  import opened Results
  import opened JsText

  type sextet = x: int | 0 <= x < 64

  /** The two exceptions `decode` throws: "Illegal character at offset i"
      and "Base64 encoding incomplete: at least 2 bits missing". */
  datatype DecodeError = IllegalCharacter(offset: nat) | Incomplete

  /** What `Base64.decoder[c]` holds: a 6-bit value, -1 (skip), or undefined. */
  datatype Class = Sextet(v: sextet) | Skip | Illegal

  /** The decoder table: the 64 characters of the standard alphabet,
      '-' and '_' as the URL-safe spellings of '+' and '/', and the ignore
      set "= \f\n\r\t   ". */
  function Classify(c: char): (k: Class)
    ensures c == '-' ==> k == Classify('+')
    ensures c == '_' ==> k == Classify('/')
  {
    if 'A' <= c <= 'Z' then Sextet(c as int - 'A' as int)
    else if 'a' <= c <= 'z' then Sextet(c as int - 'a' as int + 26)
    else if '0' <= c <= '9' then Sextet(c as int - '0' as int + 52)
    else if c == '+' || c == '-' then Sextet(62)
    else if c == '/' || c == '_' then Sextet(63)
    else if c == '=' || IsIgnored(c) then Skip
    else Illegal
  }

  predicate IsIllegal(c: char) {
    Classify(c).Illegal?
  }

  /** Offset of the first character that is neither in the alphabet nor
      in the ignore set. */
  function FirstIllegal(s: string): (r: Option<nat>)
    ensures r.Some? ==> r.value < |s| && IsIllegal(s[r.value])
                        && forall j :: 0 <= j < r.value ==> !IsIllegal(s[j])
    ensures r.None? ==> forall j :: 0 <= j < |s| ==> !IsIllegal(s[j])
  {
    FirstWhere(s, IsIllegal)
  }

  /** The 6-bit values of the alphabet characters of `s`, in order; skipped
      characters contribute nothing. */
  function Sextets(s: string): seq<sextet> {
    if |s| == 0 then []
    else Sextets(s[..|s| - 1]) + (match Classify(s[|s| - 1])
                                  case Sextet(v) => [v]
                                  case _ => [])
  }

  /** Big-endian value of a run of 6-bit digits. */
  function Acc(ds: seq<sextet>): nat {
    if |ds| == 0 then 0 else Acc(ds[..|ds| - 1]) * 64 + ds[|ds| - 1]
  }

  /** Four 6-bit values fill 24 bits, three fill 18 and two fill 12. */
  lemma AccBound(ds: seq<sextet>)
    requires |ds| <= 4
    ensures Acc(ds) < 16777216
    ensures |ds| <= 3 ==> Acc(ds) < 262144
    ensures |ds| <= 2 ==> Acc(ds) < 4096
  {
    if |ds| > 0 {
      AccBound(ds[..|ds| - 1]);
    }
  }

  /** One full group: four 6-bit values give the three bytes of their
      24-bit big-endian concatenation. */
  function Triple(q: seq<sextet>): (r: seq<byte>)
    requires |q| == 4
    ensures |r| == 3
    ensures 65536 * (r[0] as int) + 256 * (r[1] as int) + r[2] as int
              == q[0] as int * 262144 + q[1] as int * 4096 + q[2] as int * 64 + q[3] as int
  {
    AccBound(q);
    var bits := Acc(q);
    AccUnfold(q);
    SplitBytes(bits);
    [bits / 65536, (bits / 256) % 256, bits % 256]
  }

  /** `Acc` written out for up to four values. */
  lemma AccUnfold(q: seq<sextet>)
    requires 1 <= |q| <= 4
    ensures |q| == 1 ==> Acc(q) == q[0]
    ensures |q| == 2 ==> Acc(q) == q[0] as int * 64 + q[1] as int
    ensures |q| == 3 ==> Acc(q) == (q[0] as int * 64 + q[1] as int) * 64 + q[2] as int
    ensures |q| == 4 ==> Acc(q) == ((q[0] as int * 64 + q[1] as int) * 64 + q[2] as int) * 64 + q[3] as int
  {
    var p := q[..|q| - 1];
    if |q| > 1 {
      AccUnfold(p);
    } else {
      assert p == [];
    }
  }

  /** A 24-bit value is the big-endian combination of its three bytes. */
  lemma SplitBytes(v: nat)
    requires v < 16777216
    ensures v / 65536 < 256
    ensures 65536 * (v / 65536) + 256 * ((v / 256) % 256) + v % 256 == v
    ensures 256 * (v / 65536) + (v / 256) % 256 == v / 256
  {
    var x := v / 65536;
    var t := v % 65536;
    var y := t / 256;
    var z := t % 256;
    assert v == 256 * (256 * x + y) + z;
    assert v / 256 == 256 * x + y;
    assert (v / 256) % 256 == y;
  }

  /** Concatenated full groups. */
  function FullGroups(ds: seq<sextet>): (r: seq<byte>)
    requires |ds| % 4 == 0
    ensures |r| == |ds| / 4 * 3
  {
    if |ds| == 0 then [] else Triple(ds[..4]) + FullGroups(ds[4..])
  }

  /** What is left after the last full group: none, two or three values
      give no, one or two bytes, the top 8 of 12 or the top 16 of 18 bits. */
  function Tail(ds: seq<sextet>): (r: seq<byte>)
    requires |ds| == 0 || |ds| == 2 || |ds| == 3
    ensures |ds| == 0 ==> r == []
    ensures |ds| == 2 ==> r == [(ds[0] as int * 64 + ds[1] as int) / 16]
    ensures |ds| == 3 ==> |r| == 2 && 256 * (r[0] as int) + r[1] as int
                                     == (ds[0] as int * 4096 + ds[1] as int * 64 + ds[2] as int) / 4
  {
    AccBound(ds);
    var bits := Acc(ds) * 64;
    if |ds| == 0 then []
    else if |ds| == 2 then
      assert ds[..1][..0] == [];
      [bits / 1024]
    else
      AccUnfold(ds);
      SplitBytes(bits);
      [bits / 65536, (bits / 256) % 256]
  }

  /** The values making up full groups, and the ones after them. */
  function Complete(ds: seq<sextet>): seq<sextet> {
    ds[..|ds| - |ds| % 4]
  }

  function Rest(ds: seq<sextet>): seq<sextet> {
    ds[|ds| - |ds| % 4..]
  }

  /** Regrouping a run of 6-bit values into bytes: a remainder of one value
      is an error; otherwise the output holds floor(6n/8) bytes. */
  function Groups(ds: seq<sextet>): (r: Result<seq<byte>, DecodeError>)
    ensures r.Failure? <==> |ds| % 4 == 1
    ensures r.Failure? ==> r.error == Incomplete
    ensures r.Success? ==> |r.value| == 6 * |ds| / 8
  {
    if |ds| % 4 == 1 then Failure(Incomplete)
    else Success(FullGroups(Complete(ds)) + Tail(Rest(ds)))
  }

  /** Reference definition of decoding `a`. */
  function Spec(a: string): (r: Result<seq<byte>, DecodeError>)
    ensures r == Failure(Incomplete) <==>
      FirstIllegal(Body(a)).None? && |Sextets(Body(a))| % 4 == 1
    ensures (r.Failure? && r.error.IllegalCharacter?) <==> FirstIllegal(Body(a)).Some?
    ensures r.Success? ==> |r.value| == 6 * |Sextets(Body(a))| / 8
  {
    DecodeBody(Body(a))
  }

  /** Decoding the part before the first '=': an error at its first illegal
      character, or its 6-bit values regrouped into bytes. */
  function DecodeBody(b: string): Result<seq<byte>, DecodeError> {
    match FirstIllegal(b)
    case Some(i) => Failure(IllegalCharacter(i))
    case None => Groups(Sextets(b))
  }

  lemma {:induction false} FullGroupsAppend(x: seq<sextet>, q: seq<sextet>)
    requires |x| % 4 == 0 && |q| == 4
    ensures FullGroups(x + q) == FullGroups(x) + Triple(q)
  {
    if |x| == 0 {
      assert x + q == q;
      assert q[..4] == q && q[4..] == [];
    } else {
      assert (x + q)[..4] == x[..4];
      assert (x + q)[4..] == x[4..] + q;
      FullGroupsAppend(x[4..], q);
    }
  }

  /** Scanning one more character appends its value, if it has one. */
  lemma SextetsSnoc(a: string, i: nat)
    requires i < |a|
    ensures Classify(a[i]).Sextet? ==> Sextets(a[..i + 1]) == Sextets(a[..i]) + [Classify(a[i]).v]
    ensures !Classify(a[i]).Sextet? ==> Sextets(a[..i + 1]) == Sextets(a[..i])
  {
    assert a[..i + 1][..i] == a[..i];
  }

  lemma SextetsCount(s: string)
    ensures |Sextets(s)| <= |s|
  {
  }

  /** The decoder state after the 6-bit values `d`: `charCount` values
      of an unfinished group, held shifted in `bits`, and the bytes of the
      full groups in `out`. */
  ghost predicate State(d: seq<sextet>, out: seq<byte>, bits: nat, charCount: nat) {
    && charCount == |d| % 4
    && bits == Acc(Rest(d)) * 64
    && out == FullGroups(Complete(d))
  }

  /** Reading a value that completes a group emits the group's three bytes. */
  lemma StepComplete(d: seq<sextet>, out: seq<byte>, bits: nat, charCount: nat, c: sextet)
    requires State(d, out, bits, charCount) && charCount == 3
    ensures bits + c < 16777216
    ensures State(d + [c], out + [(bits + c) / 65536, ((bits + c) / 256) % 256, (bits + c) % 256], 0, 0)
  {
    var q := Rest(d) + [c];
    GroupEnd(d, c);
    AccSnoc(Rest(d), c);
    AccBound(q);
    FullGroupsAppend(Complete(d), q);
    TripleValue(q);
  }

  /** The value that completes a group moves the group from the rest to the
      complete part. */
  lemma GroupEnd(d: seq<sextet>, c: sextet)
    requires |d| % 4 == 3
    ensures |Rest(d) + [c]| == 4
    ensures Complete(d + [c]) == Complete(d) + (Rest(d) + [c])
    ensures Rest(d + [c]) == []
  {
    var d' := d + [c];
    assert |d'| % 4 == 0;
    assert Complete(d') == d';
    assert d == Complete(d) + Rest(d);
  }

  lemma AccSnoc(r: seq<sextet>, c: sextet)
    ensures Acc(r + [c]) == Acc(r) * 64 + c
  {
    assert (r + [c])[..|r|] == r;
  }

  lemma TripleValue(q: seq<sextet>)
    requires |q| == 4
    ensures Triple(q) == [Acc(q) / 65536, (Acc(q) / 256) % 256, Acc(q) % 256]
  {
  }

  lemma StepPartial(d: seq<sextet>, out: seq<byte>, bits: nat, charCount: nat, c: sextet)
    requires State(d, out, bits, charCount) && charCount < 3
    ensures State(d + [c], out, (bits + c) * 64, charCount + 1)
  {
    var d', r := d + [c], Rest(d);
    ModStep(|d|);
    assert Rest(d') == r + [c];
    assert Complete(d') == Complete(d);
    AccSnoc(r, c);
  }

  lemma ModStep(n: nat)
    requires n % 4 < 3
    ensures (n + 1) % 4 == n % 4 + 1
    ensures n + 1 - (n + 1) % 4 == n - n % 4
  {
  }

  /** The tail `switch` of the source finishes the output as `Groups` does. */
  lemma Finish(d: seq<sextet>, out: seq<byte>, bits: nat, charCount: nat)
    requires State(d, out, bits, charCount) && charCount != 1
    ensures charCount == 0 ==> Groups(d) == Success(out)
    ensures charCount == 2 ==> bits / 1024 < 256 && Groups(d) == Success(out + [bits / 1024])
    ensures charCount == 3 ==> bits / 65536 < 256
                               && Groups(d) == Success(out + [bits / 65536, (bits / 256) % 256])
  {
    AccBound(Rest(d));
    if charCount == 0 {
      assert Rest(d) == [];
      assert Tail(Rest(d)) == [];
      assert Groups(d) == Success(FullGroups(Complete(d)) + []);
      assert FullGroups(Complete(d)) + [] == out;
    } else if charCount == 2 {
      assert Rest(d)[..1][..0] == [];
    } else if charCount == 3 {
      assert Rest(d)[..2][..1][..0] == [];
    }
  }

  /** One alphabet character: `bits |= c`, then either a full group is
      written out and the state reset, or the accumulator is shifted. */
  method Feed(ghost d: seq<sextet>, out: seq<byte>, bits: nat, charCount: nat, c: sextet)
    returns (out': seq<byte>, bits': nat, charCount': nat)
    requires State(d, out, bits, charCount)
    ensures State(d + [c], out', bits', charCount')
  {
    bits' := bits + c;
    if charCount + 1 >= 4 {
      StepComplete(d, out, bits, charCount, c);
      out' := out + [bits' / 65536, (bits' / 256) % 256, bits' % 256];
      bits' := 0;
      charCount' := 0;
    } else {
      StepPartial(d, out, bits, charCount, c);
      out' := out;
      bits' := bits' * 64;
      charCount' := charCount + 1;
    }
  }

  /** The decoding loop of `Base64.decode`, on the `Uint8Array` path: bytes
      go into an output sized `a.length * 3 >> 2` and the used part is
      returned. `bits |= c` is written `bits + c`: the accumulator is kept
      shifted so that its low six bits are clear. */
  method Decode(a: string) returns (r: Result<seq<byte>, DecodeError>)
    ensures r == Spec(a)
    ensures r.Success? ==> |r.value| <= |a| * 3 / 4
  {
    var out: seq<byte> := [];
    var bits: nat := 0;
    var charCount: nat := 0;
    ghost var d: seq<sextet> := [];
    var i := 0;
    while i < |a|
      invariant 0 <= i <= |a|
      invariant forall j :: 0 <= j < i ==> a[j] != '=' && !IsIllegal(a[j])
      invariant d == Sextets(a[..i])
      invariant State(d, out, bits, charCount)
    {
      var ch := a[i];
      if ch == '=' {
        break;
      }
      SextetsSnoc(a, i);
      match Classify(ch) {
        case Skip =>
        case Illegal =>
          BodyAt(a, i);
          return Failure(IllegalCharacter(i));
        case Sextet(c) =>
          out, bits, charCount := Feed(d, out, bits, charCount, c);
          d := d + [c];
      }
      assert a[i] != '=' && !IsIllegal(a[i]);
      i := i + 1;
    }
    r := Flush(a, i, d, out, bits, charCount);
  }

  /** The end of `decode`: the tail `switch` and the result, once the scan
      stopped at '=' or at the end of the input. */
  method Flush(a: string, i: nat, ghost d: seq<sextet>, out: seq<byte>, bits: nat, charCount: nat)
    returns (r: Result<seq<byte>, DecodeError>)
    requires i <= |a| && (i == |a| || a[i] == '=')
    requires forall j :: 0 <= j < i ==> a[j] != '=' && !IsIllegal(a[j])
    requires d == Sextets(a[..i])
    requires State(d, out, bits, charCount)
    ensures r == Spec(a)
    ensures r.Success? ==> |r.value| <= |a| * 3 / 4
  {
    BodyAt(a, i);
    SextetsCount(a[..i]);
    ScaledBound(|d|, |a|);
    if charCount == 1 {
      return Failure(Incomplete);
    }
    Finish(d, out, bits, charCount);
    var last: seq<byte> := [];
    if charCount == 2 {
      last := [bits / 1024];
    } else if charCount == 3 {
      last := [bits / 65536, (bits / 256) % 256];
    }
    return Success(out + last);
  }

  lemma ScaledBound(n: nat, m: nat)
    requires n <= m
    ensures 6 * n / 8 <= m * 3 / 4
  {
  }

  /** Scanning reached index `i` without meeting '=' or an illegal
      character: if `a[i]` is '=' or the end, the body is `a[..i]`; if it is
      illegal, the first illegal character of the body is at `i`. */
  lemma BodyAt(a: string, i: nat)
    requires i <= |a|
    requires forall j :: 0 <= j < i ==> a[j] != '=' && !IsIllegal(a[j])
    ensures (i == |a| || a[i] == '=') ==> Body(a) == a[..i] && FirstIllegal(Body(a)).None?
    ensures i < |a| && IsIllegal(a[i]) ==> FirstIllegal(Body(a)) == Some(i)
  {
    var n := BodyLength(a);
    if i == |a| || a[i] == '=' {
      assert n == i;
    } else if IsIllegal(a[i]) {
      assert a[i] != '=';
      assert n > i;
      var b := Body(a);
      assert b[i] == a[i];
      assert forall j :: 0 <= j < i ==> b[j] == a[j];
    }
  }
}

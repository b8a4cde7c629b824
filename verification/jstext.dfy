/** The handful of JavaScript string built-ins the decoders lean on, with
    their ECMAScript behaviour written out: `split` on one character, `join`,
    `slice(0, -1)`, ASCII `toLowerCase`, `Number.prototype.toString()` on
    naturals, the `\s` and `.` regular-expression classes, and the global
    replace `s.replace(/(.{n})/g, '$1' + ins)`. */
module JsText {
  import opened Results

  /** The ignore set of the Base64 and hex decoder tables,
      " \f\n\r\t\u00A0\u2028\u2029". */
  predicate IsIgnored(c: char) {
    c == ' ' || c == '\U{000C}' || c == '\n' || c == '\r' || c == '\t'
    || c == '\U{00A0}' || c == '\U{2028}' || c == '\U{2029}'
  }

  /** A member of the `\s` class of ECMAScript regular expressions. */
  predicate IsJsSpace(c: char) {
    c == ' ' || c == '\t' || c == '\n' || c == '\r' || c == '\U{000B}' || c == '\U{000C}'
    || c == '\U{00A0}' || c == '\U{1680}' || ('\U{2000}' <= c <= '\U{200A}')
    || c == '\U{2028}' || c == '\U{2029}' || c == '\U{202F}' || c == '\U{205F}'
    || c == '\U{3000}' || c == '\U{FEFF}'
  }

  /** The characters the regular-expression `.` does not match. */
  predicate IsLineTerminator(c: char) {
    c == '\n' || c == '\r' || c == '\U{2028}' || c == '\U{2029}'
  }

  predicate NoLineTerminator(s: string) {
    forall i :: 0 <= i < |s| ==> !IsLineTerminator(s[i])
  }

  /** Number of occurrences of `c` in `s`. */
  function Count(s: string, c: char): nat {
    if |s| == 0 then 0 else (if s[0] == c then 1 else 0) + Count(s[1..], c)
  }

  /** `xs.join(sep)`. */
  function Join(xs: seq<string>, sep: string): string {
    if |xs| == 0 then ""
    else if |xs| == 1 then xs[0]
    else xs[0] + sep + Join(xs[1..], sep)
  }

  /** `s.split(sep)` for a one-character separator: one piece more than
      there are separators, none containing the separator, and joining the
      pieces back with the separator restores `s`. */
  function Split(s: string, sep: char): (r: seq<string>)
    ensures |r| == Count(s, sep) + 1
    ensures forall i :: 0 <= i < |r| ==> sep !in r[i]
    ensures Join(r, [sep]) == s
  {
    if |s| == 0 then [""]
    else
      var rest := Split(s[1..], sep);
      if s[0] == sep then
        assert Join([""] + rest, [sep]) == [sep] + Join(rest, [sep]) by {
          assert ([""] + rest)[1..] == rest;
        }
        assert s == [s[0]] + s[1..];
        [""] + rest
      else
        var r := [[s[0]] + rest[0]] + rest[1..];
        assert r[1..] == rest[1..];
        assert Join(r, [sep]) == [s[0]] + Join(rest, [sep]) by {
          if |rest| > 1 {
            assert Join(rest, [sep]) == rest[0] + [sep] + Join(rest[1..], [sep]);
          }
        }
        assert s == [s[0]] + s[1..];
        r
  }

  /** Splitting a join recovers the pieces, provided no piece contains the separator. */
  lemma {:induction false} SplitJoin(xs: seq<string>, c: char)
    requires |xs| >= 1
    requires forall i :: 0 <= i < |xs| ==> c !in xs[i]
    ensures Split(Join(xs, [c]), c) == xs
  {
    if |xs| == 1 {
      SplitNoSeparator(xs[0], c);
    } else {
      SplitJoin(xs[1..], c);
      SplitPrefix(xs[0], Join(xs[1..], [c]), c);
    }
  }

  /** A string without the separator splits into itself alone. */
  lemma {:induction false} SplitNoSeparator(s: string, c: char)
    requires c !in s
    ensures Split(s, c) == [s]
  {
    if |s| > 0 {
      SplitNoSeparator(s[1..], c);
    }
  }

  /** A separator-free head followed by a separator becomes one piece of its own. */
  lemma {:induction false} SplitPrefix(x: string, rest: string, c: char)
    requires c !in x
    ensures Split(x + [c] + rest, c) == [x] + Split(rest, c)
  {
    if |x| == 0 {
      assert x + [c] + rest == [c] + rest;
      assert ([c] + rest)[1..] == rest;
    } else {
      assert (x + [c] + rest)[1..] == x[1..] + [c] + rest;
      SplitPrefix(x[1..], rest, c);
      assert [x[0]] + x[1..] == x;
    }
  }

  /** Index of the first '=' of `a`, or `|a|` when there is none. */
  function BodyLength(a: string): (n: nat)
    ensures n <= |a|
    ensures forall j :: 0 <= j < n ==> a[j] != '='
    ensures n < |a| ==> a[n] == '='
  {
    if |a| == 0 then 0 else if a[0] == '=' then 0 else 1 + BodyLength(a[1..])
  }

  /** The part of the input the Base64 and hex decoders look at:
      everything before the first '='. */
  function Body(a: string): string {
    a[..BodyLength(a)]
  }

  /** The body of `e + pad` is `e` when `e` has no '=' and `pad` is empty or starts with one. */
  lemma BodyOf(e: string, pad: string)
    requires '=' !in e
    requires pad == [] || pad[0] == '='
    ensures Body(e + pad) == e && BodyLength(e + pad) == |e|
  {
    BodyLengthOf(e, pad);
    assert (e + pad)[..|e|] == e;
  }

  lemma {:induction false} BodyLengthOf(e: string, pad: string)
    requires '=' !in e
    requires pad == [] || pad[0] == '='
    ensures BodyLength(e + pad) == |e|
  {
    if |e| == 0 {
      assert e + pad == pad;
    } else {
      assert (e + pad)[1..] == e[1..] + pad;
      BodyLengthOf(e[1..], pad);
    }
  }

  /** A text is its body followed by nothing or by a part starting with '='. */
  lemma BodySplit(a: string)
    ensures a == Body(a) + a[BodyLength(a)..]
    ensures '=' !in Body(a)
    ensures a[BodyLength(a)..] == [] || a[BodyLength(a)..][0] == '='
  {
  }

  /** The body of `a` with `c` inserted at `p`, when `p` is before the first '='. */
  lemma BodyInsert(a: string, p: nat, c: char)
    requires p <= BodyLength(a)
    requires c != '='
    ensures Body(a[..p] + [c] + a[p..]) == Body(a)[..p] + [c] + Body(a)[p..]
  {
    BodySplit(a);
    var b, t := Body(a), a[BodyLength(a)..];
    InsertBefore(b, t, p, c);
    NoEqualsInsert(b, p, c);
    BodyOf(b[..p] + [c] + b[p..], t);
  }

  /** Inserting within the first part of `b + t` inserts into `b`. */
  lemma InsertBefore(b: string, t: string, p: nat, c: char)
    requires p <= |b|
    ensures (b + t)[..p] + [c] + (b + t)[p..] == (b[..p] + [c] + b[p..]) + t
  {
    assert (b + t)[..p] == b[..p];
    assert (b + t)[p..] == b[p..] + t;
  }

  lemma NoEqualsInsert(b: string, p: nat, c: char)
    requires p <= |b| && '=' !in b && c != '='
    ensures '=' !in b[..p] + [c] + b[p..]
  {
    var e := b[..p] + [c] + b[p..];
    forall i | 0 <= i < |e|
      ensures e[i] != '='
    {
      if i < p {
        assert e[i] == b[i];
      } else if i > p {
        assert e[i] == b[i - 1];
      }
    }
  }

  /** `s.slice(0, -1)`: everything but the last character ("" stays ""). */
  function DropLast(s: string): (r: string)
    ensures |s| > 0 ==> |r| == |s| - 1 && s == r + [s[|s| - 1]]
    ensures |s| == 0 ==> r == ""
  {
    if |s| == 0 then "" else s[..|s| - 1]
  }

  /** ASCII `toLowerCase`. */
  function LowerChar(c: char): (r: char)
    ensures 'A' <= c <= 'Z' ==> r as int == c as int + 32
    ensures !('A' <= c <= 'Z') ==> r == c
  {
    if 'A' <= c <= 'Z' then (c as int + 32) as char else c
  }

  function Lower(s: string): (r: string)
    ensures |r| == |s|
    ensures forall i :: 0 <= i < |s| ==> r[i] == LowerChar(s[i])
  {
    seq(|s|, i requires 0 <= i < |s| => LowerChar(s[i]))
  }

  /** The decimal digit character for 0..9. */
  function DigitChar(d: nat): (c: char)
    requires d < 10
    ensures '0' <= c <= '9' && c as int - '0' as int == d
  {
    ('0' as int + d) as char
  }

  /** `String(n)` for a natural number: shortest decimal notation. */
  function NatToString(n: nat): (r: string)
    ensures |r| >= 1
    ensures forall i :: 0 <= i < |r| ==> '0' <= r[i] <= '9'
    ensures |r| > 1 ==> r[0] != '0'
    decreases n
  {
    if n < 10 then [DigitChar(n)] else NatToString(n / 10) + [DigitChar(n % 10)]
  }

  /** `String(i)` for any integer. */
  function IntToString(i: int): string {
    if i < 0 then "-" + NatToString(-i) else NatToString(i)
  }

  /** Reading a run of decimal digits. */
  function DecimalValue(s: string): nat
    requires forall i :: 0 <= i < |s| ==> '0' <= s[i] <= '9'
  {
    if |s| == 0 then 0
    else 10 * DecimalValue(s[..|s| - 1]) + (s[|s| - 1] as int - '0' as int)
  }

  /** Decimal rendering is read back to the same number. */
  lemma {:induction false} DecimalRoundTrip(n: nat)
    ensures DecimalValue(NatToString(n)) == n
  {
    if n >= 10 {
      var r := NatToString(n);
      assert r[..|r| - 1] == NatToString(n / 10);
      DecimalRoundTrip(n / 10);
    }
  }

  /** `s.replace(/(.{n})/g, '$1' + ins)`: scanning left to right, each run of
      `n` characters without a line terminator gets `ins` appended and the
      scan resumes after it; where no such run starts the scan moves on by
      one character. */
  function ReplaceChunks(s: string, n: nat, ins: string): string
    requires n > 0
    decreases |s|
  {
    if |s| < n then s
    else if NoLineTerminator(s[..n]) then s[..n] + ins + ReplaceChunks(s[n..], n, ins)
    else [s[0]] + ReplaceChunks(s[1..], n, ins)
  }

  /** Every character of the result comes from `s` or from `ins`. */
  lemma {:induction false} ReplaceChunksChars(s: string, n: nat, ins: string)
    requires n > 0
    ensures forall c :: c in ReplaceChunks(s, n, ins) ==> c in s || c in ins
    decreases |s|
  {
    if |s| >= n {
      if NoLineTerminator(s[..n]) {
        ReplaceChunksChars(s[n..], n, ins);
        assert s == s[..n] + s[n..];
      } else {
        ReplaceChunksChars(s[1..], n, ins);
        assert s == [s[0]] + s[1..];
      }
    }
  }

  /** The index of the first character of `s` that `p` accepts: what both
      decoders report as the offset of an illegal character. */
  function FirstWhere(s: string, p: char -> bool): (r: Option<nat>)
    ensures r.Some? ==> r.value < |s| && p(s[r.value])
                        && forall j :: 0 <= j < r.value ==> !p(s[j])
    ensures r.None? ==> forall j :: 0 <= j < |s| ==> !p(s[j])
  {
    if |s| == 0 then None
    else if p(s[0]) then Some(0)
    else match FirstWhere(s[1..], p)
      case None => None
      case Some(k) => Some(k + 1)
  }

  /** Where the first accepted character is once a rejected `c` is inserted
      after `x`. */
  lemma FirstWhereInsert(x: string, c: char, y: string, p: char -> bool)
    requires !p(c)
    ensures FirstWhere(x + [c] + y, p) == ShiftIndex(FirstWhere(x + y, p), |x|)
  {
    var s, t, k := x + y, x + [c] + y, |x|;
    assert forall i :: 0 <= i < k ==> t[i] == s[i];
    assert forall i :: k <= i < |s| ==> t[i + 1] == s[i];
    FirstWhereShift(s, t, k, p);
  }

  /** `t` is `s` with a rejected character inserted at `k`. */
  lemma FirstWhereShift(s: string, t: string, k: nat, p: char -> bool)
    requires k <= |s| && |t| == |s| + 1 && !p(t[k])
    requires forall i :: 0 <= i < k ==> t[i] == s[i]
    requires forall i :: k <= i < |s| ==> t[i + 1] == s[i]
    ensures FirstWhere(t, p) == ShiftIndex(FirstWhere(s, p), k)
  {
    var o := FirstWhere(s, p);
    var m := if o.None? then |t| else if o.value < k then o.value else o.value + 1;
    forall j | 0 <= j < m
      ensures !p(t[j])
    {
      if j > k {
        assert t[j] == s[j - 1];
      }
    }
    if o.Some? {
      FirstWhereAt(t, m, p);
    } else {
      FirstWhereNone(t, p);
    }
  }

  /** An accepted character with only rejected ones before it is the first. */
  lemma FirstWhereAt(s: string, k: nat, p: char -> bool)
    requires k < |s| && p(s[k])
    requires forall j :: 0 <= j < k ==> !p(s[j])
    ensures FirstWhere(s, p) == Some(k)
  {
  }

  lemma FirstWhereNone(s: string, p: char -> bool)
    requires forall j :: 0 <= j < |s| ==> !p(s[j])
    ensures FirstWhere(s, p).None?
  {
  }

  /** `s` with every occurrence of `c` removed. */
  function Remove(s: string, c: char): (r: string)
    ensures c !in r
  {
    if |s| == 0 then "" else (if s[0] == c then "" else [s[0]]) + Remove(s[1..], c)
  }

  lemma {:induction false} RemoveAppend(a: string, b: string, c: char)
    ensures Remove(a + b, c) == Remove(a, c) + Remove(b, c)
  {
    if |a| == 0 {
      assert a + b == b;
    } else {
      assert (a + b)[1..] == a[1..] + b;
      RemoveAppend(a[1..], b, c);
    }
  }

  lemma {:induction false} RemoveAbsent(s: string, c: char)
    requires c !in s
    ensures Remove(s, c) == s
  {
    if |s| > 0 {
      RemoveAbsent(s[1..], c);
      assert s == [s[0]] + s[1..];
    }
  }

  /** Inserting a character the string does not contain after every chunk is
      undone by removing that character again. */
  lemma {:induction false} ReplaceChunksRemove(s: string, n: nat, c: char)
    requires n > 0
    requires c !in s
    ensures Remove(ReplaceChunks(s, n, [c]), c) == s
    decreases |s|
  {
    if |s| < n {
      RemoveAbsent(s, c);
    } else if NoLineTerminator(s[..n]) {
      ReplaceChunksRemove(s[n..], n, c);
      RemoveChunk(s[..n], ReplaceChunks(s[n..], n, [c]), c);
      assert s[..n] + s[n..] == s;
    } else {
      ReplaceChunksRemove(s[1..], n, c);
      assert ([s[0]] + ReplaceChunks(s[1..], n, [c]))[1..] == ReplaceChunks(s[1..], n, [c]);
      assert [s[0]] + s[1..] == s;
    }
  }

  /** Removing `c` after a `c`-free chunk followed by `c` leaves the chunk. */
  lemma RemoveChunk(x: string, rest: string, c: char)
    requires c !in x
    ensures Remove(x + [c] + rest, c) == x + Remove(rest, c)
  {
    RemoveAppend(x + [c], rest, c);
    RemoveAppend(x, [c], c);
    RemoveAbsent(x, c);
    RemoveOne(c);
    assert Remove(x + [c], c) == x;
  }

  /** Removing `c` around one occurrence of it in the middle. */
  lemma RemoveMiddle(x: string, c: char, y: string)
    ensures Remove(x + [c] + y, c) == Remove(x + y, c)
  {
    RemoveAppend(x + [c], y, c);
    RemoveAppend(x, [c], c);
    RemoveAppend(x, y, c);
    RemoveOne(c);
    assert Remove(x + [c], c) == Remove(x, c);
  }

  lemma RemoveOne(c: char)
    ensures Remove([c], c) == ""
  {
    assert [c][1..] == "";
  }

  /** Without line terminators in the input every full chunk is followed by
      the insertion and no line of the result is longer than `n`. */
  lemma {:induction false} ReplaceChunksLines(s: string, n: nat)
    requires n > 0
    requires NoLineTerminator(s)
    ensures LongestLine(ReplaceChunks(s, n, "\n"), 0) <= n
    decreases |s|
  {
    var r := ReplaceChunks(s, n, "\n");
    if |s| < n {
      LongestLineBound(s, 0, n);
    } else {
      assert NoLineTerminator(s[..n]);
      ReplaceChunksLines(s[n..], n);
      LongestLineChunk(s[..n], ReplaceChunks(s[n..], n, "\n"), n);
    }
  }

  /** Length of the longest line of `s`, given that the line under
      construction already holds `run` characters. */
  function LongestLine(s: string, run: nat): nat
    decreases |s|
  {
    if |s| == 0 then run
    else if s[0] == '\n' then Max(run, LongestLine(s[1..], 0))
    else LongestLine(s[1..], run + 1)
  }

  function Max(a: nat, b: nat): nat {
    if a < b then b else a
  }

  lemma {:induction false} LongestLineBound(s: string, run: nat, n: nat)
    requires NoLineTerminator(s)
    requires run + |s| <= n
    ensures LongestLine(s, run) <= n
    decreases |s|
  {
    if |s| > 0 {
      assert !IsLineTerminator(s[0]);
      LongestLineBound(s[1..], run + 1, n);
    }
  }

  lemma {:induction false} LongestLineChunk(x: string, rest: string, n: nat)
    requires NoLineTerminator(x)
    requires |x| <= n
    requires LongestLine(rest, 0) <= n
    ensures LongestLine(x + "\n" + rest, 0) <= n
  {
    LongestLineStep(x, 0, rest, n);
  }

  lemma {:induction false} LongestLineStep(x: string, run: nat, rest: string, n: nat)
    requires NoLineTerminator(x)
    requires run + |x| <= n
    requires LongestLine(rest, 0) <= n
    ensures LongestLine(x + "\n" + rest, run) <= n
    decreases |x|
  {
    if |x| == 0 {
      assert x + "\n" + rest == "\n" + rest;
      assert ("\n" + rest)[1..] == rest;
    } else {
      assert !IsLineTerminator(x[0]);
      assert (x + "\n" + rest)[1..] == x[1..] + "\n" + rest;
      LongestLineStep(x[1..], run + 1, rest, n);
    }
  }
}

/** `Base64.unarmor` and `Base64.pretty`: finding the Base64 text inside
    a PEM block (section 2 of RFC 7468) or a `begin-base64` block, and
    laying a Base64 text out for display. */
module Base64Armor {
  import opened Bits
  import opened Results
  import opened JsText
  import opened Base64
  import opened Base64Props

  // ---- the armor regular expression --------------------------------------

  /** A member of the class `[A-Za-z0-9+\/=\s]`. */
  predicate IsArmorChar(c: char) {
    ('A' <= c <= 'Z') || ('a' <= c <= 'z') || ('0' <= c <= '9') || c == '+' || c == '/' || c == '=' || IsJsSpace(c)
  }

  predicate NotDash(c: char) {
    c != '-'
  }

  predicate NotNewline(c: char) {
    c != '\n'
  }

  /** `t` starts with `w`. */
  predicate StartsWith(t: string, w: string) {
    |w| <= |t| && t[..|w|] == w
  }

  /** `w` occurs in `t` at index `i`. */
  predicate HasAt(t: string, i: nat, w: string) {
    i + |w| <= |t| && t[i..i + |w|] == w
  }

  /** Length of the longest prefix of `t` whose characters satisfy `p`. */
  function Run(t: string, p: char -> bool): (n: nat)
    ensures n <= |t|
  {
    if |t| == 0 || !p(t[0]) then 0 else 1 + Run(t[1..], p)
  }

  /** The run is a run of `p` characters and cannot be extended. */
  lemma {:induction false} RunSpec(t: string, p: char -> bool)
    ensures forall k :: 0 <= k < Run(t, p) ==> p(t[k])
    ensures Run(t, p) < |t| ==> !p(t[Run(t, p)])
  {
    if |t| > 0 && p(t[0]) {
      RunSpec(t[1..], p);
    }
  }

  /** The first alternative, `-----BEGIN [^-]+-----([A-Za-z0-9+\/=\s]+)-----END [^-]+-----`,
      tried at the start of `t`. None of its repeated classes contains the
      character that must follow the repetition, so each repetition takes
      its longest run and backtracking never finds another match. */
  function Pem(t: string): (r: Option<string>)
    ensures r.Some? ==> |r.value| >= 1 && forall k :: 0 <= k < |r.value| ==> IsArmorChar(r.value[k])
  {
    if !StartsWith(t, "-----BEGIN ") then None
    else
      var t1 := t[11..];
      var l := Run(t1, NotDash);
      if l == 0 || !StartsWith(t1[l..], "-----") then None
      else
        var t3 := t1[l..][5..];
        var g := Run(t3, IsArmorChar);
        RunSpec(t3, IsArmorChar);
        if g == 0 || !StartsWith(t3[g..], "-----END ") then None
        else
          var t5 := t3[g..][9..];
          var e := Run(t5, NotDash);
          if e == 0 || !StartsWith(t5[e..], "-----") then None
          else Some(t3[..g])
  }

  /** The largest `g` in `lo..hi` at which "====" occurs in `t`. */
  function LastFourEquals(t: string, lo: nat, hi: int): (r: Option<nat>)
    ensures r.Some? ==> lo <= r.value <= hi && HasAt(t, r.value, "====")
    ensures r.Some? ==> forall k :: r.value < k <= hi ==> !HasAt(t, k, "====")
    ensures r.None? ==> forall k :: lo <= k <= hi ==> !HasAt(t, k, "====")
    decreases hi - lo
  {
    if hi < lo then None
    else if HasAt(t, hi, "====") then Some(hi)
    else LastFourEquals(t, lo, hi - 1)
  }

  /** The second alternative, `begin-base64[^\n]+\n([A-Za-z0-9+\/=\s]+)====`,
      tried at the start of `t`. The group takes the longest run of the
      class and then gives characters back until "====" follows it; since
      '=' is in the class, the group ends at the last "====" inside the run
      that leaves it non-empty. */
  function Uu(t: string): (r: Option<string>)
    ensures r.Some? ==> |r.value| >= 1 && forall k :: 0 <= k < |r.value| ==> IsArmorChar(r.value[k])
  {
    if !StartsWith(t, "begin-base64") then None
    else
      var t1 := t[12..];
      var h := Run(t1, NotNewline);
      if h == 0 || h == |t1| then None
      else
        var t2 := t1[h + 1..];
        var run := Run(t2, IsArmorChar);
        RunSpec(t2, IsArmorChar);
        match LastFourEquals(t2, 1, run - 4)
        case None => None
        case Some(g) => Some(t2[..g])
  }

  /** The group captured by a match starting at index `s`. The two
      alternatives begin with different characters, so at most one applies. */
  function MatchAt(a: string, s: nat): (r: Option<string>)
    requires s <= |a|
    ensures r.Some? ==> |r.value| >= 1 && forall k :: 0 <= k < |r.value| ==> IsArmorChar(r.value[k])
  {
    if Pem(a[s..]).Some? then Pem(a[s..]) else Uu(a[s..])
  }

  /** Where `re.exec(a)` finds its leftmost match from index `s` on, or
      |a| + 1 when there is none. */
  function FirstMatch(a: string, s: nat): (k: nat)
    requires s <= |a|
    ensures s <= k <= |a| + 1
    ensures k <= |a| ==> MatchAt(a, k).Some?
    ensures forall j :: s <= j < k && j <= |a| ==> MatchAt(a, j).None?
    decreases |a| - s
  {
    if MatchAt(a, s).Some? then s
    else if s == |a| then |a| + 1
    else FirstMatch(a, s + 1)
  }

  /** `re.exec(a)` from index `s` on: the leftmost match and its group. */
  function Exec(a: string, s: nat): Option<string>
    requires s <= |a|
  {
    var k := FirstMatch(a, s);
    if k <= |a| then MatchAt(a, k) else None
  }

  /** `Base64.unarmor(a)`: the captured group is decoded when the armor
      regular expression matches, the whole text otherwise. The group is
      never empty, so the 'RegExp out of sync' exception cannot occur. */
  function Unarmor(a: string): (r: Result<seq<byte>, DecodeError>)
    ensures (forall k :: 0 <= k <= |a| ==> MatchAt(a, k).None?) ==> r == Spec(a)
    ensures (exists k :: 0 <= k <= |a| && MatchAt(a, k).Some?) ==>
              exists k :: 0 <= k <= |a| && MatchAt(a, k).Some? && r == Spec(MatchAt(a, k).value)
                          && forall j :: 0 <= j < k ==> MatchAt(a, j).None?
  {
    var k := FirstMatch(a, 0);
    assert k <= |a| ==> MatchAt(a, k).Some? && forall j :: 0 <= j < k ==> MatchAt(a, j).None?;
    match Exec(a, 0)
    case Some(group) => Spec(group)
    case None => Spec(a)
  }

  /** Text with no '-' matches neither alternative and is decoded whole. */
  lemma UnarmorPlain(a: string)
    requires '-' !in a
    ensures Unarmor(a) == Spec(a)
  {
    forall k | 0 <= k <= |a|
      ensures MatchAt(a, k).None?
    {
      NoMatchWithoutDash(a, k);
    }
  }

  /** Both alternatives start with a literal holding '-'. */
  lemma NoMatchWithoutDash(a: string, k: nat)
    requires k <= |a|
    requires '-' !in a
    ensures !StartsWith(a[k..], "-----BEGIN ") && !StartsWith(a[k..], "begin-base64")
  {
    var t := a[k..];
    if 11 <= |t| {
      assert t[..11][0] == t[0] == a[k];
    }
    if 12 <= |t| {
      assert t[..12][5] == t[5] == a[k + 5];
    }
  }

  // ---- pretty --------------------------------------------------------------

  /** The padding step of `pretty` as written: `(str + '===').slice(0,
      str.length + str.length % 4)` appends `str.length % 4` '=' characters. */
  function PadAsWritten(s: string): (r: string)
    ensures r == s + "==="[..|s| % 4]
  {
    if |s| % 4 > 0 then (s + "===")[..|s| + |s| % 4] else s
  }

  /** Padding to a multiple of four characters, as section 4 of RFC 4648
      lays out a final partial group. */
  function Pad(s: string): (r: string)
    ensures |r| % 4 == 0
    ensures |s| <= |r| < |s| + 4
    ensures r[..|s|] == s && forall i :: |s| <= i < |r| ==> r[i] == '='
  {
    s + "==="[..(4 - |s| % 4) % 4]
  }

  /** A 3-character text is padded to six characters, not four. */
  lemma PadAsWrittenOverpads()
    ensures PadAsWritten("abc") == "abc==="
    ensures |PadAsWritten("abc")| % 4 != 0
    ensures Pad("abc") == "abc="
  {
  }

  /** The two paddings agree except when the length is 1 or 3 modulo 4. */
  lemma PadAgreement(s: string)
    ensures |s| % 4 == 0 || |s| % 4 == 2 ==> PadAsWritten(s) == Pad(s)
    ensures |s| % 4 == 1 || |s| % 4 == 3 ==> |PadAsWritten(s)| % 4 == 2
  {
  }

  /** `pretty(str)` with the intended padding: pad, rewrite the URL-safe
      characters, break after every 80 characters. */
  function Pretty(s: string): string {
    ReplaceChunks(Standardize(Pad(s)), 80, "\n")
  }

  /** `pretty(str)` as written. */
  function PrettyAsWritten(s: string): string {
    ReplaceChunks(Standardize(PadAsWritten(s)), 80, "\n")
  }

  /** The display form of a text without line breaks has lines of at most 80 characters. */
  lemma PrettyLines(s: string)
    requires NoLineTerminator(s)
    ensures LongestLine(Pretty(s), 0) <= 80
    ensures LongestLine(PrettyAsWritten(s), 0) <= 80
  {
    StandardizeNoLineTerminator(Pad(s));
    StandardizeNoLineTerminator(PadAsWritten(s));
    ReplaceChunksLines(Standardize(Pad(s)), 80);
    ReplaceChunksLines(Standardize(PadAsWritten(s)), 80);
  }

  lemma StandardizeNoLineTerminator(s: string)
    requires forall k :: 0 <= k < |s| ==> !IsLineTerminator(s[k]) || s[k] == '='
    ensures NoLineTerminator(Standardize(s))
  {
  }

  /** Decoding the display form gives what decoding the original gives
      (up to the offset of an illegal character), with either padding. */
  lemma PrettyDecodes(s: string)
    requires NoLineTerminator(s)
    ensures SameOutcome(Spec(Pretty(s)), Spec(s))
    ensures SameOutcome(Spec(PrettyAsWritten(s)), Spec(s))
  {
    DisplayDecodes(s, "==="[..(4 - |s| % 4) % 4]);
    DisplayDecodes(s, "==="[..|s| % 4]);
  }

  /** Padding, rewriting and line breaking keep the decoding outcome. */
  lemma DisplayDecodes(s: string, pad: string)
    requires NoLineTerminator(s)
    requires forall k :: 0 <= k < |pad| ==> pad[k] == '='
    ensures SameOutcome(Spec(ReplaceChunks(Standardize(s + pad), 80, "\n")), Spec(s))
  {
    var u := Standardize(s + pad);
    StandardizeNoLineTerminator(s + pad);
    assert '\n' !in u by {
      assert forall k :: 0 <= k < |u| ==> !IsLineTerminator(u[k]);
    }
    ReplaceChunksRemove(u, 80, '\n');
    RemoveSkipped(ReplaceChunks(u, 80, "\n"), '\n');
    UrlSafeDecodesAsStandard(s + pad);
    AppendPadding(s, pad);
  }

  // ---- armored round trips -------------------------------------------------

  /** A PEM block: `-----BEGIN tag-----`, the body on its own lines,
      `-----END tag-----`. */
  function PemText(tag: string, body: string): string {
    "-----BEGIN " + (tag + ("-----" + (("\n" + body + "\n") + ("-----END " + (tag + "-----")))))
  }

  /** A `begin-base64` block: header line, body, and the "====" end line. */
  function BeginBase64Text(header: string, body: string): string {
    "begin-base64" + (header + ("\n" + (body + "\n====")))
  }

  /** Every character of the display form of an encoding is an armor character. */
  lemma PrettyEncodeChars(x: seq<byte>)
    ensures NoLineTerminator(Encode(x))
    ensures forall c :: c in Pretty(Encode(x)) ==> IsArmorChar(c)
  {
    var e := Encode(x);
    assert forall k :: 0 <= k < |e| ==> IsArmorChar(e[k]) && !IsLineTerminator(e[k]) && e[k] != '-' && e[k] != '_';
    var u := Standardize(Pad(e));
    assert forall k :: 0 <= k < |u| ==> IsArmorChar(u[k]);
    ReplaceChunksChars(u, 80, "\n");
  }

  /** Decoding a text surrounded by two line breaks. */
  lemma NewlinesAround(body: string)
    ensures SameOutcome(Spec("\n" + body + "\n"), Spec(body))
  {
    var b1 := "\n" + body;
    assert body[..0] + ['\n'] + body[0..] == b1;
    InsertSkippedAnywhere(body, 0, '\n');
    assert b1[..|b1|] + ['\n'] + b1[|b1|..] == b1 + "\n";
    InsertSkippedAnywhere(b1, |b1|, '\n');
    SameOutcomeTrans(Spec(b1 + "\n"), Spec(b1), Spec(body));
  }

  /** `unarmor` of a PEM block holding the display form of the encoding of
      `x` returns `x`. */
  lemma UnarmorPem(tag: string, x: seq<byte>)
    requires |tag| >= 1 && '-' !in tag
    ensures Unarmor(PemText(tag, Pretty(Encode(x)))) == Success(x)
  {
    var body := Pretty(Encode(x));
    PrettyEncodeChars(x);
    PemMatch(tag, body);
    NewlinesAround(body);
    PrettyDecodes(Encode(x));
    RoundTrip(x);
  }

  lemma PemMatch(tag: string, body: string)
    requires |tag| >= 1 && '-' !in tag
    requires forall c :: c in body ==> IsArmorChar(c)
    ensures Unarmor(PemText(tag, body)) == Spec("\n" + body + "\n")
  {
    var g := "\n" + body + "\n";
    var r3 := g + ("-----END " + (tag + "-----"));
    var a := PemText(tag, body);
    assert a[0..] == a;
    NewlinesArmor(body);
    PemHead(tag, r3);
    PemTail(tag, g);
    assert Pem(a) == Some(g);
  }

  /** The opening line of a PEM block. */
  lemma PemHead(tag: string, r3: string)
    requires |tag| >= 1 && '-' !in tag
    ensures var t1 := ("-----BEGIN " + (tag + ("-----" + r3)))[11..];
      && StartsWith("-----BEGIN " + (tag + ("-----" + r3)), "-----BEGIN ")
      && Run(t1, NotDash) == |tag|
      && StartsWith(t1[|tag|..], "-----")
      && t1[|tag|..][5..] == r3
  {
    var r2 := "-----" + r3;
    Literal("-----BEGIN ", tag + r2);
    RunOver(tag, r2, NotDash);
    Literal("-----", r3);
  }

  /** The group and the closing line of a PEM block. */
  lemma PemTail(tag: string, g: string)
    requires |tag| >= 1 && '-' !in tag
    requires |g| >= 1 && forall c :: c in g ==> IsArmorChar(c)
    ensures var t3 := g + ("-----END " + (tag + "-----"));
      var t5 := t3[|g|..][9..];
      && Run(t3, IsArmorChar) == |g|
      && t3[..|g|] == g
      && StartsWith(t3[|g|..], "-----END ")
      && Run(t5, NotDash) == |tag|
      && StartsWith(t5[|tag|..], "-----")
  {
    var r5 := tag + "-----";
    var r4 := "-----END " + r5;
    assert r4[0] == '-';
    RunOver(g, r4, IsArmorChar);
    Literal("-----END ", r5);
    RunOver(tag, "-----", NotDash);
    Literal("-----", []);
  }

  lemma NewlinesArmor(body: string)
    requires forall c :: c in body ==> IsArmorChar(c)
    ensures forall c :: c in "\n" + body + "\n" ==> IsArmorChar(c)
  {
  }

  /** Matching a literal at the start and stepping over it. */
  lemma Literal(w: string, r: string)
    ensures StartsWith(w + r, w) && (w + r)[|w|..] == r
  {
    assert (w + r)[..|w|] == w;
  }

  /** A run over all of `w` stops where `w` ends if the next character
      fails, and what follows the run is `r`. */
  lemma RunOver(w: string, r: string, q: char -> bool)
    requires forall c :: c in w ==> q(c)
    requires r == [] || !q(r[0])
    ensures Run(w + r, q) == |w| && (w + r)[|w|..] == r && (w + r)[..|w|] == w
  {
    RunOverAt(w, r, q);
  }

  lemma {:induction false} RunOverAt(w: string, r: string, q: char -> bool)
    requires forall c :: c in w ==> q(c)
    requires r == [] || !q(r[0])
    ensures Run(w + r, q) == |w|
  {
    if |w| == 0 {
      assert w + r == r;
    } else {
      assert w[0] in w;
      assert (w + r)[1..] == w[1..] + r;
      assert forall c :: c in w[1..] ==> c in w;
      RunOverAt(w[1..], r, q);
    }
  }

  /** `unarmor` of a `begin-base64` block holding the display form of the
      encoding of `x` returns `x`. */
  lemma UnarmorBeginBase64(header: string, x: seq<byte>)
    requires |header| >= 1 && '\n' !in header
    ensures Unarmor(BeginBase64Text(header, Pretty(Encode(x)))) == Success(x)
  {
    var body := Pretty(Encode(x));
    PrettyEncodeChars(x);
    BeginBase64Match(header, body);
    NewlineAfter(body);
    PrettyDecodes(Encode(x));
    RoundTrip(x);
    SameOutcomeTrans(Spec(body + "\n"), Spec(body), Spec(Encode(x)));
  }

  lemma NewlineAfter(body: string)
    ensures SameOutcome(Spec(body + "\n"), Spec(body))
  {
    InsertSkippedAnywhere(body, |body|, '\n');
    assert body[..|body|] + ['\n'] + body[|body|..] == body + "\n";
  }

  lemma BeginBase64Match(header: string, body: string)
    requires |header| >= 1 && '\n' !in header
    requires forall c :: c in body ==> IsArmorChar(c)
    ensures Unarmor(BeginBase64Text(header, body)) == Spec(body + "\n")
  {
    var r2 := body + "\n====";
    var r1 := "\n" + r2;
    var r0 := header + r1;
    var a := "begin-base64" + r0;
    assert a[0..] == a;
    assert a[0] == 'b';
    assert !StartsWith(a, "-----BEGIN ");
    Literal("begin-base64", r0);
    RunOver(header, r1, NotNewline);
    assert r1[1..] == r2;
    UuGroup(body);
    assert Uu(a) == Some(body + "\n");
  }

  /** The group of the second alternative ends before the final "====". */
  lemma UuGroup(body: string)
    requires forall c :: c in body ==> IsArmorChar(c)
    ensures var r2 := body + "\n====";
      && Run(r2, IsArmorChar) == |r2|
      && LastFourEquals(r2, 1, |r2| - 4) == Some(|r2| - 4)
      && r2[..|r2| - 4] == body + "\n"
  {
    var r2 := body + "\n====";
    assert forall c :: c in r2 ==> IsArmorChar(c);
    RunOver(r2, [], IsArmorChar);
    assert r2 + [] == r2;
    assert r2[|r2| - 4..|r2|] == "====";
  }
}

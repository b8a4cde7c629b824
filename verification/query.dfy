/** `query.parse` and `query.stringify`: the URL query string of the viewer
    as an object of strings. A key that occurs once maps to its value, a key
    that occurs several times to the array of its values in order, and
    serialising drops the keys whose value is '' or null. */
module Query {
  import opened Results
  import opened JsText

  // ---- parse ----------------------------------------------------------------

  /** A property value `parse` stores: a string, or an array of strings once
      the key has been seen again. */
  datatype QVal = Str(s: string) | Arr(vs: seq<string>)

  /** `item.split('=').shift()`: the text before the first '='. */
  function Key(item: string): string {
    Split(item, '=')[0]
  }

  /** `parts.join('=')` after the shift: the text after the first '=', with
      any later '=' kept; '' when there is no '='. */
  function ValuePart(item: string): string {
    Join(Split(item, '=')[1..], "=")
  }

  /** An item is its key, then (if it has a value part) '=' and the value. */
  lemma KeyValue(item: string)
    ensures '=' !in Key(item)
    ensures '=' in item ==> item == Key(item) + "=" + ValuePart(item)
    ensures '=' !in item ==> Key(item) == item && ValuePart(item) == ""
  {
    var ps := Split(item, '=');
    if '=' in item {
      assert |ps| >= 2;
      assert ps == [ps[0]] + ps[1..];
      assert Join(ps, "=") == ps[0] + "=" + Join(ps[1..], "=");
    } else {
      SplitNoSeparator(item, '=');
    }
  }

  /** A key without '=' followed by '=' and any value splits back into them. */
  lemma KeyValueOf(k: string, v: string)
    requires '=' !in k
    ensures Key(k + "=" + v) == k && ValuePart(k + "=" + v) == v
  {
    SplitPrefix(k, v, '=');
    var ps := Split(k + "=" + v, '=');
    assert ps[1..] == Split(v, '=');
  }

  /** `result[key] = value` for a new key, and otherwise the array update:
      a string becomes `[old, value]`, an array gets `value` pushed. The
      source's test `typeof result[key] === 'object' && Array.isArray([])`
      reduces to "the current value is an array", `Array.isArray([])` being
      always true. */
  function Add(m: map<string, QVal>, k: string, v: string): map<string, QVal> {
    if k in m then
      match m[k]
      case Arr(vs) => m[k := Arr(vs + [v])]
      case Str(s) => m[k := Arr([s, v])]
    else m[k := Str(v)]
  }

  /** The object built by the `map` over the '&' items, in order. */
  function Collect(items: seq<string>): map<string, QVal> {
    if |items| == 0 then map[]
    else
      var last := items[|items| - 1];
      Add(Collect(items[..|items| - 1]), Key(last), ValuePart(last))
  }

  /** The '&' items of the query part of `path` after `decodeURIComponent`,
      or None when `path` is falsy or does not split into exactly two parts
      on '?'. */
  function Items(path: Option<string>, uriDecode: string -> string): (r: Option<seq<string>>)
    ensures r.Some? <==> path.Some? && path.value != "" && |Split(path.value, '?')| == 2
    ensures r.Some? ==> r.value == Split(uriDecode(Split(path.value, '?')[1]), '&') && |r.value| >= 1
  {
    if path.None? || path.value == "" then None
    else
      var params := Split(path.value, '?');
      if |params| == 2 then Some(Split(uriDecode(params[1]), '&')) else None
  }

  /** `parse(path)`: `decodeURIComponent` is a parameter, since it is a
      built-in of the host. */
  function Parse(path: Option<string>, uriDecode: string -> string): (r: map<string, QVal>)
    ensures Items(path, uriDecode).None? ==> r == map[]
  {
    match Items(path, uriDecode)
    case None => map[]
    case Some(items) => Collect(items)
  }

  /** The values of the items with key `k`, in order of appearance. */
  function ValuesOf(items: seq<string>, k: string): (vs: seq<string>)
    ensures |vs| <= |items|
  {
    if |items| == 0 then []
    else
      var last := items[|items| - 1];
      ValuesOf(items[..|items| - 1], k) + (if Key(last) == k then [ValuePart(last)] else [])
  }

  /** What a key seen with values `vs` ends up as: its value alone when
      there is one, the array of all of them otherwise. */
  function Group(vs: seq<string>): QVal
    requires |vs| >= 1
  {
    if |vs| == 1 then Str(vs[0]) else Arr(vs)
  }

  /** `Collect` keeps every key of the items and nothing else; a key seen
      once maps to its value, a key seen several times to the array of its
      values in order of appearance. */
  lemma {:induction false} CollectSpec(items: seq<string>)
    ensures forall k :: k in Collect(items) <==> |ValuesOf(items, k)| >= 1
    ensures forall k :: k in Collect(items) ==> Collect(items)[k] == Group(ValuesOf(items, k))
  {
    if |items| > 0 {
      CollectSpec(items[..|items| - 1]);
      forall k
        ensures k in Collect(items) <==> |ValuesOf(items, k)| >= 1
        ensures k in Collect(items) ==> Collect(items)[k] == Group(ValuesOf(items, k))
      {
        CollectStep(items, k);
      }
    }
  }

  /** One more item updates the entry of its own key and no other. */
  lemma CollectStep(items: seq<string>, k: string)
    requires |items| > 0
    requires var init := items[..|items| - 1];
             (k in Collect(init) <==> |ValuesOf(init, k)| >= 1)
             && (k in Collect(init) ==> Collect(init)[k] == Group(ValuesOf(init, k)))
    ensures k in Collect(items) <==> |ValuesOf(items, k)| >= 1
    ensures k in Collect(items) ==> Collect(items)[k] == Group(ValuesOf(items, k))
  {
    var init, last := items[..|items| - 1], items[|items| - 1];
    var vs := ValuesOf(init, k);
    if Key(last) == k && |vs| >= 1 {
      assert Group(vs + [ValuePart(last)]) == Arr(vs + [ValuePart(last)]);
      if |vs| == 1 {
        assert vs == [vs[0]];
      }
    }
  }

  /** The keys of the parsed object are the keys of the items. */
  lemma ParseKeys(path: Option<string>, uriDecode: string -> string)
    requires Items(path, uriDecode).Some?
    ensures forall k :: k in Parse(path, uriDecode) <==>
      exists i :: 0 <= i < |Items(path, uriDecode).value| && Key(Items(path, uriDecode).value[i]) == k
  {
    var items := Items(path, uriDecode).value;
    CollectSpec(items);
    forall k
      ensures |ValuesOf(items, k)| >= 1 <==> exists i :: 0 <= i < |items| && Key(items[i]) == k
    {
      ValuesOfNonEmpty(items, k);
    }
  }

  lemma {:induction false} ValuesOfNonEmpty(items: seq<string>, k: string)
    ensures |ValuesOf(items, k)| >= 1 <==> exists i :: 0 <= i < |items| && Key(items[i]) == k
  {
    if |items| > 0 {
      var init := items[..|items| - 1];
      ValuesOfNonEmpty(init, k);
      if exists i :: 0 <= i < |init| && Key(init[i]) == k {
        var i :| 0 <= i < |init| && Key(init[i]) == k;
        assert items[i] == init[i];
      }
      if exists i :: 0 <= i < |items| && Key(items[i]) == k {
        var i :| 0 <= i < |items| && Key(items[i]) == k;
        if i < |init| {
          assert init[i] == items[i];
        }
      }
    }
  }

  /** The value of each key of the parsed object. */
  lemma ParseValues(path: Option<string>, uriDecode: string -> string, k: string)
    requires Items(path, uriDecode).Some?
    requires k in Parse(path, uriDecode)
    ensures |ValuesOf(Items(path, uriDecode).value, k)| >= 1
    ensures Parse(path, uriDecode)[k] == Group(ValuesOf(Items(path, uriDecode).value, k))
  {
    CollectSpec(Items(path, uriDecode).value);
  }

  // ---- stringify --------------------------------------------------------------

  /** A property value `stringify` may meet. */
  datatype Value = Null | Undefined | Text(s: string) | Number(n: int) | List(xs: seq<string>)

  /** The template-literal rendering `${value}`: arrays join their elements
      with ','. */
  function Show(v: Value): string {
    match v
    case Null => "null"
    case Undefined => "undefined"
    case Text(s) => s
    case Number(n) => IntToString(n)
    case List(xs) => Join(xs, ",")
  }

  /** The filter `obj[key] !== '' && obj[key] !== null`: strict equality, so
      an empty array or the number 0 is kept. */
  predicate Survives(v: Value) {
    v != Text("") && v != Null
  }

  /** The entries that survive the filter, in `Object.keys` order. */
  function Kept(obj: seq<(string, Value)>): (r: seq<(string, Value)>)
    ensures |r| <= |obj|
    ensures forall i :: 0 <= i < |r| ==> r[i] in obj && Survives(r[i].1)
    ensures forall i :: 0 <= i < |obj| && Survives(obj[i].1) ==> obj[i] in r
  {
    if |obj| == 0 then []
    else (if Survives(obj[0].1) then [obj[0]] else []) + Kept(obj[1..])
  }

  /** Filtering distributes over concatenation, so it keeps the order. */
  lemma {:induction false} KeptAppend(a: seq<(string, Value)>, b: seq<(string, Value)>)
    ensures Kept(a + b) == Kept(a) + Kept(b)
  {
    if |a| > 0 {
      assert (a + b)[1..] == a[1..] + b;
      KeptAppend(a[1..], b);
    } else {
      assert a + b == b;
    }
  }

  /** The `key=value` fields, one per entry. */
  function Fields(obj: seq<(string, Value)>): (r: seq<string>)
    ensures |r| == |obj|
    ensures forall i :: 0 <= i < |obj| ==> r[i] == obj[i].0 + "=" + Show(obj[i].1)
  {
    if |obj| == 0 then []
    else Fields(obj[..|obj| - 1]) + [obj[|obj| - 1].0 + "=" + Show(obj[|obj| - 1].1)]
  }

  /** `stringify(obj)`, with `Object.keys(obj)` order given by the sequence. */
  function Stringify(obj: seq<(string, Value)>): (r: string)
    ensures r == "" <==> Kept(obj) == []
    ensures r != "" ==> r[0] == '?'
  {
    var query := Join(Fields(Kept(obj)), "&");
    if |query| > 0 then "?" + query
    else
      assert Kept(obj) == [] by {
        if Kept(obj) != [] {
          JoinHead(Fields(Kept(obj)), "&");
        }
      }
      ""
  }

  /** A join starts with its first piece. */
  lemma JoinHead(xs: seq<string>, sep: string)
    requires |xs| >= 1
    ensures |Join(xs, sep)| >= |xs[0]|
  {
  }

  /** The text after the '?' lists the `key=value` fields of the surviving
      entries, in order: splitting it on '&' recovers them exactly when no
      field holds an '&'. */
  lemma StringifyFields(obj: seq<(string, Value)>)
    requires Kept(obj) != []
    requires forall i :: 0 <= i < |Kept(obj)| ==> '&' !in Fields(Kept(obj))[i]
    ensures Split(Stringify(obj)[1..], '&') == Fields(Kept(obj))
  {
    var fs := Fields(Kept(obj));
    assert Stringify(obj) == "?" + Join(fs, "&");
    assert Stringify(obj)[1..] == Join(fs, "&");
    SplitJoin(fs, '&');
  }

  /** Only the surviving entries matter. */
  lemma {:induction false} StringifyKept(obj: seq<(string, Value)>)
    ensures Stringify(Kept(obj)) == Stringify(obj)
  {
    KeptKept(obj);
  }

  lemma {:induction false} KeptKept(obj: seq<(string, Value)>)
    ensures Kept(Kept(obj)) == Kept(obj)
  {
    if |obj| > 0 {
      KeptKept(obj[1..]);
      KeptAppend(if Survives(obj[0].1) then [obj[0]] else [], Kept(obj[1..]));
    }
  }

  // ---- round trip ---------------------------------------------------------------

  function Identity(s: string): string {
    s
  }

  /** An object of distinct keys and non-empty string values, none holding a
      character the query syntax uses (a value may hold '='). */
  predicate Plain(obj: seq<(string, Value)>) {
    && (forall i :: 0 <= i < |obj| ==>
          && obj[i].1.Text? && obj[i].1.s != ""
          && '=' !in obj[i].0 && '&' !in obj[i].0 && '?' !in obj[i].0
          && '&' !in obj[i].1.s && '?' !in obj[i].1.s)
    && (forall i, j :: 0 <= i < j < |obj| ==> obj[i].0 != obj[j].0)
  }

  /** The object a plain entry list denotes. */
  function AsMap(obj: seq<(string, Value)>): map<string, QVal>
    requires forall i :: 0 <= i < |obj| ==> obj[i].1.Text?
  {
    if |obj| == 0 then map[]
    else AsMap(obj[..|obj| - 1])[obj[|obj| - 1].0 := Str(obj[|obj| - 1].1.s)]
  }

  /** Parsing what `stringify` wrote after a '?'-free base (and with
      `decodeURIComponent` acting as the identity) gives the object back. */
  lemma RoundTrip(base: string, obj: seq<(string, Value)>)
    requires '?' !in base
    requires Plain(obj)
    ensures Parse(Some(base + Stringify(obj)), Identity) == AsMap(obj)
  {
    PlainKept(obj);
    if obj == [] {
      assert base + "" == base;
      SplitNoSeparator(base, '?');
    } else {
      var fs := Fields(obj);
      var q := Join(fs, "&");
      FieldsPlain(obj);
      SplitJoin(fs, '&');
      JoinFree(fs, "&", '?');
      assert base + Stringify(obj) == base + "?" + q;
      QueryItems(base, q);
      CollectFields(obj);
    }
  }

  /** A '?'-free base and a '?'-free query, joined by '?', give the '&'
      pieces of the query as items. */
  lemma QueryItems(base: string, q: string)
    requires '?' !in base && '?' !in q
    ensures Items(Some(base + "?" + q), Identity) == Some(Split(q, '&'))
  {
    SplitPrefix(base, q, '?');
    SplitNoSeparator(q, '?');
  }

  lemma PlainKept(obj: seq<(string, Value)>)
    requires Plain(obj)
    ensures Kept(obj) == obj
  {
    KeptAll(obj);
  }

  /** When every entry survives, the filter keeps them all. */
  lemma {:induction false} KeptAll(obj: seq<(string, Value)>)
    requires forall i :: 0 <= i < |obj| ==> Survives(obj[i].1)
    ensures Kept(obj) == obj
  {
    if |obj| > 0 {
      assert forall i :: 0 <= i < |obj[1..]| ==> obj[1..][i] == obj[i + 1];
      KeptAll(obj[1..]);
      assert obj == [obj[0]] + obj[1..];
    }
  }

  lemma FieldsPlain(obj: seq<(string, Value)>)
    requires Plain(obj)
    ensures forall i :: 0 <= i < |obj| ==> '&' !in Fields(obj)[i] && '?' !in Fields(obj)[i]
  {
  }

  /** A join of pieces and a separator free of `c` is free of `c`. */
  lemma {:induction false} JoinFree(xs: seq<string>, sep: string, c: char)
    requires c !in sep
    requires forall i :: 0 <= i < |xs| ==> c !in xs[i]
    ensures c !in Join(xs, sep)
  {
    if |xs| > 1 {
      JoinFree(xs[1..], sep, c);
    }
  }

  /** Collecting the fields of a plain object rebuilds it. */
  lemma {:induction false} CollectFields(obj: seq<(string, Value)>)
    requires Plain(obj)
    ensures Collect(Fields(obj)) == AsMap(obj)
  {
    if |obj| > 0 {
      var init, last := obj[..|obj| - 1], obj[|obj| - 1];
      assert obj == init + [last];
      PlainInit(init, last);
      CollectFields(init);
      CollectFieldsStep(init, last);
    }
  }

  /** A plain entry with a new key extends both sides alike. */
  lemma CollectFieldsStep(init: seq<(string, Value)>, last: (string, Value))
    requires forall i :: 0 <= i < |init| ==> init[i].1.Text? && init[i].0 != last.0
    requires last.1.Text? && '=' !in last.0
    requires Collect(Fields(init)) == AsMap(init)
    ensures Collect(Fields(init + [last])) == AsMap(init + [last])
  {
    var f := last.0 + "=" + last.1.s;
    FieldsSnoc(init, last);
    CollectSnoc(Fields(init), f);
    KeyValueOf(last.0, last.1.s);
    KeyNotInAsMap(init, last.0);
    AsMapSnoc(init, last);
  }

  lemma CollectSnoc(items: seq<string>, item: string)
    ensures Collect(items + [item]) == Add(Collect(items), Key(item), ValuePart(item))
  {
    assert (items + [item])[..|items|] == items;
  }

  lemma FieldsSnoc(obj: seq<(string, Value)>, e: (string, Value))
    requires e.1.Text?
    ensures Fields(obj + [e]) == Fields(obj) + [e.0 + "=" + e.1.s]
  {
    assert (obj + [e])[..|obj|] == obj;
  }

  lemma AsMapSnoc(obj: seq<(string, Value)>, e: (string, Value))
    requires forall i :: 0 <= i < |obj| ==> obj[i].1.Text?
    requires e.1.Text?
    ensures AsMap(obj + [e]) == AsMap(obj)[e.0 := Str(e.1.s)]
  {
    assert (obj + [e])[..|obj|] == obj;
  }

  /** Dropping the last entry of a plain object leaves a plain object none
      of whose keys is the dropped one. */
  lemma PlainInit(init: seq<(string, Value)>, last: (string, Value))
    requires Plain(init + [last])
    ensures Plain(init)
    ensures forall i :: 0 <= i < |init| ==> init[i].1.Text? && init[i].0 != last.0
    ensures last.1.Text? && '=' !in last.0
  {
    assert forall i :: 0 <= i < |init| ==> (init + [last])[i] == init[i];
    assert (init + [last])[|init|] == last;
  }

  /** A key no entry has is not a key of the denoted object. */
  lemma {:induction false} KeyNotInAsMap(obj: seq<(string, Value)>, k: string)
    requires forall i :: 0 <= i < |obj| ==> obj[i].1.Text?
    requires forall i :: 0 <= i < |obj| ==> obj[i].0 != k
    ensures k !in AsMap(obj)
  {
    if |obj| > 0 {
      KeyNotInAsMap(obj[..|obj| - 1], k);
    }
  }

  /** The keys of the denoted object are the keys of the entries. */
  lemma {:induction false} AsMapKeys(obj: seq<(string, Value)>)
    requires forall i :: 0 <= i < |obj| ==> obj[i].1.Text?
    ensures forall k :: k in AsMap(obj) <==> exists i :: 0 <= i < |obj| && obj[i].0 == k
  {
    if |obj| > 0 {
      var init := obj[..|obj| - 1];
      AsMapKeys(init);
      forall k
        ensures k in AsMap(obj) <==> exists i :: 0 <= i < |obj| && obj[i].0 == k
      {
        if exists i :: 0 <= i < |init| && init[i].0 == k {
          var i :| 0 <= i < |init| && init[i].0 == k;
          assert obj[i] == init[i];
        }
        if exists i :: 0 <= i < |obj| && obj[i].0 == k {
          var i :| 0 <= i < |obj| && obj[i].0 == k;
          if i < |init| {
            assert init[i] == obj[i];
          }
        }
      }
    }
  }
}

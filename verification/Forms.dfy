/** application/x-www-form-urlencoded text: how a standard server reads back what oauth.c builds. */
module Forms {
  import opened Basics
  import PE = PercentEncoding

  datatype Field = Field(name: string, value: string)

  predicate Valid(f: Field) {
    IsCString(f.name) && IsCString(f.value)
  }

  predicate AllValid(fs: seq<Field>) {
    forall i :: 0 <= i < |fs| ==> Valid(fs[i])
  }

  function EncodeField(f: Field): string
    requires Valid(f)
  {
    PE.Encode(f.name) + "=" + PE.Encode(f.value)
  }

  /** `name=value` pairs, each part percent-encoded, joined with '&'. */
  function EncodeForm(fs: seq<Field>): string
    requires AllValid(fs)
  {
    if |fs| == 0 then []
    else if |fs| == 1 then EncodeField(fs[0])
    else EncodeField(fs[0]) + "&" + EncodeForm(fs[1..])
  }

  // ---- The reader ----

  /** The part of `s` before the first `sep`. */
  function Before(s: string, sep: char): string {
    if s == [] || s[0] == sep then [] else [s[0]] + Before(s[1..], sep)
  }

  lemma {:induction false} BeforeIsPrefix(s: string, sep: char)
    ensures |Before(s, sep)| <= |s| && Before(s, sep) == s[..|Before(s, sep)|]
    ensures sep !in Before(s, sep)
    ensures |Before(s, sep)| < |s| ==> s[|Before(s, sep)|] == sep
  {
    if s != [] && s[0] != sep {
      BeforeIsPrefix(s[1..], sep);
    }
  }

  /** The part of `s` after the first `sep`, or nothing when there is none. */
  function After(s: string, sep: char): Option<string> {
    BeforeIsPrefix(s, sep);
    var n := |Before(s, sep)|;
    if n < |s| then Some(s[n + 1..]) else None
  }

  lemma {:induction false} BreakAt(a: string, sep: char, b: string)
    requires sep !in a
    ensures Before(a + [sep] + b, sep) == a && After(a + [sep] + b, sep) == Some(b)
  {
    var s := a + [sep] + b;
    if a != [] {
      assert s[1..] == a[1..] + [sep] + b;
      BreakAt(a[1..], sep, b);
      assert Before(s, sep) == [a[0]] + a[1..];
    }
    BeforeIsPrefix(s, sep);
    assert Before(s, sep) == a;
    assert s[|a| + 1..] == b;
  }

  lemma {:induction false} NoBreak(a: string, sep: char)
    requires sep !in a
    ensures Before(a, sep) == a && After(a, sep) == None
  {
    if a != [] {
      NoBreak(a[1..], sep);
    }
  }

  function ParseField(s: string): Option<Field> {
    var value := After(s, '=');
    match (PE.Decode(Before(s, '='), true), PE.Decode(if value.Some? then value.value else [], true))
    case (Some(n), Some(v)) => Some(Field(n, v))
    case _ => None
  }

  /** Split on '&', split each piece on its first '=', percent-decode both parts ('+' is a space). */
  function ParseForm(s: string): Option<seq<Field>>
    decreases |s|
  {
    BeforeIsPrefix(s, '&');
    match (ParseField(Before(s, '&')), After(s, '&'))
    case (Some(f), None) => Some([f])
    case (Some(f), Some(rest)) =>
      (match ParseForm(rest) case Some(fs) => Some([f] + fs) case None => None)
    case _ => None
  }

  // ---- Round trip ----

  lemma FieldAlphabet(f: Field)
    requires Valid(f)
    ensures '=' !in PE.Encode(f.name)
    ensures '&' !in EncodeField(f)
  {
    PE.NotInEncoding(f.name, '=');
    PE.NotInEncoding(f.name, '&');
    PE.NotInEncoding(f.value, '&');
  }

  lemma ParseEncodedField(f: Field)
    requires Valid(f)
    ensures ParseField(EncodeField(f)) == Some(f)
  {
    FieldAlphabet(f);
    BreakAt(PE.Encode(f.name), '=', PE.Encode(f.value));
    PE.DecodeEncode(f.name, true);
    PE.DecodeEncode(f.value, true);
  }

  lemma ParseLast(f: Field)
    requires Valid(f)
    ensures ParseForm(EncodeField(f)) == Some([f])
  {
    FieldAlphabet(f);
    ParseEncodedField(f);
    NoBreak(EncodeField(f), '&');
  }

  lemma ParseFirst(f: Field, rest: string)
    requires Valid(f)
    ensures ParseForm(EncodeField(f) + "&" + rest)
         == match ParseForm(rest) case Some(fs) => Some([f] + fs) case None => None
  {
    FieldAlphabet(f);
    ParseEncodedField(f);
    BreakAt(EncodeField(f), '&', rest);
    assert EncodeField(f) + "&" + rest == EncodeField(f) + ['&'] + rest;
  }

  /** Reading an encoded form gives back exactly the fields, in order. */
  lemma {:induction false} ParseEncodedForm(fs: seq<Field>)
    requires AllValid(fs) && fs != []
    ensures ParseForm(EncodeForm(fs)) == Some(fs)
    decreases |fs|
  {
    assert fs == [fs[0]] + fs[1..];
    if |fs| == 1 {
      assert fs == [fs[0]];
      ParseLast(fs[0]);
    } else {
      ParseEncodedForm(fs[1..]);
      ParseFirst(fs[0], EncodeForm(fs[1..]));
    }
  }

  // ---- Building a form parameter by parameter, as a format string does ----

  /** One `name=%s` of a format string with the text that replaces `%s`. */
  datatype Param = Param(name: string, text: string)

  /** `name=text` for every parameter, joined with '&'. */
  function Query(ps: seq<Param>): string {
    if |ps| == 0 then []
    else
      var last := ps[|ps| - 1];
      if |ps| == 1 then last.name + "=" + last.text
      else Query(ps[..|ps| - 1]) + ("&" + last.name + "=" + last.text)
  }

  /** The separators, spelled out. */
  lemma QuerySpelled(x: string, y: string)
    ensures Query([Param("a", x), Param("b", y)]) == "a=" + x + ("&b=" + y)
  {
    var ps := [Param("a", x), Param("b", y)];
    assert ps[..1] == [Param("a", x)];
    assert Query(ps[..1]) == "a" + "=" + x;
  }

  predicate PlainName(name: string) {
    IsCString(name) && PE.AllUnreserved(name)
  }

  /** Parameter `p` carries field `f`: its name as it is, its value percent-encoded. */
  predicate Carries(p: Param, f: Field) {
    PlainName(f.name) && IsCString(f.value) && p == Param(f.name, PE.Encode(f.value))
  }

  predicate CarriesAll(ps: seq<Param>, fs: seq<Field>) {
    |ps| == |fs| && forall i :: 0 <= i < |ps| ==> Carries(ps[i], fs[i])
  }

  lemma {:induction false} QueryIsForm(ps: seq<Param>, fs: seq<Field>)
    requires CarriesAll(ps, fs)
    ensures AllValid(fs) && Query(ps) == EncodeForm(fs)
    decreases |ps|
  {
    if |ps| == 1 {
      PE.FixedPoint(fs[0].name);
    } else if |ps| > 1 {
      var init, last := fs[..|fs| - 1], fs[|fs| - 1];
      assert fs == init + [last];
      QueryIsForm(ps[..|ps| - 1], init);
      AppendField(init, last);
    }
  }

  /** A query whose parameters carry `fs` reads back as exactly `fs`. */
  lemma QueryReadsBack(ps: seq<Param>, fs: seq<Field>)
    requires CarriesAll(ps, fs) && fs != []
    ensures ParseForm(Query(ps)) == Some(fs)
  {
    QueryIsForm(ps, fs);
    ParseEncodedForm(fs);
  }

  lemma CarriesFour(ps: seq<Param>, fs: seq<Field>)
    requires |ps| == |fs| == 4
    requires Carries(ps[0], fs[0]) && Carries(ps[1], fs[1]) && Carries(ps[2], fs[2]) && Carries(ps[3], fs[3])
    ensures CarriesAll(ps, fs)
  {
    UpToFour(i => 0 <= i < 4 && Carries(ps[i], fs[i]));
  }

  lemma UpToFour(holds: int -> bool)
    requires holds(0) && holds(1) && holds(2) && holds(3)
    ensures forall i :: 0 <= i < 4 ==> holds(i)
  {}

  /** The first four parameters and the last four, which may overlap, are all of them. */
  lemma CarriesBothEnds(ps: seq<Param>, fs: seq<Field>)
    requires 4 <= |ps| == |fs| <= 8
    requires CarriesAll(ps[..4], fs[..4]) && CarriesAll(ps[|ps| - 4..], fs[|ps| - 4..])
    ensures CarriesAll(ps, fs)
  {
    var k := |ps| - 4;
    forall i | 0 <= i < |ps|
      ensures Carries(ps[i], fs[i])
    {
      assert if i < 4 then Carries(ps[..4][i], fs[..4][i]) else Carries(ps[k..][i - k], fs[k..][i - k]);
    }
  }

  /** Characters the parameters need, counting one separator each. */
  function Total(ps: seq<Param>): nat {
    if ps == [] then 0 else |ps[0].name| + |ps[0].text| + 2 + Total(ps[1..])
  }

  lemma TotalOfTwo(ps: seq<Param>)
    requires |ps| >= 2
    ensures Total(ps) == |ps[0].name| + |ps[0].text| + |ps[1].name| + |ps[1].text| + 4 + Total(ps[2..])
  {
    assert ps[1..][1..] == ps[2..];
  }

  lemma TotalOfFour(ps: seq<Param>)
    requires |ps| >= 4
    ensures Total(ps) == |ps[0].name| + |ps[0].text| + |ps[1].name| + |ps[1].text|
                         + |ps[2].name| + |ps[2].text| + |ps[3].name| + |ps[3].text| + 8 + Total(ps[4..])
  {
    TotalOfTwo(ps);
    TotalOfTwo(ps[2..]);
    assert ps[2..][2..] == ps[4..];
  }

  lemma {:induction false} TotalOfLast(ps: seq<Param>, p: Param)
    ensures Total(ps + [p]) == Total(ps) + |p.name| + |p.text| + 2
  {
    if ps != [] {
      assert (ps + [p])[1..] == ps[1..] + [p];
      TotalOfLast(ps[1..], p);
    }
  }

  lemma {:induction false} QueryLength(ps: seq<Param>)
    requires ps != []
    ensures |Query(ps)| == Total(ps) - 1
    decreases |ps|
  {
    var init := ps[..|ps| - 1];
    assert ps == init + [ps[|ps| - 1]];
    TotalOfLast(init, ps[|ps| - 1]);
    if |ps| > 1 {
      QueryLength(init);
    }
  }

  lemma FirstField(f: Field, rest: seq<Field>)
    requires Valid(f) && AllValid(rest)
    ensures AllValid([f] + rest)
    ensures EncodeForm([f] + rest) == if rest == [] then EncodeField(f) else EncodeField(f) + "&" + EncodeForm(rest)
  {
    assert ([f] + rest)[1..] == rest;
  }

  /** A format string's next `&name=%s`, when the name needs no encoding. */
  lemma NextParameter(f: Field)
    requires Valid(f) && PlainName(f.name)
    ensures "&" + f.name + "=" + PE.Encode(f.value) == "&" + EncodeField(f)
  {
    PE.FixedPoint(f.name);
    ConcatAssociates("&", f.name, "=");
    ConcatAssociates("&", f.name + "=", PE.Encode(f.value));
  }

  lemma {:induction false} AppendField(fs: seq<Field>, f: Field)
    requires AllValid(fs) && Valid(f) && PlainName(f.name) && fs != []
    ensures AllValid(fs + [f])
    ensures EncodeForm(fs + [f]) == EncodeForm(fs) + ("&" + f.name + "=" + PE.Encode(f.value))
    decreases |fs|
  {
    var first, rest := fs[0], fs[1..];
    assert fs == [first] + rest;
    NextParameter(f);
    FirstField(f, []);
    assert [f] + [] == [f] && rest + [f] != [];
    FirstField(first, rest);
    if rest != [] {
      AppendField(rest, f);
    }
    FirstField(first, rest + [f]);
    calc {
      EncodeForm(fs + [f]);
      { ConcatAssociates([first], rest, [f]); }
      EncodeForm([first] + (rest + [f]));
      EncodeField(first) + "&" + EncodeForm(rest + [f]);
      { RegroupLast(EncodeField(first), rest, f); }
      EncodeForm(fs) + ("&" + EncodeField(f));
    }
  }

  lemma RegroupLast(first: string, rest: seq<Field>, f: Field)
    requires AllValid(rest) && Valid(f) && AllValid(rest + [f])
    requires rest != [] ==> EncodeForm(rest + [f]) == EncodeForm(rest) + ("&" + EncodeField(f))
    ensures first + "&" + EncodeForm(rest + [f])
         == (if rest == [] then first else first + "&" + EncodeForm(rest)) + ("&" + EncodeField(f))
  {
    if rest == [] {
      assert rest + [f] == [f];
      ConcatAssociates(first, "&", EncodeField(f));
    } else {
      ConcatAssociates(first + "&", EncodeForm(rest), "&" + EncodeField(f));
    }
  }
}

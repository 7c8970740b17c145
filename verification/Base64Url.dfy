/** util.c: `b64url_encode`, the URL-safe unpadded alphabet of section 5 of RFC 4648. */
module Base64Url {
  import opened Basics
  import PE = PercentEncoding

  /** A six-bit group. */
  type sextet = v: int | 0 <= v < 64

  // ---- Section 4 of RFC 4648: the padded block OpenSSL's EVP_EncodeBlock writes ----

  function StdDigit(v: sextet): char
  {
    if v < 26 then ('A' as int + v) as char
    else if v < 52 then ('a' as int + v - 26) as char
    else if v < 62 then ('0' as int + v - 52) as char
    else if v == 62 then '+' else '/'
  }

  function Block(b: seq<byte>): string {
    if |b| == 0 then []
    else if |b| == 1 then [StdDigit(b[0] / 4), StdDigit(b[0] % 4 * 16), '=', '=']
    else if |b| == 2 then
      [StdDigit(b[0] / 4), StdDigit(b[0] % 4 * 16 + b[1] / 16), StdDigit(b[1] % 16 * 4), '=']
    else
      [StdDigit(b[0] / 4), StdDigit(b[0] % 4 * 16 + b[1] / 16),
       StdDigit(b[1] % 16 * 4 + b[2] / 64), StdDigit(b[2] % 64)] + Block(b[3..])
  }

  lemma ThirdsStep(n: nat)
    requires n >= 3
    ensures (n + 2) / 3 == (n - 3 + 2) / 3 + 1
  {}

  lemma {:induction false} BlockLength(b: seq<byte>)
    ensures |Block(b)| == 4 * ((|b| + 2) / 3)
  {
    if |b| > 2 {
      BlockLength(b[3..]);
      ThirdsStep(|b|);
    }
  }

  // ---- What the loop in util.c does to that block ----

  function Translate(c: char): char {
    if c == '+' then '-' else if c == '/' then '_' else c
  }

  function Compact(s: string): string {
    if s == [] then []
    else if s[0] == '=' then Compact(s[1..])
    else [Translate(s[0])] + Compact(s[1..])
  }

  lemma {:induction false} CompactConcat(a: string, b: string)
    ensures Compact(a + b) == Compact(a) + Compact(b)
  {
    if a == [] {
      assert a + b == b;
    } else {
      assert (a + b)[1..] == a[1..] + b;
      CompactConcat(a[1..], b);
    }
  }

  lemma CompactStep(s: string, i: nat)
    requires i < |s|
    ensures Compact(s[..i + 1]) == Compact(s[..i]) + if s[i] == '=' then [] else [Translate(s[i])]
  {
    assert s[..i + 1] == s[..i] + [s[i]];
    CompactConcat(s[..i], [s[i]]);
    assert Compact([]) == [];
  }

  // ---- Section 5 of RFC 4648, defined directly, with a strict decoder ----

  function UrlDigit(v: sextet): char
  {
    if v < 26 then ('A' as int + v) as char
    else if v < 52 then ('a' as int + v - 26) as char
    else if v < 62 then ('0' as int + v - 52) as char
    else if v == 62 then '-' else '_'
  }

  function UrlValue(c: char): Option<sextet> {
    if 'A' <= c <= 'Z' then Some(c as int - 'A' as int)
    else if 'a' <= c <= 'z' then Some(c as int - 'a' as int + 26)
    else if '0' <= c <= '9' then Some(c as int - '0' as int + 52)
    else if c == '-' then Some(62)
    else if c == '_' then Some(63)
    else None
  }

  function UrlText(b: seq<byte>): string {
    if |b| == 0 then []
    else if |b| == 1 then [UrlDigit(b[0] / 4), UrlDigit(b[0] % 4 * 16)]
    else if |b| == 2 then
      [UrlDigit(b[0] / 4), UrlDigit(b[0] % 4 * 16 + b[1] / 16), UrlDigit(b[1] % 16 * 4)]
    else
      [UrlDigit(b[0] / 4), UrlDigit(b[0] % 4 * 16 + b[1] / 16),
       UrlDigit(b[1] % 16 * 4 + b[2] / 64), UrlDigit(b[2] % 64)] + UrlText(b[3..])
  }

  function Values(s: string): Option<seq<sextet>> {
    if s == [] then Some([])
    else match (UrlValue(s[0]), Values(s[1..]))
      case (Some(v), Some(vs)) => Some([v] + vs)
      case _ => None
  }

  function FirstByte(x: sextet, y: sextet): byte { x * 4 + y / 16 }

  function SecondByte(x: sextet, y: sextet): byte { x % 16 * 16 + y / 4 }

  function ThirdByte(x: sextet, y: sextet): byte { x % 4 * 64 + y }

  /** Strict decoding: no padding, no stray bits after the last byte. */
  function Join(v: seq<sextet>): Option<seq<byte>>
  {
    if |v| == 0 then Some([])
    else if |v| == 1 then None
    else if |v| == 2 then
      if v[1] % 16 == 0 then Some([FirstByte(v[0], v[1])]) else None
    else if |v| == 3 then
      if v[2] % 4 == 0 then Some([FirstByte(v[0], v[1]), SecondByte(v[1], v[2])]) else None
    else
      match Join(v[4..])
      case Some(rest) =>
        Some([FirstByte(v[0], v[1]), SecondByte(v[1], v[2]), ThirdByte(v[2], v[3])] + rest)
      case None => None
  }

  function Decode(s: string): Option<seq<byte>> {
    match Values(s) case Some(v) => Join(v) case None => None
  }

  function Digits(v: seq<sextet>): string
  {
    if v == [] then [] else [UrlDigit(v[0])] + Digits(v[1..])
  }

  lemma {:induction false} DigitsConcat(v: seq<sextet>, w: seq<sextet>)
    ensures Digits(v + w) == Digits(v) + Digits(w)
  {
    if v == [] {
      assert v + w == w;
    } else {
      assert (v + w)[1..] == v[1..] + w;
      DigitsConcat(v[1..], w);
    }
  }

  lemma UrlValueOfDigit(v: sextet)
    ensures UrlValue(UrlDigit(v)) == Some(v)
  {}

  lemma {:induction false} ValuesOfDigits(v: seq<sextet>)
    ensures Values(Digits(v)) == Some(v)
  {
    if v != [] {
      ValuesOfDigits(v[1..]);
      UrlValueOfDigit(v[0]);
      assert Digits(v)[1..] == Digits(v[1..]);
      assert v == [v[0]] + v[1..];
    }
  }

  lemma {:induction false} DigitsOfValues(s: string)
    requires Values(s).Some?
    ensures Digits(Values(s).value) == s
  {
    if s != [] {
      DigitsOfValues(s[1..]);
      var vs := Values(s).value;
      assert vs[1..] == Values(s[1..]).value;
      assert s == [s[0]] + s[1..];
    }
  }

  /** The six-bit groups of a byte string, the last one padded with zero bits. */
  function Sextets(b: seq<byte>): seq<sextet> {
    if |b| == 0 then []
    else if |b| == 1 then [b[0] / 4, b[0] % 4 * 16]
    else if |b| == 2 then [b[0] / 4, b[0] % 4 * 16 + b[1] / 16, b[1] % 16 * 4]
    else
      [b[0] / 4, b[0] % 4 * 16 + b[1] / 16, b[1] % 16 * 4 + b[2] / 64, b[2] % 64] + Sextets(b[3..])
  }

  lemma BytesOfGroup(x: byte, y: byte, z: byte)
    ensures FirstByte(x / 4, x % 4 * 16 + y / 16) == x
    ensures SecondByte(x % 4 * 16 + y / 16, y % 16 * 4 + z / 64) == y
    ensures ThirdByte(y % 16 * 4 + z / 64, z % 64) == z
  {}

  lemma GroupOfBytes(p: sextet, q: sextet, r: sextet, t: sextet)
    ensures FirstByte(p, q) / 4 == p && FirstByte(p, q) % 4 * 16 + SecondByte(q, r) / 16 == q
    ensures SecondByte(q, r) % 16 * 4 + ThirdByte(r, t) / 64 == r && ThirdByte(r, t) % 64 == t
    ensures q % 16 == 0 ==> FirstByte(p, q) % 4 * 16 == q
    ensures r % 4 == 0 ==> SecondByte(q, r) % 16 * 4 == r
  {}

  lemma SextetsOfThree(x: byte, y: byte, z: byte, b: seq<byte>)
    ensures Sextets([x, y, z] + b)
         == [x / 4, x % 4 * 16 + y / 16, y % 16 * 4 + z / 64, z % 64] + Sextets(b)
  {
    assert ([x, y, z] + b)[3..] == b;
  }

  lemma JoinOfFour(p: sextet, q: sextet, r: sextet, t: sextet, v: seq<sextet>)
    ensures Join([p, q, r, t] + v)
         == match Join(v)
            case Some(rest) => Some([FirstByte(p, q), SecondByte(q, r), ThirdByte(r, t)] + rest)
            case None => None
  {
    assert ([p, q, r, t] + v)[4..] == v;
  }

  lemma {:induction false} JoinSextets(b: seq<byte>)
    ensures Join(Sextets(b)) == Some(b)
  {
    if |b| > 2 {
      JoinSextets(b[3..]);
      BytesOfGroup(b[0], b[1], b[2]);
      assert b == [b[0], b[1], b[2]] + b[3..];
      SextetsOfThree(b[0], b[1], b[2], b[3..]);
      JoinOfFour(b[0] / 4, b[0] % 4 * 16 + b[1] / 16, b[1] % 16 * 4 + b[2] / 64, b[2] % 64, Sextets(b[3..]));
    } else if |b| == 2 {
      JoinTwoBytes(b[0], b[1]);
      assert b == [b[0], b[1]];
    } else if |b| == 1 {
      JoinOneByte(b[0]);
      assert b == [b[0]];
    }
  }

  lemma BytesOfShortGroup(x: byte, y: byte)
    ensures FirstByte(x / 4, x % 4 * 16) == x && x % 4 * 16 % 16 == 0
    ensures FirstByte(x / 4, x % 4 * 16 + y / 16) == x
    ensures SecondByte(x % 4 * 16 + y / 16, y % 16 * 4) == y && y % 16 * 4 % 4 == 0
  {}

  lemma JoinOfTwo(p: sextet, q: sextet, x: byte)
    requires q % 16 == 0 && FirstByte(p, q) == x
    ensures Join([p, q]) == Some([x])
  {}

  lemma JoinOfThree(p: sextet, q: sextet, r: sextet, x: byte, y: byte)
    requires r % 4 == 0 && FirstByte(p, q) == x && SecondByte(q, r) == y
    ensures Join([p, q, r]) == Some([x, y])
  {}

  lemma JoinOneByte(x: byte)
    ensures Join(Sextets([x])) == Some([x])
  {
    BytesOfShortGroup(x, 0);
    JoinOfTwo(x / 4, x % 4 * 16, x);
  }

  lemma JoinTwoBytes(x: byte, y: byte)
    ensures Join(Sextets([x, y])) == Some([x, y])
  {
    var v := Sextets([x, y]);
    SextetsOfTwo(x, y);
    JoinOfThree(v[0], v[1], v[2], x, y);
  }

  lemma SextetsOfTwo(x: byte, y: byte)
    ensures var v := Sextets([x, y]);
            |v| == 3 && v[2] % 4 == 0 && FirstByte(v[0], v[1]) == x && SecondByte(v[1], v[2]) == y
  {
    BytesOfShortGroup(x, y);
  }

  lemma SextetsOfGroup(p: sextet, q: sextet, r: sextet, t: sextet, b: seq<byte>)
    ensures Sextets([FirstByte(p, q), SecondByte(q, r), ThirdByte(r, t)] + b) == [p, q, r, t] + Sextets(b)
  {
    GroupOfBytes(p, q, r, t);
    SextetsOfThree(FirstByte(p, q), SecondByte(q, r), ThirdByte(r, t), b);
  }

  lemma {:induction false} SextetsJoin(v: seq<sextet>)
    requires Join(v).Some?
    ensures Sextets(Join(v).value) == v
  {
    if |v| > 3 {
      assert v == [v[0], v[1], v[2], v[3]] + v[4..];
      JoinOfFour(v[0], v[1], v[2], v[3], v[4..]);
      SextetsJoin(v[4..]);
      SextetsOfGroup(v[0], v[1], v[2], v[3], Join(v[4..]).value);
    } else {
      SextetsJoinShort(v);
    }
  }

  lemma SextetsJoinShort(v: seq<sextet>)
    requires |v| <= 3 && Join(v).Some?
    ensures Sextets(Join(v).value) == v
  {
    if |v| == 3 {
      GroupOfBytes(v[0], v[1], v[2], 0);
      assert v == [v[0], v[1], v[2]];
    } else if |v| == 2 {
      GroupOfBytes(v[0], v[1], 0, 0);
      assert v == [v[0], v[1]];
    }
  }

  lemma {:induction false} UrlTextIsDigits(b: seq<byte>)
    ensures UrlText(b) == Digits(Sextets(b))
  {
    if |b| > 2 {
      var p: sextet, q: sextet := b[0] / 4, b[0] % 4 * 16 + b[1] / 16;
      var r: sextet, t: sextet := b[1] % 16 * 4 + b[2] / 64, b[2] % 64;
      UrlTextIsDigits(b[3..]);
      DigitsConcat([p, q, r, t], Sextets(b[3..]));
      FourDigits([p, q, r, t]);
    } else {
      FewDigits(Sextets(b));
    }
  }

  lemma FourDigits(v: seq<sextet>)
    requires |v| == 4
    ensures Digits(v) == [UrlDigit(v[0]), UrlDigit(v[1]), UrlDigit(v[2]), UrlDigit(v[3])]
  {
    FewDigits(v[1..]);
  }

  lemma FewDigits(v: seq<sextet>)
    requires |v| <= 3
    ensures Digits(v) == seq(|v|, i requires 0 <= i < |v| => UrlDigit(v[i]))
  {
    if |v| > 0 {
      FewDigits(v[1..]);
    }
  }

  // ---- Main results ----

  lemma CompactShort(b: seq<byte>)
    requires |b| < 3
    ensures Compact(Block(b)) == UrlText(b)
  {
    if |b| == 1 {
      TranslateDigit(b[0] / 4);
      TranslateDigit(b[0] % 4 * 16);
      CompactFour(Block(b));
    } else if |b| == 2 {
      TranslateDigit(b[0] / 4);
      TranslateDigit(b[0] % 4 * 16 + b[1] / 16);
      TranslateDigit(b[1] % 16 * 4);
      CompactFour(Block(b));
    }
  }

  lemma CompactGroup(p: sextet, q: sextet, r: sextet, t: sextet)
    ensures Compact([StdDigit(p), StdDigit(q), StdDigit(r), StdDigit(t)])
         == [UrlDigit(p), UrlDigit(q), UrlDigit(r), UrlDigit(t)]
  {
    TranslateDigit(p);
    TranslateDigit(q);
    TranslateDigit(r);
    TranslateDigit(t);
    CompactFour([StdDigit(p), StdDigit(q), StdDigit(r), StdDigit(t)]);
  }

  /** Stripping and translating the padded block yields the section 5 text, for every byte string. */
  lemma {:induction false} CompactedBlockIsUrlText(b: seq<byte>)
    ensures Compact(Block(b)) == UrlText(b)
  {
    if |b| < 3 {
      CompactShort(b);
    } else {
      var p: sextet, q: sextet := b[0] / 4, b[0] % 4 * 16 + b[1] / 16;
      var r: sextet, t: sextet := b[1] % 16 * 4 + b[2] / 64, b[2] % 64;
      CompactedBlockIsUrlText(b[3..]);
      CompactConcat([StdDigit(p), StdDigit(q), StdDigit(r), StdDigit(t)], Block(b[3..]));
      CompactGroup(p, q, r, t);
    }
  }

  lemma TranslateDigit(v: sextet)
    ensures StdDigit(v) != '=' && Translate(StdDigit(v)) == UrlDigit(v)
  {}

  lemma CompactFour(s: string)
    requires |s| == 4 && s[0] != '=' && s[1] != '='
    ensures Compact(s) == [Translate(s[0]), Translate(s[1])]
                          + (if s[2] == '=' then [] else [Translate(s[2])])
                          + (if s[3] == '=' then [] else [Translate(s[3])])
  {
    assert Compact(s[4..]) == [];
    assert s[3..][1..] == s[4..] && s[2..][1..] == s[3..] && s[1..][1..] == s[2..];
    assert Compact(s[3..]) == if s[3] == '=' then [] else [Translate(s[3])];
    assert Compact(s[2..]) == (if s[2] == '=' then [] else [Translate(s[2])]) + Compact(s[3..]);
    assert Compact(s[1..]) == [Translate(s[1])] + Compact(s[2..]);
  }

  lemma {:induction false} SextetsLength(b: seq<byte>)
    ensures |Sextets(b)| == (4 * |b| + 2) / 3
  {
    if |b| > 2 {
      SextetsLength(b[3..]);
      FourThirdsStep(|b|);
    }
  }

  lemma FourThirdsStep(n: nat)
    requires n >= 3
    ensures (4 * n + 2) / 3 == (4 * (n - 3) + 2) / 3 + 4
  {}

  /** Section 5 text has ceil(4n/3) characters, none of which url_encode would change. */
  lemma UrlTextShape(b: seq<byte>)
    ensures |UrlText(b)| == (4 * |b| + 2) / 3
    ensures IsCString(UrlText(b))
    ensures PE.AllUnreserved(UrlText(b))
    ensures PE.Encode(UrlText(b)) == UrlText(b)
  {
    UrlTextIsDigits(b);
    SextetsLength(b);
    DigitsAlphabet(Sextets(b));
    PE.FixedPoint(UrlText(b));
  }

  lemma {:induction false} DigitsAlphabet(v: seq<sextet>)
    ensures |Digits(v)| == |v| && IsCString(Digits(v))
    ensures PE.AllUnreserved(Digits(v))
  {
    if v != [] {
      DigitsAlphabet(v[1..]);
    }
  }

  /** The strict decoder accepts a string as the bytes `b` exactly when it is the text of `b`. */
  lemma DecodeIff(s: string, b: seq<byte>)
    ensures Decode(s) == Some(b) <==> s == UrlText(b)
  {
    UrlTextIsDigits(b);
    ValuesOfDigits(Sextets(b));
    JoinSextets(b);
    if Decode(s) == Some(b) {
      DigitsOfValues(s);
      SextetsJoin(Values(s).value);
    }
  }

  /** Different byte strings, of the same or of different lengths, never share a text. */
  lemma UrlTextInjective(a: seq<byte>, b: seq<byte>)
    requires UrlText(a) == UrlText(b)
    ensures a == b
  {
    DecodeIff(UrlText(a), a);
    DecodeIff(UrlText(a), b);
  }

  // ---- Test vectors of the standards ----

  /** Section 10 of RFC 4648, without the padding. */
  lemma StandardVectors()
    ensures UrlText([]) == "" && UrlText([102]) == "Zg" && UrlText([102, 111]) == "Zm8"
    ensures UrlText([102, 111, 111]) == "Zm9v" && UrlText([102, 111, 111, 98]) == "Zm9vYg"
  {
    assert [102, 111, 111, 98][3..] == [98];
    assert UrlText([98]) == "Yg" && UrlText([]) == "";
  }

  /** The two characters in which section 5 differs from section 4. */
  lemma UrlSafeVectors()
    ensures UrlText([251, 255]) == "-_8" && UrlText([255, 239, 190]) == "_---"
  {
    assert UrlText([]) == "";
  }

  // ---- The C function ----

  /** Stand-in for OpenSSL's EVP_EncodeBlock: the padded block and a terminator. */
  method EvpEncodeBlock(out: array<char>, input: seq<byte>) returns (n: int)
    requires |Block(input)| < out.Length
    modifies out
    ensures n == |Block(input)|
    ensures out[..] == Block(input) + [NUL] + old(out[..])[n + 1..]
  {
    var text := Block(input) + [NUL];
    forall i | 0 <= i < |text| {
      out[i] := text[i];
    }
    n := |text| - 1;
  }

  /** The loop body of `b64url_encode`: drop padding, append anything else translated. */
  method PutCompacted(out: array<char>, w: nat, c: char) returns (next: nat)
    requires w < out.Length
    modifies out
    ensures next == if c == '=' then w else w + 1
    ensures out[..next] == old(out[..w]) + if c == '=' then [] else [Translate(c)]
    ensures forall k :: next <= k < out.Length ==> out[k] == old(out[k])
  {
    if c == '=' {
      return w;
    }
    var d := c;
    if c == '+' {
      d := '-';
    } else if c == '/' {
      d := '_';
    }
    next := PE.PutChar(out, w, d);
  }

  /** `b64url_encode`, compacting the padded block in place. */
  method B64UrlEncode(input: seq<byte>, out: array<char>) returns (r: int)
    requires 4 * ((|input| + 2) / 3) < out.Length ==> 4 * ((|input| + 2) / 3) < 0x8000_0000
    modifies out
    ensures r == if 4 * ((|input| + 2) / 3) < out.Length then |UrlText(input)| else -1
    ensures r < 0 ==> out[..] == old(out[..])
    ensures r >= 0 ==>
              && r < out.Length
              && out[..r + 1] == UrlText(input) + [NUL]
              && forall i :: 4 * ((|input| + 2) / 3) < i < out.Length ==> out[i] == old(out[i])
  {
    var encLen := 4 * ((|input| + 2) / 3);
    if encLen + 1 > out.Length {
      return -1;
    }
    BlockLength(input);
    CompactedBlockIsUrlText(input);
    var n := EvpEncodeBlock(out, input);
    ghost var text := Block(input);
    var w := 0;
    for i := 0 to n
      invariant 0 <= w <= i
      invariant out[..w] == Compact(text[..i])
      invariant forall k :: i <= k < n ==> out[k] == text[k]
      invariant forall k :: n < k < out.Length ==> out[k] == old(out[k])
    {
      CompactStep(text, i);
      w := PutCompacted(out, w, out[i]);
    }
    assert text[..n] == text;
    r := w;
    w := PE.PutChar(out, w, NUL);
  }
}

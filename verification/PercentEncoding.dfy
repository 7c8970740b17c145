/** util.c: `is_unreserved` and `url_encode` (sections 2.1 and 2.3 of RFC 3986). */
module PercentEncoding {
  import opened Basics

  predicate Unreserved(c: char) {
    'A' <= c <= 'Z' || 'a' <= c <= 'z' || '0' <= c <= '9'
    || c == '-' || c == '_' || c == '.' || c == '~'
  }

  predicate AllUnreserved(s: string) {
    forall i :: 0 <= i < |s| ==> Unreserved(s[i])
  }

  function HexDigit(n: int): char
    requires 0 <= n < 16
  {
    "0123456789ABCDEF"[n]
  }

  function EncodeChar(c: char): string
    requires c as int < 256
  {
    if Unreserved(c) then [c] else ['%', HexDigit(c as int / 16), HexDigit(c as int % 16)]
  }

  function Encode(s: string): string
    requires IsCString(s)
  {
    if s == [] then [] else EncodeChar(s[0]) + Encode(s[1..])
  }

  // ---- An independent percent-decoder ----

  function HexValue(c: char): Option<int> {
    if '0' <= c <= '9' then Some(c as int - '0' as int)
    else if 'A' <= c <= 'F' then Some(c as int - 'A' as int + 10)
    else if 'a' <= c <= 'f' then Some(c as int - 'a' as int + 10)
    else None
  }

  /** Percent-decoding; a form decoder also reads '+' as a space. */
  function Decode(s: string, plusIsSpace: bool): Option<string> {
    if s == [] then Some([])
    else if s[0] == '%' then
      if |s| < 3 then None else
      match (HexValue(s[1]), HexValue(s[2]))
      case (Some(hi), Some(lo)) =>
        (match Decode(s[3..], plusIsSpace)
         case Some(rest) => Some([OctetChar(hi, lo)] + rest)
         case None => None)
      case _ => None
    else
      var c := if s[0] == '+' && plusIsSpace then ' ' else s[0];
      match Decode(s[1..], plusIsSpace)
      case Some(rest) => Some([c] + rest)
      case None => None
  }

  function OctetChar(hi: int, lo: int): char {
    if 0 <= hi < 16 && 0 <= lo < 16 then (16 * hi + lo) as char else NUL
  }

  lemma HexRoundTrip(n: int)
    requires 0 <= n < 16
    ensures HexValue(HexDigit(n)) == Some(n)
  {}

  lemma DecodeEncodedChar(c: char, rest: string, plusIsSpace: bool)
    requires c as int < 256
    ensures Decode(EncodeChar(c) + rest, plusIsSpace)
         == match Decode(rest, plusIsSpace) case Some(t) => Some([c] + t) case None => None
  {
    if Unreserved(c) {
      assert ([c] + rest)[1..] == rest;
    } else {
      var hi, lo := c as int / 16, c as int % 16;
      HexRoundTrip(hi);
      HexRoundTrip(lo);
      DecodeOctet(HexDigit(hi), HexDigit(lo), rest, plusIsSpace);
    }
  }

  lemma DecodeOctet(hi: char, lo: char, rest: string, plusIsSpace: bool)
    requires HexValue(hi).Some? && HexValue(lo).Some?
    ensures Decode(['%', hi, lo] + rest, plusIsSpace)
         == match Decode(rest, plusIsSpace)
            case Some(t) => Some([OctetChar(HexValue(hi).value, HexValue(lo).value)] + t)
            case None => None
  {
    assert (['%', hi, lo] + rest)[3..] == rest;
  }

  /** Percent-decoding, by either convention for '+', undoes the encoder on every C string. */
  lemma {:induction false} DecodeEncode(s: string, plusIsSpace: bool)
    requires IsCString(s)
    ensures Decode(Encode(s), plusIsSpace) == Some(s)
  {
    if s != [] {
      DecodeEncode(s[1..], plusIsSpace);
      DecodeEncodedChar(s[0], Encode(s[1..]), plusIsSpace);
      assert s == [s[0]] + s[1..];
    }
  }

  lemma EncodeInjective(a: string, b: string)
    requires IsCString(a) && IsCString(b) && Encode(a) == Encode(b)
    ensures a == b
  {
    DecodeEncode(a, false);
    DecodeEncode(b, false);
  }

  lemma EncodeFirst(c: char, rest: string)
    requires 0 < c as int < 256 && IsCString(rest)
    ensures IsCString([c] + rest) && Encode([c] + rest) == EncodeChar(c) + Encode(rest)
  {
    assert ([c] + rest)[1..] == rest;
  }

  lemma {:induction false} EncodeConcat(a: string, b: string)
    requires IsCString(a) && IsCString(b)
    ensures IsCString(a + b) && Encode(a + b) == Encode(a) + Encode(b)
  {
    if a == [] {
      assert a + b == b;
    } else {
      var c, rest := a[0], a[1..];
      assert a == [c] + rest;
      EncodeConcat(rest, b);
      EncodeFirst(c, rest);
      EncodeFirst(c, rest + b);
      calc {
        Encode(a + b);
        { ConcatAssociates([c], rest, b); }
        Encode([c] + (rest + b));
        EncodeChar(c) + (Encode(rest) + Encode(b));
        { ConcatAssociates(EncodeChar(c), Encode(rest), Encode(b)); }
        Encode(a) + Encode(b);
      }
    }
  }

  lemma EncodedCharAlphabet(c: char)
    requires 0 < c as int < 256
    ensures 1 <= |EncodeChar(c)| <= 3 && IsCString(EncodeChar(c))
    ensures forall d :: d in EncodeChar(c) ==> Unreserved(d) || d == '%'
  {
    if !Unreserved(c) {
      UpperHex(c as int / 16);
      UpperHex(c as int % 16);
    }
  }

  /** The unreserved characters are those of section 2.3 of RFC 3986, by their ASCII codes. */
  lemma UnreservedCodes(c: char)
    ensures var n := c as int;
            Unreserved(c) <==>
              65 <= n <= 90 || 97 <= n <= 122 || 48 <= n <= 57 || n == 45 || n == 46 || n == 95 || n == 126
  {}

  /** Any other octet is '%' and two upper-case hexadecimal digits (section 2.1 of RFC 3986). */
  lemma EscapeShape(c: char)
    requires c as int < 256 && !Unreserved(c)
    ensures var e := EncodeChar(c);
            && |e| == 3 && e[0] == '%'
            && (forall k :: 1 <= k < 3 ==> '0' <= e[k] <= '9' || 'A' <= e[k] <= 'F')
            && HexValue(e[1]).Some? && HexValue(e[2]).Some?
            && 16 * HexValue(e[1]).value + HexValue(e[2]).value == c as int
  {
    HexRoundTrip(c as int / 16);
    HexRoundTrip(c as int % 16);
    UpperHex(c as int / 16);
    UpperHex(c as int % 16);
  }

  lemma UpperHex(n: int)
    requires 0 <= n < 16
    ensures '0' <= HexDigit(n) <= '9' || 'A' <= HexDigit(n) <= 'F'
  {}

  /** The encoder's whole output alphabet: unreserved characters and '%'. */
  lemma {:induction false} EncodeAlphabet(s: string)
    requires IsCString(s)
    ensures forall c :: c in Encode(s) ==> Unreserved(c) || c == '%'
    ensures IsCString(Encode(s))
    ensures |s| <= |Encode(s)| <= 3 * |s|
  {
    if s != [] {
      EncodedCharAlphabet(s[0]);
      EncodeAlphabet(s[1..]);
    }
  }

  lemma NotInEncoding(s: string, c: char)
    requires IsCString(s) && !Unreserved(c) && c != '%'
    ensures c !in Encode(s)
  {
    EncodeAlphabet(s);
  }

  lemma SameAfterFirst(c: char, a: string, b: string)
    ensures [c] + a == [c] + b <==> a == b
  {
    assert a == ([c] + a)[1..] && b == ([c] + b)[1..];
  }

  /** A string is its own encoding exactly when all its characters are unreserved. */
  lemma {:induction false} FixedPoint(s: string)
    requires IsCString(s)
    ensures Encode(s) == s <==> AllUnreserved(s)
  {
    if s != [] {
      var first, rest := s[0], s[1..];
      EncodeAlphabet(rest);
      FixedPoint(rest);
      if Unreserved(first) {
        SameAfterFirst(first, Encode(rest), rest);
        assert s == [first] + rest;
        assert AllUnreserved(s) <==> AllUnreserved(rest) by {
          assert forall i :: 0 <= i < |rest| ==> rest[i] == s[i + 1];
          assert forall i :: 0 < i < |s| ==> s[i] == rest[i - 1];
        }
      } else {
        assert |Encode(s)| == 3 + |Encode(rest)| > |s|;
      }
    }
  }

  lemma EncodeStep(s: string, k: nat)
    requires IsCString(s) && k < |s|
    ensures Encode(s[..k + 1]) == Encode(s[..k]) + EncodeChar(s[k])
  {
    assert s[..k + 1] == s[..k] + [s[k]];
    EncodeConcat(s[..k], [s[k]]);
    EncodeFirst(s[k], []);
    assert [s[k]] + [] == [s[k]];
  }

  lemma EncodePrefixLength(s: string, k: nat)
    requires IsCString(s) && k <= |s|
    ensures |Encode(s[..k])| <= |Encode(s)|
  {
    assert s == s[..k] + s[k..];
    EncodeConcat(s[..k], s[k..]);
  }

  /** The encoded length is below the capacity: the exact success condition. */
  predicate Fits(s: string, cap: nat)
    requires IsCString(s)
  {
    |Encode(s)| < cap
  }

  /** `out[w++] = c`. */
  method PutChar(out: array<char>, w: nat, c: char) returns (next: nat)
    requires w < out.Length
    modifies out
    ensures next == w + 1
    ensures out[..next] == old(out[..w]) + [c]
    ensures forall i :: next <= i < out.Length ==> out[i] == old(out[i])
  {
    out[w] := c;
    next := w + 1;
  }

  /** The loop body of `url_encode`: append one encoded character if room for a terminator would remain. */
  method PutEncoded(out: array<char>, w: nat, c: char) returns (ok: bool, next: nat)
    requires w <= out.Length && c as int < 256
    modifies out
    ensures ok <==> w + |EncodeChar(c)| < out.Length
    ensures !ok ==> next == w && out[..] == old(out[..])
    ensures ok ==> next == w + |EncodeChar(c)| && out[..next] == old(out[..w]) + EncodeChar(c)
    ensures forall i :: next <= i < out.Length ==> out[i] == old(out[i])
  {
    ok, next := true, w;
    if Unreserved(c) {
      if w + 1 >= out.Length {
        return false, w;
      }
      next := PutChar(out, next, c);
    } else {
      if w + 3 >= out.Length {
        return false, w;
      }
      next := PutChar(out, next, '%');
      next := PutChar(out, next, HexDigit(c as int / 16));
      next := PutChar(out, next, HexDigit(c as int % 16));
    }
  }

  lemma SplitAt(s: string, was: string, w: nat)
    requires w <= |s| == |was|
    requires forall i :: w <= i < |s| ==> s[i] == was[i]
    ensures s == s[..w] + was[w..]
  {}

  /** `url_encode`. `done` is how many characters of `text` were written when it returned. */
  method UrlEncode(text: string, out: array<char>) returns (r: int, ghost done: nat)
    requires IsCString(text)
    modifies out
    ensures Fits(text, out.Length) ==>
              && r == ToInt32(|Encode(text)|)
              && out[..] == Encode(text) + [NUL] + old(out[..])[|Encode(text)| + 1..]
    ensures !Fits(text, out.Length) ==>
              && r == -1
              && done <= |text|
              && |Encode(text[..done])| <= out.Length
              && (done < |text| ==> |Encode(text[..done + 1])| >= out.Length)
              && out[..] == Encode(text[..done]) + old(out[..])[|Encode(text[..done])|..]
  {
    ghost var was := out[..];
    var w := 0;
    var p := 0;
    while p < |text|
      invariant 0 <= p <= |text|
      invariant w == |Encode(text[..p])| <= out.Length
      invariant out[..w] == Encode(text[..p])
      invariant forall i :: w <= i < out.Length ==> out[i] == was[i]
    {
      EncodeStep(text, p);
      EncodePrefixLength(text, p + 1);
      var ok;
      ok, w := PutEncoded(out, w, text[p]);
      if !ok {
        SplitAt(out[..], was, w);
        return -1, p;
      }
      p := p + 1;
    }
    assert text[..p] == text;
    done := p;
    if w >= out.Length {
      SplitAt(out[..], was, w);
      return -1, done;
    }
    r := ToInt32(w);
    w := PutChar(out, w, NUL);
    SplitAt(out[..], was, w);
  }

  /**
    What the return value says, for every capacity: it is the encoded length exactly when the encoding fits and an
    `int` can count it. Up to a capacity of 2^31 that is all a caller needs: it is non-negative exactly on a fit.
   */
  lemma SuccessIsFit(text: string, cap: nat, r: int)
    requires IsCString(text)
    requires r == if Fits(text, cap) then ToInt32(|Encode(text)|) else -1
    ensures r == |Encode(text)| <==> Fits(text, cap) && |Encode(text)| < 0x8000_0000
    ensures r >= 0 <==> Fits(text, cap) && |Encode(text)| % 0x1_0000_0000 < 0x8000_0000
    ensures cap <= 0x8000_0000 ==> (r >= 0 <==> Fits(text, cap))
  {
    if Fits(text, cap) {
      Int32OfLength(|Encode(text)|);
    }
  }
}

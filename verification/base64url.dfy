/** UTF-8 encoding of a string, as `Buffer.from(input)` performs it before
    base64 encoding. Dafny characters are Unicode scalar values, so every
    character has exactly one encoding. */
module Utf8 {
  import opened Common

  function EncodeChar(c: char): seq<byte> {
    var n := c as int;
    if n < 0x80 then [n]
    else if n < 0x800 then [0xC0 + n / 64, 0x80 + n % 64]
    else if n < 0x10000 then [0xE0 + n / 4096, 0x80 + (n / 64) % 64, 0x80 + n % 64]
    else [0xF0 + n / 262144, 0x80 + (n / 4096) % 64, 0x80 + (n / 64) % 64, 0x80 + n % 64]
  }

  function Encode(s: string): seq<byte> {
    if |s| == 0 then [] else EncodeChar(s[0]) + Encode(s[1..])
  }
}

/** `toBase64Url` of services/gmail.ts: base64 text with the `+` and `/`
    digits swapped for `-` and `_` and the trailing `=` padding removed,
    which is the URL-safe alphabet of section 5 of RFC 4648 without
    padding. A decoder is given as its inverse. */
module Base64Url {
  import opened Common
  import Utf8

  /** The two alphabets of RFC 4648: section 4 (standard) and section 5. */
  datatype Alphabet = Standard | UrlSafe

  /** The character for the 6-bit digit `d`. */
  function Digit(a: Alphabet, d: int): char
    requires 0 <= d < 64
  {
    if d < 26 then ('A' as int + d) as char
    else if d < 52 then ('a' as int + d - 26) as char
    else if d < 62 then ('0' as int + d - 52) as char
    else if d == 62 then (if a == Standard then '+' else '-')
    else (if a == Standard then '/' else '_')
  }

  /** A character of the URL-safe alphabet: `A-Z a-z 0-9 - _`. */
  predicate IsUrlSafe(c: char) {
    ('A' <= c <= 'Z') || ('a' <= c <= 'z') || ('0' <= c <= '9') || c == '-' || c == '_'
  }

  /** The 6-bit digits of a group of one to three bytes: two digits for
      one byte, three for two, four for three. */
  function Sextets(g: seq<byte>): (d: seq<int>)
    requires 1 <= |g| <= 3
    ensures |d| == |g| + 1
    ensures forall i :: 0 <= i < |d| ==> 0 <= d[i] < 64
  {
    if |g| == 1 then [g[0] / 4, (g[0] % 4) * 16]
    else if |g| == 2 then [g[0] / 4, (g[0] % 4) * 16 + g[1] / 16, (g[1] % 16) * 4]
    else [g[0] / 4, (g[0] % 4) * 16 + g[1] / 16, (g[1] % 16) * 4 + g[2] / 64, g[2] % 64]
  }

  function Spell(a: Alphabet, d: seq<int>): string
    requires forall i :: 0 <= i < |d| ==> 0 <= d[i] < 64
  {
    seq(|d|, i requires 0 <= i < |d| => Digit(a, d[i]))
  }

  /** `Buffer.toString("base64")`: standard alphabet, `=`-padded to a
      multiple of four characters. */
  function Padded(b: seq<byte>): string
    decreases |b|
  {
    if |b| == 0 then ""
    else if |b| == 1 then Spell(Standard, Sextets(b)) + "=="
    else if |b| == 2 then Spell(Standard, Sextets(b)) + "="
    else Spell(Standard, Sextets(b[..3])) + Padded(b[3..])
  }

  /** `.replace(/\+/g, "-").replace(/\//g, "_")` */
  function SwapDigits(s: string): (r: string) {
    seq(|s|, i requires 0 <= i < |s| => if s[i] == '+' then '-' else if s[i] == '/' then '_' else s[i])
  }

  /** `.replace(/=+$/, "")`: removes the run of `=` that ends the text. */
  function StripPadding(s: string): string
    decreases |s|
  {
    if |s| > 0 && s[|s| - 1] == '=' then StripPadding(s[..|s| - 1]) else s
  }

  /** `toBase64Url` over the bytes of its input, step by step as the
      source computes it. */
  function Encode(b: seq<byte>): string {
    StripPadding(SwapDigits(Padded(b)))
  }

  /** `toBase64Url(input)`: the UTF-8 bytes of the text, encoded. */
  function EncodeText(input: string): string {
    Encode(Utf8.Encode(input))
  }

  /** Base64url without padding, written directly: each group of three
      bytes gives four URL-safe digits, a final group of one or two bytes
      gives two or three. Its contract gives the alphabet and the length. */
  function Unpadded(b: seq<byte>): (r: string)
    decreases |b|
    ensures forall i :: 0 <= i < |r| ==> IsUrlSafe(r[i])
    ensures |r| == 4 * (|b| / 3) + (if |b| % 3 == 0 then 0 else |b| % 3 + 1)
  {
    if |b| == 0 then ""
    else if |b| < 3 then Spell(UrlSafe, Sextets(b))
    else Spell(UrlSafe, Sextets(b[..3])) + Unpadded(b[3..])
  }

  lemma SwapSpell(d: seq<int>)
    requires forall i :: 0 <= i < |d| ==> 0 <= d[i] < 64
    ensures SwapDigits(Spell(Standard, d)) == Spell(UrlSafe, d)
  {
  }

  lemma SwapAppend(x: string, y: string)
    ensures SwapDigits(x + y) == SwapDigits(x) + SwapDigits(y)
  {
  }

  /** Stripping the padding only looks at the end of the text. */
  lemma {:induction false} StripAppend(x: string, y: string)
    requires '=' !in x
    ensures StripPadding(x + y) == x + StripPadding(y)
    decreases |y|
  {
    if |y| == 0 {
      assert x + y == x;
      if |x| > 0 {
        assert x[|x| - 1] in x;
      }
    } else if y[|y| - 1] == '=' {
      assert (x + y)[..|x + y| - 1] == x + y[..|y| - 1];
      StripAppend(x, y[..|y| - 1]);
    }
  }

  /** The source's swap-and-strip pipeline is exactly unpadded base64url. */
  lemma {:induction false} EncodeIsUnpadded(b: seq<byte>)
    ensures Encode(b) == Unpadded(b)
    decreases |b|
  {
    if |b| == 0 {
    } else if |b| < 3 {
      EncodeLastGroup(b);
    } else {
      EncodeIsUnpadded(b[3..]);
      EncodeFirstGroup(b);
    }
  }

  /** URL-safe digits hold no padding character. */
  lemma UrlSafeUnpadded(d: seq<int>)
    requires forall i :: 0 <= i < |d| ==> 0 <= d[i] < 64
    ensures '=' !in Spell(UrlSafe, d)
  {
    var u := Spell(UrlSafe, d);
    assert forall i :: 0 <= i < |u| ==> IsUrlSafe(u[i]);
  }

  /** One or two bytes: the padding the source adds is stripped again. */
  lemma EncodeLastGroup(b: seq<byte>)
    requires 1 <= |b| < 3
    ensures Encode(b) == Unpadded(b)
  {
    var d := Sextets(b);
    var pad := if |b| == 1 then "==" else "=";
    var head := Spell(Standard, d);
    assert Padded(b) == head + pad;
    SwapAppend(head, pad);
    SwapSpell(d);
    SwapPad();
    UrlSafeUnpadded(d);
    StripAppend(Spell(UrlSafe, d), pad);
    StripPad();
    assert Unpadded(b) == Spell(UrlSafe, d);
  }

  lemma SwapPad()
    ensures SwapDigits("=") == "=" && SwapDigits("==") == "=="
  {
  }

  lemma StripPad()
    ensures StripPadding("=") == "" && StripPadding("==") == ""
  {
    assert "=="[..1] == "=";
    assert "="[..0] == "";
  }

  /** A first group of three bytes is spelled ahead of the rest. */
  lemma EncodeFirstGroup(b: seq<byte>)
    requires |b| >= 3 && Encode(b[3..]) == Unpadded(b[3..])
    ensures Encode(b) == Unpadded(b)
  {
    var d := Sextets(b[..3]);
    var head := Spell(Standard, d);
    assert Padded(b) == head + Padded(b[3..]);
    SwapAppend(head, Padded(b[3..]));
    SwapSpell(d);
    UrlSafeUnpadded(d);
    StripAppend(Spell(UrlSafe, d), SwapDigits(Padded(b[3..])));
  }

  /** What `toBase64Url` promises: only URL-safe characters (so no `+`,
      `/` or `=`), and the length of padded base64 less its padding. */
  lemma EncodeShape(b: seq<byte>)
    ensures forall i :: 0 <= i < |Encode(b)| ==> IsUrlSafe(Encode(b)[i])
    ensures '+' !in Encode(b) && '/' !in Encode(b) && '=' !in Encode(b)
    ensures |Encode(b)| == 4 * (|b| / 3) + (if |b| % 3 == 0 then 0 else if |b| % 3 == 1 then 2 else 3)
  {
    EncodeIsUnpadded(b);
  }

  /** The digit value of a URL-safe character. */
  function Value(c: char): Option<int> {
    if 'A' <= c <= 'Z' then Some(c as int - 'A' as int)
    else if 'a' <= c <= 'z' then Some(c as int - 'a' as int + 26)
    else if '0' <= c <= '9' then Some(c as int - '0' as int + 52)
    else if c == '-' then Some(62)
    else if c == '_' then Some(63)
    else None
  }

  lemma ValueDigit(d: int)
    requires 0 <= d < 64
    ensures Value(Digit(UrlSafe, d)) == Some(d)
  {
  }

  /** Two to four characters back to one to three bytes. */
  function DecodeGroup(s: string): Option<seq<byte>>
    requires 2 <= |s| <= 4
  {
    var v := seq(|s|, i requires 0 <= i < |s| => Value(s[i]));
    if exists i :: 0 <= i < |s| && v[i].None? then None
    else
      var d0, d1 := v[0].value, v[1].value;
      if !(0 <= d0 < 64 && 0 <= d1 < 64) then None
      else if |s| == 2 then Some([d0 * 4 + d1 / 16])
      else
        var d2 := v[2].value;
        if !(0 <= d2 < 64) then None
        else if |s| == 3 then Some([d0 * 4 + d1 / 16, (d1 % 16) * 16 + d2 / 4])
        else
          var d3 := v[3].value;
          if !(0 <= d3 < 64) then None
          else Some([d0 * 4 + d1 / 16, (d1 % 16) * 16 + d2 / 4, (d2 % 4) * 64 + d3])
  }

  /** Unpadded base64url text back to bytes; `None` for a character
      outside the alphabet or a length of the form 4k + 1. */
  function Decode(s: string): Option<seq<byte>>
    decreases |s|
  {
    if |s| == 0 then Some([])
    else if |s| == 1 then None
    else if |s| <= 4 then DecodeGroup(s)
    else
      match DecodeGroup(s[..4])
      case None => None
      case Some(g) =>
        match Decode(s[4..])
        case None => None
        case Some(rest) => Some(g + rest)
  }

  /** Division by a constant of `q * n + r` gives back `q` and `r`. */
  lemma DivParts4(q: int, r: int)
    requires 0 <= r < 4
    ensures (q * 4 + r) / 4 == q && (q * 4 + r) % 4 == r
  {
  }

  lemma DivParts16(q: int, r: int)
    requires 0 <= r < 16
    ensures (q * 16 + r) / 16 == q && (q * 16 + r) % 16 == r
  {
  }

  lemma DivParts64(q: int, r: int)
    requires 0 <= r < 64
    ensures (q * 64 + r) / 64 == q && (q * 64 + r) % 64 == r
  {
  }

  /** The values of spelled digits are the digits. */
  lemma SpelledValues(d: seq<int>) returns (v: seq<Option<int>>)
    requires forall i :: 0 <= i < |d| ==> 0 <= d[i] < 64
    ensures var s := Spell(UrlSafe, d);
      && v == seq(|s|, i requires 0 <= i < |s| => Value(s[i]))
      && |v| == |d| && forall i :: 0 <= i < |d| ==> v[i] == Some(d[i])
  {
    var s := Spell(UrlSafe, d);
    v := seq(|s|, i requires 0 <= i < |s| => Value(s[i]));
    forall i | 0 <= i < |s|
      ensures v[i] == Some(d[i])
    {
      ValueDigit(d[i]);
    }
  }

  /** A group of one to three bytes decodes back from its spelling. */
  lemma DecodeSpelledGroup(g: seq<byte>)
    requires 1 <= |g| <= 3
    ensures DecodeGroup(Spell(UrlSafe, Sextets(g))) == Some(g)
  {
    var d := Sextets(g);
    var v := SpelledValues(d);
    assert !exists i :: 0 <= i < |v| && v[i].None?;
    var s := Spell(UrlSafe, d);
    if |g| == 1 {
      DecodeOneByte(g, d);
      assert DecodeGroup(s) == Some([d[0] * 4 + d[1] / 16]);
      assert [g[0]] == g;
    } else if |g| == 2 {
      DecodeTwoBytes(g, d);
      assert DecodeGroup(s) == Some([d[0] * 4 + d[1] / 16, (d[1] % 16) * 16 + d[2] / 4]);
      assert [g[0], g[1]] == g;
    } else {
      DecodeThreeBytes(g, d);
      assert DecodeGroup(s) == Some([d[0] * 4 + d[1] / 16, (d[1] % 16) * 16 + d[2] / 4, (d[2] % 4) * 64 + d[3]]);
      assert [g[0], g[1], g[2]] == g;
    }
  }

  lemma DecodeOneByte(g: seq<byte>, d: seq<int>)
    requires |g| == 1 && d == Sextets(g)
    ensures d[0] * 4 + d[1] / 16 == g[0]
  {
    DivParts16(g[0] % 4, 0);
  }

  lemma DecodeTwoBytes(g: seq<byte>, d: seq<int>)
    requires |g| == 2 && d == Sextets(g)
    ensures d[0] * 4 + d[1] / 16 == g[0]
    ensures (d[1] % 16) * 16 + d[2] / 4 == g[1]
  {
    DivParts16(g[0] % 4, g[1] / 16);
    DivParts4(g[1] % 16, 0);
  }

  lemma DecodeThreeBytes(g: seq<byte>, d: seq<int>)
    requires |g| == 3 && d == Sextets(g)
    ensures d[0] * 4 + d[1] / 16 == g[0]
    ensures (d[1] % 16) * 16 + d[2] / 4 == g[1]
    ensures (d[2] % 4) * 64 + d[3] == g[2]
  {
    DivParts16(g[0] % 4, g[1] / 16);
    DivParts4(g[1] % 16, g[2] / 64);
    DivParts64(g[2] / 64, g[2] % 64);
  }

  /** A leading group of four characters decodes on its own. */
  lemma DecodeAppend(head: string, rest: string)
    requires |head| == 4 && |rest| > 0
    ensures Decode(head + rest) ==
      match DecodeGroup(head)
      case None => None
      case Some(g) => (match Decode(rest) case None => None case Some(r) => Some(g + r))
  {
    var u := head + rest;
    assert u[..4] == head;
    assert u[4..] == rest;
  }

  /** Up to three bytes are spelled as one group. */
  lemma UnpaddedShort(b: seq<byte>)
    requires 1 <= |b| <= 3
    ensures Unpadded(b) == Spell(UrlSafe, Sextets(b))
  {
    if |b| == 3 {
      assert b[..3] == b;
      assert Unpadded(b[3..]) == "";
    }
  }

  /** A first group of three bytes decodes ahead of the rest. */
  lemma DecodeLonger(b: seq<byte>)
    requires |b| > 3 && Decode(Unpadded(b[3..])) == Some(b[3..])
    ensures Decode(Unpadded(b)) == Some(b)
  {
    var head := Spell(UrlSafe, Sextets(b[..3]));
    DecodeSpelledGroup(b[..3]);
    DecodeAppend(head, Unpadded(b[3..]));
    assert b[..3] + b[3..] == b;
  }

  /** Decoding inverts the direct unpadded encoding. */
  lemma {:induction false} UnpaddedRoundTrip(b: seq<byte>)
    ensures Decode(Unpadded(b)) == Some(b)
    decreases |b|
  {
    if |b| == 0 {
    } else if |b| <= 3 {
      UnpaddedShort(b);
      DecodeSpelledGroup(b);
    } else {
      UnpaddedRoundTrip(b[3..]);
      DecodeLonger(b);
    }
  }

  /** Decoding inverts `toBase64Url`: the encoding loses nothing. */
  lemma RoundTrip(b: seq<byte>)
    ensures Decode(Encode(b)) == Some(b)
  {
    EncodeIsUnpadded(b);
    UnpaddedRoundTrip(b);
  }
}

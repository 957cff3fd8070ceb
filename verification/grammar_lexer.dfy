/** The loops that read spaces, names and characters. */
module GrammarLexer {
  import opened Arithmetic
  import opened GrammarSyntax

  method ParseSpace(src: Text, start: nat, newlineOk: bool) returns (pos: nat)
    requires start <= |src|
    ensures pos == SkipSpace(src, start, newlineOk)
  {
    pos := start;
    while At(src, pos) == SPACE || At(src, pos) == TAB || At(src, pos) == HASH ||
          (newlineOk && (At(src, pos) == CR || At(src, pos) == LF))
      invariant pos <= |src| && SkipSpace(src, pos, newlineOk) == SkipSpace(src, start, newlineOk)
      decreases |src| - pos
    {
      if At(src, pos) == HASH {
        pos := ParseComment(src, pos);
      } else {
        pos := pos + 1;
      }
    }
  }

  method ParseComment(src: Text, start: nat) returns (pos: nat)
    requires start <= |src| && At(src, start) == HASH
    ensures pos == SkipComment(src, start + 1)
  {
    pos := start;
    while At(src, pos) != 0 && At(src, pos) != CR && At(src, pos) != LF
      invariant start <= pos <= |src| && SkipComment(src, pos) == SkipComment(src, start)
      decreases |src| - pos
    {
      pos := pos + 1;
    }
  }

  method ParseName(src: Text, start: nat) returns (r: Result<nat>)
    requires start <= |src|
    ensures r == if IsWordChar(At(src, start)) then Ok(NameEnd(src, start)) else Err(ExpectingName)
  {
    var pos := start;
    while IsWordChar(At(src, pos))
      invariant start <= pos <= |src| && NameEnd(src, pos) == NameEnd(src, start)
      decreases |src| - pos
    {
      pos := pos + 1;
    }
    if pos == start { return Err(ExpectingName); }
    return Ok(pos);
  }

  method ParseHex(src: Text, start: nat, size: nat) returns (r: Result<Parsed<nat>>)
    requires start <= |src|
    ensures r == Hex(src, start, size, 0)
  {
    var pos, end, value: nat := start, start + size, 0;
    while pos < end && At(src, pos) != 0
      invariant start <= pos <= end && pos <= |src| && Hex(src, pos, end - pos, value) == Hex(src, start, size, 0)
      decreases |src| - pos
    {
      value := value * 16;
      var c := At(src, pos);
      if 97 <= c <= 102 {
        value := value + (c - 97 + 10);
      } else if 65 <= c <= 70 {
        value := value + (c - 65 + 10);
      } else if 48 <= c <= 57 {
        value := value + (c - 48);
      } else {
        break;
      }
      pos := pos + 1;
    }
    if pos != end { return Err(ExpectingHex); }
    return Ok(Parsed(value, pos));
  }

  method DecodeCharacter(src: Text, start: nat) returns (r: Parsed<nat>)
    requires start < |src| && At(src, start) != 0
    ensures r == DecodeUtf8(src, start)
  {
    var first := src[start];
    var len := [1, 1, 1, 1, 1, 1, 1, 1, 1, 1, 1, 1, 2, 2, 3, 4][first / 16];
    var mask := [128, 64, 32, 16][len - 1];
    var value: nat := first % mask;
    var pos, end := start + 1, start + len;
    while pos < end && At(src, pos) != 0
      invariant start < pos <= end && pos <= |src| && Utf8Rest(src, pos, end - pos, value) == DecodeUtf8(src, start)
      decreases end - pos
    {
      value := value * 64 + At(src, pos) % 64;
      pos := pos + 1;
    }
    r := Parsed(value, pos);
  }

  method ParseChar(src: Text, pos: nat) returns (r: Result<Parsed<nat>>)
    requires pos <= |src|
    ensures r == Char(src, pos)
  {
    hide DecodeUtf8;
    if At(src, pos) == BACKSLASH {
      var c := At(src, pos + 1);
      if c == 120 {
        r := ParseHex(src, pos + 2, 2);
      } else if c == 117 {
        r := ParseHex(src, pos + 2, 4);
      } else if c == 85 {
        r := ParseHex(src, pos + 2, 8);
      } else if c == 116 {
        r := Ok(Parsed(TAB, pos + 2));
      } else if c == 114 {
        r := Ok(Parsed(CR, pos + 2));
      } else if c == 110 {
        r := Ok(Parsed(LF, pos + 2));
      } else if c == BACKSLASH || c == QUOTE || c == LBRACKET || c == RBRACKET {
        r := Ok(Parsed(c, pos + 2));
      } else {
        r := Err(UnknownEscape);
      }
    } else if At(src, pos) != 0 {
      var d := DecodeCharacter(src, pos);
      r := Ok(d);
    } else {
      r := Err(UnexpectedEnd);
    }
  }

  // ---------------------------------------------------------------- what the characters mean

  function Pow16(n: nat): nat { if n == 0 then 1 else 16 * Pow16(n - 1) }

  /** One more digit keeps the bound. */
  lemma DigitBound(it: nat, value: nat, d: nat, pow: nat)
    requires d < 16 && it < (value * 16 + d + 1) * pow
    ensures it < (value + 1) * (16 * pow)
  {
    MulMono(value * 16 + d + 1, (value + 1) * 16, pow);
    assert (value + 1) * 16 * pow == (value + 1) * (16 * pow);
  }

  lemma DigitSmall(s: Text, p: nat)
    requires p <= |s| && HexDigit(At(s, p)).Some?
    ensures HexDigit(At(s, p)).value < 16
  {}

  lemma {:induction false} HexBound(s: Text, p: nat, size: nat, value: nat)
    requires p <= |s| && Hex(s, p, size, value).Ok?
    ensures Hex(s, p, size, value).value.it < (value + 1) * Pow16(size)
    decreases |s| - p
  {
    if size > 0 {
      hide HexDigit;
      var d := HexDigit(At(s, p)).value;
      DigitSmall(s, p);
      HexBound(s, p + 1, size - 1, value * 16 + d);
      DigitBound(Hex(s, p, size, value).value.it, value, d, Pow16(size - 1));
    }
  }

  lemma Utf8Bound(s: Text, p: nat)
    requires p < |s|
    ensures DecodeUtf8(s, p).it < 0x40_0000
  {
    Utf8RestBound(s, p + 1, Utf8Length(s[p]) - 1, Utf8First(s[p]));
  }

  lemma {:induction false} Utf8RestBound(s: Text, p: nat, more: nat, value: nat)
    requires p <= |s| && more <= 3 && value < [0x40_0000, 65536, 1024, 16][more]
    ensures Utf8Rest(s, p, more, value).it < 0x40_0000
    decreases more
  {
    if more > 0 && At(s, p) != 0 { Utf8RestBound(s, p + 1, more - 1, value * 64 + At(s, p) % 64); }
  }

  /** No character is truncated: every value fits the 32-bit element that holds it. */
  lemma CharFitsElement(s: Text, p: nat)
    requires p <= |s| && Char(s, p).Ok?
    ensures Char(s, p).value.it < 0x1_0000_0000
  {
    hide Hex, DecodeUtf8;
    if At(s, p) == BACKSLASH {
      var c := At(s, p + 1);
      if c == 120 { HexBound(s, p + 2, 2, 0); assert Pow16(2) == 256; }
      if c == 117 { HexBound(s, p + 2, 4, 0); assert Pow16(4) == 65536; }
      if c == 85 { HexBound(s, p + 2, 8, 0); assert Pow16(8) == 0x1_0000_0000; }
    } else {
      Utf8Bound(s, p);
    }
  }

  /** The UTF-8 encoding of a code point (RFC 3629, section 3). */
  function Utf8(c: nat): (s: Text)
    requires c < 0x11_0000
  {
    if c < 0x80 then [c]
    else if c < 0x800 then [192 + c / 64, 128 + c % 64]
    else if c < 0x1_0000 then [224 + c / 4096, 128 + c / 64 % 64, 128 + c % 64]
    else [240 + c / 262144, 128 + c / 4096 % 64, 128 + c / 64 % 64, 128 + c % 64]
  }

  /** Decoding inverts UTF-8, whatever comes behind. */
  lemma DecodeInvertsUtf8(before: Text, c: nat, behind: Text)
    requires 0 < c < 0x11_0000
    ensures DecodeUtf8(before + Utf8(c) + behind, |before|) == Parsed(c, |before| + |Utf8(c)|)
  {
    var s := before + Utf8(c) + behind;
    var p := |before|;
    var n := |Utf8(c)|;
    assert forall i :: 0 <= i < n ==> s[p + i] == Utf8(c)[i];
    if n == 2 { Two(s, p, c); }
    if n == 3 { Three(s, p, c); }
    if n == 4 { Four(s, p, c); }
  }

  lemma RestStep(s: Text, p: nat, more: nat, value: nat, b: nat)
    requires p < |s| && b < 64 && s[p] == 128 + b
    ensures Utf8Rest(s, p, more + 1, value) == Utf8Rest(s, p + 1, more, value * 64 + b)
  {}

  lemma RestDone(s: Text, p: nat, value: nat)
    requires p <= |s|
    ensures Utf8Rest(s, p, 0, value) == Parsed(value, p)
  {}

  lemma Sextets(c: nat)
    ensures c / 64 * 64 + c % 64 == c
    ensures c / 4096 * 64 + c / 64 % 64 == c / 64
    ensures c / 262144 * 64 + c / 4096 % 64 == c / 4096
  {}

  lemma Two(s: Text, p: nat, c: nat)
    requires 0x80 <= c < 0x800 && p + 2 <= |s| && s[p] == 192 + c / 64 && s[p + 1] == 128 + c % 64
    ensures DecodeUtf8(s, p) == Parsed(c, p + 2)
  {
    hide Utf8Rest;
    Sextets(c);
    RestStep(s, p + 1, 0, c / 64, c % 64);
    RestDone(s, p + 2, c);
  }

  lemma Three(s: Text, p: nat, c: nat)
    requires 0x800 <= c < 0x1_0000 && p + 3 <= |s|
    requires s[p] == 224 + c / 4096 && s[p + 1] == 128 + c / 64 % 64 && s[p + 2] == 128 + c % 64
    ensures DecodeUtf8(s, p) == Parsed(c, p + 3)
  {
    hide Utf8Rest;
    Sextets(c);
    RestStep(s, p + 1, 1, c / 4096, c / 64 % 64);
    RestStep(s, p + 2, 0, c / 64, c % 64);
    RestDone(s, p + 3, c);
  }

  lemma Four(s: Text, p: nat, c: nat)
    requires 0x1_0000 <= c < 0x11_0000 && p + 4 <= |s| && s[p] == 240 + c / 262144
    requires s[p + 1] == 128 + c / 4096 % 64 && s[p + 2] == 128 + c / 64 % 64 && s[p + 3] == 128 + c % 64
    ensures DecodeUtf8(s, p) == Parsed(c, p + 4)
  {
    hide Utf8Rest;
    Sextets(c);
    RestStep(s, p + 1, 2, c / 262144, c / 4096 % 64);
    RestStep(s, p + 2, 1, c / 4096, c / 64 % 64);
    RestStep(s, p + 3, 0, c / 64, c % 64);
    RestDone(s, p + 4, c);
  }
}

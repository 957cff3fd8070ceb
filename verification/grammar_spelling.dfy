/** The parser reads exactly the spellings of grammars: a text parses to a grammar if and only if it spells it. */
module GrammarSpelling {
  import opened Bits
  import opened GrammarForm
  import opened GrammarLexer
  import opened GrammarSyntax
  import opened GrammarText
  import opened Wrappers

  // ---------------------------------------------------------------- spaces

  lemma {:induction false} NoComment(s: Text, p: nat, nl: bool)
    requires p <= |s| && NulFree(s)
    ensures !InComment(s, p, SkipSpace(s, p, nl))
    decreases |s| - p
  {
    hide InComment, SkipComment, NulFree;
    if At(s, p) == HASH {
      var q := SkipComment(s, p + 1);
      CommentEnds(s, p + 1);
      NoComment(s, q, nl);
      PassedComment(s, p, q, SkipSpace(s, q, nl));
    } else if IsBlank(At(s, p), nl) {
      NoComment(s, p + 1, nl);
      NotHere(s, p, SkipSpace(s, p, nl));
    } else {
      NotEvenHere(s, p);
    }
  }

  lemma NotHere(s: Text, p: nat, i: nat)
    requires p < |s| && s[p] != HASH && !InComment(s, p + 1, i)
    ensures !InComment(s, p, i)
  {}

  lemma NotEvenHere(s: Text, p: nat)
    requires p <= |s| && At(s, p) != HASH
    ensures !InComment(s, p, p)
  {}

  lemma PassedComment(s: Text, p: nat, q: nat, i: nat)
    requires p < q <= i <= |s| && NulFree(s) && At(s, q) in [0, CR, LF] && !InComment(s, q, i)
    ensures !InComment(s, p, i)
  {}

  lemma CommentIs(s: Text, j: nat, i: nat)
    requires j <= i < |s|
    ensures Comment(s, j, i) <==> s[j] == HASH && forall k :: j <= k <= i ==> s[k] != CR && s[k] != LF
  {
    if Comment(s, j, i) {
      forall k | j <= k <= i
        ensures s[k] != CR && s[k] != LF
      {
        assert !Is(s, k, '\r') && !Is(s, k, '\n');
      }
    }
  }

  lemma PassedIs(s: Text, p: nat, i: nat, nl: bool)
    requires p <= i < |s|
    ensures Passed(s, p, i, nl) <==> IsBlank(s[i], nl) || InComment(s, p, i)
  {
    forall j: nat | j <= i
      ensures Comment(s, j, i) <==> s[j] == HASH && forall k :: j <= k <= i ==> s[k] != CR && s[k] != LF
    {
      CommentIs(s, j, i);
    }
  }

  /** Skipping spaces takes all blanks and comments, ... */
  lemma SpaceForms(s: Text, p: nat, nl: bool)
    requires p <= |s| && NulFree(s)
    ensures SpaceAt(s, p, SkipSpace(s, p, nl), nl)
  {
    hide SkipSpace, InComment, Passed, NulFree;
    var q := SkipSpace(s, p, nl);
    SpaceIsBlank(s, p, nl);
    NoComment(s, p, nl);
    forall i | p <= i < q
      ensures Passed(s, p, i, nl)
    {
      PassedIs(s, p, i, nl);
    }
    if q < |s| { PassedIs(s, p, q, nl); } else { NotBehind(s, p, nl); }
  }

  lemma NotBehind(s: Text, p: nat, nl: bool)
    ensures !Passed(s, p, |s|, nl)
  {}

  /** ... and nothing else. */
  lemma SpaceTakes(s: Text, p: nat, q: nat, nl: bool)
    requires NulFree(s) && SpaceAt(s, p, q, nl)
    ensures p <= |s| && SkipSpace(s, p, nl) == q
  {
    hide SkipSpace, Passed, NulFree;
    SpaceForms(s, p, nl);
  }

  /** Exactly the blanks and comments are skipped. */
  lemma SpaceReads(s: Text, p: nat, q: nat, nl: bool)
    requires p <= |s| && NulFree(s)
    ensures SkipSpace(s, p, nl) == q <==> SpaceAt(s, p, q, nl)
  {
    hide SkipSpace, SpaceAt, NulFree;
    SpaceForms(s, p, nl);
    if SpaceAt(s, p, q, nl) { SpaceTakes(s, p, q, nl); }
  }

  // ---------------------------------------------------------------- names

  lemma WordIs(s: Text, p: nat)
    requires p <= |s|
    ensures WordAt(s, p) <==> IsWordChar(At(s, p))
  {}

  lemma NameForms(s: Text, p: nat)
    requires p <= |s| && IsWordChar(At(s, p))
    ensures NameAt(s, p, NameEnd(s, p), s[p..NameEnd(s, p)])
  {
    hide NameEnd, IsWordChar, WordAt;
    var q := NameEnd(s, p);
    forall i: nat | i <= |s|
      ensures WordAt(s, i) <==> IsWordChar(At(s, i))
    {
      WordIs(s, i);
    }
  }

  lemma NameTakes(s: Text, p: nat, q: nat, name: Name)
    requires NameAt(s, p, q, name)
    ensures p < q <= |s| && name == s[p..q] && IsWordChar(At(s, p)) && NameEnd(s, p) == q
  {
    hide NameEnd, IsWordChar, WordAt;
    WordIs(s, p);
    NameForms(s, p);
  }

  // ---------------------------------------------------------------- characters

  lemma DigitIs(s: Text, p: nat, d: nat)
    requires p <= |s|
    ensures DigitAt(s, p, d) <==> HexDigit(At(s, p)) == Some(d)
  {}

  lemma HexStep(s: Text, p: nat, k: nat, value: nat, d: nat)
    requires p <= |s| && HexDigit(At(s, p)) == Some(d)
    ensures p < |s| && Hex(s, p, k + 1, value) == Hex(s, p + 1, k, value * 16 + d)
  {}

  lemma MoreDigits(value: nat, c: nat, pow: nat)
    ensures (value * pow + c / 16) * 16 + c % 16 == value * (16 * pow) + c
  {
    assert value * (16 * pow) == (value * pow) * 16;
  }

  lemma Powers(n: nat)
    ensures Pow16(0) == 1 && Pow16(n + 1) == 16 * Pow16(n)
  {}

  lemma NumberEnds(s: Text, p: nat, q: nat, c: nat)
    requires NumberAt(s, p, q, c)
    ensures p <= q <= |s|
    ensures if p == q then c == 0 else DigitAt(s, q - 1, c % 16) && NumberAt(s, p, q - 1, c / 16)
  {}

  /** Reading digits from the left is reading them from the right. */
  lemma {:induction false} NumberTakes(s: Text, p: nat, q: nat, c: nat, value: nat, k: nat)
    requires NumberAt(s, p, q, c)
    ensures p <= q <= |s| && Hex(s, p, q - p + k, value) == Hex(s, q, k, value * Pow16(q - p) + c)
    decreases q
  {
    hide Pow16, Hex, NumberAt, DigitAt, HexDigit;
    NumberEnds(s, p, q, c);
    if p < q {
      NumberTakes(s, p, q - 1, c / 16, value, k + 1);
      DigitIs(s, q - 1, c % 16);
      HexStep(s, q - 1, k, value * Pow16(q - 1 - p) + c / 16, c % 16);
      MoreDigits(value, c, Pow16(q - 1 - p));
      Powers(q - 1 - p);
    } else {
      Powers(0);
    }
  }

  lemma {:induction false} AllDigits(s: Text, p: nat, n: nat, value: nat)
    requires p <= |s| && Hex(s, p, n, value).Ok?
    ensures p + n <= |s| && forall i :: p <= i < p + n ==> HexDigit(At(s, i)).Some?
    decreases n
  {
    hide HexDigit;
    if n > 0 { AllDigits(s, p + 1, n - 1, value * 16 + HexDigit(At(s, p)).value); }
  }

  /** What is read as a number is one. */
  lemma {:induction false} NumberForms(s: Text, p: nat, n: nat) returns (c: nat)
    requires p + n <= |s| && forall i :: p <= i < p + n ==> HexDigit(At(s, i)).Some?
    ensures NumberAt(s, p, p + n, c)
    decreases n
  {
    hide HexDigit, DigitAt, At;
    if n == 0 {
      c := 0;
    } else {
      var high := NumberForms(s, p, n - 1);
      var d := HexDigit(At(s, p + n - 1)).value;
      DigitIs(s, p + n - 1, d);
      DigitSmall(s, p + n - 1);
      c := high * 16 + d;
      assert c / 16 == high && c % 16 == d;
    }
  }

  lemma NoMoreDigits(s: Text, p: nat, value: nat)
    requires p <= |s|
    ensures Hex(s, p, 0, value) == Ok(Parsed(value, p))
  {}

  lemma HexTakes(s: Text, p: nat, q: nat, c: nat)
    requires NumberAt(s, p, q, c)
    ensures p <= q <= |s| && Hex(s, p, q - p, 0) == Ok(Parsed(c, q))
  {
    hide Hex, NumberAt, Pow16;
    NumberTakes(s, p, q, c, 0, 0);
    NoMoreDigits(s, q, c);
  }

  /** A number is read exactly where it is written, in digits of either case. */
  lemma HexForms(s: Text, p: nat, n: nat)
    requires p <= |s| && Hex(s, p, n, 0).Ok?
    ensures NumberAt(s, p, p + n, Hex(s, p, n, 0).value.it)
  {
    hide Hex, NumberAt, HexDigit, At;
    AllDigits(s, p, n, 0);
    var c := NumberForms(s, p, n);
    HexTakes(s, p, p + n, c);
  }

  /** Exactly the numbers are read, in digits of either case. */
  lemma HexReads(s: Text, p: nat, q: nat, c: nat)
    requires p <= q && p <= |s|
    ensures Hex(s, p, q - p, 0) == Ok(Parsed(c, q)) <==> NumberAt(s, p, q, c)
  {
    hide Hex, NumberAt;
    if NumberAt(s, p, q, c) { HexTakes(s, p, q, c); }
    if Hex(s, p, q - p, 0).Ok? { HexForms(s, p, q - p); }
  }

  lemma EscapeIs(s: Text, p: nat)
    requires p <= |s|
    ensures var c := At(s, p);
            if c == 116 then EscapeAt(s, p, TAB) else if c == 114 then EscapeAt(s, p, CR) else if c == 110 then EscapeAt(s, p, LF)
            else c in [BACKSLASH, QUOTE, LBRACKET, RBRACKET] ==> EscapeAt(s, p, c)
  {
    assert ESCAPED[0] == 't' && ESCAPED[1] == 'r' && ESCAPED[2] == 'n' && ESCAPED[3] == '\\' && ESCAPED[4] == '"';
    assert ESCAPED[5] == '[' && ESCAPED[6] == ']';
  }

  lemma EscapeTakes(s: Text, p: nat, c: nat)
    requires EscapeAt(s, p, c)
    ensures p < |s|
    ensures (s[p] == 116 && c == TAB) || (s[p] == 114 && c == CR) || (s[p] == 110 && c == LF) ||
            (s[p] in [BACKSLASH, QUOTE, LBRACKET, RBRACKET] && c == s[p])
  {
    var k :| 0 <= k < 7 && Is(s, p, ESCAPED[k]) && c == MEANT[k] as int;
  }

  lemma FirstIs(b: byte)
    ensures LENGTHS[b / 16] == Utf8Length(b) && 1 <= Utf8Length(b) <= 4 && b % FIRSTS[Utf8Length(b) - 1] == Utf8First(b)
  {}

  lemma RestAt(s: Text, p: nat, more: nat, value: nat)
    requires p <= |s| && NulFree(s)
    ensures Utf8Rest(s, p, more, value) ==
            if more == 0 || p == |s| then Parsed(value, p) else Utf8Rest(s, p + 1, more - 1, value * 64 + s[p] % 64)
  {}

  lemma PlainIs(s: Text, p: nat)
    requires p < |s| && NulFree(s)
    ensures forall q: nat, c: nat :: PlainAt(s, p, q, c) <==> DecodeUtf8(s, p) == Parsed(c, q)
  {
    hide Utf8Rest, Utf8Length, Utf8First, NulFree, LENGTHS, FIRSTS;
    FirstIs(s[p]);
    var n := Utf8Length(s[p]);
    var v: nat := Utf8First(s[p]);
    RestAt(s, p + 1, n - 1, v);
    if n > 1 && p + 1 < |s| {
      v := v * 64 + s[p + 1] % 64;
      RestAt(s, p + 2, n - 2, v);
      if n > 2 && p + 2 < |s| {
        v := v * 64 + s[p + 2] % 64;
        RestAt(s, p + 3, n - 3, v);
        if n > 3 && p + 3 < |s| { RestAt(s, p + 4, 0, v * 64 + s[p + 3] % 64); }
      }
    }
  }

  lemma EscapeReads(s: Text, p: nat, q: nat, c: nat)
    requires Is(s, p, '\\') && CharAt(s, p, q, c)
    ensures p < q <= |s| && Char(s, p) == Ok(Parsed(c, q))
  {
    hide Hex, NumberAt, EscapeAt;
    if EscapeAt(s, p + 1, c) && q == p + 2 {
      EscapeTakes(s, p + 1, c);
    } else {
      HexTakes(s, p + 2, q, c);
    }
  }

  /** A character is read wherever one is written, in each of its forms, ... */
  lemma CharTakes(s: Text, p: nat, q: nat, c: nat)
    requires NulFree(s) && CharAt(s, p, q, c)
    ensures p < q <= |s| && Char(s, p) == Ok(Parsed(c, q))
  {
    hide Hex, NumberAt, EscapeAt, PlainAt, DecodeUtf8;
    if Is(s, p, '\\') {
      EscapeReads(s, p, q, c);
    } else {
      PlainInside(s, p, q, c);
      PlainIs(s, p);
    }
  }

  lemma PlainInside(s: Text, p: nat, q: nat, c: nat)
    requires PlainAt(s, p, q, c)
    ensures p < q <= |s|
  {}

  lemma EscapeForms(s: Text, p: nat)
    requires p <= |s| && At(s, p) == BACKSLASH && Char(s, p).Ok?
    ensures CharAt(s, p, Char(s, p).value.next, Char(s, p).value.it)
  {
    hide Hex, NumberAt, EscapeAt, PlainAt;
    var c := At(s, p + 1);
    EscapeIs(s, p + 1);
    if c == 120 {
      HexForms(s, p + 2, 2);
    } else if c == 117 {
      HexForms(s, p + 2, 4);
    } else if c == 85 {
      HexForms(s, p + 2, 8);
    }
  }

  /** ... and nowhere else. */
  lemma CharForms(s: Text, p: nat)
    requires p <= |s| && NulFree(s) && Char(s, p).Ok?
    ensures CharAt(s, p, Char(s, p).value.next, Char(s, p).value.it)
  {
    hide Hex, NumberAt, EscapeAt, PlainAt, DecodeUtf8;
    if At(s, p) == BACKSLASH {
      EscapeForms(s, p);
    } else {
      PlainIs(s, p);
    }
  }

  /** Exactly the written characters are read. */
  lemma CharReads(s: Text, p: nat, q: nat, c: nat)
    requires p <= |s| && NulFree(s)
    ensures Char(s, p) == Ok(Parsed(c, q)) <==> CharAt(s, p, q, c)
  {
    hide NulFree, Char, CharAt;
    if CharAt(s, p, q, c) { CharTakes(s, p, q, c); }
    if Char(s, p).Ok? { CharForms(s, p); }
  }

  // ---------------------------------------------------------------- literals and classes

  lemma {:induction false} CharsTake(s: Text, p: nat, q: nat, chars: seq<nat>, acc: seq<nat>)
    requires NulFree(s) && CharsAt(s, p, q, chars) && Is(s, q, '"')
    ensures p <= q && Literal(s, p, acc) == Ok(Parsed(acc + chars, q))
    decreases |chars|
  {
    hide NulFree, Char, CharAt;
    if chars == [] {
      assert acc + chars == acc;
    } else {
      var m: nat :| CharAt(s, p, m, chars[0]) && CharsAt(s, m, q, chars[1..]);
      CharTakes(s, p, m, chars[0]);
      CharsTake(s, m, q, chars[1..], acc + [chars[0]]);
      assert acc + [chars[0]] + chars[1..] == acc + chars;
    }
  }

  lemma {:induction false} CharsForm(s: Text, p: nat, acc: seq<nat>) returns (chars: seq<nat>)
    requires p <= |s| && NulFree(s) && Literal(s, p, acc).Ok?
    ensures var x := Literal(s, p, acc).value; x.it == acc + chars && CharsAt(s, p, x.next, chars) && Is(s, x.next, '"')
    decreases |s| - p
  {
    hide NulFree, Char, CharAt;
    if At(s, p) == QUOTE {
      chars := [];
      assert acc + chars == acc;
    } else {
      CharForms(s, p);
      var c := Char(s, p).value;
      var rest := CharsForm(s, c.next, acc + [c.it]);
      chars := [c.it] + rest;
      assert chars[1..] == rest;
      assert acc + [c.it] + rest == acc + chars;
    }
  }

  lemma DashIs(s: Text, p: nat)
    requires p <= |s|
    ensures DashAt(s, p) <==> At(s, p) == DASH && At(s, p + 1) != RBRACKET
  {}

  lemma RangeTakes(s: Text, p: nat, q: nat, r: Range)
    requires NulFree(s) && RangeAt(s, p, q, r)
    ensures p < q <= |s| && OneRange(s, p) == Ok(Parsed(r, q))
  {
    hide NulFree, Char, CharAt, DashAt;
    match r.hi
    case None =>
      CharTakes(s, p, q, r.lo);
      DashIs(s, q);
    case Some(hi) =>
      var m: nat :| CharAt(s, p, m, r.lo) && DashAt(s, m) && CharAt(s, m + 1, q, hi);
      CharTakes(s, p, m, r.lo);
      DashIs(s, m);
      CharTakes(s, m + 1, q, hi);
  }

  lemma RangeForms(s: Text, p: nat)
    requires p <= |s| && NulFree(s) && OneRange(s, p).Ok?
    ensures RangeAt(s, p, OneRange(s, p).value.next, OneRange(s, p).value.it)
  {
    hide NulFree, Char, CharAt, DashAt;
    CharForms(s, p);
    var m := Char(s, p).value.next;
    DashIs(s, m);
    if DashAt(s, m) { CharForms(s, m + 1); }
  }

  lemma {:induction false} RangesTake(s: Text, p: nat, q: nat, ranges: seq<Range>, acc: seq<Range>)
    requires NulFree(s) && RangesAt(s, p, q, ranges) && Is(s, q, ']')
    ensures p <= q && Ranges(s, p, acc) == Ok(Parsed(acc + ranges, q))
    decreases |ranges|
  {
    hide NulFree, OneRange, RangeAt;
    if ranges == [] {
      assert acc + ranges == acc;
    } else {
      var m: nat :| RangeAt(s, p, m, ranges[0]) && RangesAt(s, m, q, ranges[1..]);
      RangeTakes(s, p, m, ranges[0]);
      RangesTake(s, m, q, ranges[1..], acc + [ranges[0]]);
      assert acc + [ranges[0]] + ranges[1..] == acc + ranges;
    }
  }

  lemma {:induction false} RangesForm(s: Text, p: nat, acc: seq<Range>) returns (ranges: seq<Range>)
    requires p <= |s| && NulFree(s) && Ranges(s, p, acc).Ok?
    ensures var x := Ranges(s, p, acc).value; x.it == acc + ranges && RangesAt(s, p, x.next, ranges) && Is(s, x.next, ']')
    decreases |s| - p
  {
    hide NulFree, OneRange, RangeAt;
    if At(s, p) == RBRACKET {
      ranges := [];
      assert acc + ranges == acc;
    } else {
      RangeForms(s, p);
      var x := OneRange(s, p).value;
      var rest := RangesForm(s, x.next, acc + [x.it]);
      ranges := [x.it] + rest;
      assert ranges[1..] == rest;
      assert acc + [x.it] + rest == acc + ranges;
    }
  }

  // ---------------------------------------------------------------- what is spelled is read

  lemma ItemTaken(s: Text, p: nat, nested: bool, body: Body)
    requires p <= |s| && StartsItem(At(s, p)) && ParseItem(s, p, nested).Ok?
    ensures var x := ParseItem(s, p, nested).value;
            ParseBody(s, p, nested, body) == ParseBody(s, x.next, nested, Snoc(body, x.it))
  {}

  lemma ItemRepeated(s: Text, p: nat, nested: bool, body: Body)
    requires p <= |s| && !StartsItem(At(s, p)) && IsOp(At(s, p)) && body.Snoc? && !Invisible(body.last)
    ensures ParseBody(s, p, nested, body) ==
            ParseBody(s, SkipSpace(s, p + 1, nested), nested, Snoc(body.init, Rep(OpOf(At(s, p)), body.last)))
  {}

  /** What can stand behind a sequence. */
  predicate Stops(c: byte) {
    !StartsItem(c) && !IsOp(c)
  }

  lemma BodyStops(s: Text, p: nat, nested: bool, body: Body)
    requires p <= |s| && Stops(At(s, p))
    ensures ParseBody(s, p, nested, body) == Ok(Parsed(body, p))
  {}

  lemma MoreStops(s: Text, p: nat, nested: bool, alts: Alts)
    requires p <= |s| && At(s, p) != BAR
    ensures ParseMore(s, p, nested, alts) == Ok(Parsed(alts, p))
  {}

  lemma SignIs(s: Text, p: nat, op: Op)
    requires Is(s, p, Sign(op))
    ensures p < |s| && !StartsItem(At(s, p)) && IsOp(At(s, p)) && OpOf(At(s, p)) == op
  {}

  lemma SpaceEnds(s: Text, p: nat, q: nat, nl: bool)
    requires SpaceAt(s, p, q, nl)
    ensures p <= q <= |s|
  {}

  lemma LitTakes(s: Text, p: nat, q: nat, nested: bool, chars: seq<nat>)
    requires NulFree(s) && LitAt(s, p, q, nested, chars)
    ensures p < q <= |s| && StartsItem(At(s, p)) && ParseItem(s, p, nested) == Ok(Parsed(Lit(chars), q))
  {
    hide NulFree, CharsAt, SpaceAt, SkipSpace, Literal;
    var m: nat :| CharsAt(s, p + 1, m, chars) && Is(s, m, '"') && SpaceAt(s, m + 1, q, nested);
    CharsTake(s, p + 1, m, chars, []);
    SpaceTakes(s, m + 1, q, nested);
    assert [] + chars == chars;
  }

  lemma ClassTakes(s: Text, p: nat, q: nat, nested: bool, negated: bool, ranges: seq<Range>)
    requires NulFree(s) && ClassAt(s, p, q, nested, negated, ranges)
    ensures p < q <= |s| && StartsItem(At(s, p)) && ParseItem(s, p, nested) == Ok(Parsed(Class(negated, ranges), q))
  {
    hide NulFree, RangesAt, SpaceAt, SkipSpace, Ranges;
    var from := if negated then p + 2 else p + 1;
    var m: nat :| RangesAt(s, from, m, ranges) && Is(s, m, ']') && SpaceAt(s, m + 1, q, nested);
    RangesTake(s, from, m, ranges, []);
    SpaceTakes(s, m + 1, q, nested);
    SpaceEnds(s, m + 1, q, nested);
    assert [] + ranges == ranges;
  }

  lemma RefTakes(s: Text, p: nat, q: nat, nested: bool, name: Name)
    requires NulFree(s) && RefAt(s, p, q, nested, name)
    ensures p < q <= |s| && StartsItem(At(s, p)) && ParseItem(s, p, nested) == Ok(Parsed(Ref(name), q))
  {
    hide NulFree, NameAt, SpaceAt, SkipSpace, NameEnd;
    var m: nat :| NameAt(s, p, m, name) && SpaceAt(s, m, q, nested);
    NameTakes(s, p, m, name);
    SpaceTakes(s, m, q, nested);
    SpaceEnds(s, m, q, nested);
  }

  lemma GroupTakes(s: Text, p: nat, m: nat, n: nat, q: nat, nested: bool, alts: Alts)
    requires NulFree(s) && Is(s, p, '(') && SpaceAt(s, p + 1, m, true) && Is(s, n, ')') && SpaceAt(s, n + 1, q, nested)
    requires m <= n && ParseAlts(s, m, true) == Ok(Parsed(alts, n))
    ensures p < q <= |s| && StartsItem(At(s, p)) && ParseItem(s, p, nested) == Ok(Parsed(Group(alts), q))
  {
    hide NulFree, SpaceAt, SkipSpace, ParseAlts;
    SpaceTakes(s, p + 1, m, true);
    SpaceTakes(s, n + 1, q, nested);
    SpaceEnds(s, p + 1, m, true);
    SpaceEnds(s, n + 1, q, nested);
  }

  lemma ParenStops(s: Text, p: nat)
    requires Is(s, p, ')')
    ensures p < |s| && Stops(At(s, p)) && At(s, p) != BAR
  {}

  lemma BarStops(s: Text, p: nat)
    requires Is(s, p, '|')
    ensures p < |s| && Stops(At(s, p)) && At(s, p) == BAR
  {}

  lemma {:induction false} PlainTakes(s: Text, p: nat, q: nat, nested: bool, item: Item)
    requires NulFree(s) && !item.Rep? && ItemAt(s, p, q, nested, item)
    ensures p < q <= |s| && StartsItem(At(s, p)) && ParseItem(s, p, nested) == Ok(Parsed(item, q))
    decreases item, 0
  {
    hide NulFree, LitAt, ClassAt, RefAt, SpaceAt, AltsAt, Is, ParseItem, StartsItem, ParseMore, ParseAlts, Stops;
    match item
    case Lit(chars) => LitTakes(s, p, q, nested, chars);
    case Class(negated, ranges) => ClassTakes(s, p, q, nested, negated, ranges);
    case Ref(name) => RefTakes(s, p, q, nested, name);
    case Group(alts) =>
      var m: nat, n: nat :|
        SpaceAt(s, p + 1, m, true) && AltsAt(s, m, n, true, alts) && Is(s, n, ')') && SpaceAt(s, n + 1, q, nested);
      SpaceEnds(s, p + 1, m, true);
      ParenStops(s, n);
      AltsTake(s, m, n, true, alts);
      MoreStops(s, n, true, alts);
      GroupTakes(s, p, m, n, q, nested, alts);
  }

  /** A spelled item is read, whatever was read before. */
  lemma {:induction false} ItemTakes(s: Text, p: nat, q: nat, nested: bool, item: Item, body: Body)
    requires NulFree(s) && ItemAt(s, p, q, nested, item)
    ensures p < q <= |s| && ParseBody(s, p, nested, body) == ParseBody(s, q, nested, Snoc(body, item))
    decreases item, 1
  {
    hide NulFree, LitAt, ClassAt, RefAt, SpaceAt, AltsAt, Is, Sign, ParseItem, StartsItem, ParseBody, SkipSpace, IsOp, OpOf;
    if item.Rep? {
      var m: nat :| ItemAt(s, p, m, nested, item.item) && Is(s, m, Sign(item.op)) && SpaceAt(s, m + 1, q, nested);
      ItemTakes(s, p, m, nested, item.item, body);
      SignIs(s, m, item.op);
      SpaceTakes(s, m + 1, q, nested);
      SpaceEnds(s, m + 1, q, nested);
      ItemRepeated(s, m, nested, Snoc(body, item.item));
    } else {
      PlainTakes(s, p, q, nested, item);
      ItemTaken(s, p, nested, body);
    }
  }

  lemma {:induction false} BodyTakes(s: Text, p: nat, q: nat, nested: bool, body: Body)
    requires NulFree(s) && p <= |s| && BodyAt(s, p, q, nested, body)
    ensures p <= q <= |s| && ParseBody(s, p, nested, Empty) == ParseBody(s, q, nested, body)
    decreases body
  {
    hide NulFree, ItemAt, ParseBody;
    if body.Snoc? {
      var m: nat :| BodyAt(s, p, m, nested, body.init) && ItemAt(s, m, q, nested, body.last);
      BodyTakes(s, p, m, nested, body.init);
      ItemTakes(s, m, q, nested, body.last, body.init);
    }
  }

  lemma MoreTaken(s: Text, p: nat, n: nat, q: nat, nested: bool, before: Alts, other: Body)
    requires p < |s| && At(s, p) == BAR && SkipSpace(s, p + 1, true) == n
    requires n <= q <= |s| && ParseBody(s, n, nested, Empty) == Ok(Parsed(other, q))
    ensures ParseMore(s, p, nested, before) == ParseMore(s, q, nested, Or(before, other))
  {
    hide ParseBody, SkipSpace;
  }

  lemma FirstTaken(s: Text, p: nat, q: nat, nested: bool, body: Body)
    requires p <= q <= |s| && ParseBody(s, p, nested, Empty) == Ok(Parsed(body, q))
    ensures ParseAlts(s, p, nested) == ParseMore(s, q, nested, One(body))
  {
    hide ParseBody, ParseMore;
  }

  lemma {:induction false} AltsTake(s: Text, p: nat, q: nat, nested: bool, alts: Alts)
    requires NulFree(s) && p <= |s| && AltsAt(s, p, q, nested, alts) && (q <= |s| ==> Stops(At(s, q)))
    ensures p <= q <= |s| && ParseAlts(s, p, nested) == ParseMore(s, q, nested, alts)
    decreases alts
  {
    hide NulFree, BodyAt, Is, SpaceAt, SkipSpace, Stops, ParseAlts, ParseMore, ParseBody;
    match alts
    case One(body) =>
      BodyTakes(s, p, q, nested, body);
      BodyStops(s, q, nested, body);
      FirstTaken(s, p, q, nested, body);
    case Or(before, other) =>
      var m: nat, n: nat :|
        AltsAt(s, p, m, nested, before) && Is(s, m, '|') && SpaceAt(s, m + 1, n, true) && BodyAt(s, n, q, nested, other);
      BarStops(s, m);
      AltsTake(s, p, m, nested, before);
      SpaceTakes(s, m + 1, n, true);
      SpaceEnds(s, m + 1, n, true);
      BodyTakes(s, n, q, nested, other);
      BodyStops(s, q, nested, other);
      MoreTaken(s, m, n, q, nested, before, other);
  }

  lemma LineEndTakes(s: Text, p: nat, q: nat)
    requires p <= |s| && LineEndAt(s, p, q)
    ensures Stops(At(s, p)) && At(s, p) != BAR && p <= q <= |s| && LineEnd(s, p) == Ok(q)
  {}

  lemma HeadTakes(s: Text, p: nat, q: nat, name: Name)
    requires NulFree(s) && HeadAt(s, p, q, name)
    ensures p < |s| && p < NameEnd(s, p) && s[p..NameEnd(s, p)] == name && p < q <= |s|
    ensures var d := SkipSpace(s, NameEnd(s, p), false);
            At(s, d) == COLON && At(s, d + 1) == COLON && At(s, d + 2) == EQUALS && d + 3 <= |s| && SkipSpace(s, d + 3, true) == q
  {
    hide NulFree, NameAt, SpaceAt, SkipSpace, NameEnd;
    var e: nat, d: nat :|
      NameAt(s, p, e, name) && SpaceAt(s, e, d, false) && DefineAt(s, d) && SpaceAt(s, d + 3, q, true);
    NameTakes(s, p, e, name);
    SpaceTakes(s, e, d, false);
    SpaceTakes(s, d + 3, q, true);
    SpaceEnds(s, e, d, false);
    SpaceEnds(s, d + 3, q, true);
  }

  lemma TailTakes(s: Text, x: nat, q: nat)
    requires x <= |s| && NulFree(s) && TailAt(s, x, q)
    ensures Stops(At(s, x)) && At(s, x) != BAR && x <= q <= |s|
    ensures LineEnd(s, x).Ok? && SkipSpace(s, LineEnd(s, x).value, true) == q
  {
    hide NulFree, SpaceAt, SkipSpace, LineEndAt, LineEnd, Stops;
    var y: nat :| LineEndAt(s, x, y) && SpaceAt(s, y, q, true);
    LineEndTakes(s, x, y);
    SpaceTakes(s, y, q, true);
    SpaceEnds(s, y, q, true);
  }

  /** The steps of `parse_rule` that succeed. */
  lemma RuleTaken(s: Text, p: nat, a: nat, x: nat, q: nat, def: Definition)
    requires p < |s| && p < NameEnd(s, p) && s[p..NameEnd(s, p)] == def.name && a <= x <= |s|
    requires var d := SkipSpace(s, NameEnd(s, p), false);
             At(s, d) == COLON && At(s, d + 1) == COLON && At(s, d + 2) == EQUALS && d + 3 <= |s| && SkipSpace(s, d + 3, true) == a
    requires ParseAlts(s, a, false) == Ok(Parsed(def.alts, x))
    requires LineEnd(s, x).Ok? && SkipSpace(s, LineEnd(s, x).value, true) == q
    ensures ParseRule(s, p) == Ok(Parsed(def, q))
  {
    hide ParseAlts, SkipSpace, NameEnd, LineEnd;
  }

  lemma RuleTakes(s: Text, p: nat, q: nat, def: Definition)
    requires NulFree(s) && RuleAt(s, p, q, def)
    ensures p < q <= |s| && ParseRule(s, p) == Ok(Parsed(def, q))
  {
    hide NulFree, HeadAt, AltsAt, TailAt, ParseAlts, ParseMore, ParseRule, SkipSpace, NameEnd, LineEnd, Stops;
    var a: nat, x: nat :| HeadAt(s, p, a, def.name) && AltsAt(s, a, x, false, def.alts) && TailAt(s, x, q);
    HeadTakes(s, p, a, def.name);
    TailInside(s, x, q);
    TailTakes(s, x, q);
    AltsTake(s, a, x, false, def.alts);
    MoreStops(s, x, false, def.alts);
    RuleTaken(s, p, a, x, q, def);
  }

  lemma TailInside(s: Text, x: nat, q: nat)
    requires TailAt(s, x, q)
    ensures x <= |s|
  {
    hide SpaceAt;
  }

  lemma {:induction false} RulesTake(s: Text, p: nat, defs: seq<Definition>, acc: seq<Definition>)
    requires NulFree(s) && RulesAt(s, p, defs)
    ensures p <= |s| && ParseRules(s, p, acc) == Ok(Parsed(acc + defs, |s|))
    decreases |defs|
  {
    hide RuleAt, ParseRule;
    if defs == [] {
      assert acc + defs == acc;
    } else {
      var m: nat :| RuleAt(s, p, m, defs[0]) && RulesAt(s, m, defs[1..]);
      RuleTakes(s, p, m, defs[0]);
      RulesTake(s, m, defs[1..], acc + [defs[0]]);
      assert acc + [defs[0]] + defs[1..] == acc + defs;
    }
  }

  // ---------------------------------------------------------------- what is read is spelled

  lemma LitForms(s: Text, p: nat, nested: bool)
    requires p <= |s| && NulFree(s) && At(s, p) == QUOTE && Literal(s, p + 1, []).Ok?
    ensures var x := Literal(s, p + 1, []).value; LitAt(s, p, SkipSpace(s, x.next + 1, nested), nested, x.it)
  {
    hide NulFree, CharsAt, SpaceAt, SkipSpace, Literal;
    var chars := CharsForm(s, p + 1, []);
    assert [] + chars == chars;
    SpaceForms(s, Literal(s, p + 1, []).value.next + 1, nested);
  }

  lemma ClassForms(s: Text, p: nat, nested: bool)
    requires p <= |s| && NulFree(s) && At(s, p) == LBRACKET
    requires Ranges(s, if At(s, p + 1) == CARET then p + 2 else p + 1, []).Ok?
    ensures var x := Ranges(s, if At(s, p + 1) == CARET then p + 2 else p + 1, []).value;
            ClassAt(s, p, SkipSpace(s, x.next + 1, nested), nested, At(s, p + 1) == CARET, x.it)
  {
    hide NulFree, RangesAt, SpaceAt, SkipSpace, Ranges;
    var from := if At(s, p + 1) == CARET then p + 2 else p + 1;
    var ranges := RangesForm(s, from, []);
    assert [] + ranges == ranges;
    SpaceForms(s, Ranges(s, from, []).value.next + 1, nested);
  }

  lemma RefForms(s: Text, p: nat, nested: bool)
    requires p <= |s| && NulFree(s) && IsWordChar(At(s, p))
    ensures var m := NameEnd(s, p); RefAt(s, p, SkipSpace(s, m, nested), nested, s[p..m])
  {
    hide NulFree, NameAt, SpaceAt, SkipSpace, NameEnd, IsWordChar;
    NameForms(s, p);
    SpaceForms(s, NameEnd(s, p), nested);
  }

  lemma GroupForms(s: Text, p: nat, m: nat, n: nat, q: nat, nested: bool, alts: Alts)
    requires p < |s| && s[p] == LPAREN && SpaceAt(s, p + 1, m, true) && AltsAt(s, m, n, true, alts)
    requires n < |s| && s[n] == RPAREN && SpaceAt(s, n + 1, q, nested)
    ensures ItemAt(s, p, q, nested, Group(alts))
  {
    hide SpaceAt, AltsAt;
  }

  lemma {:induction false} ItemForms(s: Text, p: nat, nested: bool)
    requires p <= |s| && NulFree(s) && StartsItem(At(s, p)) && ParseItem(s, p, nested).Ok?
    ensures ItemAt(s, p, ParseItem(s, p, nested).value.next, nested, ParseItem(s, p, nested).value.it)
    decreases |s| - p, 0
  {
    hide NulFree, LitAt, ClassAt, RefAt, SpaceAt, AltsAt, SkipSpace, Literal, Ranges, NameEnd, ParseAlts;
    if At(s, p) == QUOTE {
      LitForms(s, p, nested);
    } else if At(s, p) == LBRACKET {
      ClassForms(s, p, nested);
    } else if IsWordChar(At(s, p)) {
      RefForms(s, p, nested);
    } else {
      var m := SkipSpace(s, p + 1, true);
      SpaceForms(s, p + 1, true);
      AltsForm(s, m, true);
      var x := ParseAlts(s, m, true).value;
      SpaceForms(s, x.next + 1, nested);
      GroupForms(s, p, m, x.next, SkipSpace(s, x.next + 1, nested), nested, x.it);
    }
  }

  lemma SnocForms(s: Text, from: nat, p: nat, q: nat, nested: bool, body: Body, item: Item)
    requires BodyAt(s, from, p, nested, body) && ItemAt(s, p, q, nested, item)
    ensures BodyAt(s, from, q, nested, Snoc(body, item))
  {
    hide ItemAt;
  }

  lemma OpIs(s: Text, p: nat)
    requires p <= |s| && IsOp(At(s, p))
    ensures Is(s, p, Sign(OpOf(At(s, p))))
  {}

  lemma RepForms(s: Text, from: nat, p: nat, nested: bool, body: Body)
    requires p <= |s| && NulFree(s) && IsOp(At(s, p)) && body.Snoc? && !Invisible(body.last) && BodyAt(s, from, p, nested, body)
    ensures BodyAt(s, from, SkipSpace(s, p + 1, nested), nested, Snoc(body.init, Rep(OpOf(At(s, p)), body.last)))
  {
    hide NulFree, SpaceAt, SkipSpace, IsOp, OpOf, Is, Sign;
    var m: nat :| BodyAt(s, from, m, nested, body.init) && ItemAt(s, m, p, nested, body.last);
    OpIs(s, p);
    SpaceForms(s, p + 1, nested);
    RepAt(s, m, p, SkipSpace(s, p + 1, nested), nested, OpOf(At(s, p)), body.last);
    SnocForms(s, from, m, SkipSpace(s, p + 1, nested), nested, body.init, Rep(OpOf(At(s, p)), body.last));
  }

  lemma RepAt(s: Text, p: nat, m: nat, q: nat, nested: bool, op: Op, item: Item)
    requires ItemAt(s, p, m, nested, item) && !Invisible(item) && Is(s, m, Sign(op)) && SpaceAt(s, m + 1, q, nested)
    ensures ItemAt(s, p, q, nested, Rep(op, item))
  {
    hide SpaceAt, Is, Sign;
  }

  lemma {:induction false} BodyForms(s: Text, from: nat, p: nat, nested: bool, body: Body)
    requires p <= |s| && NulFree(s) && BodyAt(s, from, p, nested, body) && ParseBody(s, p, nested, body).Ok?
    ensures var x := ParseBody(s, p, nested, body).value; BodyAt(s, from, x.next, nested, x.it)
    decreases |s| - p, 1
  {
    hide NulFree, BodyAt, ItemAt, SkipSpace, ParseItem, StartsItem, IsOp, OpOf, Invisible;
    if StartsItem(At(s, p)) {
      ItemForms(s, p, nested);
      var x := ParseItem(s, p, nested).value;
      SnocForms(s, from, p, x.next, nested, body, x.it);
      BodyForms(s, from, x.next, nested, Snoc(body, x.it));
    } else if IsOp(At(s, p)) {
      RepForms(s, from, p, nested, body);
      BodyForms(s, from, SkipSpace(s, p + 1, nested), nested, Snoc(body.init, Rep(OpOf(At(s, p)), body.last)));
    }
  }

  lemma NothingAt(s: Text, p: nat, nested: bool)
    ensures BodyAt(s, p, p, nested, Empty)
  {}

  lemma OrForms(s: Text, from: nat, p: nat, n: nat, q: nat, nested: bool, before: Alts, other: Body)
    requires AltsAt(s, from, p, nested, before) && p < |s| && s[p] == BAR && SpaceAt(s, p + 1, n, true)
    requires BodyAt(s, n, q, nested, other)
    ensures AltsAt(s, from, q, nested, Or(before, other))
  {
    hide SpaceAt, BodyAt;
  }

  lemma {:induction false} MoreForms(s: Text, from: nat, p: nat, nested: bool, alts: Alts)
    requires p <= |s| && NulFree(s) && AltsAt(s, from, p, nested, alts) && ParseMore(s, p, nested, alts).Ok?
    ensures var x := ParseMore(s, p, nested, alts).value; AltsAt(s, from, x.next, nested, x.it)
    decreases |s| - p, 2
  {
    hide NulFree, BodyAt, AltsAt, SpaceAt, SkipSpace, ParseBody;
    if At(s, p) == BAR {
      var n := SkipSpace(s, p + 1, true);
      SpaceForms(s, p + 1, true);
      NothingAt(s, n, nested);
      BodyForms(s, n, n, nested, Empty);
      var x := ParseBody(s, n, nested, Empty).value;
      OrForms(s, from, p, n, x.next, nested, alts, x.it);
      MoreForms(s, from, x.next, nested, Or(alts, x.it));
    }
  }

  lemma {:induction false} AltsForm(s: Text, p: nat, nested: bool)
    requires p <= |s| && NulFree(s) && ParseAlts(s, p, nested).Ok?
    ensures var x := ParseAlts(s, p, nested).value; AltsAt(s, p, x.next, nested, x.it)
    decreases |s| - p, 3
  {
    hide NulFree, BodyAt, ParseBody, ParseMore;
    NothingAt(s, p, nested);
    BodyForms(s, p, p, nested, Empty);
    var x := ParseBody(s, p, nested, Empty).value;
    MoreForms(s, p, x.next, nested, One(x.it));
  }

  lemma LineEndForms(s: Text, p: nat)
    requires p <= |s| && NulFree(s) && LineEnd(s, p).Ok?
    ensures LineEndAt(s, p, LineEnd(s, p).value)
  {}

  lemma DefineIs(s: Text, d: nat)
    requires d <= |s| && At(s, d) == COLON && At(s, d + 1) == COLON && At(s, d + 2) == EQUALS
    ensures d + 3 <= |s| && DefineAt(s, d)
  {}

  lemma HeadForms(s: Text, p: nat)
    requires p <= |s| && NulFree(s) && NameEnd(s, p) != p
    requires var d := SkipSpace(s, NameEnd(s, p), false);
             d + 3 <= |s| && At(s, d) == COLON && At(s, d + 1) == COLON && At(s, d + 2) == EQUALS
    ensures HeadAt(s, p, SkipSpace(s, SkipSpace(s, NameEnd(s, p), false) + 3, true), s[p..NameEnd(s, p)])
  {
    hide NulFree, NameAt, NameEnd, SpaceAt, SkipSpace, DefineAt, IsWordChar;
    var d := SkipSpace(s, NameEnd(s, p), false);
    NameForms(s, p);
    SpaceForms(s, NameEnd(s, p), false);
    DefineIs(s, d);
    SpaceForms(s, d + 3, true);
  }

  lemma RuleForms(s: Text, p: nat)
    requires p <= |s| && NulFree(s) && ParseRule(s, p).Ok?
    ensures RuleAt(s, p, ParseRule(s, p).value.next, ParseRule(s, p).value.it)
  {
    hide NulFree, NameEnd, HeadAt, AltsAt, SpaceAt, SkipSpace, ParseAlts, LineEnd, LineEndAt;
    HeadForms(s, p);
    var a := SkipSpace(s, SkipSpace(s, NameEnd(s, p), false) + 3, true);
    AltsForm(s, a, false);
    var x := ParseAlts(s, a, false).value.next;
    LineEndForms(s, x);
    SpaceForms(s, LineEnd(s, x).value, true);
    assert TailAt(s, x, ParseRule(s, p).value.next);
  }

  lemma {:induction false} RulesForm(s: Text, p: nat, acc: seq<Definition>) returns (defs: seq<Definition>)
    requires p <= |s| && NulFree(s) && ParseRules(s, p, acc).Ok?
    ensures var x := ParseRules(s, p, acc).value; x.it == acc + defs && x.next == |s| && RulesAt(s, p, defs)
    decreases |s| - p
  {
    hide ParseRule, RuleAt;
    if At(s, p) == 0 {
      defs := [];
      assert acc + defs == acc;
    } else {
      RuleForms(s, p);
      var x := ParseRule(s, p).value;
      var rest := RulesForm(s, x.next, acc + [x.it]);
      defs := [x.it] + rest;
      assert defs[1..] == rest;
      assert acc + [x.it] + rest == acc + defs;
    }
  }

  // ---------------------------------------------------------------- both

  /** The text parses to these definitions, and to its end. */
  ghost predicate Means(s: Text, defs: seq<Definition>) {
    ParseGrammar(s) == Ok(Parsed(defs, |s|))
  }

  /** A text parses to a grammar exactly if it spells it, with any blanks and comments in all places and with characters
      in any form; so it spells at most one, and is rejected if it spells none. */
  lemma ParsesIffSpells(s: Text, defs: seq<Definition>)
    requires NulFree(s)
    ensures Means(s, defs) <==> Spells(s, defs)
  {
    hide NulFree, SpaceAt, SkipSpace, RulesAt, ParseRules;
    if Spells(s, defs) {
      var p: nat :| SpaceAt(s, 0, p, true) && RulesAt(s, p, defs);
      SpaceTakes(s, 0, p, true);
      RulesTake(s, p, defs, []);
      assert [] + defs == defs;
    }
    if Means(s, defs) {
      var p := SkipSpace(s, 0, true);
      SpaceForms(s, 0, true);
      var rest := RulesForm(s, p, []);
      assert [] + rest == rest;
    }
  }

  lemma RejectedIffNoSpelling(s: Text)
    requires NulFree(s)
    ensures ParseGrammar(s).Err? <==> !exists defs :: Spells(s, defs)
  {
    hide NulFree, Spells, ParseGrammar;
    if ParseGrammar(s).Ok? {
      ParsedGrammarOk(s);
      ParsesIffSpells(s, ParseGrammar(s).value.it);
    }
    forall defs | Spells(s, defs)
      ensures ParseGrammar(s).Ok?
    {
      ParsesIffSpells(s, defs);
    }
  }
}

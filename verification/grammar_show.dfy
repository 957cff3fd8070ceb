/** A text for every grammar that can have one, and why the others have none. */
module GrammarShow {
  import opened Bits
  import opened GrammarEmit
  import opened GrammarForm
  import opened GrammarLexer
  import opened GrammarSpelling
  import opened GrammarSyntax
  import opened GrammarText
  import opened Wrappers

  // ---------------------------------------------------------------- text in place

  /** `t` stands in `s` at `p`. */
  ghost predicate Has(s: Text, p: nat, t: Text) {
    p + |t| <= |s| && s[p..p + |t|] == t
  }

  lemma HasParts(s: Text, p: nat, a: Text, b: Text)
    requires Has(s, p, a + b)
    ensures Has(s, p, a) && Has(s, p + |a|, b)
  {
    var t := s[p..p + |a + b|];
    assert s[p..p + |a|] == t[..|a|] && s[p + |a|..p + |a| + |b|] == t[|a|..];
  }

  lemma HasFits(s: Text, p: nat, t: Text)
    requires Has(s, p, t)
    ensures p + |t| <= |s|
  {}

  lemma HasFirst(s: Text, p: nat, t: Text)
    requires Has(s, p, t) && t != []
    ensures At(s, p) == t[0]
  {
    assert s[p..p + |t|][0] == t[0];
  }

  lemma HasSecond(s: Text, p: nat, t: Text)
    requires Has(s, p, t) && |t| == 2
    ensures At(s, p) == t[0] && At(s, p + 1) == t[1] && p + 2 <= |s|
  {
    assert s[p..p + 2][0] == t[0] && s[p..p + 2][1] == t[1];
  }

  lemma HasIs(s: Text, p: nat, t: Text)
    requires Has(s, p, t)
    ensures p + |t| <= |s| && s[p..p + |t|] == t
  {}

  lemma HasFive(s: Text, p: nat, t: Text)
    requires Has(s, p, t) && |t| == 5
    ensures p + 5 <= |s| && s[p] == t[0] && s[p + 1] == t[1] && s[p + 2] == t[2] && s[p + 3] == t[3] && s[p + 4] == t[4]
  {
    var u := s[p..p + 5];
    assert u[0] == t[0] && u[1] == t[1] && u[2] == t[2] && u[3] == t[3] && u[4] == t[4];
  }

  lemma HasJoin(s: Text, p: nat, a: Text, b: Text)
    requires Has(s, p, a) && Has(s, p + |a|, b)
    ensures Has(s, p, a + b)
  {
    assert s[p..p + |a + b|] == s[p..p + |a|] + s[p + |a|..p + |a| + |b|];
  }

  // ---------------------------------------------------------------- characters in UTF-8

  /** A character that is written as its UTF-8 encoding, and not a backslash, is read as itself. */
  lemma PlainReads(s: Text, p: nat, c: nat)
    requires 0 < c < 0x11_0000 && c != BACKSLASH && Has(s, p, Utf8(c))
    ensures p < |s| && At(s, p) == Utf8(c)[0] && Char(s, p) == Ok(Parsed(c, p + |Utf8(c)|))
  {
    hide DecodeUtf8, Has;
    HasFirst(s, p, Utf8(c));
    HasIs(s, p, Utf8(c));
    Surrounded(s, p, Utf8(c));
    DecodeInvertsUtf8(s[..p], c, s[p + |Utf8(c)|..]);
  }

  lemma Surrounded(s: Text, p: nat, t: Text)
    requires Has(s, p, t)
    ensures s == s[..p] + t + s[p + |t|..]
  {}

  /** The same for a character between any texts. */
  lemma Utf8Reads(before: Text, c: nat, behind: Text)
    requires 0 < c < 0x11_0000 && c != BACKSLASH
    ensures Char(before + Utf8(c) + behind, |before|) == Ok(Parsed(c, |before| + |Utf8(c)|))
  {
    hide Char;
    Between(before, Utf8(c), behind);
    PlainReads(before + Utf8(c) + behind, |before|, c);
  }

  lemma Between(before: Text, t: Text, behind: Text)
    ensures Has(before + t + behind, |before|, t)
  {}

  function Utf8All(chars: seq<nat>): Text
    requires forall i :: 0 <= i < |chars| ==> chars[i] < 0x11_0000
  {
    if chars == [] then [] else Utf8(chars[0]) + Utf8All(chars[1..])
  }

  /** Characters that can stand for themselves in a literal. */
  ghost predicate PlainChars(chars: seq<nat>) {
    forall i :: 0 <= i < |chars| ==> 0 < chars[i] < 0x11_0000 && chars[i] != BACKSLASH && chars[i] != QUOTE
  }

  lemma {:induction false} LiteralReads(s: Text, p: nat, chars: seq<nat>, acc: seq<nat>)
    requires PlainChars(chars) && Has(s, p, Utf8All(chars)) && At(s, p + |Utf8All(chars)|) == QUOTE
    ensures Literal(s, p, acc) == Ok(Parsed(acc + chars, p + |Utf8All(chars)|))
    decreases |chars|
  {
    hide Char, Has, Utf8;
    if chars == [] {
      assert acc + chars == acc;
    } else {
      HasParts(s, p, Utf8(chars[0]), Utf8All(chars[1..]));
      PlainReads(s, p, chars[0]);
      FirstIsPlain(chars[0], QUOTE);
      LiteralReads(s, p + |Utf8(chars[0])|, chars[1..], acc + [chars[0]]);
      assert acc + [chars[0]] + chars[1..] == acc + chars;
    }
  }

  lemma FirstIsPlain(c: nat, b: byte)
    requires c < 0x11_0000 && b < 128
    ensures |Utf8(c)| > 0 && (Utf8(c)[0] == b <==> c == b)
  {}

  /** A literal of characters in UTF-8 stands for exactly these characters. */
  lemma LiteralStands(chars: seq<nat>, nested: bool)
    requires PlainChars(chars)
    ensures var s := [QUOTE] + Utf8All(chars) + [QUOTE]; ParseItem(s, 0, nested) == Ok(Parsed(Lit(chars), |s|))
  {
    hide Literal, Utf8All, SkipSpace;
    var s := [QUOTE] + Utf8All(chars) + [QUOTE];
    Between([QUOTE], Utf8All(chars), [QUOTE]);
    LiteralReads(s, 1, chars, []);
    assert [] + chars == chars;
    SkipNone(s, |s|, nested);
  }

  lemma RangeReads(s: Text, p: nat, lo: nat, hi: nat)
    requires 0 < lo < 0x11_0000 && 0 < hi < 0x11_0000 && lo != BACKSLASH && hi != BACKSLASH && hi != RBRACKET
    requires Has(s, p, Utf8(lo) + [DASH] + Utf8(hi))
    ensures OneRange(s, p) == Ok(Parsed(Range(lo, Some(hi)), p + |Utf8(lo) + [DASH] + Utf8(hi)|))
  {
    hide Utf8, Char, Has;
    HasParts(s, p, Utf8(lo) + [DASH], Utf8(hi));
    HasParts(s, p, Utf8(lo), [DASH]);
    HasFirst(s, p + |Utf8(lo)|, [DASH]);
    PlainReads(s, p, lo);
    PlainReads(s, p + |Utf8(lo)| + 1, hi);
    FirstIsPlain(hi, RBRACKET);
  }

  /** The same for a range in a class, whatever comes behind. */
  lemma RangeStands(lo: nat, hi: nat, behind: Text)
    requires 0 < lo < 0x11_0000 && 0 < hi < 0x11_0000 && lo != BACKSLASH && hi != BACKSLASH && hi != RBRACKET
    ensures var t := Utf8(lo) + [DASH] + Utf8(hi); OneRange(t + behind, 0) == Ok(Parsed(Range(lo, Some(hi)), |t|))
  {
    hide Utf8, OneRange, Has;
    var t := Utf8(lo) + [DASH] + Utf8(hi);
    AtFront(t, behind);
    RangeReads(t + behind, 0, lo, hi);
  }

  lemma AtFront(t: Text, behind: Text)
    ensures Has(t + behind, 0, t)
  {}

  const TWO_LINES: Alts := Or(One(Snoc(Empty, Lit([]))), Snoc(Empty, Lit([])))

  lemma TwoLines(s: Text)
    requires |s| == 8 && s[0] == LPAREN && s[1] == QUOTE && s[2] == QUOTE && s[3] == LF
    requires s[4] == BAR && s[5] == QUOTE && s[6] == QUOTE && s[7] == RPAREN
    ensures ParseItem(s, 0, false) == Ok(Parsed(Group(TWO_LINES), 8))
  {
    hide ParseItem, SpaceAt, BodyAt, AltsAt, ItemAt;
    SpaceNone(s, 1, true);
    SpaceOne(s, 3, true);
    SpaceNone(s, 5, true);
    SpaceNone(s, 7, true);
    SpaceNone(s, 8, false);
    EmptyLit(s, 1, 4);
    EmptyLit(s, 5, 7);
    OneForms(s, 1, 4, true, Snoc(Empty, Lit([])));
    OrForms(s, 1, 4, 5, 7, true, One(Snoc(Empty, Lit([]))), Snoc(Empty, Lit([])));
    GroupForms(s, 0, 1, 7, 8, false, TWO_LINES);
    PlainTakes(s, 0, 8, false, Group(TWO_LINES));
  }

  lemma OneForms(s: Text, p: nat, q: nat, nested: bool, body: Body)
    requires BodyAt(s, p, q, nested, body)
    ensures AltsAt(s, p, q, nested, One(body))
  {}

  /** A group over two lines, with a line end behind its first alternative. */
  lemma TwoLineGroup()
    ensures ParseItem([LPAREN, QUOTE, QUOTE, LF, BAR, QUOTE, QUOTE, RPAREN], 0, false) == Ok(Parsed(Group(TWO_LINES), 8))
  {
    hide ParseItem, TWO_LINES;
    TwoLines([LPAREN, QUOTE, QUOTE, LF, BAR, QUOTE, QUOTE, RPAREN]);
  }

  lemma EmptyLit(s: Text, p: nat, q: nat)
    requires p + 2 <= |s| && s[p] == QUOTE && s[p + 1] == QUOTE && SpaceAt(s, p + 2, q, true)
    ensures BodyAt(s, p, q, true, Snoc(Empty, Lit([])))
  {
    hide SpaceAt;
    NothingAt(s, p, true);
    assert CharsAt(s, p + 1, p + 1, []) && Is(s, p + 1, '"') && SpaceAt(s, p + 2, q, true);
    assert LitAt(s, p, q, true, []);
    SnocForms(s, p, p, q, true, Empty, Lit([]));
  }

  // ---------------------------------------------------------------- a text for every grammar

  function HexChar(d: nat): byte
    requires d < 16
  {
    if d < 10 then 48 + d else 87 + d
  }

  function HexText(c: nat, size: nat): (t: Text)
    requires c < Pow16(size)
    ensures |t| == size
  {
    if size == 0 then [] else
      assert c / 16 < Pow16(size - 1);
      HexText(c / 16, size - 1) + [HexChar(c % 16)]
  }

  const ESCAPE_U: Text := [BACKSLASH, 85]

  /** A character that fits 32 bits, as an escape of eight digits. */
  function ShowChar(c: nat): (t: Text)
    requires c < Pow16(8)
    ensures |t| == 10 && t[0] == BACKSLASH
  {
    ESCAPE_U + HexText(c, 8)
  }

  lemma HexTextNext(c: nat, size: nat)
    requires size > 0 && c < Pow16(size)
    ensures Pow16(size) == 16 * Pow16(size - 1) && c / 16 < Pow16(size - 1)
    ensures HexText(c, size) == HexText(c / 16, size - 1) + [HexChar(c % 16)]
  {}

  lemma DigitSpelled(s: Text, p: nat, d: nat)
    requires d < 16 && Has(s, p, [HexChar(d)])
    ensures DigitAt(s, p, d)
  {
    HasFirst(s, p, [HexChar(d)]);
  }

  lemma {:induction false} NumberSpelled(s: Text, p: nat, c: nat, size: nat)
    requires c < Pow16(size) && Has(s, p, HexText(c, size))
    ensures NumberAt(s, p, p + size, c)
    decreases size
  {
    hide Has, HexText, DigitAt, Pow16;
    if size > 0 {
      HexTextNext(c, size);
      HasParts(s, p, HexText(c / 16, size - 1), [HexChar(c % 16)]);
      NumberSpelled(s, p, c / 16, size - 1);
      DigitSpelled(s, p + size - 1, c % 16);
    } else {
      HasFits(s, p, HexText(c, size));
      NoPower();
    }
  }

  lemma NoPower()
    ensures Pow16(0) == 1
  {}

  lemma CharSpelled(s: Text, p: nat, c: nat)
    requires c < Pow16(8) && Has(s, p, ShowChar(c))
    ensures p + 10 <= |s| && s[p] == BACKSLASH && CharAt(s, p, p + 10, c)
  {
    hide NumberAt, HexText, Has, EscapeAt;
    HasParts(s, p, ESCAPE_U, HexText(c, 8));
    HasSecond(s, p, ESCAPE_U);
    NumberSpelled(s, p + 2, c, 8);
    HasFits(s, p, ShowChar(c));
  }

  // ---------------------------------------------------------------- showing expressions

  const QUOTED: Text := [QUOTE]
  const UNQUOTED: Text := [QUOTE, SPACE]
  const BRACKETED: Text := [LBRACKET]
  const NEGATED: Text := [LBRACKET, CARET]
  const UNBRACKETED: Text := [RBRACKET, SPACE]
  const OPENED: Text := [LPAREN]
  const CLOSED: Text := [RPAREN, SPACE]
  const BARRED: Text := [BAR, SPACE]
  const SPACED: Text := [SPACE]

  function OpText(op: Op): (t: Text)
    ensures |t| == 2 && t[1] == SPACE
  {
    [match op case Star => STAR case Plus => PLUS case Opt => QUERY, SPACE]
  }

  ghost function ShowChars(chars: seq<nat>): Text
    requires CharsOk(chars)
  {
    if chars == [] then [] else ShowChar(chars[0]) + ShowChars(chars[1..])
  }

  ghost function ShowRange(r: Range): (t: Text)
    requires RangeOk(r)
  {
    match r.hi
    case None => ShowChar(r.lo)
    case Some(hi) => ShowChar(r.lo) + [DASH] + ShowChar(hi)
  }

  ghost function ShowRanges(ranges: seq<Range>): Text
    requires forall i :: 0 <= i < |ranges| ==> RangeOk(ranges[i])
  {
    if ranges == [] then [] else ShowRange(ranges[0]) + ShowRanges(ranges[1..])
  }

  ghost function ShowItem(item: Item): (t: Text)
    requires Writable(item)
    ensures |t| > 0 && StartsItem(t[0])
    decreases item
  {
    match item
    case Lit(chars) => QUOTED + (ShowChars(chars) + UNQUOTED)
    case Class(negated, ranges) => (if negated then NEGATED else BRACKETED) + (ShowRanges(ranges) + UNBRACKETED)
    case Ref(name) => name + SPACED
    case Group(alts) => OPENED + (ShowAlts(alts) + CLOSED)
    case Rep(op, it) => ShowItem(it) + OpText(op)
  }

  ghost function ShowBody(body: Body): Text
    requires WritableBody(body)
    decreases body
  {
    match body
    case Empty => []
    case Snoc(init, last) => ShowBody(init) + ShowItem(last)
  }

  ghost function ShowAlts(alts: Alts): Text
    requires WritableAlts(alts)
    decreases alts
  {
    match alts
    case One(body) => ShowBody(body)
    case Or(before, other) => ShowAlts(before) + (BARRED + ShowBody(other))
  }

  // ---------------------------------------------------------------- what is shown is spelled

  lemma {:induction false} CharsSpelled(s: Text, p: nat, chars: seq<nat>)
    requires CharsOk(chars) && Has(s, p, ShowChars(chars))
    ensures CharsAt(s, p, p + |ShowChars(chars)|, chars)
    decreases |chars|
  {
    hide CharAt, ShowChar, Has;
    if chars != [] {
      HasParts(s, p, ShowChar(chars[0]), ShowChars(chars[1..]));
      CharSpelled(s, p, chars[0]);
      CharsSpelled(s, p + 10, chars[1..]);
    }
  }

  /** What comes behind a range is a further range or the closing bracket. */
  ghost predicate RangeFollows(s: Text, p: nat) {
    p <= |s| && (At(s, p) == BACKSLASH || At(s, p) == RBRACKET)
  }

  lemma RangeSpelled(s: Text, p: nat, r: Range)
    requires RangeOk(r) && Has(s, p, ShowRange(r)) && RangeFollows(s, p + |ShowRange(r)|)
    ensures RangeAt(s, p, p + |ShowRange(r)|, r) && At(s, p) == BACKSLASH
  {
    hide CharAt, ShowChar, Has;
    match r.hi
    case None => CharSpelled(s, p, r.lo);
    case Some(hi) =>
      HasParts(s, p, ShowChar(r.lo) + [DASH], ShowChar(hi));
      HasParts(s, p, ShowChar(r.lo), [DASH]);
      HasFirst(s, p + 10, [DASH]);
      CharSpelled(s, p, r.lo);
      CharSpelled(s, p + 11, hi);
      assert DashAt(s, p + 10);
  }

  lemma {:induction false} RangesSpelled(s: Text, p: nat, ranges: seq<Range>)
    requires RangesOk(ranges) && Has(s, p, ShowRanges(ranges)) && At(s, p + |ShowRanges(ranges)|) == RBRACKET
    ensures RangesAt(s, p, p + |ShowRanges(ranges)|, ranges) && RangeFollows(s, p)
    decreases |ranges|
  {
    hide RangeAt, ShowRange, Has, RangeOk;
    if ranges != [] {
      var r := ranges[0];
      HasParts(s, p, ShowRange(r), ShowRanges(ranges[1..]));
      RangesSpelled(s, p + |ShowRange(r)|, ranges[1..]);
      RangeSpelled(s, p, r);
    }
  }

  lemma SolidIs(s: Text, p: nat, nested: bool)
    requires p <= |s| && Solid(At(s, p), nested)
    ensures !BlankAt(s, p, nested) && !Is(s, p, '#')
  {}

  lemma SpaceOne(s: Text, p: nat, nested: bool)
    requires p < |s| && IsBlank(s[p], nested) && Solid(At(s, p + 1), nested)
    ensures SpaceAt(s, p, p + 1, nested)
  {
    SolidIs(s, p + 1, nested);
    assert Passed(s, p, p, nested);
  }

  lemma SpaceNone(s: Text, p: nat, nested: bool)
    requires p <= |s| && Solid(At(s, p), nested)
    ensures SpaceAt(s, p, p, nested)
  {
    SolidIs(s, p, nested);
  }

  lemma LitSpelled(s: Text, p: nat, nested: bool, chars: seq<nat>)
    requires CharsOk(chars) && Has(s, p, ShowItem(Lit(chars))) && Solid(At(s, p + |ShowItem(Lit(chars))|), nested)
    ensures LitAt(s, p, p + |ShowItem(Lit(chars))|, nested, chars)
  {
    hide CharsAt, ShowChars, Has, SpaceAt, CharsOk, Solid;
    var body := ShowChars(chars);
    HasParts(s, p, QUOTED, body + UNQUOTED);
    HasFirst(s, p, QUOTED);
    HasParts(s, p + 1, body, UNQUOTED);
    HasSecond(s, p + 1 + |body|, UNQUOTED);
    CharsSpelled(s, p + 1, chars);
    var m := p + 1 + |body|;
    SpaceOne(s, m + 1, nested);
    assert m + 2 == p + |ShowItem(Lit(chars))|;
    assert CharsAt(s, p + 1, m, chars) && Is(s, m, '"') && SpaceAt(s, m + 1, m + 2, nested);
  }

  lemma ClassSpelled(s: Text, p: nat, nested: bool, negated: bool, ranges: seq<Range>)
    requires RangesOk(ranges) && Has(s, p, ShowItem(Class(negated, ranges)))
    requires Solid(At(s, p + |ShowItem(Class(negated, ranges))|), nested)
    ensures ClassAt(s, p, p + |ShowItem(Class(negated, ranges))|, nested, negated, ranges)
  {
    hide RangesAt, ShowRanges, Has, SpaceAt, RangeOk, Solid;
    var open, body := if negated then NEGATED else BRACKETED, ShowRanges(ranges);
    HasParts(s, p, open, body + UNBRACKETED);
    HasFirst(s, p, open);
    if negated { HasSecond(s, p, NEGATED); }
    var q := p + |open|;
    HasParts(s, q, body, UNBRACKETED);
    HasSecond(s, q + |body|, UNBRACKETED);
    RangesSpelled(s, q, ranges);
    var m := q + |body|;
    SpaceOne(s, m + 1, nested);
    assert m + 2 == p + |ShowItem(Class(negated, ranges))|;
    assert RangesAt(s, q, m, ranges) && Is(s, m, ']') && SpaceAt(s, m + 1, m + 2, nested);
  }

  lemma NameSpelled(s: Text, p: nat, name: Name)
    requires UserName(name) && name != [] && Has(s, p, name) && !IsWordChar(At(s, p + |name|))
    ensures NameAt(s, p, p + |name|, name)
  {
    hide WordAt, IsWordChar;
    WordIs(s, p + |name|);
    forall i: nat | p <= i < p + |name|
      ensures WordAt(s, i)
    {
      WordIs(s, i);
      assert s[p..p + |name|][i - p] == name[i - p];
    }
  }

  lemma RefSpelled(s: Text, p: nat, nested: bool, name: Name)
    requires UserName(name) && name != [] && Has(s, p, name + SPACED) && Solid(At(s, p + |name| + 1), nested)
    ensures RefAt(s, p, p + |name| + 1, nested, name)
  {
    hide NameAt, SpaceAt, Has, UserName;
    HasParts(s, p, name, SPACED);
    HasFirst(s, p + |name|, SPACED);
    NameSpelled(s, p, name);
    SpaceOne(s, p + |name|, nested);
  }

  lemma StartIsSolid(c: byte, nested: bool)
    requires StartsItem(c) || IsOp(c)
    ensures Solid(c, nested)
  {}

  lemma RepHas(s: Text, p: nat, item: Item)
    requires item.Rep? && Writable(item) && Has(s, p, ShowItem(item))
    ensures Writable(item.item) && !Invisible(item.item) && Has(s, p, ShowItem(item.item))
    ensures var q := p + |ShowItem(item.item)|;
            p + |ShowItem(item)| == q + 2 <= |s| && Is(s, q, Sign(item.op)) && IsOp(At(s, q)) && At(s, q + 1) == SPACE
  {
    hide Has;
    HasParts(s, p, ShowItem(item.item), OpText(item.op));
    HasSecond(s, p + |ShowItem(item.item)|, OpText(item.op));
  }

  lemma GroupHas(s: Text, p: nat, alts: Alts)
    requires WritableAlts(alts) && Has(s, p, ShowItem(Group(alts)))
    ensures Is(s, p, '(') && Has(s, p + 1, ShowAlts(alts)) && Solid(RPAREN, true)
    ensures var q := p + 1 + |ShowAlts(alts)|;
            p + |ShowItem(Group(alts))| == q + 2 <= |s| && Is(s, q, ')') && At(s, q) == RPAREN && At(s, q + 1) == SPACE
  {
    hide ShowAlts;
    HasParts(s, p, OPENED, ShowAlts(alts) + CLOSED);
    HasFirst(s, p, OPENED);
    HasParts(s, p + 1, ShowAlts(alts), CLOSED);
    HasSecond(s, p + 1 + |ShowAlts(alts)|, CLOSED);
  }

  lemma {:induction false} ItemSpelled(s: Text, p: nat, nested: bool, item: Item)
    requires Writable(item) && Has(s, p, ShowItem(item)) && Solid(At(s, p + |ShowItem(item)|), nested)
    ensures ItemAt(s, p, p + |ShowItem(item)|, nested, item)
    decreases item, 1
  {
    hide Has, Solid, LitAt, ClassAt, RefAt, SpaceAt, AltsAt, Is, Sign, IsOp, Writable, ShowItem;
    if item.Rep? {
      RepHas(s, p, item);
      var q := p + |ShowItem(item.item)|;
      StartIsSolid(At(s, q), nested);
      ItemSpelled(s, p, nested, item.item);
      SpaceOne(s, q + 1, nested);
      RepAt(s, p, q, q + 2, nested, item.op, item.item);
    } else {
      PlainSpelled(s, p, nested, item);
    }
  }

  lemma {:induction false} PlainSpelled(s: Text, p: nat, nested: bool, item: Item)
    requires !item.Rep?
    requires Writable(item) && Has(s, p, ShowItem(item)) && Solid(At(s, p + |ShowItem(item)|), nested)
    ensures ItemAt(s, p, p + |ShowItem(item)|, nested, item)
    decreases item, 0
  {
    hide ShowChars, Has, Solid, SpaceAt, LitAt, ClassAt, RefAt, AltsAt, Is, CharsOk, ShowRanges, RangeOk, UserName, ShowAlts;
    match item
    case Lit(chars) => LitSpelled(s, p, nested, chars);
    case Class(negated, ranges) => ClassSpelled(s, p, nested, negated, ranges);
    case Ref(name) => RefSpelled(s, p, nested, name);
    case Group(alts) =>
      GroupHas(s, p, alts);
      var n := p + 1 + |ShowAlts(alts)|;
      AltsSpelled(s, p + 1, true, alts);
      SpaceNone(s, p + 1, true);
      SpaceOne(s, n + 1, nested);
      assert AltsAt(s, p + 1, n, true, alts);
  }

  lemma {:induction false} BodySpelled(s: Text, p: nat, nested: bool, body: Body)
    requires WritableBody(body) && Has(s, p, ShowBody(body)) && Solid(At(s, p + |ShowBody(body)|), nested)
    ensures BodyAt(s, p, p + |ShowBody(body)|, nested, body)
    ensures body.Snoc? ==> Solid(At(s, p), true)
    decreases body, 0
  {
    hide Has, Solid, ItemAt, ShowItem, Writable;
    if body.Snoc? {
      HasParts(s, p, ShowBody(body.init), ShowItem(body.last));
      var q := p + |ShowBody(body.init)|;
      HasFirst(s, q, ShowItem(body.last));
      StartIsSolid(At(s, q), nested);
      StartIsSolid(At(s, q), true);
      BodySpelled(s, p, nested, body.init);
      ItemSpelled(s, q, nested, body.last);
    }
  }

  lemma NoText(body: Body)
    requires WritableBody(body)
    ensures body.Empty? ==> ShowBody(body) == []
  {}

  lemma BarIs(s: Text, p: nat)
    requires Has(s, p, BARRED)
    ensures p + 2 <= |s| && Is(s, p, '|') && s[p] == BAR && s[p + 1] == SPACE && IsBlank(SPACE, true)
    ensures forall nested :: Solid(BAR, nested)
  {
    HasSecond(s, p, BARRED);
  }

  /** Behind an empty last alternative even a line end would be taken for space. */
  lemma {:induction false} AltsSpelled(s: Text, p: nat, nested: bool, alts: Alts)
    requires WritableAlts(alts) && Has(s, p, ShowAlts(alts)) && Solid(At(s, p + |ShowAlts(alts)|), nested)
    requires EndsEmpty(alts) ==> Solid(At(s, p + |ShowAlts(alts)|), true)
    ensures AltsAt(s, p, p + |ShowAlts(alts)|, nested, alts)
    ensures Solid(At(s, p), true)
    decreases alts, 0
  {
    hide Has, Solid, BodyAt, SpaceAt, Is, ShowBody, WritableBody;
    HasFits(s, p, ShowAlts(alts));
    match alts
    case One(body) =>
      BodySpelled(s, p, nested, body);
      NoText(body);
    case Or(before, other) =>
      HasParts(s, p, ShowAlts(before), BARRED + ShowBody(other));
      var q := p + |ShowAlts(before)|;
      HasParts(s, q, BARRED, ShowBody(other));
      BarIs(s, q);
      AltsSpelled(s, p, nested, before);
      BodySpelled(s, q + 2, nested, other);
      NoText(other);
      SpaceOne(s, q + 1, true);
  }

  // ---------------------------------------------------------------- whole grammars

  function Defines(blank: byte): (t: Text) { [SPACE, COLON, COLON, EQUALS, blank] }

  const DEFINED: Text := Defines(SPACE)
  const ENDED: Text := [LF]

  /** A line, whose end is left out behind an empty alternative. */
  ghost function ShowDef(def: Definition): (t: Text)
    requires WritableDef(def)
    ensures |t| > 0 && IsWordChar(t[0])
  {
    def.name + (DEFINED + (ShowAlts(def.alts) + (if EndsEmpty(def.alts) then [] else ENDED)))
  }

  ghost function Show(defs: seq<Definition>): Text
    requires forall i :: 0 <= i < |defs| ==> WritableDef(defs[i])
  {
    if defs == [] then [] else ShowDef(defs[0]) + Show(defs[1..])
  }

  lemma DefParts(s: Text, p: nat, def: Definition)
    requires WritableDef(def) && Has(s, p, ShowDef(def)) && (EndsEmpty(def.alts) ==> p + |ShowDef(def)| == |s|)
    ensures var q := p + |def.name|; var x := q + 5 + |ShowAlts(def.alts)|;
            Has(s, p, def.name + DEFINED) && Has(s, q + 5, ShowAlts(def.alts)) &&
            (if EndsEmpty(def.alts) then x == |s| else Has(s, x, ENDED)) &&
            p + |ShowDef(def)| == if EndsEmpty(def.alts) then x else x + 1
  {
    hide Has, ShowAlts, WritableAlts, UserName, EndsEmpty;
    var a := ShowAlts(def.alts);
    var end := if EndsEmpty(def.alts) then [] else ENDED;
    HasParts(s, p, def.name, DEFINED + (a + end));
    HasParts(s, p + |def.name|, DEFINED, a + end);
    HasParts(s, p + |def.name| + 5, a, end);
    HasJoin(s, p, def.name, DEFINED);
  }

  lemma HeadSpelled(s: Text, p: nat, name: Name)
    requires UserName(name) && name != [] && Has(s, p, name + DEFINED) && Solid(At(s, p + |name| + 5), true)
    ensures HeadAt(s, p, p + |name| + 5, name)
  {
    hide NameAt, SpaceAt, Has, UserName;
    HasParts(s, p, name, DEFINED);
    var q := p + |name|;
    HasFive(s, q, DEFINED);
    NameSpelled(s, p, name);
    SpaceOne(s, q, false);
    SpaceOne(s, q + 4, true);
    assert DefineAt(s, q + 1);
  }

  /** A line end, or none at the end of the text. */
  lemma TailSpelled(s: Text, x: nat, alts: Alts)
    requires if EndsEmpty(alts) then x == |s| else Has(s, x, ENDED)
    requires !EndsEmpty(alts) ==> Solid(At(s, x + 1), true)
    ensures x <= |s| && Solid(At(s, x), false) && (EndsEmpty(alts) ==> Solid(At(s, x), true))
    ensures TailAt(s, x, if EndsEmpty(alts) then x else x + 1)
  {
    hide EndsEmpty, SpaceAt;
    if EndsEmpty(alts) {
      SpaceNone(s, x, true);
      assert LineEndAt(s, x, x);
    } else {
      HasFirst(s, x, ENDED);
      HasFits(s, x, ENDED);
      SpaceNone(s, x + 1, true);
      assert LineEndAt(s, x, x + 1);
    }
  }

  lemma DefSpelled(s: Text, p: nat, def: Definition)
    requires WritableDef(def) && Has(s, p, ShowDef(def)) && (EndsEmpty(def.alts) ==> p + |ShowDef(def)| == |s|)
    requires Solid(At(s, p + |ShowDef(def)|), true)
    ensures RuleAt(s, p, p + |ShowDef(def)|, def)
  {
    hide Has, ShowDef, ShowAlts, WritableAlts, UserName, HeadAt, AltsAt, TailAt, Solid, EndsEmpty;
    DefParts(s, p, def);
    var q := p + |def.name|;
    var x := q + 5 + |ShowAlts(def.alts)|;
    TailSpelled(s, x, def.alts);
    AltsSpelled(s, q + 5, false, def.alts);
    HeadSpelled(s, p, def.name);
  }

  lemma {:induction false} DefsSpelled(s: Text, p: nat, defs: seq<Definition>)
    requires WritableGrammar(defs) && Has(s, p, Show(defs)) && p + |Show(defs)| == |s|
    ensures RulesAt(s, p, defs) && Solid(At(s, p), true)
    decreases |defs|
  {
    hide Has, WritableDef, EndsEmpty, ShowDef, RuleAt, Solid;
    if defs == [] {
      EndSolid();
    } else {
      HasParts(s, p, ShowDef(defs[0]), Show(defs[1..]));
      var q := p + |ShowDef(defs[0])|;
      DefsSpelled(s, q, defs[1..]);
      HasFirst(s, p, ShowDef(defs[0]));
      WordSolid(At(s, p));
      assert EndsEmpty(defs[0].alts) ==> defs[1..] == [];
      DefSpelled(s, p, defs[0]);
    }
  }

  lemma EndSolid()
    ensures Solid(0, true)
  {}

  lemma WordSolid(c: byte)
    requires IsWordChar(c)
    ensures Solid(c, true) && c != 0
  {}

  lemma ShowSpells(defs: seq<Definition>)
    requires WritableGrammar(defs)
    ensures Spells(Show(defs), defs)
  {
    hide Solid, WritableDef, EndsEmpty, SpaceAt, RulesAt, Show;
    var s := Show(defs);
    assert s[0..0 + |s|] == s;
    DefsSpelled(s, 0, defs);
    SpaceNone(s, 0, true);
  }

  /** Every writable grammar can be written down: parsing its text gives it back. */
  lemma ParseInvertsShow(defs: seq<Definition>)
    requires WritableGrammar(defs)
    ensures NulFree(Show(defs)) && Means(Show(defs), defs)
  {
    hide NulFree, WritableGrammar, Show, Spells, Means;
    WritableDefs(defs);
    ShowFree(defs);
    ShowSpells(defs);
    ParsesIffSpells(Show(defs), defs);
  }

  // ---------------------------------------------------------------- exactly those grammars

  lemma FreeJoin(a: Text, b: Text)
    requires NulFree(a) && NulFree(b)
    ensures NulFree(a + b)
  {}

  lemma {:induction false} HexFree(c: nat, size: nat)
    requires c < Pow16(size)
    ensures NulFree(HexText(c, size))
  {
    hide NulFree;
    if size == 0 {
      NoneFree();
    } else {
      HexTextNext(c, size);
      HexFree(c / 16, size - 1);
      OneFree(HexChar(c % 16));
      FreeJoin(HexText(c / 16, size - 1), [HexChar(c % 16)]);
    }
  }

  lemma NoneFree()
    ensures NulFree([])
  {}

  lemma OneFree(c: byte)
    requires c != 0
    ensures NulFree([c])
  {}

  lemma CharFree(c: nat)
    requires c < Pow16(8)
    ensures NulFree(ShowChar(c))
  {
    hide Pow16, HexText;
    HexFree(c, 8);
  }

  lemma {:induction false} CharsFree(chars: seq<nat>)
    requires CharsOk(chars)
    ensures NulFree(ShowChars(chars))
    decreases |chars|
  {
    hide ShowChar, Pow16;
    if chars != [] {
      CharFree(chars[0]);
      CharsFree(chars[1..]);
    }
  }

  lemma {:induction false} RangesFree(ranges: seq<Range>)
    requires RangesOk(ranges)
    ensures NulFree(ShowRanges(ranges))
    decreases |ranges|
  {
    hide ShowChar, Pow16, NulFree;
    NoneFree();
    if ranges != [] {
      var r := ranges[0];
      CharFree(r.lo);
      RangesFree(ranges[1..]);
      if r.hi.Some? {
        CharFree(r.hi.value);
        OneFree(DASH);
        FreeJoin(ShowChar(r.lo), [DASH]);
        FreeJoin(ShowChar(r.lo) + [DASH], ShowChar(r.hi.value));
      }
      FreeJoin(ShowRange(r), ShowRanges(ranges[1..]));
    }
  }

  lemma {:induction false} ItemFree(item: Item)
    requires Writable(item)
    ensures NulFree(ShowItem(item))
    decreases item
  {
    hide ShowChars, ShowRanges, CharsOk, RangeOk, ShowAlts;
    match item
    case Lit(chars) => CharsFree(chars);
    case Class(negated, ranges) => RangesFree(ranges);
    case Ref(name) =>
    case Group(alts) => AltsFree(alts);
    case Rep(op, it) =>
      ItemFree(it);
  }

  lemma {:induction false} BodyFree(body: Body)
    requires WritableBody(body)
    ensures NulFree(ShowBody(body))
    decreases body
  {
    hide NulFree, ShowItem, Writable;
    NoneFree();
    if body.Snoc? {
      BodyFree(body.init);
      ItemFree(body.last);
      FreeJoin(ShowBody(body.init), ShowItem(body.last));
    }
  }

  lemma {:induction false} AltsFree(alts: Alts)
    requires WritableAlts(alts)
    ensures NulFree(ShowAlts(alts))
    decreases alts
  {
    hide ShowBody, WritableBody;
    match alts
    case One(body) => BodyFree(body);
    case Or(before, other) =>
      AltsFree(before);
      BodyFree(other);
  }

  lemma {:induction false} ShowFree(defs: seq<Definition>)
    requires WritableGrammar(defs)
    ensures NulFree(Show(defs))
    decreases |defs|
  {
    hide ShowAlts, WritableAlts, EndsEmpty;
    if defs != [] {
      AltsFree(defs[0].alts);
      assert NulFree(ShowDef(defs[0]));
      ShowFree(defs[1..]);
    }
  }

  /** A grammar is what some text stands for exactly if it is writable. */
  lemma HasTextIffWritable(defs: seq<Definition>)
    ensures (exists s: Text :: NulFree(s) && Means(s, defs)) <==> WritableGrammar(defs)
  {
    hide NulFree, WritableGrammar, Show, ParseRules, SkipSpace;
    if WritableGrammar(defs) {
      WritableDefs(defs);
      ShowFree(defs);
      ParseInvertsShow(defs);
    } else if s: Text :| NulFree(s) && Means(s, defs) {
      ParsedGrammarOk(s);
    }
  }

  lemma WritableDefs(defs: seq<Definition>)
    requires WritableGrammar(defs)
    ensures forall i :: 0 <= i < |defs| ==> WritableDef(defs[i])
  {}

  // ---------------------------------------------------------------- a grammar without a text

  lemma SkipOne(s: Text, p: nat, nested: bool)
    requires p < |s| && IsBlank(s[p], nested) && Solid(At(s, p + 1), nested)
    ensures SkipSpace(s, p, nested) == p + 1
  {
    assert SkipSpace(s, p + 1, nested) == p + 1;
  }

  lemma NameReads(s: Text, p: nat, name: Name)
    requires UserName(name) && name != [] && Has(s, p, name) && !IsWordChar(At(s, p + |name|))
    ensures p < |s| && IsWordChar(At(s, p)) && NameEnd(s, p) == p + |name|
  {
    hide NameEnd, Has, UserName, NameAt;
    NameSpelled(s, p, name);
    NameTakes(s, p, p + |name|, name);
  }

  lemma RefReads(s: Text, p: nat, nested: bool, name: Name)
    requires UserName(name) && name != [] && Has(s, p, name + SPACED) && Solid(At(s, p + |name| + 1), nested)
    ensures IsWordChar(At(s, p)) && ParseItem(s, p, nested) == Ok(Parsed(Ref(name), p + |name| + 1))
  {
    hide NameEnd, SkipSpace, ParseAlts;
    HasParts(s, p, name, SPACED);
    HasFirst(s, p, name);
    HasFirst(s, p + |name|, SPACED);
    NameReads(s, p, name);
    SkipOne(s, p + |name|, nested);
  }

  lemma WordStarts(c: byte)
    requires IsWordChar(c)
    ensures StartsItem(c)
  {}

  lemma NameThenDefine(s: Text, p: nat, name: Name, blank: byte)
    requires UserName(name) && name != [] && Has(s, p, name + Defines(blank))
    requires IsBlank(blank, true) && Solid(At(s, p + |name| + 5), true)
    ensures p < |s| && NameEnd(s, p) == p + |name| && s[p..p + |name|] == name
    ensures var d := SkipSpace(s, p + |name|, false);
            d == p + |name| + 1 && d + 4 <= |s| && At(s, d) == COLON && At(s, d + 1) == COLON && At(s, d + 2) == EQUALS &&
            SkipSpace(s, d + 3, true) == d + 4
  {
    hide NameEnd, SkipSpace, Has;
    HasParts(s, p, name, Defines(blank));
    HasFirst(s, p, name);
    HasIs(s, p, name);
    var q := p + |name|;
    HasFive(s, q, Defines(blank));
    NameReads(s, p, name);
    SkipOne(s, q, false);
    SkipOne(s, q + 4, true);
  }

  /** Behind an empty rule the name in the next line is taken for a reference, and its `::=` is an error. */
  lemma EmptyRuleTakesName(s: Text, p: nat, name: Name, other: Name)
    requires UserName(name) && name != [] && Has(s, p, name + Defines(LF))
    requires UserName(other) && other != [] && Has(s, p + |name| + 5, other + Defines(SPACE))
    ensures ParseRule(s, p) == Err(ExpectingNewline)
  {
    hide Has, UserName, SkipSpace, NameEnd, ParseItem, ParseBody;
    var q := p + |name| + 5;
    var x := q + |other| + 1;
    OtherName(s, q, other);
    NameThenDefine(s, p, name, LF);
    RefReads(s, q, false, other);
    WordStarts(At(s, q));
    ItemTaken(s, q, false, Empty);
    BodyStops(s, x, false, Snoc(Empty, Ref(other)));
    MoreStops(s, x, false, One(Snoc(Empty, Ref(other))));
    assert ParseAlts(s, q, false) == Ok(Parsed(One(Snoc(Empty, Ref(other))), x));
  }

  lemma OtherName(s: Text, q: nat, other: Name)
    requires UserName(other) && other != [] && Has(s, q, other + Defines(SPACE))
    ensures Has(s, q, other + SPACED) && At(s, q + |other| + 1) == COLON && Solid(At(s, q), true)
    ensures Solid(COLON, false) && Stops(COLON) && q + |other| + 1 <= |s|
  {
    hide Has;
    HasParts(s, q, other, Defines(SPACE));
    HasFirst(s, q, other);
    HasFive(s, q + |other|, Defines(SPACE));
    assert Has(s, q + |other|, SPACED) by { HasOne(s, q + |other|, SPACE); }
    HasJoin(s, q, other, SPACED);
  }

  lemma HasOne(s: Text, p: nat, c: byte)
    requires p < |s| && s[p] == c
    ensures Has(s, p, [c])
  {}

  /** A line with an empty rule before another rule is rejected, whatever the rest of the text is. */
  lemma EmptyRuleRejected(name: Name, other: Name, rest: Text)
    requires UserName(name) && name != [] && UserName(other) && other != []
    ensures ParseGrammar(name + Defines(LF) + (other + Defines(SPACE)) + rest) == Err(ExpectingNewline)
  {
    hide UserName, ParseRule, SkipSpace;
    var s := name + Defines(LF) + (other + Defines(SPACE)) + rest;
    assert Has(s, 0, name + Defines(LF));
    assert Has(s, |name| + 5, other + Defines(SPACE));
    EmptyRuleTakesName(s, 0, name, other);
    NameSolid(name);
    assert s[0] == name[0];
    SkipNone(s, 0, true);
  }

  lemma NameSolid(name: Name)
    requires UserName(name) && name != []
    ensures Solid(name[0], true) && name[0] != 0
  {}

  /** The text `a ::=`, line end, `b ::= c` is rejected. */
  lemma EmptyThenOther()
    ensures ParseGrammar([97, SPACE, COLON, COLON, EQUALS, LF, 98, SPACE, COLON, COLON, EQUALS, SPACE, 99]) ==
            Err(ExpectingNewline)
  {
    hide ParseGrammar;
    EmptyRuleRejected([97], [98], [99]);
    assert [97] + Defines(LF) + ([98] + Defines(SPACE)) + [99] ==
           [97, SPACE, COLON, COLON, EQUALS, LF, 98, SPACE, COLON, COLON, EQUALS, SPACE, 99];
  }

  /** On its own an empty rule is read. */
  lemma EmptyRuleAlone(name: Name)
    requires UserName(name) && name != []
    ensures Means(name + DEFINED, [Definition(name, One(Empty))])
  {
    hide UserName, Means, DEFINED;
    var def := Definition(name, One(Empty));
    EmptyWritable();
    ParseInvertsShow([def]);
    assert [def][1..] == [];
    assert ShowAlts(def.alts) == [];
    assert ShowDef(def) == name + DEFINED;
    assert Show([def]) == ShowDef(def) + [] == ShowDef(def);
  }
}

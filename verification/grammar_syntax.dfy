/** The surface syntax of grammars: lexing, and the expression that a piece of text stands for.

    The functions follow the branches of the parser, but build an expression and emit nothing.
    All positions are at most the length of the text, where the terminator stands.
 */
module GrammarSyntax {
  import opened Bits
  import opened Wrappers

  datatype Error =
    | ExpectingHex | ExpectingName | UnknownEscape | UnexpectedEnd
    | NothingToRepeat | ExpectingParen | ExpectingDefine | ExpectingNewline

  datatype Result<+T> = Ok(value: T) | Err(error: Error)

  /** A NUL-terminated string is the sequence of its bytes before the NUL. */
  type Text = seq<byte>
  type Name = seq<byte>

  function At(s: Text, p: nat): byte
    requires p <= |s|
  {
    if p < |s| then s[p] else 0
  }

  const TAB: byte := 9
  const LF: byte := 10
  const CR: byte := 13
  const SPACE: byte := 32
  const QUOTE: byte := 34
  const HASH: byte := 35
  const LPAREN: byte := 40
  const RPAREN: byte := 41
  const STAR: byte := 42
  const PLUS: byte := 43
  const DASH: byte := 45
  const COLON: byte := 58
  const EQUALS: byte := 61
  const QUERY: byte := 63
  const LBRACKET: byte := 91
  const BACKSLASH: byte := 92
  const RBRACKET: byte := 93
  const CARET: byte := 94
  const UNDERSCORE: byte := 95
  const BAR: byte := 124

  // ---------------------------------------------------------------- expressions

  datatype Op = Star | Plus | Opt

  datatype Range = Range(lo: nat, hi: Option<nat>)

  datatype Item =
    | Lit(chars: seq<nat>)
    | Class(negated: bool, ranges: seq<Range>)
    | Ref(name: Name)
    | Group(alts: Alts)
    | Rep(op: Op, item: Item)

  /** A sequence of items, and alternatives, both built from left to right. */
  datatype Body = Empty | Snoc(init: Body, last: Item)
  datatype Alts = One(body: Body) | Or(before: Alts, other: Body)

  datatype Definition = Definition(name: Name, alts: Alts)

  // ---------------------------------------------------------------- lexing

  predicate IsWordChar(c: byte) {
    97 <= c <= 122 || 65 <= c <= 90 || c == DASH || 48 <= c <= 57
  }

  function SkipComment(s: Text, p: nat): (q: nat)
    requires p <= |s|
    ensures p <= q <= |s|
    decreases |s| - p
  {
    if At(s, p) != 0 && At(s, p) != CR && At(s, p) != LF then SkipComment(s, p + 1) else p
  }

  predicate IsBlank(c: byte, newlineOk: bool) {
    c == SPACE || c == TAB || (newlineOk && (c == CR || c == LF))
  }

  function SkipSpace(s: Text, p: nat, newlineOk: bool): (q: nat)
    requires p <= |s|
    ensures p <= q <= |s|
    decreases |s| - p
  {
    if At(s, p) == HASH then SkipSpace(s, SkipComment(s, p + 1), newlineOk)
    else if IsBlank(At(s, p), newlineOk) then SkipSpace(s, p + 1, newlineOk)
    else p
  }

  function NameEnd(s: Text, p: nat): (q: nat)
    requires p <= |s|
    ensures p <= q <= |s| && (q > p <==> IsWordChar(At(s, p)))
    ensures forall i :: p <= i < q ==> IsWordChar(s[i])
    ensures !IsWordChar(At(s, q))
    decreases |s| - p
  {
    if IsWordChar(At(s, p)) then NameEnd(s, p + 1) else p
  }

  function HexDigit(c: byte): Option<nat> {
    if 97 <= c <= 102 then Some(c - 87)
    else if 65 <= c <= 70 then Some(c - 55)
    else if 48 <= c <= 57 then Some(c - 48)
    else None
  }

  /** A parsed thing and the position behind it. */
  datatype Parsed<+T> = Parsed(it: T, next: nat)

  function Hex(s: Text, p: nat, size: nat, value: nat): (r: Result<Parsed<nat>>)
    requires p <= |s|
    ensures r.Ok? ==> r.value.next == p + size <= |s|
    ensures r.Err? ==> r.error == ExpectingHex
    decreases |s| - p
  {
    if size == 0 then Ok(Parsed(value, p))
    else if HexDigit(At(s, p)).None? then Err(ExpectingHex)
    else Hex(s, p + 1, size - 1, value * 16 + HexDigit(At(s, p)).value)
  }

  /** The number of bytes that a first byte announces. */
  function Utf8Length(first: byte): nat {
    if first < 192 then 1 else if first < 224 then 2 else if first < 240 then 3 else 4
  }

  /** The bits of the first byte that belong to the value. */
  function Utf8First(first: byte): nat {
    var len := Utf8Length(first);
    first % (if len == 1 then 128 else if len == 2 then 64 else if len == 3 then 32 else 16)
  }

  /** The bytes behind the first; a NUL ends the character early. */
  function Utf8Rest(s: Text, p: nat, more: nat, value: nat): (r: Parsed<nat>)
    requires p <= |s|
    ensures p <= r.next <= |s|
    decreases |s| - p
  {
    if more == 0 || At(s, p) == 0 then Parsed(value, p)
    else Utf8Rest(s, p + 1, more - 1, value * 64 + At(s, p) % 64)
  }

  function DecodeUtf8(s: Text, p: nat): (r: Parsed<nat>)
    requires p < |s|
    ensures p < r.next <= |s|
  {
    Utf8Rest(s, p + 1, Utf8Length(s[p]) - 1, Utf8First(s[p]))
  }

  function Char(s: Text, p: nat): (r: Result<Parsed<nat>>)
    requires p <= |s|
    ensures r.Ok? ==> p < r.value.next <= |s|
  {
    if At(s, p) == BACKSLASH then
      var c := At(s, p + 1);
      if c == 120 then Hex(s, p + 2, 2, 0)
      else if c == 117 then Hex(s, p + 2, 4, 0)
      else if c == 85 then Hex(s, p + 2, 8, 0)
      else if c == 116 then Ok(Parsed(TAB, p + 2))
      else if c == 114 then Ok(Parsed(CR, p + 2))
      else if c == 110 then Ok(Parsed(LF, p + 2))
      else if c == BACKSLASH || c == QUOTE || c == LBRACKET || c == RBRACKET then Ok(Parsed(c, p + 2))
      else Err(UnknownEscape)
    else if At(s, p) != 0 then Ok(DecodeUtf8(s, p))
    else Err(UnexpectedEnd)
  }

  // ---------------------------------------------------------------- parsing

  /** The characters up to the closing quote; `next` is the position of the quote. */
  function Literal(s: Text, p: nat, chars: seq<nat>): (r: Result<Parsed<seq<nat>>>)
    requires p <= |s|
    ensures r.Ok? ==> p <= r.value.next < |s|
    decreases |s| - p
  {
    if At(s, p) == QUOTE then Ok(Parsed(chars, p))
    else match Char(s, p)
      case Err(e) => Err(e)
      case Ok(c) => Literal(s, c.next, chars + [c.it])
  }

  /** One character or range of a class. */
  function OneRange(s: Text, p: nat): (r: Result<Parsed<Range>>)
    requires p <= |s|
    ensures r.Ok? ==> p < r.value.next <= |s|
  {
    match Char(s, p)
    case Err(e) => Err(e)
    case Ok(lo) =>
      if At(s, lo.next) == DASH && At(s, lo.next + 1) != RBRACKET then
        match Char(s, lo.next + 1)
        case Err(e) => Err(e)
        case Ok(hi) => Ok(Parsed(Range(lo.it, Some(hi.it)), hi.next))
      else Ok(Parsed(Range(lo.it, None), lo.next))
  }

  /** The ranges up to the closing bracket; `next` is the position of the bracket. */
  function Ranges(s: Text, p: nat, ranges: seq<Range>): (r: Result<Parsed<seq<Range>>>)
    requires p <= |s|
    ensures r.Ok? ==> p <= r.value.next < |s|
    decreases |s| - p
  {
    if At(s, p) == RBRACKET then Ok(Parsed(ranges, p))
    else match OneRange(s, p)
      case Err(e) => Err(e)
      case Ok(x) => Ranges(s, x.next, ranges + [x.it])
  }

  predicate StartsItem(c: byte) {
    c == QUOTE || c == LBRACKET || c == LPAREN || IsWordChar(c)
  }

  predicate IsOp(c: byte) { c == STAR || c == PLUS || c == QUERY }

  function OpOf(c: byte): Op
    requires IsOp(c)
  {
    if c == STAR then Star else if c == PLUS then Plus else Opt
  }

  /** An item that leaves no element behind cannot be repeated. */
  predicate Invisible(item: Item) {
    item == Lit([]) || (item.Class? && item.ranges == [])
  }

  function ParseItem(s: Text, p: nat, nested: bool): (r: Result<Parsed<Item>>)
    requires p <= |s| && StartsItem(At(s, p))
    ensures r.Ok? ==> p < r.value.next <= |s|
    decreases |s| - p, 0
  {
    if At(s, p) == QUOTE then
      match Literal(s, p + 1, [])
      case Err(e) => Err(e)
      case Ok(x) => Ok(Parsed(Lit(x.it), SkipSpace(s, x.next + 1, nested)))
    else if At(s, p) == LBRACKET then
      var negated := At(s, p + 1) == CARET;
      match Ranges(s, if negated then p + 2 else p + 1, [])
      case Err(e) => Err(e)
      case Ok(x) => Ok(Parsed(Class(negated, x.it), SkipSpace(s, x.next + 1, nested)))
    else if IsWordChar(At(s, p)) then
      var q := NameEnd(s, p);
      Ok(Parsed(Ref(s[p..q]), SkipSpace(s, q, nested)))
    else
      match ParseAlts(s, SkipSpace(s, p + 1, true), true)
      case Err(e) => Err(e)
      case Ok(x) =>
        if At(s, x.next) == RPAREN then Ok(Parsed(Group(x.it), SkipSpace(s, x.next + 1, nested)))
        else Err(ExpectingParen)
  }

  function ParseBody(s: Text, p: nat, nested: bool, body: Body): (r: Result<Parsed<Body>>)
    requires p <= |s|
    ensures r.Ok? ==> p <= r.value.next <= |s|
    decreases |s| - p, 1
  {
    if StartsItem(At(s, p)) then
      match ParseItem(s, p, nested)
      case Err(e) => Err(e)
      case Ok(x) => ParseBody(s, x.next, nested, Snoc(body, x.it))
    else if IsOp(At(s, p)) then
      if body.Empty? || Invisible(body.last) then Err(NothingToRepeat)
      else ParseBody(s, SkipSpace(s, p + 1, nested), nested, Snoc(body.init, Rep(OpOf(At(s, p)), body.last)))
    else Ok(Parsed(body, p))
  }

  function ParseMore(s: Text, p: nat, nested: bool, alts: Alts): (r: Result<Parsed<Alts>>)
    requires p <= |s|
    ensures r.Ok? ==> p <= r.value.next <= |s|
    decreases |s| - p, 2
  {
    if At(s, p) != BAR then Ok(Parsed(alts, p))
    else match ParseBody(s, SkipSpace(s, p + 1, true), nested, Empty)
      case Err(e) => Err(e)
      case Ok(x) => ParseMore(s, x.next, nested, Or(alts, x.it))
  }

  function ParseAlts(s: Text, p: nat, nested: bool): (r: Result<Parsed<Alts>>)
    requires p <= |s|
    ensures r.Ok? ==> p <= r.value.next <= |s|
    decreases |s| - p, 3
  {
    match ParseBody(s, p, nested, Empty)
    case Err(e) => Err(e)
    case Ok(x) => ParseMore(s, x.next, nested, One(x.it))
  }

  /** The end of a rule: a line end or the end of the text. */
  function LineEnd(s: Text, p: nat): (r: Result<nat>)
    requires p <= |s|
    ensures r.Ok? ==> p <= r.value <= |s|
  {
    if At(s, p) == CR then Ok(if At(s, p + 1) == LF then p + 2 else p + 1)
    else if At(s, p) == LF then Ok(p + 1)
    else if At(s, p) != 0 then Err(ExpectingNewline)
    else Ok(p)
  }

  function ParseRule(s: Text, p: nat): (r: Result<Parsed<Definition>>)
    requires p <= |s|
    ensures r.Ok? ==> p < r.value.next <= |s|
  {
    var e := NameEnd(s, p);
    if e == p then Err(ExpectingName)
    else
      var d := SkipSpace(s, e, false);
      if !(At(s, d) == COLON && At(s, d + 1) == COLON && At(s, d + 2) == EQUALS) then Err(ExpectingDefine)
      else match ParseAlts(s, SkipSpace(s, d + 3, true), false)
        case Err(e) => Err(e)
        case Ok(x) =>
          match LineEnd(s, x.next)
          case Err(e) => Err(e)
          case Ok(q) => Ok(Parsed(Definition(s[p..e], x.it), SkipSpace(s, q, true)))
  }

  function ParseRules(s: Text, p: nat, defs: seq<Definition>): (r: Result<Parsed<seq<Definition>>>)
    requires p <= |s|
    ensures r.Ok? ==> p <= r.value.next <= |s| && At(s, r.value.next) == 0
    decreases |s| - p
  {
    if At(s, p) == 0 then Ok(Parsed(defs, p))
    else match ParseRule(s, p)
      case Err(e) => Err(e)
      case Ok(x) => ParseRules(s, x.next, defs + [x.it])
  }

  function ParseGrammar(s: Text): (r: Result<Parsed<seq<Definition>>>)
    ensures r.Ok? ==> r.value.next <= |s| && At(s, r.value.next) == 0
  {
    ParseRules(s, SkipSpace(s, 0, true), [])
  }
}

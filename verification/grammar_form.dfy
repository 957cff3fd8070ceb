/** How grammars are written: which text, from one position to another, spells which expression.

    Nothing here parses.  A text spells a grammar if positions between its parts can be chosen; between the parts there may
    be any blanks and comments, and a character may be written in any of its forms.  Spaces are always taken whole. */
module GrammarForm {
  import opened GrammarSyntax

  /** The byte at `p` is the ASCII character `c`. */
  predicate Is(s: Text, p: nat, c: char) {
    p < |s| && s[p] == c as int
  }

  // ---------------------------------------------------------------- spaces and names

  predicate BlankAt(s: Text, p: nat, lineEnds: bool) {
    Is(s, p, ' ') || Is(s, p, '\t') || (lineEnds && (Is(s, p, '\r') || Is(s, p, '\n')))
  }

  /** The comment that starts at `j` goes on to `i`. */
  ghost predicate Comment(s: Text, j: nat, i: nat) {
    Is(s, j, '#') && j <= i < |s| && forall k :: j <= k <= i ==> !Is(s, k, '\r') && !Is(s, k, '\n')
  }

  ghost predicate Passed(s: Text, p: nat, i: nat, lineEnds: bool) {
    BlankAt(s, i, lineEnds) || exists j: nat :: p <= j && Comment(s, j, i)
  }

  /** All blanks and comments from `p` on. */
  ghost predicate SpaceAt(s: Text, p: nat, q: nat, lineEnds: bool) {
    p <= q <= |s| && (forall i :: p <= i < q ==> Passed(s, p, i, lineEnds)) && !Passed(s, p, q, lineEnds)
  }

  predicate WordAt(s: Text, p: nat) {
    p < |s| &&
    ('a' as int <= s[p] <= 'z' as int || 'A' as int <= s[p] <= 'Z' as int || '0' as int <= s[p] <= '9' as int || Is(s, p, '-'))
  }

  ghost predicate NameAt(s: Text, p: nat, q: nat, name: Name) {
    p < q <= |s| && name == s[p..q] && (forall i :: p <= i < q ==> WordAt(s, i)) && !WordAt(s, q)
  }

  // ---------------------------------------------------------------- characters

  const DIGITS: string := "0123456789abcdef"
  const CAPITALS: string := "0123456789ABCDEF"

  predicate DigitAt(s: Text, p: nat, d: nat) {
    d < 16 && (Is(s, p, DIGITS[d]) || Is(s, p, CAPITALS[d]))
  }

  /** A number in hexadecimal digits of either case. */
  predicate NumberAt(s: Text, p: nat, q: nat, c: nat)
    decreases q
  {
    if q <= p then p == q <= |s| && c == 0 else DigitAt(s, q - 1, c % 16) && NumberAt(s, p, q - 1, c / 16)
  }

  const ESCAPED: string := "trn\\\"[]"
  const MEANT: string := "\t\r\n\\\"[]"

  predicate EscapeAt(s: Text, p: nat, c: nat) {
    exists k :: 0 <= k < 7 && Is(s, p, ESCAPED[k]) && c == MEANT[k] as int
  }

  /** The lengths that the four high bits of a first byte announce, and the number of values that its other bits hold. */
  const LENGTHS: seq<nat> := [1, 1, 1, 1, 1, 1, 1, 1, 1, 1, 1, 1, 2, 2, 3, 4]
  const FIRSTS: seq<nat> := [128, 64, 32, 16]

  /** A character of up to four bytes, fewer at the end of the text: the first bits and six bits of each further byte. */
  predicate PlainAt(s: Text, p: nat, q: nat, c: nat) {
    p < q <= |s| &&
    var n := LENGTHS[s[p] / 16];
    var first := s[p] % FIRSTS[n - 1];
    (q == p + n || (q == |s| < p + n)) &&
    c == if q == p + 1 then first
         else if q == p + 2 then first * 64 + s[p + 1] % 64
         else if q == p + 3 then (first * 64 + s[p + 1] % 64) * 64 + s[p + 2] % 64
         else ((first * 64 + s[p + 1] % 64) * 64 + s[p + 2] % 64) * 64 + s[p + 3] % 64
  }

  predicate CharAt(s: Text, p: nat, q: nat, c: nat) {
    if Is(s, p, '\\') then
      (Is(s, p + 1, 'x') && q == p + 4 && NumberAt(s, p + 2, q, c)) ||
      (Is(s, p + 1, 'u') && q == p + 6 && NumberAt(s, p + 2, q, c)) ||
      (Is(s, p + 1, 'U') && q == p + 10 && NumberAt(s, p + 2, q, c)) ||
      (EscapeAt(s, p + 1, c) && q == p + 2)
    else PlainAt(s, p, q, c)
  }

  /** Characters up to a quote. */
  ghost predicate CharsAt(s: Text, p: nat, q: nat, chars: seq<nat>)
    decreases |chars|
  {
    if chars == [] then p == q
    else !Is(s, p, '"') && exists m: nat :: CharAt(s, p, m, chars[0]) && CharsAt(s, m, q, chars[1..])
  }

  /** A dash before the closing bracket is a character of its own. */
  predicate DashAt(s: Text, p: nat) { Is(s, p, '-') && !Is(s, p + 1, ']') }

  ghost predicate RangeAt(s: Text, p: nat, q: nat, r: Range) {
    match r.hi
    case None => CharAt(s, p, q, r.lo) && !DashAt(s, q)
    case Some(hi) => exists m: nat :: CharAt(s, p, m, r.lo) && DashAt(s, m) && CharAt(s, m + 1, q, hi)
  }

  /** Ranges up to a bracket. */
  ghost predicate RangesAt(s: Text, p: nat, q: nat, ranges: seq<Range>)
    decreases |ranges|
  {
    if ranges == [] then p == q
    else !Is(s, p, ']') && exists m: nat :: RangeAt(s, p, m, ranges[0]) && RangesAt(s, m, q, ranges[1..])
  }

  // ---------------------------------------------------------------- expressions, with the space behind them

  function Sign(op: Op): char {
    match op case Star => '*' case Plus => '+' case Opt => '?'
  }

  ghost predicate LitAt(s: Text, p: nat, q: nat, nested: bool, chars: seq<nat>) {
    Is(s, p, '"') && exists m: nat :: CharsAt(s, p + 1, m, chars) && Is(s, m, '"') && SpaceAt(s, m + 1, q, nested)
  }

  ghost predicate ClassAt(s: Text, p: nat, q: nat, nested: bool, negated: bool, ranges: seq<Range>) {
    Is(s, p, '[') && negated == Is(s, p + 1, '^') &&
    exists m: nat :: RangesAt(s, if negated then p + 2 else p + 1, m, ranges) && Is(s, m, ']') && SpaceAt(s, m + 1, q, nested)
  }

  ghost predicate RefAt(s: Text, p: nat, q: nat, nested: bool, name: Name) {
    exists m: nat :: NameAt(s, p, m, name) && SpaceAt(s, m, q, nested)
  }

  /** Line ends are blanks inside a group, behind a bar and behind the definition sign. */
  ghost predicate ItemAt(s: Text, p: nat, q: nat, nested: bool, item: Item)
    decreases item
  {
    match item
    case Lit(chars) => LitAt(s, p, q, nested, chars)
    case Class(negated, ranges) => ClassAt(s, p, q, nested, negated, ranges)
    case Ref(name) => RefAt(s, p, q, nested, name)
    case Group(alts) =>
      Is(s, p, '(') &&
      exists m: nat, n: nat :: SpaceAt(s, p + 1, m, true) && AltsAt(s, m, n, true, alts) && Is(s, n, ')') && SpaceAt(s, n + 1, q, nested)
    case Rep(op, it) =>
      it != Lit([]) && it != Class(true, []) && it != Class(false, []) &&
      exists m: nat :: ItemAt(s, p, m, nested, it) && Is(s, m, Sign(op)) && SpaceAt(s, m + 1, q, nested)
  }

  ghost predicate BodyAt(s: Text, p: nat, q: nat, nested: bool, body: Body)
    decreases body
  {
    match body
    case Empty => p == q
    case Snoc(init, last) => exists m: nat :: BodyAt(s, p, m, nested, init) && ItemAt(s, m, q, nested, last)
  }

  ghost predicate AltsAt(s: Text, p: nat, q: nat, nested: bool, alts: Alts)
    decreases alts
  {
    match alts
    case One(body) => BodyAt(s, p, q, nested, body)
    case Or(before, other) =>
      exists m: nat, n: nat :: AltsAt(s, p, m, nested, before) && Is(s, m, '|') && SpaceAt(s, m + 1, n, true) && BodyAt(s, n, q, nested, other)
  }

  // ---------------------------------------------------------------- rules

  predicate LineEndAt(s: Text, p: nat, q: nat) {
    if Is(s, p, '\r') && Is(s, p + 1, '\n') then q == p + 2
    else if Is(s, p, '\r') || Is(s, p, '\n') then q == p + 1
    else q == p == |s|
  }

  predicate DefineAt(s: Text, p: nat) { Is(s, p, ':') && Is(s, p + 1, ':') && Is(s, p + 2, '=') }

  /** The name and the definition sign. */
  ghost predicate HeadAt(s: Text, p: nat, q: nat, name: Name) {
    exists e: nat, d: nat :: NameAt(s, p, e, name) && SpaceAt(s, e, d, false) && DefineAt(s, d) && SpaceAt(s, d + 3, q, true)
  }

  /** The line end, and what comes before the next rule. */
  ghost predicate TailAt(s: Text, p: nat, q: nat) {
    exists y: nat :: LineEndAt(s, p, y) && SpaceAt(s, y, q, true)
  }

  ghost predicate RuleAt(s: Text, p: nat, q: nat, def: Definition) {
    exists a: nat, x: nat :: HeadAt(s, p, a, def.name) && AltsAt(s, a, x, false, def.alts) && TailAt(s, x, q)
  }

  ghost predicate RulesAt(s: Text, p: nat, defs: seq<Definition>)
    decreases |defs|
  {
    if defs == [] then p == |s| else exists m: nat :: RuleAt(s, p, m, defs[0]) && RulesAt(s, m, defs[1..])
  }

  /** The whole text spells these definitions. */
  ghost predicate Spells(s: Text, defs: seq<Definition>) {
    exists p: nat :: SpaceAt(s, 0, p, true) && RulesAt(s, p, defs)
  }
}

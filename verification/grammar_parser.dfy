/** The parser, in place: a cursor that runs through the text and writes symbols and rules.

    An exception is an error result that every caller passes on.  Each method is proved equal to
    parsing the same stretch of text into an expression and emitting that expression.
 */
module GrammarParser {
  import opened GrammarEmit
  import opened GrammarLexer
  import opened GrammarSyntax

  /** What parsing an item leaves behind: the state and the elements that the item emits. */
  ghost predicate ItemParsed(src: Text, pos: nat, nested: bool, name: Name, before: State, out: Rule,
                             r: Result<nat>, after: State, now: Rule)
    requires pos <= |src| && StartsItem(At(src, pos))
  {
    match ParseItem(src, pos, nested)
    case Err(e) => r == Err(e)
    case Ok(x) => r == Ok(x.next) && EmitItem(before, name, x.it).0 == after && now == out + EmitItem(before, name, x.it).1
  }

  ghost predicate BodyParsed(src: Text, pos: nat, nested: bool, name: Name, before: State, out: Rule,
                             r: Result<nat>, after: State, now: Rule)
    requires pos <= |src|
  {
    match ParseBody(src, pos, nested, Empty)
    case Err(e) => r == Err(e)
    case Ok(x) => r == Ok(x.next) && EmitBody(before, name, x.it).0 == after && now == out + EmitBody(before, name, x.it).1
  }

  /** The alternatives become the rule `id`. */
  ghost predicate AltsParsed(src: Text, pos: nat, nested: bool, name: Name, before: State, id: nat,
                             r: Result<nat>, after: State)
    requires pos <= |src|
  {
    match ParseAlts(src, pos, nested)
    case Err(e) => r == Err(e)
    case Ok(x) =>
      r == Ok(x.next) &&
      after == AddRule(EmitAlts(before, name, x.it).0, id, EmitAlts(before, name, x.it).1 + [Elem(END, 0)])
  }

  ghost predicate RuleParsed(src: Text, pos: nat, before: State, r: Result<nat>, after: State)
    requires pos <= |src|
  {
    match GrammarSyntax.ParseRule(src, pos)
    case Err(e) => r == Err(e)
    case Ok(x) => r == Ok(x.next) && after == CompileRule(before, x.it)
  }

  ghost predicate LiteralParsed(src: Text, pos: nat, out: Rule, r: Result<nat>, now: Rule)
    requires pos <= |src|
  {
    match Literal(src, pos, [])
    case Err(e) => r == Err(e)
    case Ok(x) => r == Ok(x.next) && now == out + Chars(x.it)
  }

  ghost predicate RangeParsed(src: Text, pos: nat, kind: ElemType, out: Rule, r: Result<nat>, now: Rule)
    requires pos <= |src|
  {
    match OneRange(src, pos)
    case Err(e) => r == Err(e)
    case Ok(x) => r == Ok(x.next) && now == out + RangeElems(kind, x.it)
  }

  ghost predicate ClassParsed(src: Text, pos: nat, negated: bool, out: Rule, r: Result<nat>, now: Rule)
    requires pos <= |src|
  {
    match Ranges(src, pos, [])
    case Err(e) => r == Err(e)
    case Ok(x) => r == Ok(x.next) && now == out + ClassElems(negated, x.it)
  }

  lemma ClassElemsMore(negated: bool, ranges: seq<Range>, r: Range)
    ensures ClassElems(negated, ranges + [r]) ==
            ClassElems(negated, ranges) +
            RangeElems(if ranges != [] then CHAR_ALT else if negated then CHAR_NOT else CHAR, r)
  {
    assert (ranges + [r])[..|ranges|] == ranges;
  }

  /** The characters of a literal, up to the closing quote. */
  method ParseLiteral(src: Text, start: nat, before: Rule) returns (r: Result<nat>, out: Rule)
    requires start <= |src|
    ensures LiteralParsed(src, start, before, r, out)
  {
    var pos := start;
    ghost var chars: seq<nat> := [];
    out := before;
    while At(src, pos) != QUOTE
      invariant pos <= |src| && Literal(src, pos, chars) == Literal(src, start, []) && out == before + Chars(chars)
      decreases |src| - pos
    {
      var c := ParseChar(src, pos);
      if c.Err? { return Err(c.error), out; }
      pos := c.value.next;
      out := out + [Elem(CHAR, c.value.it)];
      chars := chars + [c.value.it];
    }
    return Ok(pos), out;
  }

  /** One round of the class loop. */
  method ParseRange(src: Text, start: nat, kind: ElemType, before: Rule) returns (r: Result<nat>, out: Rule)
    requires start <= |src|
    ensures RangeParsed(src, start, kind, before, r, out)
  {
    hide Char;
    out := before;
    var c := ParseChar(src, start);
    if c.Err? { return Err(c.error), out; }
    var pos := c.value.next;
    out := out + [Elem(kind, c.value.it)];
    if At(src, pos) == DASH && At(src, pos + 1) != RBRACKET {
      var d := ParseChar(src, pos + 1);
      if d.Err? { return Err(d.error), out; }
      pos := d.value.next;
      out := out + [Elem(CHAR_RNG_UPPER, d.value.it)];
    }
    return Ok(pos), out;
  }

  /** The elements of a class, up to the closing bracket. */
  method ParseClass(src: Text, start: nat, negated: bool, before: Rule) returns (r: Result<nat>, out: Rule)
    requires start <= |src|
    ensures ClassParsed(src, start, negated, before, r, out)
  {
    hide OneRange, ClassElems;
    var pos := start;
    var startType := if negated then CHAR_NOT else CHAR;
    var lastSymStart := |before|;
    ghost var ranges: seq<Range> := [];
    NoElems(negated);
    out := before;
    while At(src, pos) != RBRACKET
      invariant pos <= |src| && Ranges(src, pos, ranges) == Ranges(src, start, [])
      invariant out == before + ClassElems(negated, ranges)
      decreases |src| - pos
    {
      var kind := if lastSymStart < |out| then CHAR_ALT else startType;
      var q, more := ParseRange(src, pos, kind, out);
      if q.Err? { return q, out; }
      ghost var x := OneRange(src, pos).value.it;
      ClassElemsMore(negated, ranges, x);
      ranges := ranges + [x];
      pos, out := q.value, more;
    }
    return Ok(pos), out;
  }

  // ---------------------------------------------------------------- the sequence loop

  /** The loop of `parse_sequence` after the items of `body`; `last` is where the last of them starts. */
  ghost predicate BodySoFar(st0: State, name: Name, body: Body, before: Rule, last: nat, now: State, out: Rule) {
    now == EmitBody(st0, name, body).0 && out == before + EmitBody(st0, name, body).1 &&
    last == |before| + if body.Empty? then 0 else |EmitBody(st0, name, body.init).1|
  }

  lemma ItemFails(src: Text, pos: nat, nested: bool, name: Name, body: Body, st: State, was: Rule,
                  r: Result<nat>, now: State, out: Rule)
    requires pos <= |src| && StartsItem(At(src, pos)) && r.Err?
    requires ItemParsed(src, pos, nested, name, st, was, r, now, out)
    ensures ParseBody(src, pos, nested, body) == Err(r.error)
  {
    hide ParseItem, EmitItem;
  }

  lemma BodyGrows(src: Text, pos: nat, nested: bool, name: Name, st0: State, body: Body, before: Rule, last: nat,
                  st: State, was: Rule, r: Result<nat>, now: State, out: Rule)
    requires pos <= |src| && StartsItem(At(src, pos)) && r.Ok?
    requires ItemParsed(src, pos, nested, name, st, was, r, now, out)
    requires st == EmitBody(st0, name, body).0 && was == before + EmitBody(st0, name, body).1 && last == |was|
    ensures ParseItem(src, pos, nested).Ok?
    ensures var x := ParseItem(src, pos, nested).value;
            r == Ok(x.next) && ParseBody(src, pos, nested, body) == ParseBody(src, x.next, nested, Snoc(body, x.it)) &&
            BodySoFar(st0, name, Snoc(body, x.it), before, last, now, out)
  {
    hide ParseItem, EmitItem;
  }

  /** The test of the repetition operators. */
  lemma LastIsInvisible(st0: State, name: Name, body: Body, before: Rule, last: nat, now: State, out: Rule)
    requires BodySoFar(st0, name, body, before, last, now, out)
    ensures last <= |out| && (last == |out| <==> body.Empty? || Invisible(body.last))
    ensures body.Snoc? ==> EmitItem(EmitBody(st0, name, body.init).0, name, body.last) == (now, out[last..])
    ensures body.Snoc? ==> out[..last] == before + EmitBody(st0, name, body.init).1
  {
    if body.Snoc? {
      var e1 := EmitBody(st0, name, body.init).1;
      var e2 := EmitItem(EmitBody(st0, name, body.init).0, name, body.last).1;
      EmptyElems(EmitBody(st0, name, body.init).0, name, body.last);
      assert out == before + (e1 + e2);
      assert out[..last] == before + e1 && out[last..] == e2;
    }
  }

  lemma EmptyElems(st: State, name: Name, item: Item)
    ensures EmitItem(st, name, item).1 == [] <==> Invisible(item)
  {
    hide EmitAlts, Generate, AddRule, ClassElems;
  }

  lemma BodyRepeats(st0: State, name: Name, body: Body, before: Rule, last: nat, was: Rule, op: Op, now: State, out: Rule)
    requires body.Snoc? && last == |before| + |EmitBody(st0, name, body.init).1|
    requires last <= |was| && was[..last] == before + EmitBody(st0, name, body.init).1
    requires var st := EmitBody(st0, name, body.init).0;
             (now, out) == (EmitItem(st, name, Rep(op, body.last)).0, was[..last] + EmitItem(st, name, Rep(op, body.last)).1)
    ensures BodySoFar(st0, name, Snoc(body.init, Rep(op, body.last)), before, last, now, out)
  {
    hide EmitItem;
  }

  lemma EmitRep(st: State, name: Name, op: Op, item: Item)
    ensures var (st1, e) := EmitItem(st, name, item);
            var (st2, id) := Generate(st1, name);
            EmitItem(st, name, Rep(op, item)) == (AddRule(st2, id, RepRule(op, e, id)), [Elem(RULE_REF, id)])
  {
    hide Generate, AddRule, RepRule;
  }

  /** The state of a parse. */
  class ParseState {
    var symbolIds: map<Name, nat>
    var rules: seq<Rule>

    ghost function St(): State
      reads this
    {
      State(symbolIds, rules)
    }

    constructor ()
      ensures St() == NO_STATE
    {
      symbolIds, rules := map[], [];
    }

    method GetSymbolId(name: Name) returns (id: nat)
      modifies this
      ensures (St(), id) == Intern(old(St()), name)
    {
      var nextId := |symbolIds|;
      if name !in symbolIds { symbolIds := symbolIds[name := nextId]; }
      id := symbolIds[name];
    }

    method GenerateSymbolId(base: Name) returns (id: nat)
      modifies this
      ensures (St(), id) == Generate(old(St()), base)
    {
      id := |symbolIds|;
      symbolIds := symbolIds[base + [UNDERSCORE] + Digits(id) := id];
    }

    method AddRule(ruleId: nat, rule: Rule)
      modifies this
      ensures St() == GrammarEmit.AddRule(old(St()), ruleId, rule)
    {
      if |rules| <= ruleId { rules := rules + seq(ruleId + 1 - |rules|, _ => []); }
      rules := rules[ruleId := rule];
    }

    method ParseQuoted(src: Text, start: nat, nested: bool, ghost name: Name, before: Rule) returns (r: Result<nat>, out: Rule)
      requires start <= |src| && At(src, start) == QUOTE
      ensures ItemParsed(src, start, nested, name, St(), before, r, St(), out)
    {
      hide Literal;
      r, out := ParseLiteral(src, start + 1, before);
      if r.Ok? {
        var pos := ParseSpace(src, r.value + 1, nested);
        r := Ok(pos);
      }
    }

    method ParseBracketed(src: Text, start: nat, nested: bool, ghost name: Name, before: Rule) returns (r: Result<nat>, out: Rule)
      requires start <= |src| && At(src, start) == LBRACKET
      ensures ItemParsed(src, start, nested, name, St(), before, r, St(), out)
    {
      hide Ranges, ClassElems;
      var pos := start + 1;
      var negated := false;
      if At(src, pos) == CARET {
        pos := pos + 1;
        negated := true;
      }
      r, out := ParseClass(src, pos, negated, before);
      if r.Ok? {
        pos := ParseSpace(src, r.value + 1, nested);
        r := Ok(pos);
      }
    }

    method ParseReference(src: Text, start: nat, nested: bool, ghost name: Name, before: Rule) returns (r: Result<nat>, out: Rule)
      requires start <= |src| && IsWordChar(At(src, start))
      modifies this
      ensures ItemParsed(src, start, nested, name, old(St()), before, r, St(), out)
    {
      hide NameEnd, Intern;
      var nameEnd := ParseName(src, start);
      var id := GetSymbolId(src[start..nameEnd.value]);
      var pos := ParseSpace(src, nameEnd.value, nested);
      return Ok(pos), before + [Elem(RULE_REF, id)];
    }

    method ParseGroup(src: Text, start: nat, nested: bool, name: Name, before: Rule) returns (r: Result<nat>, out: Rule)
      requires start <= |src| && At(src, start) == LPAREN
      modifies this
      ensures ItemParsed(src, start, nested, name, old(St()), before, r, St(), out)
      decreases |src| - start, 0
    {
      hide ParseAlts, Generate, EmitAlts, GrammarEmit.AddRule;
      var pos := ParseSpace(src, start + 1, true);
      var id := GenerateSymbolId(name);
      r := ParseAlternates(src, pos, name, id, true);
      out := before + [Elem(RULE_REF, id)];
      if r.Err? { return; }
      if At(src, r.value) != RPAREN { return Err(ExpectingParen), out; }
      pos := ParseSpace(src, r.value + 1, nested);
      r := Ok(pos);
    }

    method ParseOne(src: Text, start: nat, nested: bool, name: Name, before: Rule) returns (r: Result<nat>, out: Rule)
      requires start <= |src| && StartsItem(At(src, start))
      modifies this
      ensures ItemParsed(src, start, nested, name, old(St()), before, r, St(), out)
      decreases |src| - start, 1
    {
      hide ItemParsed;
      if At(src, start) == QUOTE {
        r, out := ParseQuoted(src, start, nested, name, before);
      } else if At(src, start) == LBRACKET {
        r, out := ParseBracketed(src, start, nested, name, before);
      } else if IsWordChar(At(src, start)) {
        r, out := ParseReference(src, start, nested, name, before);
      } else {
        r, out := ParseGroup(src, start, nested, name, before);
      }
    }

    /** The repetition operators: the elements from `last` on become a generated rule. */
    method Repeat(op: Op, name: Name, before: Rule, last: nat, ghost st: State, ghost item: Item) returns (out: Rule)
      requires last <= |before| && EmitItem(st, name, item) == (St(), before[last..])
      modifies this
      ensures (St(), out) == (EmitItem(st, name, Rep(op, item)).0, before[..last] + EmitItem(st, name, Rep(op, item)).1)
    {
      hide EmitItem, Generate, GrammarEmit.AddRule;
      ghost var st1 := St();
      var subRuleId := GenerateSymbolId(name);
      var subRule := before[last..];
      if op == Star || op == Plus { subRule := subRule + [Elem(RULE_REF, subRuleId)]; }
      subRule := subRule + [Elem(ALT, 0)];
      if op == Plus { subRule := subRule + before[last..]; }
      subRule := subRule + [Elem(END, 0)];
      AddRule(subRuleId, subRule);
      out := before[..last] + [Elem(RULE_REF, subRuleId)];
      EmitRep(st, name, op, item);
    }

    method ParseSequence(src: Text, start: nat, name: Name, before: Rule, nested: bool) returns (r: Result<nat>, out: Rule)
      requires start <= |src|
      modifies this
      ensures BodyParsed(src, start, nested, name, old(St()), before, r, St(), out)
      decreases |src| - start, 2
    {
      hide EmitItem, ParseItem, ItemParsed, Invisible;
      var pos := start;
      out := before;
      var lastSymStart: nat := |out|;
      ghost var st0, body := St(), Empty;
      while At(src, pos) != 0
        invariant start <= pos <= |src| && ParseBody(src, pos, nested, body) == ParseBody(src, start, nested, Empty)
        invariant BodySoFar(st0, name, body, before, lastSymStart, St(), out)
        decreases |src| - pos
      {
        if StartsItem(At(src, pos)) {
          ghost var st, was := St(), out;
          lastSymStart := |out|;
          r, out := ParseOne(src, pos, nested, name, out);
          if r.Err? {
            ItemFails(src, pos, nested, name, body, st, was, r, St(), out);
            return;
          }
          BodyGrows(src, pos, nested, name, st0, body, before, lastSymStart, st, was, r, St(), out);
          body := Snoc(body, ParseItem(src, pos, nested).value.it);
          pos := r.value;
        } else if IsOp(At(src, pos)) {
          LastIsInvisible(st0, name, body, before, lastSymStart, St(), out);
          if lastSymStart == |out| { return Err(NothingToRepeat), out; }
          ghost var was := out;
          out := Repeat(OpOf(At(src, pos)), name, out, lastSymStart, EmitBody(st0, name, body.init).0, body.last);
          BodyRepeats(st0, name, body, before, lastSymStart, was, OpOf(At(src, pos)), St(), out);
          body := Snoc(body.init, Rep(OpOf(At(src, pos)), body.last));
          pos := ParseSpace(src, pos + 1, nested);
        } else {
          break;
        }
      }
      return Ok(pos), out;
    }

    method ParseAlternates(src: Text, start: nat, name: Name, ruleId: nat, nested: bool) returns (r: Result<nat>)
      requires start <= |src|
      modifies this
      ensures AltsParsed(src, start, nested, name, old(St()), ruleId, r, St())
      decreases |src| - start, 3
    {
      hide EmitBody, ParseBody, GrammarEmit.AddRule;
      ghost var st0 := St();
      var rule: Rule := [];
      r, rule := ParseSequence(src, start, name, rule, nested);
      if r.Err? { return; }
      var pos := r.value;
      ghost var alts := One(ParseBody(src, start, nested, Empty).value.it);
      ghost var e := EmitBody(st0, name, alts.body).1;
      assert [] + e == e;
      while At(src, pos) == BAR
        invariant start <= pos <= |src| && ParseMore(src, pos, nested, alts) == ParseAlts(src, start, nested)
        invariant EmitAlts(st0, name, alts) == (St(), rule)
        decreases |src| - pos
      {
        rule := rule + [Elem(ALT, 0)];
        pos := ParseSpace(src, pos + 1, true);
        ghost var body := ParseBody(src, pos, nested, Empty);
        r, rule := ParseSequence(src, pos, name, rule, nested);
        if r.Err? { return; }
        pos := r.value;
        alts := Or(alts, body.value.it);
      }
      rule := rule + [Elem(END, 0)];
      AddRule(ruleId, rule);
      return Ok(pos);
    }

    method ParseRule(src: Text, start: nat) returns (r: Result<nat>)
      requires start <= |src|
      modifies this
      ensures RuleParsed(src, start, old(St()), r, St())
    {
      hide ParseAlts, EmitAlts, GrammarEmit.AddRule, Intern, SkipSpace, NameEnd;
      r := ParseName(src, start);
      if r.Err? { return; }
      var nameEnd := r.value;
      var pos := ParseSpace(src, nameEnd, false);
      var name := src[start..nameEnd];
      var ruleId := GetSymbolId(name);
      if !(At(src, pos) == COLON && At(src, pos + 1) == COLON && At(src, pos + 2) == EQUALS) { return Err(ExpectingDefine); }
      pos := ParseSpace(src, pos + 3, true);
      r := ParseAlternates(src, pos, name, ruleId, false);
      if r.Err? { return; }
      pos := r.value;
      if At(src, pos) == CR {
        pos := pos + if At(src, pos + 1) == LF then 2 else 1;
      } else if At(src, pos) == LF {
        pos := pos + 1;
      } else if At(src, pos) != 0 {
        return Err(ExpectingNewline);
      }
      pos := ParseSpace(src, pos, true);
      return Ok(pos);
    }
  }

  /** `parse`: an error leaves an empty state. */
  method Parse(src: Text) returns (state: ParseState)
    ensures fresh(state)
    ensures state.St() == match ParseGrammar(src) case Ok(x) => Compile(x.it) case Err(_) => NO_STATE
  {
    hide GrammarSyntax.ParseRule, CompileRule;
    state := new ParseState();
    var pos := ParseSpace(src, 0, true);
    ghost var defs: seq<Definition> := [];
    while At(src, pos) != 0
      invariant pos <= |src| && ParseRules(src, pos, defs) == ParseGrammar(src)
      invariant fresh(state) && state.St() == Compile(defs)
      decreases |src| - pos
    {
      ghost var def := GrammarSyntax.ParseRule(src, pos);
      var r := state.ParseRule(src, pos);
      if r.Err? {
        state := new ParseState();
        return;
      }
      pos := r.value;
      assert (defs + [def.value.it])[..|defs|] == defs;
      defs := defs + [def.value.it];
    }
  }
}

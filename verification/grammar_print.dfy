/** Printing a grammar back: which rules it rejects, and why parsed grammars print. */
module GrammarPrint {
  import opened GrammarEmit
  import opened GrammarLanguage
  import opened GrammarMeaning
  import opened GrammarRules
  import opened GrammarSyntax
  import opened Wrappers

  // ---------------------------------------------------------------- well-formed rules

  /** One END, at the end; what continues a class follows a character; references are to known ids. */
  ghost predicate WellFormed(rule: Rule, size: nat) {
    rule != [] && rule[|rule| - 1].kind == END &&
    forall i :: 0 <= i < |rule| - 1 ==> ElemOk(rule, i, size)
  }

  predicate ElemOk(rule: Rule, i: nat, size: nat)
    requires i < |rule|
  {
    rule[i].kind != END && InPlace(rule, i) && (rule[i].kind == RULE_REF ==> rule[i].value < size)
  }

  /** A stretch without END in which everything is in place. */
  ghost predicate Inner(e: Rule, size: nat) {
    forall i :: 0 <= i < |e| ==> ElemOk(e, i, size)
  }

  lemma JoinInner(a: Rule, b: Rule, size: nat)
    requires Inner(a, size) && Inner(b, size)
    ensures Inner(a + b, size)
  {
    forall i | 0 <= i < |a + b|
      ensures ElemOk(a + b, i, size)
    {
      if i < |a| { assert ElemOk(a, i, size); } else { assert ElemOk(b, i - |a|, size); }
    }
  }

  lemma AddEnd(e: Rule, size: nat)
    requires Inner(e, size)
    ensures WellFormed(e + [Elem(END, 0)], size)
  {
    forall i | 0 <= i < |e|
      ensures ElemOk(e + [Elem(END, 0)], i, size)
    {
      assert ElemOk(e, i, size);
    }
  }

  lemma PieceInner(e: Rule, size: nat)
    requires Piece(e) && forall i :: 0 <= i < |e| && e[i].kind == RULE_REF ==> e[i].value < size
    ensures Inner(e, size)
  {}

  lemma {:induction false} ClassNoRef(negated: bool, ranges: seq<Range>, i: nat)
    requires i < |ClassElems(negated, ranges)|
    ensures ClassElems(negated, ranges)[i].kind != RULE_REF
  {
    var n := |ranges| - 1;
    if i < |ClassElems(negated, ranges[..n])| { ClassNoRef(negated, ranges[..n], i); }
  }

  lemma ItemInner(m: Meaning, item: Item, e: Rule)
    requires ItemElems(m, item, e)
    ensures Inner(e, |m|)
  {
    hide ClassElems, Piece;
    ItemPiece(m, item, e);
    if item.Class? {
      forall i | 0 <= i < |e|
        ensures e[i].kind != RULE_REF
      {
        ClassNoRef(item.negated, item.ranges, i);
      }
    }
    PieceInner(e, |m|);
  }

  lemma {:induction false} BodyInner(m: Meaning, body: Body, e: Rule)
    requires BodyElems(m, body, e)
    ensures Inner(e, |m|)
    decreases body
  {
    hide ItemElems, Size;
    if body.Snoc? {
      var k := |e| - Size(body.last);
      BodyInner(m, body.init, e[..k]);
      ItemInner(m, body.last, e[k..]);
      JoinInner(e[..k], e[k..], |m|);
      assert e[..k] + e[k..] == e;
    }
  }

  lemma {:induction false} AltsInner(m: Meaning, alts: Alts, e: Rule)
    requires AltsElems(m, alts, e)
    ensures Inner(e, |m|)
    decreases alts
  {
    hide BodyElems, BodySize, Inner;
    match alts
    case One(body) => BodyInner(m, body, e);
    case Or(before, other) =>
      var k := |e| - BodySize(other) - 1;
      AltsInner(m, before, e[..k]);
      BodyInner(m, other, e[k + 1..]);
      AltInner(|m|);
      JoinInner(e[..k], [Elem(ALT, 0)], |m|);
      JoinInner(e[..k] + [Elem(ALT, 0)], e[k + 1..], |m|);
      assert e[..k] + [Elem(ALT, 0)] + e[k + 1..] == e;
  }

  lemma AltInner(size: nat)
    ensures Inner([Elem(ALT, 0)], size) && Inner([], size)
  {}

  lemma RuleForWellFormed(m: Meaning, alts: Alts, rule: Rule)
    requires RuleFor(m, alts, rule)
    ensures WellFormed(rule, |m|)
  {
    hide AltsElems, WellFormed;
    var e := rule[..|rule| - 1];
    AltsInner(m, alts, e);
    AddEnd(e, |m|);
    assert rule == e + [Elem(END, 0)];
  }

  lemma RepRuleWellFormed(op: Op, e: Rule, id: nat, size: nat)
    requires Inner(e, size) && id < size
    ensures WellFormed(RepRule(op, e, id), size)
  {
    hide Inner, WellFormed;
    AltInner(size);
    var ref := [Elem(RULE_REF, id)];
    assert Inner(ref, size) by { RefInner(id, size); }
    JoinInner(e, ref, size);
    var first := if op == Opt then e else e + ref;
    JoinInner(first, [Elem(ALT, 0)], size);
    JoinInner(first + [Elem(ALT, 0)], e, size);
    AddEnd(first + [Elem(ALT, 0)], size);
    AddEnd(first + [Elem(ALT, 0)] + e, size);
  }

  lemma RefInner(id: nat, size: nat)
    requires id < size
    ensures Inner([Elem(RULE_REF, id)], size)
  {}

  lemma RuleOkWellFormed(st: State, m: Meaning, defs: Defs, id: nat)
    requires Rules(st, m, defs, {}) && id < |st.rules|
    ensures if m[id].Ref? && m[id].name !in defs then st.rules[id] == [] else WellFormed(st.rules[id], |m|)
  {
    hide RuleFor, WellFormed, ItemElems, RepRule;
    assert RuleOk(st.rules, m, defs, id);
    match m[id]
    case Ref(name) => if name in defs { RuleForWellFormed(m, defs[name], st.rules[id]); }
    case Group(alts) => RuleForWellFormed(m, alts, st.rules[id]);
    case Rep(op, it) =>
      var e :| ItemElems(m, it, e) && st.rules[id] == RepRule(op, e, id);
      ItemInner(m, it, e);
      RepRuleWellFormed(op, e, id, |m|);
    case _ =>
  }

  /** Every rule that was added is well formed; the slots of undefined names are empty. */
  lemma CompiledRulesWellFormed(defs: seq<Definition>, id: nat)
    requires DefsNamesOk(defs) && id < |Compile(defs).rules|
    ensures |Compile(defs).rules| <= |Compile(defs).ids| && Symbols(Compile(defs).ids)
    ensures Compile(defs).rules[id] == [] || WellFormed(Compile(defs).rules[id], |Compile(defs).ids|)
    ensures Compile(defs).rules[id] == [] <==>
            exists name :: UserName(name) && name in Compile(defs).ids && Compile(defs).ids[name] == id && name !in DefsOf(defs)
  {
    hide Compile, DefsOf, RuleOk, WellFormed, UserName, NamedById, DefsNamesOk;
    var m := CompileKeeps(defs);
    var st := Compile(defs);
    RuleOkWellFormed(st, m, DefsOf(defs), id);
    NonEmpty(st.rules[id], |m|);
    assert HasName(st.ids, id);
    var k :| k in st.ids && st.ids[k] == id;
    assert if UserName(k) then m[id] == Ref(k) else !m[id].Ref?;
  }

  lemma NonEmpty(rule: Rule, size: nat)
    ensures WellFormed(rule, size) ==> rule != []
  {}

  // ---------------------------------------------------------------- printing

  /** What the printer writes, piece by piece; how a character is written is left open. */
  datatype Token = TName(name: Name) | TDefine | TBar | TOpen(negated: bool) | TChar(value: nat) | TDash | TClose | TNewline

  /** The places where printing throws. */
  datatype PrintError = NoEnd | EarlyEnd | NoName | RangeAlone | AltAlone

  datatype Outcome = Printed(tokens: seq<Token>) | Thrown(error: PrintError)

  function Close(rule: Rule, i: nat): seq<Token>
    requires i + 1 < |rule|
  {
    if IsCharElement(rule[i].kind) && !Continues(rule[i + 1].kind) then [TClose] else []
  }

  function ElemTokens(rule: Rule, i: nat, names: map<nat, Name>): Outcome
    requires i + 1 < |rule|
  {
    match rule[i].kind
    case END => Thrown(EarlyEnd)
    case ALT => Printed([TBar])
    case RULE_REF => if rule[i].value in names then Printed([TName(names[rule[i].value])]) else Thrown(NoName)
    case CHAR => Printed([TOpen(false), TChar(rule[i].value)] + Close(rule, i))
    case CHAR_NOT => Printed([TOpen(true), TChar(rule[i].value)] + Close(rule, i))
    case CHAR_RNG_UPPER =>
      if InPlace(rule, i) then Printed([TDash, TChar(rule[i].value)] + Close(rule, i)) else Thrown(RangeAlone)
    case CHAR_ALT =>
      if InPlace(rule, i) then Printed([TChar(rule[i].value)] + Close(rule, i)) else Thrown(AltAlone)
  }

  function RestTokens(rule: Rule, i: nat, names: map<nat, Name>): Outcome
    requires i < |rule|
    decreases |rule| - i
  {
    if i == |rule| - 1 then Printed([TNewline])
    else match ElemTokens(rule, i, names)
      case Thrown(e) => Thrown(e)
      case Printed(a) =>
        match RestTokens(rule, i + 1, names)
        case Thrown(e) => Thrown(e)
        case Printed(b) => Printed(a + b)
  }

  function RuleTokens(id: nat, rule: Rule, names: map<nat, Name>): Outcome {
    if rule == [] || rule[|rule| - 1].kind != END then Thrown(NoEnd)
    else if id !in names then Thrown(NoName)
    else match RestTokens(rule, 0, names)
      case Thrown(e) => Thrown(e)
      case Printed(t) => Printed([TName(names[id]), TDefine] + t)
  }

  /** What is printed behind the tokens written so far. */
  function Behind(tokens: seq<Token>, o: Outcome): Outcome {
    match o case Thrown(e) => o case Printed(t) => Printed(tokens + t)
  }

  /** `print_rule` */
  method PrintRule(id: nat, rule: Rule, names: map<nat, Name>) returns (r: Outcome)
    ensures r == RuleTokens(id, rule, names)
  {
    if rule == [] || rule[|rule| - 1].kind != END { return Thrown(NoEnd); }
    if id !in names { return Thrown(NoName); }
    var file := [TName(names[id]), TDefine];
    for i := 0 to |rule| - 1
      invariant Behind(file, RestTokens(rule, i, names)) == RuleTokens(id, rule, names)
    {
      ghost var was := file;
      var elem := rule[i];
      match elem.kind {
        case END => return Thrown(EarlyEnd);
        case ALT => file := file + [TBar];
        case RULE_REF =>
          if elem.value !in names { return Thrown(NoName); }
          file := file + [TName(names[elem.value])];
        case CHAR => file := file + [TOpen(false), TChar(elem.value)];
        case CHAR_NOT => file := file + [TOpen(true), TChar(elem.value)];
        case CHAR_RNG_UPPER =>
          if i == 0 || !IsCharElement(rule[i - 1].kind) { return Thrown(RangeAlone); }
          file := file + [TDash, TChar(elem.value)];
        case CHAR_ALT =>
          if i == 0 || !IsCharElement(rule[i - 1].kind) { return Thrown(AltAlone); }
          file := file + [TChar(elem.value)];
      }
      file := file + Close(rule, i);
      BehindStep(rule, i, names, was, file);
    }
    return Printed(file + [TNewline]);
  }

  lemma BehindStep(rule: Rule, i: nat, names: map<nat, Name>, was: seq<Token>, now: seq<Token>)
    requires i + 1 < |rule| && ElemTokens(rule, i, names).Printed?
    requires now == was + ElemTokens(rule, i, names).tokens
    ensures Behind(was, RestTokens(rule, i, names)) == Behind(now, RestTokens(rule, i + 1, names))
  {
    hide ElemTokens;
    if RestTokens(rule, i + 1, names).Printed? {
      var a, b := ElemTokens(rule, i, names).tokens, RestTokens(rule, i + 1, names).tokens;
      assert was + (a + b) == (was + a) + b;
    }
  }

  /** A well-formed rule whose ids have names prints, and nothing else does. */
  lemma PrintsIffWellFormed(id: nat, rule: Rule, names: map<nat, Name>, size: nat)
    requires forall i :: i in names <==> 0 <= i < size
    ensures RuleTokens(id, rule, names).Printed? <==> WellFormed(rule, size) && id < size
    ensures RuleTokens(id, rule, names) == Thrown(NoEnd) <==> rule == [] || rule[|rule| - 1].kind != END
  {
    hide ElemOk, RestTokens;
    if rule != [] {
      RestPrintsIff(rule, 0, names, size);
      if RestTokens(rule, 0, names).Thrown? { var k := ThrownAtFirst(rule, 0, names, size); }
    }
  }

  lemma {:induction false} RestPrintsIff(rule: Rule, i: nat, names: map<nat, Name>, size: nat)
    requires i < |rule| && forall i :: i in names <==> 0 <= i < size
    ensures RestTokens(rule, i, names).Printed? <==> forall j :: i <= j < |rule| - 1 ==> ElemOk(rule, j, size)
    decreases |rule| - i
  {
    hide ElemOk, ElemTokens;
    if i < |rule| - 1 {
      RestPrintsIff(rule, i + 1, names, size);
      ElemPrintsIff(rule, i, names, size);
    }
  }

  lemma ElemPrintsIff(rule: Rule, i: nat, names: map<nat, Name>, size: nat)
    requires i + 1 < |rule| && forall i :: i in names <==> 0 <= i < size
    ensures ElemTokens(rule, i, names).Printed? <==> ElemOk(rule, i, size)
  {}

  /** What is thrown names what is wrong with the first element that is not in order. */
  lemma {:induction false} ThrownAtFirst(rule: Rule, i: nat, names: map<nat, Name>, size: nat) returns (k: nat)
    requires i < |rule| && (forall j :: j in names <==> 0 <= j < size) && RestTokens(rule, i, names).Thrown?
    ensures i <= k < |rule| - 1 && !ElemOk(rule, k, size) && forall j :: i <= j < k ==> ElemOk(rule, j, size)
    ensures var e := RestTokens(rule, i, names).error;
            (e, rule[k].kind) in [(EarlyEnd, END), (NoName, RULE_REF), (RangeAlone, CHAR_RNG_UPPER), (AltAlone, CHAR_ALT)]
    decreases |rule| - i
  {
    hide ElemTokens, ElemOk;
    ElemPrintsIff(rule, i, names, size);
    if ElemTokens(rule, i, names).Thrown? {
      ElemThrows(rule, i, names);
      k := i;
    } else {
      k := ThrownAtFirst(rule, i + 1, names, size);
    }
  }

  lemma ElemThrows(rule: Rule, i: nat, names: map<nat, Name>)
    requires i + 1 < |rule| && ElemTokens(rule, i, names).Thrown?
    ensures (ElemTokens(rule, i, names).error, rule[i].kind) in
            [(EarlyEnd, END), (NoName, RULE_REF), (RangeAlone, CHAR_RNG_UPPER), (AltAlone, CHAR_ALT)]
  {}

  // ---------------------------------------------------------------- reading a printed rule

  /** A rule and what stands behind its line. */
  datatype Line = Line(rule: Rule, rest: seq<Token>)

  function Prepend(e: Elem, r: Option<Line>): Option<Line> {
    match r case None => None case Some(x) => Some(Line([e] + x.rule, x.rest))
  }

  /** The elements that the tokens of a line stand for.  A class opens with a character, goes on with characters and
      ranges, and closes before anything else; anything else than that is not read. */
  function Read(tokens: seq<Token>, inClass: bool, ids: map<Name, nat>): (r: Option<Line>)
    ensures r.Some? ==> |r.value.rest| < |tokens|
    decreases |tokens|
  {
    if tokens == [] then None
    else match tokens[0]
      case TName(n) =>
        if inClass || n !in ids then None else Prepend(Elem(RULE_REF, ids[n]), Read(tokens[1..], false, ids))
      case TBar => if inClass then None else Prepend(Elem(ALT, 0), Read(tokens[1..], false, ids))
      case TOpen(negated) =>
        if inClass || |tokens| < 2 || !tokens[1].TChar? then None
        else Prepend(Elem(if negated then CHAR_NOT else CHAR, tokens[1].value), Read(tokens[2..], true, ids))
      case TChar(v) => if !inClass then None else Prepend(Elem(CHAR_ALT, v), Read(tokens[1..], true, ids))
      case TDash =>
        if !inClass || |tokens| < 2 || !tokens[1].TChar? then None
        else Prepend(Elem(CHAR_RNG_UPPER, tokens[1].value), Read(tokens[2..], true, ids))
      case TClose => if !inClass then None else Read(tokens[1..], false, ids)
      case TNewline => if inClass then None else Some(Line([Elem(END, 0)], tokens[1..]))
      case TDefine => None
  }

  /** A line: the name of the given id, the definition sign, and the rule. */
  function ReadRule(tokens: seq<Token>, id: nat, ids: map<Name, nat>): (r: Option<Line>)
    ensures r.Some? ==> |r.value.rest| < |tokens|
  {
    if |tokens| < 2 || !tokens[0].TName? || tokens[0].name !in ids || ids[tokens[0].name] != id || tokens[1] != TDefine then None
    else Read(tokens[2..], false, ids)
  }

  /** The lines of the ids from `id` on. */
  function ReadRules(tokens: seq<Token>, id: nat, ids: map<Name, nat>): Option<seq<Rule>>
    decreases |tokens|
  {
    if tokens == [] then Some([])
    else match ReadRule(tokens, id, ids)
      case None => None
      case Some(line) =>
        match ReadRules(line.rest, id + 1, ids)
        case None => None
        case Some(rules) => Some([line.rule] + rules)
  }

  /** The value of ALT and END is not printed. */
  function Shown(e: Elem): Elem {
    if e.kind == ALT || e.kind == END then Elem(e.kind, 0) else e
  }

  function ShownAll(rule: Rule): (r: Rule)
    ensures |r| == |rule| && forall i :: 0 <= i < |r| ==> r[i] == Shown(rule[i])
  {
    seq(|rule|, i requires 0 <= i < |rule| => Shown(rule[i]))
  }

  /** The names of the ids, the inverse of the symbol table. */
  ghost predicate Inverse(ids: map<Name, nat>, names: map<nat, Name>) {
    (forall k :: k in ids ==> ids[k] in names && names[ids[k]] == k) &&
    forall i :: i in names ==> names[i] in ids && ids[names[i]] == i
  }

  lemma ReadPair(a: Token, v: nat, rest: seq<Token>, ids: map<Name, nat>)
    requires a.TOpen? || a.TDash?
    ensures Read([a, TChar(v)] + rest, a.TDash?, ids) ==
            Prepend(Elem(if a.TDash? then CHAR_RNG_UPPER else if a.negated then CHAR_NOT else CHAR, v), Read(rest, true, ids))
  {
    assert ([a, TChar(v)] + rest)[2..] == rest;
  }

  lemma ReadSingle(a: Token, rest: seq<Token>, ids: map<Name, nat>)
    requires a == TBar || a.TChar? || (a.TName? && a.name in ids)
    ensures Read([a] + rest, a.TChar?, ids) ==
            Prepend(if a.TBar? then Elem(ALT, 0) else if a.TChar? then Elem(CHAR_ALT, a.value) else Elem(RULE_REF, ids[a.name]),
                    Read(rest, a.TChar?, ids))
  {
    assert ([a] + rest)[1..] == rest;
  }

  /** A class is open before the elements that continue it. */
  lemma ReadOne(rule: Rule, i: nat, names: map<nat, Name>, ids: map<Name, nat>, rest: seq<Token>)
    requires i + 1 < |rule| && ElemTokens(rule, i, names).Printed? && InPlace(rule, i + 1) && Inverse(ids, names)
    ensures Read(ElemTokens(rule, i, names).tokens + rest, Continues(rule[i].kind), ids) ==
            Prepend(Shown(rule[i]), Read(rest, Continues(rule[i + 1].kind), ids))
  {
    hide Read;
    var t, c, v := ElemTokens(rule, i, names).tokens, Close(rule, i), rule[i].value;
    if IsCharElement(rule[i].kind) { ReadClose(c, rest, ids); }
    match rule[i].kind
    case END =>
    case ALT => ReadSingle(TBar, rest, ids);
    case RULE_REF => ReadSingle(TName(names[v]), rest, ids);
    case CHAR_ALT =>
      ReadSingle(TChar(v), c + rest, ids);
      assert t + rest == [TChar(v)] + (c + rest);
    case _ =>
      ReadPair(t[0], v, c + rest, ids);
      assert t + rest == [t[0], TChar(v)] + (c + rest);
  }

  lemma ReadClose(c: seq<Token>, rest: seq<Token>, ids: map<Name, nat>)
    requires c == [] || c == [TClose]
    ensures Read(c + rest, true, ids) == Read(rest, c == [], ids)
  {
    if c == [] { assert c + rest == rest; } else { assert (c + rest)[1..] == rest; }
  }

  /** Reading what was printed gives the elements back. */
  lemma {:induction false} ReadInvertsRest(rule: Rule, i: nat, names: map<nat, Name>, ids: map<Name, nat>, behind: seq<Token>)
    requires i < |rule| && Inverse(ids, names) && rule[|rule| - 1].kind == END
    requires RestTokens(rule, i, names).Printed?
    ensures Read(RestTokens(rule, i, names).tokens + behind, Continues(rule[i].kind), ids) ==
            Some(Line(ShownAll(rule[i..]), behind))
    decreases |rule| - i
  {
    hide ElemTokens, Read, InPlace;
    if i == |rule| - 1 {
      ReadEnd(behind, ids);
      assert ShownAll(rule[i..]) == [Elem(END, 0)];
    } else {
      var a, b := ElemTokens(rule, i, names).tokens, RestTokens(rule, i + 1, names).tokens;
      ReadInvertsRest(rule, i + 1, names, ids, behind);
      PrintedInPlace(rule, i + 1, names);
      ReadOne(rule, i, names, ids, b + behind);
      assert (a + b) + behind == a + (b + behind);
      assert ShownAll(rule[i..]) == [Shown(rule[i])] + ShownAll(rule[i + 1..]);
    }
  }

  lemma PrintedInPlace(rule: Rule, i: nat, names: map<nat, Name>)
    requires i < |rule| && RestTokens(rule, i, names).Printed? && rule[|rule| - 1].kind == END
    ensures InPlace(rule, i)
  {}

  lemma ReadEnd(behind: seq<Token>, ids: map<Name, nat>)
    ensures Read([TNewline] + behind, false, ids) == Some(Line([Elem(END, 0)], behind))
  {}

  /** Reading a printed line gives the rule back, with its id: printing loses nothing. */
  lemma ReadInvertsPrint(id: nat, rule: Rule, names: map<nat, Name>, ids: map<Name, nat>, behind: seq<Token>)
    requires Inverse(ids, names) && RuleTokens(id, rule, names).Printed?
    ensures ReadRule(RuleTokens(id, rule, names).tokens + behind, id, ids) == Some(Line(ShownAll(rule), behind))
  {
    hide Read, RestTokens;
    var t := RestTokens(rule, 0, names).tokens;
    ReadInvertsRest(rule, 0, names, ids, behind);
    assert !Continues(rule[0].kind) by { PrintedInPlace(rule, 0, names); }
    assert rule[0..] == rule;
    assert (RuleTokens(id, rule, names).tokens + behind)[2..] == t + behind;
  }

  // ---------------------------------------------------------------- whole grammars

  function GrammarTokens(rules: seq<Rule>, i: nat, names: map<nat, Name>): Outcome
    requires i <= |rules|
    decreases |rules| - i
  {
    if i == |rules| then Printed([])
    else match RuleTokens(i, rules[i], names)
      case Thrown(e) => Thrown(e)
      case Printed(t) => Behind(t, GrammarTokens(rules, i + 1, names))
  }

  function AllShown(rules: seq<Rule>): (r: seq<Rule>)
    ensures |r| == |rules| && forall i :: 0 <= i < |r| ==> r[i] == ShownAll(rules[i])
  {
    seq(|rules|, i requires 0 <= i < |rules| => ShownAll(rules[i]))
  }

  lemma ReadNothing(id: nat, ids: map<Name, nat>)
    ensures ReadRules([], id, ids) == Some([])
  {}

  lemma ReadRulesStep(tokens: seq<Token>, id: nat, ids: map<Name, nat>)
    requires ReadRule(tokens, id, ids).Some?
    ensures var line := ReadRule(tokens, id, ids).value;
            ReadRules(tokens, id, ids) ==
            match ReadRules(line.rest, id + 1, ids) case None => None case Some(rules) => Some([line.rule] + rules)
  {
    hide ReadRule;
  }

  /** The same for all lines of a grammar. */
  lemma {:induction false} ReadInvertsAll(rules: seq<Rule>, i: nat, names: map<nat, Name>, ids: map<Name, nat>)
    requires i <= |rules| && Inverse(ids, names) && GrammarTokens(rules, i, names).Printed?
    ensures ReadRules(GrammarTokens(rules, i, names).tokens, i, ids) == Some(AllShown(rules[i..]))
    decreases |rules| - i
  {
    hide RuleTokens, ReadRule, ReadRules, Inverse, ShownAll;
    if i == |rules| {
      assert AllShown(rules[i..]) == [];
      ReadNothing(i, ids);
    } else {
      ReadInvertsAll(rules, i + 1, names, ids);
      var t, behind := RuleTokens(i, rules[i], names).tokens, GrammarTokens(rules, i + 1, names).tokens;
      ReadInvertsPrint(i, rules[i], names, ids, behind);
      ReadRulesStep(t + behind, i, ids);
      assert AllShown(rules[i..]) == [ShownAll(rules[i])] + AllShown(rules[i + 1..]);
    }
  }

  /** The loop that inverts the symbol table; the order in which it runs through the names does not matter. */
  method SymbolNames(ids: map<Name, nat>) returns (names: map<nat, Name>)
    requires Bijection(ids)
    ensures Inverse(ids, names)
    ensures forall i :: i in names <==> 0 <= i < |ids|
  {
    hide HasName;
    names := map[];
    var left := ids.Keys;
    while left != {}
      invariant left <= ids.Keys
      invariant forall k :: k in ids && k !in left ==> ids[k] in names && names[ids[k]] == k
      invariant forall i :: i in names ==> names[i] in ids && ids[names[i]] == i
      decreases |left|
    {
      var k :| k in left;
      names := names[ids[k] := k];
      left := left - {k};
    }
    AllNamed(ids, names);
  }

  lemma AllNamed(ids: map<Name, nat>, names: map<nat, Name>)
    requires Bijection(ids) && Inverse(ids, names)
    ensures forall i :: i in names <==> 0 <= i < |ids|
  {
    forall i: nat | i < |ids|
      ensures i in names
    {
      assert HasName(ids, i);
    }
  }

  ghost predicate AllWellFormed(st: State) {
    |st.rules| <= |st.ids| && forall i :: 0 <= i < |st.rules| ==> WellFormed(st.rules[i], |st.ids|)
  }

  lemma AllPrintIff(st: State, names: map<nat, Name>)
    requires forall i :: i in names <==> 0 <= i < |st.ids|
    ensures GrammarTokens(st.rules, 0, names).Printed? <==> AllWellFormed(st)
  {
    hide WellFormed, GrammarTokens;
    GrammarPrintsIff(st.rules, 0, names, |st.ids|);
  }

  /** `print_grammar` */
  method PrintGrammar(st: State) returns (r: Outcome)
    requires Bijection(st.ids)
    ensures exists names :: Inverse(st.ids, names) && r == GrammarTokens(st.rules, 0, names)
    ensures r.Printed? <==> AllWellFormed(st)
    ensures r.Printed? ==> ReadRules(r.tokens, 0, st.ids) == Some(AllShown(st.rules))
  {
    hide Bijection, AllWellFormed, RuleTokens, Inverse, ReadRules, AllShown;
    var names := SymbolNames(st.ids);
    var file: seq<Token> := [];
    AllPrintIff(st, names);
    NothingBehind(GrammarTokens(st.rules, 0, names));
    for i := 0 to |st.rules|
      invariant Behind(file, GrammarTokens(st.rules, i, names)) == GrammarTokens(st.rules, 0, names)
    {
      var p := PrintRule(i, st.rules[i], names);
      if p.Thrown? { return p; }
      BehindBehind(file, p.tokens, GrammarTokens(st.rules, i + 1, names));
      file := file + p.tokens;
    }
    r := Printed(file);
    assert file + [] == file;
    ReadInvertsAll(st.rules, 0, names, st.ids);
    assert st.rules[0..] == st.rules;
  }

  lemma NothingBehind(o: Outcome)
    ensures Behind([], o) == o
  {
    if o.Printed? { assert [] + o.tokens == o.tokens; }
  }

  lemma BehindBehind(a: seq<Token>, b: seq<Token>, o: Outcome)
    ensures Behind(a + b, o) == Behind(a, Behind(b, o))
  {
    if o.Printed? { assert (a + b) + o.tokens == a + (b + o.tokens); }
  }

  lemma {:induction false} GrammarPrintsIff(rules: seq<Rule>, i: nat, names: map<nat, Name>, size: nat)
    requires i <= |rules| && forall i :: i in names <==> 0 <= i < size
    ensures GrammarTokens(rules, i, names).Printed? <==>
            (i == |rules| || |rules| <= size) && forall j :: i <= j < |rules| ==> WellFormed(rules[j], size)
    decreases |rules| - i
  {
    hide RuleTokens, WellFormed;
    if i < |rules| {
      GrammarPrintsIff(rules, i + 1, names, size);
      PrintsIffWellFormed(i, rules[i], names, size);
    }
  }

  /** Every name with a slot in the rules is defined. */
  ghost predicate SlotsDefined(st: State, defs: Defs) {
    forall name :: UserName(name) && name in st.ids && st.ids[name] < |st.rules| ==> name in defs
  }

  /** A parsed grammar prints exactly when every name with a slot in the rules was defined. */
  lemma ParsedPrintsIffDefined(defs: seq<Definition>, names: map<nat, Name>)
    requires DefsNamesOk(defs) && Inverse(Compile(defs).ids, names)
    ensures GrammarTokens(Compile(defs).rules, 0, names).Printed? <==> SlotsDefined(Compile(defs), DefsOf(defs))
  {
    hide Compile, DefsOf, DefsNamesOk, UserName, WellFormed, NamedById, GrammarTokens, Inverse;
    var st := Compile(defs);
    var m := CompileKeeps(defs);
    AllNamed(st.ids, names);
    AllPrintIff(st, names);
    forall i: nat | i < |st.rules|
      ensures i < |st.ids| && (WellFormed(st.rules[i], |st.ids|) <==> st.rules[i] != [])
    {
      CompiledRulesWellFormed(defs, i);
      NonEmpty(st.rules[i], |st.ids|);
    }
    if SlotsDefined(st, DefsOf(defs)) {
      forall i: nat | i < |st.rules|
        ensures st.rules[i] != []
      {
        CompiledRulesWellFormed(defs, i);
      }
    }
    forall name | UserName(name) && name in st.ids && st.ids[name] < |st.rules| && st.rules[st.ids[name]] != []
      ensures name in DefsOf(defs)
    {
      CompiledRulesWellFormed(defs, st.ids[name]);
    }
  }
}

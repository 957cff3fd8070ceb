/** What holds at each moment of a parse. */
module GrammarRules {
  import opened GrammarEmit
  import opened GrammarSyntax

  // ---------------------------------------------------------------- the symbol table is a bijection

  ghost predicate HasName(ids: map<Name, nat>, i: nat) {
    exists k :: k in ids && ids[k] == i
  }

  /** `symbol_ids` is one-to-one onto 0..size-1. */
  ghost predicate Bijection(ids: map<Name, nat>) {
    (forall k :: k in ids ==> ids[k] < |ids|) &&
    (forall j, k :: j in ids && k in ids && ids[j] == ids[k] ==> j == k) &&
    forall i: nat :: i < |ids| ==> HasName(ids, i)
  }

  /** Every name is a user name, or one generated for its own id. */
  ghost predicate NamedById(ids: map<Name, nat>) {
    forall k :: k in ids ==> UserName(k) || exists base :: UserName(base) && k == Generated(base, ids[k])
  }

  ghost predicate Symbols(ids: map<Name, nat>) {
    Bijection(ids) && NamedById(ids)
  }

  lemma AddedSize(ids: map<Name, nat>, name: Name, id: nat)
    requires name !in ids
    ensures |ids[name := id]| == |ids| + 1
  {
    assert ids[name := id].Keys == ids.Keys + {name};
  }

  lemma AddKeepsName(ids: map<Name, nat>, name: Name, id: nat, i: nat)
    requires name !in ids && (i == id || HasName(ids, i))
    ensures HasName(ids[name := id], i)
  {
    if i == id {
      assert name in ids[name := id];
    } else {
      var k :| k in ids && ids[k] == i;
      assert k in ids[name := id];
    }
  }

  lemma AddKeepsBijection(ids: map<Name, nat>, name: Name)
    requires Bijection(ids) && name !in ids
    ensures Bijection(ids[name := |ids|])
  {
    hide HasName;
    var more := ids[name := |ids|];
    AddedSize(ids, name, |ids|);
    forall i: nat | i < |more|
      ensures HasName(more, i)
    {
      AddKeepsName(ids, name, |ids|, i);
    }
  }

  /** A generated name is new: `generate_symbol_id` overwrites nothing. */
  lemma GeneratedIsFresh(ids: map<Name, nat>, base: Name)
    requires Symbols(ids) && UserName(base)
    ensures Generated(base, |ids|) !in ids
  {
    var g := Generated(base, |ids|);
    GeneratedIsNoUserName(base, |ids|);
    if g in ids {
      var b :| UserName(b) && g == Generated(b, ids[g]);
      GeneratedInjective(base, |ids|, b, ids[g]);
      assert false;
    }
  }

  lemma GenerateKeepsSymbols(ids: map<Name, nat>, base: Name)
    requires Symbols(ids) && UserName(base)
    ensures Generated(base, |ids|) !in ids && Symbols(ids[Generated(base, |ids|) := |ids|])
  {
    hide Bijection, Generated, UserName;
    GeneratedIsFresh(ids, base);
    AddKeepsBijection(ids, Generated(base, |ids|));
  }

  lemma InternKeepsSymbols(ids: map<Name, nat>, name: Name)
    requires Symbols(ids) && UserName(name) && name !in ids
    ensures Symbols(ids[name := |ids|])
  {
    hide Bijection, Generated, UserName;
    AddKeepsBijection(ids, name);
  }

  // ---------------------------------------------------------------- what an element sequence stands for

  /** The expression that each id stands for: a reference for a user name, the group or repetition else. */
  type Meaning = seq<Item>

  /** The number of elements in a rule body for one item. */
  function Size(item: Item): nat {
    match item
    case Lit(chars) => |chars|
    case Class(negated, ranges) => |ClassElems(negated, ranges)|
    case _ => 1
  }

  function BodySize(body: Body): nat {
    match body
    case Empty => 0
    case Snoc(init, last) => BodySize(init) + Size(last)
  }

  /** `e` is what stands for `item` in a rule body. */
  ghost predicate ItemElems(m: Meaning, item: Item, e: Rule) {
    match item
    case Lit(chars) => e == Chars(chars)
    case Class(negated, ranges) => e == ClassElems(negated, ranges)
    case _ => |e| == 1 && e[0].kind == RULE_REF && e[0].value < |m| && m[e[0].value] == item
  }

  ghost predicate BodyElems(m: Meaning, body: Body, e: Rule) {
    match body
    case Empty => e == []
    case Snoc(init, last) =>
      var k := |e| - Size(last);
      k >= 0 && BodyElems(m, init, e[..k]) && ItemElems(m, last, e[k..])
  }

  ghost predicate AltsElems(m: Meaning, alts: Alts, e: Rule) {
    match alts
    case One(body) => BodyElems(m, body, e)
    case Or(before, other) =>
      var k := |e| - BodySize(other) - 1;
      k >= 0 && AltsElems(m, before, e[..k]) && e[k] == Elem(ALT, 0) && BodyElems(m, other, e[k + 1..])
  }

  ghost predicate RuleFor(m: Meaning, alts: Alts, rule: Rule) {
    |rule| > 0 && rule[|rule| - 1] == Elem(END, 0) && AltsElems(m, alts, rule[..|rule| - 1])
  }

  /** The rule of a generated id. */
  ghost predicate GeneratedRule(m: Meaning, id: nat, rule: Rule)
    requires id < |m|
  {
    match m[id]
    case Group(alts) => RuleFor(m, alts, rule)
    case Rep(op, it) => exists e :: ItemElems(m, it, e) && rule == RepRule(op, e, id)
    case _ => false
  }

  type Defs = map<Name, Alts>

  /** The rule of an id is the one that its meaning asks for. */
  ghost predicate RuleOk(rules: seq<Rule>, m: Meaning, defs: Defs, id: nat)
    requires id < |m|
  {
    if m[id].Ref? then
      if m[id].name in defs then id < |rules| && RuleFor(m, defs[m[id].name], rules[id])
      else id >= |rules| || rules[id] == []
    else id < |rules| && GeneratedRule(m, id, rules[id])
  }

  /** Ids and meanings belong together. */
  ghost predicate Matches(ids: map<Name, nat>, m: Meaning) {
    |m| == |ids| &&
    forall k :: k in ids && ids[k] < |m| ==> if UserName(k) then m[ids[k]] == Ref(k) else !m[ids[k]].Ref?
  }

  /** All rules are as they should be, except those of the groups in `open`, which are still being parsed. */
  ghost predicate Rules(st: State, m: Meaning, defs: Defs, open: set<nat>) {
    |st.rules| <= |m| &&
    (forall id :: id in open ==> id < |m|) &&
    forall id :: 0 <= id < |m| && id !in open ==> RuleOk(st.rules, m, defs, id)
  }

  ghost predicate Inv(st: State, m: Meaning, defs: Defs, open: set<nat>) {
    Symbols(st.ids) && Matches(st.ids, m) && defs.Keys <= st.ids.Keys && Rules(st, m, defs, open)
  }

  // ---------------------------------------------------------------- more symbols

  lemma ItemElemsGrow(m: Meaning, m2: Meaning, item: Item, e: Rule)
    requires m <= m2 && ItemElems(m, item, e)
    ensures ItemElems(m2, item, e)
  {}

  lemma {:induction false} BodyElemsGrow(m: Meaning, m2: Meaning, body: Body, e: Rule)
    requires m <= m2 && BodyElems(m, body, e)
    ensures BodyElems(m2, body, e)
  {
    if body.Snoc? { BodyElemsGrow(m, m2, body.init, e[..|e| - Size(body.last)]); }
  }

  lemma {:induction false} AltsElemsGrow(m: Meaning, m2: Meaning, alts: Alts, e: Rule)
    requires m <= m2 && AltsElems(m, alts, e)
    ensures AltsElems(m2, alts, e)
  {
    hide BodyElems;
    match alts
    case One(body) => BodyElemsGrow(m, m2, body, e);
    case Or(before, other) =>
      var k := |e| - BodySize(other) - 1;
      AltsElemsGrow(m, m2, before, e[..k]);
      BodyElemsGrow(m, m2, other, e[k + 1..]);
  }

  lemma RuleOkGrows(rules: seq<Rule>, m: Meaning, m2: Meaning, defs: Defs, id: nat)
    requires m <= m2 && id < |m| && RuleOk(rules, m, defs, id)
    ensures RuleOk(rules, m2, defs, id)
  {
    hide AltsElems, ItemElems, RepRule;
    if m[id].Ref? && m[id].name in defs {
      AltsElemsGrow(m, m2, defs[m[id].name], rules[id][..|rules[id]| - 1]);
    }
    if m[id].Group? { AltsElemsGrow(m, m2, m[id].alts, rules[id][..|rules[id]| - 1]); }
    if m[id].Rep? {
      var e :| ItemElems(m, m[id].item, e) && rules[id] == RepRule(m[id].op, e, id);
      ItemElemsGrow(m, m2, m[id].item, e);
    }
  }

  /** One more symbol whose rule is not there yet. */
  lemma RulesGrow(st: State, m: Meaning, defs: Defs, open: set<nat>, item: Item, ids: map<Name, nat>, open2: set<nat>)
    requires Rules(st, m, defs, open)
    requires if item.Ref? then item.name !in defs && open2 == open else open2 == open + {|m|}
    ensures Rules(State(ids, st.rules), m + [item], defs, open2)
  {
    hide RuleFor, GeneratedRule;
    forall id | 0 <= id < |m| + 1 && id !in open2
      ensures RuleOk(st.rules, m + [item], defs, id)
    {
      if id < |m| { RuleOkGrows(st.rules, m, m + [item], defs, id); }
    }
  }

  /** The rule of an open group, or of a repetition, arrives. */
  lemma RulesAdd(st: State, m: Meaning, defs: Defs, open: set<nat>, id: nat, rule: Rule)
    requires Rules(st, m, defs, open) && id in open && !m[id].Ref? && GeneratedRule(m, id, rule)
    ensures Rules(AddRule(st, id, rule), m, defs, open - {id})
  {
    hide RuleFor, GeneratedRule;
  }

  ghost predicate NamesOk(item: Item) {
    match item
    case Ref(name) => UserName(name)
    case Group(alts) => AltsNamesOk(alts)
    case Rep(op, it) => NamesOk(it)
    case _ => true
  }

  ghost predicate BodyNamesOk(body: Body) {
    body.Snoc? ==> BodyNamesOk(body.init) && NamesOk(body.last)
  }

  ghost predicate AltsNamesOk(alts: Alts) {
    match alts
    case One(body) => BodyNamesOk(body)
    case Or(before, other) => AltsNamesOk(before) && BodyNamesOk(other)
  }

  lemma SymbolBound(ids: map<Name, nat>, name: Name)
    requires Symbols(ids) && name in ids
    ensures ids[name] < |ids|
  {}

  lemma InternKeeps(st: State, m: Meaning, defs: Defs, open: set<nat>, name: Name) returns (m2: Meaning)
    requires Inv(st, m, defs, open) && UserName(name)
    ensures Inv(Intern(st, name).0, m2, defs, open) && m <= m2
    ensures var id := Intern(st, name).1; id < |m2| && m2[id] == Ref(name) && name in Intern(st, name).0.ids
  {
    hide Symbols, Rules, UserName;
    if name in st.ids {
      m2 := m;
      SymbolBound(st.ids, name);
    } else {
      m2 := m + [Ref(name)];
      InternKeepsSymbols(st.ids, name);
      RulesGrow(st, m, defs, open, Ref(name), st.ids[name := |st.ids|], open);
      MatchesGrow(st.ids, m, name, Ref(name));
    }
  }

  lemma MatchesGrow(ids: map<Name, nat>, m: Meaning, name: Name, item: Item)
    requires Symbols(ids) && Matches(ids, m) && name !in ids
    requires if UserName(name) then item == Ref(name) else !item.Ref?
    ensures Matches(ids[name := |ids|], m + [item])
  {
    hide NamedById, UserName, HasName;
    assert ids[name := |ids|].Keys == ids.Keys + {name};
  }

  lemma GenerateKeeps(st: State, m: Meaning, defs: Defs, open: set<nat>, base: Name, item: Item)
    requires Inv(st, m, defs, open) && UserName(base) && !item.Ref?
    ensures Inv(Generate(st, base).0, m + [item], defs, open + {|m|}) && Generate(st, base).1 == |m|
  {
    hide Symbols, Rules, UserName, Generated;
    GenerateKeepsSymbols(st.ids, base);
    RulesGrow(st, m, defs, open, item, st.ids[Generated(base, |st.ids|) := |st.ids|], open + {|m|});
    GeneratedIsNoUserName(base, |st.ids|);
    MatchesGrow(st.ids, m, Generated(base, |st.ids|), item);
  }

  lemma {:induction false} EmitItemKeeps(st: State, m: Meaning, defs: Defs, open: set<nat>, base: Name, item: Item)
    returns (m2: Meaning)
    requires Inv(st, m, defs, open) && UserName(base) && NamesOk(item)
    ensures Inv(EmitItem(st, base, item).0, m2, defs, open) && m <= m2
    ensures ItemElems(m2, item, EmitItem(st, base, item).1)
    decreases item
  {
    hide Inv, UserName, RepRule;
    match item
    case Lit(chars) => m2 := m;
    case Class(negated, ranges) => m2 := m;
    case Ref(name) => m2 := InternKeeps(st, m, defs, open, name);
    case Group(alts) =>
      OpenFresh(st, m, defs, open);
      GenerateKeeps(st, m, defs, open, base, item);
      var (st1, id) := Generate(st, base);
      m2 := EmitAltsKeeps(st1, m + [item], defs, open + {id}, base, alts);
      var (st2, e) := EmitAlts(st1, base, alts);
      CloseKeeps(st2, m2, defs, open + {id}, id, e + [Elem(END, 0)], open);
    case Rep(op, it) =>
      var m1 := EmitItemKeeps(st, m, defs, open, base, it);
      var (st1, e) := EmitItem(st, base, it);
      OpenFresh(st1, m1, defs, open);
      GenerateKeeps(st1, m1, defs, open, base, item);
      m2 := m1 + [item];
      var (st2, id) := Generate(st1, base);
      ItemElemsGrow(m1, m2, it, e);
      CloseKeeps(st2, m2, defs, open + {id}, id, RepRule(op, e, id), open);
  }

  lemma OpenFresh(st: State, m: Meaning, defs: Defs, open: set<nat>)
    requires Inv(st, m, defs, open)
    ensures |m| !in open && Generate(st, []).1 == |m|
  {}

  lemma CloseKeeps(st: State, m: Meaning, defs: Defs, open: set<nat>, id: nat, rule: Rule, open2: set<nat>)
    requires Inv(st, m, defs, open) && id in open && id !in open2 && open == open2 + {id}
    requires id < |m| && !m[id].Ref? && GeneratedRule(m, id, rule)
    ensures Inv(AddRule(st, id, rule), m, defs, open2)
  {
    hide Symbols, RuleOk;
    RulesAdd(st, m, defs, open, id, rule);
    assert open - {id} == open2;
  }

  lemma {:induction false} EmitBodyKeeps(st: State, m: Meaning, defs: Defs, open: set<nat>, base: Name, body: Body)
    returns (m2: Meaning)
    requires Inv(st, m, defs, open) && UserName(base) && BodyNamesOk(body)
    ensures Inv(EmitBody(st, base, body).0, m2, defs, open) && m <= m2
    ensures BodyElems(m2, body, EmitBody(st, base, body).1)
    decreases body
  {
    hide Inv, UserName, NamesOk, EmitItem;
    match body
    case Empty => m2 := m;
    case Snoc(init, last) =>
      var m1 := EmitBodyKeeps(st, m, defs, open, base, init);
      var (st1, e1) := EmitBody(st, base, init);
      m2 := EmitItemKeeps(st1, m1, defs, open, base, last);
      var (st2, e2) := EmitItem(st1, base, last);
      BodyElemsGrow(m1, m2, init, e1);
      JoinBody(m2, init, last, e1, e2);
  }

  lemma ItemSize(m: Meaning, item: Item, e: Rule)
    requires ItemElems(m, item, e)
    ensures |e| == Size(item)
  {}

  lemma JoinBody(m: Meaning, init: Body, last: Item, e1: Rule, e2: Rule)
    requires BodyElems(m, init, e1) && ItemElems(m, last, e2)
    ensures BodyElems(m, Snoc(init, last), e1 + e2)
  {
    hide ItemElems, Size;
    ItemSize(m, last, e2);
    assert (e1 + e2)[..|e1|] == e1 && (e1 + e2)[|e1|..] == e2;
  }

  lemma {:induction false} BodySizeIs(m: Meaning, body: Body, e: Rule)
    requires BodyElems(m, body, e)
    ensures |e| == BodySize(body)
  {
    hide ItemElems, Size;
    if body.Snoc? { BodySizeIs(m, body.init, e[..|e| - Size(body.last)]); }
  }

  lemma JoinAlts(m: Meaning, before: Alts, other: Body, e1: Rule, e2: Rule)
    requires AltsElems(m, before, e1) && BodyElems(m, other, e2)
    ensures AltsElems(m, Or(before, other), e1 + [Elem(ALT, 0)] + e2)
  {
    hide BodyElems, BodySize;
    BodySizeIs(m, other, e2);
    var e := e1 + [Elem(ALT, 0)] + e2;
    assert e[..|e1|] == e1 && e[|e1| + 1..] == e2;
  }

  lemma {:induction false} EmitAltsKeeps(st: State, m: Meaning, defs: Defs, open: set<nat>, base: Name, alts: Alts)
    returns (m2: Meaning)
    requires Inv(st, m, defs, open) && UserName(base) && AltsNamesOk(alts)
    ensures Inv(EmitAlts(st, base, alts).0, m2, defs, open) && m <= m2
    ensures AltsElems(m2, alts, EmitAlts(st, base, alts).1)
    ensures RuleFor(m2, alts, EmitAlts(st, base, alts).1 + [Elem(END, 0)])
    decreases alts
  {
    hide Inv, UserName, BodyNamesOk, EmitBody, BodyElems;
    match alts
    case One(body) =>
      m2 := EmitBodyKeeps(st, m, defs, open, base, body);
    case Or(before, other) =>
      var m1 := EmitAltsKeeps(st, m, defs, open, base, before);
      var (st1, e1) := EmitAlts(st, base, before);
      m2 := EmitBodyKeeps(st1, m1, defs, open, base, other);
      var (st2, e2) := EmitBody(st1, base, other);
      AltsElemsGrow(m1, m2, before, e1);
      JoinAlts(m2, before, other, e1, e2);
    var e := EmitAlts(st, base, alts).1;
    assert (e + [Elem(END, 0)])[..|e|] == e;
  }

  // ---------------------------------------------------------------- whole grammars

  ghost predicate DefsNamesOk(defs: seq<Definition>) {
    forall i :: 0 <= i < |defs| ==> UserName(defs[i].name) && AltsNamesOk(defs[i].alts)
  }

  /** The definitions in force: a later one replaces an earlier one of the same name. */
  function DefsOf(defs: seq<Definition>): Defs {
    if defs == [] then map[]
    else DefsOf(defs[..|defs| - 1])[defs[|defs| - 1].name := defs[|defs| - 1].alts]
  }

  /** A definition arrives, or is replaced. */
  lemma DefineKeeps(st: State, m: Meaning, defs: Defs, name: Name, alts: Alts, rule: Rule)
    requires Inv(st, m, defs, {}) && name in st.ids && UserName(name) && RuleFor(m, alts, rule)
    ensures Inv(AddRule(st, st.ids[name], rule), m, defs[name := alts], {})
  {
    hide NamedById, RuleFor, GeneratedRule, UserName, HasName;
    var id := st.ids[name];
    var st2 := AddRule(st, id, rule);
    var defs2 := defs[name := alts];
    forall j: nat | j < |m|
      ensures RuleOk(st2.rules, m, defs2, j)
    {
      assert RuleOk(st.rules, m, defs, j);
      OnlyOneId(st.ids, m, name, j);
    }
  }

  lemma OnlyOneId(ids: map<Name, nat>, m: Meaning, name: Name, j: nat)
    requires Symbols(ids) && Matches(ids, m) && name in ids && j < |m|
    ensures m[j] == Ref(name) ==> j == ids[name]
  {
    hide NamedById, UserName;
    assert HasName(ids, j);
  }

  lemma {:induction false} CompileKeeps(defs: seq<Definition>) returns (m: Meaning)
    requires DefsNamesOk(defs)
    ensures Inv(Compile(defs), m, DefsOf(defs), {})
  {
    hide Inv, UserName, AltsNamesOk, EmitAlts, AltsElems, AddRule;
    if defs == [] {
      m := [];
      NothingYet();
    } else {
      var n := |defs| - 1;
      var before := defs[..n];
      var m0 := CompileKeeps(before);
      var st, def := Compile(before), defs[n];
      var m1 := InternKeeps(st, m0, DefsOf(before), {}, def.name);
      var (st1, id) := Intern(st, def.name);
      m := EmitAltsKeeps(st1, m1, DefsOf(before), {}, def.name, def.alts);
      var (st2, e) := EmitAlts(st1, def.name, def.alts);
      KeptId(st1, m1, st2, m, DefsOf(before), def.name);
      DefineKeeps(st2, m, DefsOf(before), def.name, def.alts, e + [Elem(END, 0)]);
    }
  }

  lemma NothingYet()
    ensures Inv(NO_STATE, [], map[], {})
  {}

  /** A known name keeps its id. */
  lemma KeptId(st: State, m: Meaning, st2: State, m2: Meaning, defs: Defs, name: Name)
    requires Inv(st, m, defs, {}) && Inv(st2, m2, defs, {}) && m <= m2
    requires name in st.ids && UserName(name)
    ensures name in st2.ids && st2.ids[name] == st.ids[name]
  {
    hide Rules, UserName, NamedById;
    var id := st.ids[name];
    assert HasName(st2.ids, id);
  }
}

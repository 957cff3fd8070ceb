/** Compiling a grammar keeps its language. */
module GrammarMeaning {
  import opened Arithmetic
  import opened GrammarEmit
  import opened GrammarLanguage
  import opened GrammarRules
  import opened GrammarSyntax

  // ---------------------------------------------------------------- pieces

  lemma ItemPiece(m: Meaning, item: Item, e: Rule)
    requires ItemElems(m, item, e)
    ensures Piece(e)
  {
    match item
    case Lit(chars) => CharsPiece(chars);
    case Class(negated, ranges) => ClassPiece(negated, ranges);
    case _ =>
  }

  lemma PieceFollows(e: Rule)
    requires Piece(e)
    ensures Follows(e) && NoAlt(e)
  {
    if e != [] { assert InPlace(e, 0); }
  }

  lemma JoinPiece(a: Rule, b: Rule)
    requires Piece(a) && Piece(b)
    ensures Piece(a + b)
  {
    forall i | 0 <= i < |a + b|
      ensures InPlace(a + b, i)
    {
      if i < |a| { assert InPlace(a, i); } else { assert InPlace(b, i - |a|); }
    }
  }

  lemma Halves<T>(s: seq<T>, k: nat)
    requires k <= |s|
    ensures s[..k] + s[k..] == s
  {}

  /** The elements of the last item, and those before it. */
  lemma BodyParts(m: Meaning, init: Body, last: Item, e: Rule) returns (k: nat)
    requires BodyElems(m, Snoc(init, last), e)
    ensures k <= |e| && BodyElems(m, init, e[..k]) && ItemElems(m, last, e[k..]) && e[..k] + e[k..] == e
  {
    hide ItemElems, Size;
    k := |e| - Size(last);
    Halves(e, k);
  }

  /** The elements of the last alternative, and those before it. */
  lemma AltsParts(m: Meaning, before: Alts, other: Body, e: Rule) returns (k: nat)
    requires AltsElems(m, Or(before, other), e)
    ensures k < |e| && AltsElems(m, before, e[..k]) && BodyElems(m, other, e[k + 1..])
    ensures e == e[..k] + [Elem(ALT, 0)] + e[k + 1..]
  {
    hide BodyElems, BodySize;
    k := |e| - BodySize(other) - 1;
  }

  lemma {:induction false} BodyPiece(m: Meaning, body: Body, e: Rule)
    requires BodyElems(m, body, e)
    ensures Piece(e)
    decreases body
  {
    hide ItemElems, Piece, BodyElems;
    match body
    case Empty =>
      EmptyElems(m, e);
      NoPiece();
    case Snoc(init, last) =>
      var k := BodyParts(m, init, last, e);
      BodyPiece(m, init, e[..k]);
      ItemPiece(m, last, e[k..]);
      JoinPiece(e[..k], e[k..]);
  }

  lemma EmptyElems(m: Meaning, e: Rule)
    requires BodyElems(m, Empty, e)
    ensures e == []
  {}

  lemma NoPiece()
    ensures Piece([])
  {}

  // ---------------------------------------------------------------- derived words are denoted

  /** Every derivation of the given height derives a word of the meaning. */
  ghost predicate Sound(rules: seq<Rule>, m: Meaning, defs: Defs, height: nat) {
    forall id: nat, w: Word :: id < |m| && Derives(rules, height, id, w) ==> Denotes(defs, height, m[id], w)
  }

  lemma ItemSound(rules: seq<Rule>, m: Meaning, defs: Defs, height: nat, item: Item, e: Rule, w: Word)
    requires Sound(rules, m, defs, height) && ItemElems(m, item, e) && DerivesSeq(rules, height, e, w)
    ensures Denotes(defs, height, item, w)
  {
    hide Derives, DerivesSeq, InClass, ClassElems, DenotesAlts, DenotesPower;
    match item
    case Lit(chars) => CharsDerive(rules, height, chars, w);
    case Class(negated, ranges) =>
      if ranges == [] {
        NoElems(negated);
        NothingDerives(rules, height, e, w);
      } else {
        ClassDerivesSet(rules, height, negated, ranges, w);
      }
    case _ =>
      OnlyRef(rules, height, e, w);
  }

  lemma OnlyRef(rules: seq<Rule>, height: nat, e: Rule, w: Word)
    requires |e| == 1 && e[0].kind == RULE_REF
    ensures DerivesSeq(rules, height, e, w) <==> Derives(rules, height, e[0].value, w)
  {
    hide Derives, DerivesSeq;
    assert w[..|w|] == w && w[|w|..] == [];
    NothingDerives(rules, height, e[1..], []);
    if DerivesSeq(rules, height, e, w) {
      var i := RefSplits(rules, height, e, w);
      NothingDerives(rules, height, e[1..], w[i..]);
      assert w[..i] == w;
    }
    if Derives(rules, height, e[0].value, w) {
      RefDerives(rules, height, e, w, []);
      assert w + [] == w;
    }
  }

  lemma {:induction false} BodySound(rules: seq<Rule>, m: Meaning, defs: Defs, height: nat, body: Body, e: Rule, w: Word)
    requires Sound(rules, m, defs, height) && BodyElems(m, body, e) && DerivesSeq(rules, height, e, w)
    ensures DenotesBody(defs, height, body, w)
    decreases body
  {
    hide Sound, ItemElems, DerivesSeq, Denotes, BodyElems, Piece;
    match body
    case Empty =>
      EmptyElems(m, e);
      NothingDerives(rules, height, e, w);
    case Snoc(init, last) =>
      var k := BodyParts(m, init, last, e);
      BodyPiece(m, init, e[..k]);
      ItemPiece(m, last, e[k..]);
      PieceFollows(e[k..]);
      var i := SplitDerives(rules, height, e[..k], e[k..], w);
      BodySound(rules, m, defs, height, init, e[..k], w[..i]);
      ItemSound(rules, m, defs, height, last, e[k..], w[i..]);
  }

  lemma OneBody(m: Meaning, body: Body, e: Rule)
    ensures AltsElems(m, One(body), e) == BodyElems(m, body, e)
  {}

  /** What a rule derives is what one of the alternatives derives. */
  lemma {:induction false} AltsSound(rules: seq<Rule>, m: Meaning, defs: Defs, height: nat, alts: Alts, e: Rule, w: Word)
    requires Sound(rules, m, defs, height) && AltsElems(m, alts, e) && DerivesRule(rules, height, e, w)
    ensures DenotesAlts(defs, height, alts, w)
    decreases alts
  {
    hide Sound, BodyElems, AltsElems, DerivesSeq, DerivesRule, DenotesBody, Piece, NoAlt;
    match alts
    case One(body) =>
      OneBody(m, body, e);
      BodyPiece(m, body, e);
      PieceFollows(e);
      RuleOne(rules, height, e, w);
      BodySound(rules, m, defs, height, body, e, w);
    case Or(before, other) =>
      var k := AltsParts(m, before, other, e);
      BodyPiece(m, other, e[k + 1..]);
      PieceFollows(e[k + 1..]);
      RuleAlt(rules, height, e[..k], e[k + 1..], w);
      if DerivesRule(rules, height, e[..k], w) {
        AltsSound(rules, m, defs, height, before, e[..k], w);
      } else {
        BodySound(rules, m, defs, height, other, e[k + 1..], w);
      }
  }

  lemma RuleSound(rules: seq<Rule>, m: Meaning, defs: Defs, height: nat, alts: Alts, rule: Rule, w: Word)
    requires Sound(rules, m, defs, height) && RuleFor(m, alts, rule) && DerivesRule(rules, height, rule, w)
    ensures DenotesAlts(defs, height, alts, w)
  {
    hide Sound, AltsElems, DerivesRule, DenotesAlts;
    var e := rule[..|rule| - 1];
    assert rule == e + [Elem(END, 0)];
    RuleEnd(rules, height, e, w);
    AltsSound(rules, m, defs, height, alts, e, w);
  }

  // ---------------------------------------------------------------- deeper references denote no less

  lemma {:induction false} DenotesMore(defs: Defs, depth: nat, more: nat, item: Item, w: Word)
    requires depth <= more && Denotes(defs, depth, item, w)
    ensures Denotes(defs, more, item, w)
    decreases depth, item, 0
  {
    hide InClass;
    match item
    case Lit(chars) =>
    case Class(negated, ranges) =>
    case Ref(name) => DenotesAltsMore(defs, depth - 1, more - 1, defs[name], w);
    case Group(alts) => DenotesAltsMore(defs, depth, more, alts, w);
    case Rep(Star, it) =>
      var n: nat :| DenotesPower(defs, depth, it, n, w);
      DenotesPowerMore(defs, depth, more, it, n, w);
    case Rep(Plus, it) =>
      var n: nat :| n > 0 && DenotesPower(defs, depth, it, n, w);
      DenotesPowerMore(defs, depth, more, it, n, w);
    case Rep(Opt, it) =>
      if w != [] { DenotesMore(defs, depth, more, it, w); }
  }

  lemma {:induction false} DenotesPowerMore(defs: Defs, depth: nat, more: nat, item: Item, n: nat, w: Word)
    requires depth <= more && DenotesPower(defs, depth, item, n, w)
    ensures DenotesPower(defs, more, item, n, w)
    decreases depth, item, n + 1
  {
    hide Denotes;
    if n > 0 {
      var i :| 0 <= i <= |w| && Denotes(defs, depth, item, w[..i]) && DenotesPower(defs, depth, item, n - 1, w[i..]);
      DenotesMore(defs, depth, more, item, w[..i]);
      DenotesPowerMore(defs, depth, more, item, n - 1, w[i..]);
    }
  }

  lemma {:induction false} DenotesBodyMore(defs: Defs, depth: nat, more: nat, body: Body, w: Word)
    requires depth <= more && DenotesBody(defs, depth, body, w)
    ensures DenotesBody(defs, more, body, w)
    decreases depth, body, 0
  {
    hide Denotes;
    match body
    case Empty =>
    case Snoc(init, last) =>
      var i :| 0 <= i <= |w| && DenotesBody(defs, depth, init, w[..i]) && Denotes(defs, depth, last, w[i..]);
      DenotesBodyMore(defs, depth, more, init, w[..i]);
      DenotesMore(defs, depth, more, last, w[i..]);
  }

  lemma {:induction false} DenotesAltsMore(defs: Defs, depth: nat, more: nat, alts: Alts, w: Word)
    requires depth <= more && DenotesAlts(defs, depth, alts, w)
    ensures DenotesAlts(defs, more, alts, w)
    decreases depth, alts, 0
  {
    hide DenotesBody;
    match alts
    case One(body) => DenotesBodyMore(defs, depth, more, body, w);
    case Or(before, other) =>
      if DenotesAlts(defs, depth, before, w) {
        DenotesAltsMore(defs, depth, more, before, w);
      } else {
        DenotesBodyMore(defs, depth, more, other, w);
      }
  }

  // ---------------------------------------------------------------- repetitions

  lemma PowerOne(defs: Defs, depth: nat, it: Item, w: Word)
    requires Denotes(defs, depth, it, w)
    ensures DenotesPower(defs, depth, it, 1, w)
  {
    hide Denotes;
    assert w[..|w|] == w && DenotesPower(defs, depth, it, 0, w[|w|..]);
  }

  /** S S' with S' already a repetition of S. */
  lemma RepMore(defs: Defs, depth: nat, op: Op, it: Item, w: Word, i: nat)
    requires op != Opt && i <= |w| && Denotes(defs, depth, it, w[..i]) && Denotes(defs, depth, Rep(op, it), w[i..])
    ensures Denotes(defs, depth, Rep(op, it), w)
  {
    hide DenotesPower;
    var n: nat :| DenotesPower(defs, depth, it, n, w[i..]) && (op == Plus ==> n > 0);
    PowerMore(defs, depth, it, n, w, i);
  }

  lemma PowerMore(defs: Defs, depth: nat, it: Item, n: nat, w: Word, i: nat)
    requires i <= |w| && Denotes(defs, depth, it, w[..i]) && DenotesPower(defs, depth, it, n, w[i..])
    ensures DenotesPower(defs, depth, it, n + 1, w)
  {
    hide Denotes;
  }

  lemma RepBase(defs: Defs, depth: nat, op: Op, it: Item, w: Word)
    requires if op == Plus then Denotes(defs, depth, it, w) else w == []
    ensures Denotes(defs, depth, Rep(op, it), w)
  {
    if op == Plus { PowerOne(defs, depth, it, w); }
    if op == Star { assert DenotesPower(defs, depth, it, 0, w); }
  }

  /** The alternatives of a generated repetition rule. */
  lemma RepRuleDerives(rules: seq<Rule>, height: nat, op: Op, e: Rule, id: nat, w: Word)
    requires Piece(e)
    ensures DerivesRule(rules, height, RepRule(op, e, id), w) <==>
            (if op == Plus then DerivesSeq(rules, height, e, w) else w == []) ||
            (if op == Opt then DerivesSeq(rules, height, e, w)
             else DerivesSeq(rules, height, e + [Elem(RULE_REF, id)], w))
  {
    hide DerivesRule, DerivesSeq, Piece;
    var first := if op == Opt then e else e + [Elem(RULE_REF, id)];
    var second := if op == Plus then e else [];
    assert RepRule(op, e, id) == (first + [Elem(ALT, 0)] + second) + [Elem(END, 0)];
    RefPiece(id);
    JoinPiece(e, [Elem(RULE_REF, id)]);
    NoPiece();
    PieceFollows(first);
    PieceFollows(second);
    RuleEnd(rules, height, first + [Elem(ALT, 0)] + second, w);
    RuleAlt(rules, height, first, second, w);
    RuleOne(rules, height, first, w);
    NothingDerives(rules, height, [], w);
  }

  lemma RefPiece(id: nat)
    ensures Piece([Elem(RULE_REF, id)])
  {}

  lemma RepSound(rules: seq<Rule>, m: Meaning, defs: Defs, height: nat, op: Op, it: Item, e: Rule, id: nat, w: Word)
    requires Sound(rules, m, defs, height) && ItemElems(m, it, e) && id < |m| && m[id] == Rep(op, it)
    requires DerivesRule(rules, height, RepRule(op, e, id), w)
    ensures Denotes(defs, height, Rep(op, it), w)
  {
    hide DerivesRule, DerivesSeq, Derives, Denotes, ItemElems, Piece, RepRule;
    ItemPiece(m, it, e);
    RepRuleDerives(rules, height, op, e, id, w);
    if (if op == Plus then DerivesSeq(rules, height, e, w) else w == []) {
      if op == Plus { ItemSound(rules, m, defs, height, it, e, w); }
      RepBase(defs, height, op, it, w);
    } else if op == Opt {
      ItemSound(rules, m, defs, height, it, e, w);
      OptDenotes(defs, height, it, w);
    } else {
      RefPiece(id);
      PieceFollows([Elem(RULE_REF, id)]);
      var i := SplitDerives(rules, height, e, [Elem(RULE_REF, id)], w);
      ItemSound(rules, m, defs, height, it, e, w[..i]);
      OnlyRef(rules, height, [Elem(RULE_REF, id)], w[i..]);
      RepMore(defs, height, op, it, w, i);
    }
  }

  lemma OptDenotes(defs: Defs, depth: nat, it: Item, w: Word)
    requires Denotes(defs, depth, it, w)
    ensures Denotes(defs, depth, Rep(Opt, it), w)
  {}

  // ---------------------------------------------------------------- soundness

  lemma IdSound(st: State, m: Meaning, defs: Defs, height: nat, id: nat, w: Word)
    requires Rules(st, m, defs, {}) && Sound(st.rules, m, defs, height) && id < |m|
    requires Derives(st.rules, height + 1, id, w)
    ensures Denotes(defs, height + 1, m[id], w)
  {
    hide Sound, RuleFor, DerivesRule, DenotesAlts, RepRule, ItemElems, DenotesPower;
    assert RuleOk(st.rules, m, defs, id);
    match m[id]
    case Ref(name) =>
      RuleSound(st.rules, m, defs, height, defs[name], st.rules[id], w);
    case Group(alts) =>
      RuleSound(st.rules, m, defs, height, alts, st.rules[id], w);
      DenotesAltsMore(defs, height, height + 1, alts, w);
    case Rep(op, it) =>
      var e :| ItemElems(m, it, e) && st.rules[id] == RepRule(op, e, id);
      RepSound(st.rules, m, defs, height, op, it, e, id, w);
      DenotesMore(defs, height, height + 1, m[id], w);
    case _ =>
  }

  lemma {:induction false} AllSound(st: State, m: Meaning, defs: Defs, height: nat)
    requires Rules(st, m, defs, {})
    ensures Sound(st.rules, m, defs, height)
  {
    hide Rules, Denotes;
    if height > 0 {
      AllSound(st, m, defs, height - 1);
      forall id: nat, w: Word | id < |m| && Derives(st.rules, height, id, w)
        ensures Denotes(defs, height, m[id], w)
      {
        IdSound(st, m, defs, height - 1, id, w);
      }
    }
  }

  // ---------------------------------------------------------------- higher derivations derive no less

  lemma {:induction false} DerivesMore(rules: seq<Rule>, height: nat, more: nat, id: nat, w: Word)
    requires height <= more && Derives(rules, height, id, w)
    ensures Derives(rules, more, id, w)
    decreases height, 0
  {
    hide DerivesSeq;
    DerivesRuleMore(rules, height - 1, more - 1, rules[id], w);
  }

  lemma {:induction false} DerivesRuleMore(rules: seq<Rule>, height: nat, more: nat, rule: Rule, w: Word)
    requires height <= more && DerivesRule(rules, height, rule, w)
    ensures DerivesRule(rules, more, rule, w)
    decreases height, |rule| + 2
  {
    hide DerivesSeq;
    var a: nat :| a <= |rule| && StartsAt(rule, a) && DerivesSeq(rules, height, rule[a..], w);
    DerivesSeqMore(rules, height, more, rule[a..], w);
  }

  lemma {:induction false} DerivesSeqMore(rules: seq<Rule>, height: nat, more: nat, e: Rule, w: Word)
    requires height <= more && DerivesSeq(rules, height, e, w)
    ensures DerivesSeq(rules, more, e, w)
    decreases height, |e| + 1
  {
    hide DerivesSeq, Derives, Takes;
    if e == [] || e[0].kind == END || e[0].kind == ALT {
      NothingDerives(rules, height, e, w);
      NothingDerives(rules, more, e, w);
    } else if e[0].kind == RULE_REF {
      var i := RefSplits(rules, height, e, w);
      DerivesMore(rules, height, more, e[0].value, w[..i]);
      DerivesSeqMore(rules, height, more, e[1..], w[i..]);
      RefDerives(rules, more, e, w[..i], w[i..]);
      Halves(w, i);
    } else {
      IsClass(rules, height, e, w);
      ClassDerives(rules, height, e, w);
      ClassDerives(rules, more, e, w);
      TakesOne(e, w);
      DerivesSeqMore(rules, height, more, e[1 + ClassEnd(e[1..])..], w[1..]);
    }
  }

  lemma IsClass(rules: seq<Rule>, height: nat, e: Rule, w: Word)
    requires e != [] && DerivesSeq(rules, height, e, w)
    ensures e[0].kind == END || e[0].kind == ALT || e[0].kind == RULE_REF || e[0].kind == CHAR || e[0].kind == CHAR_NOT
  {}

  // ---------------------------------------------------------------- denoted words are derived

  lemma ItemComplete(st: State, m: Meaning, defs: Defs, depth: nat, item: Item, e: Rule, w: Word) returns (height: nat)
    requires Rules(st, m, defs, {}) && ItemElems(m, item, e) && Denotes(defs, depth, item, w)
    ensures DerivesSeq(st.rules, height, e, w)
    decreases depth, item, 0
  {
    hide Rules, DerivesSeq, InClass, ClassElems, DenotesAlts, DenotesPower, RepRule, RuleFor, Derives;
    match item
    case Lit(chars) => height := 0; CharsDerive(st.rules, height, chars, w);
    case Class(negated, ranges) =>
      height := 0;
      if ranges == [] {
        NoElems(negated);
        NothingDerives(st.rules, height, e, w);
      } else {
        ClassDerivesSet(st.rules, height, negated, ranges, w);
      }
    case Ref(name) =>
      var id := e[0].value;
      DefinedRule(st, m, defs, id);
      height := RuleComplete(st, m, defs, depth - 1, defs[name], st.rules[id], w);
      IdDerives(st.rules, height, id, w, e);
      height := height + 1;
    case Group(alts) =>
      var id := e[0].value;
      DefinedRule(st, m, defs, id);
      height := RuleComplete(st, m, defs, depth, alts, st.rules[id], w);
      IdDerives(st.rules, height, id, w, e);
      height := height + 1;
    case Rep(op, it) =>
      var id := e[0].value;
      DefinedRule(st, m, defs, id);
      var ie :| ItemElems(m, it, ie) && st.rules[id] == RepRule(op, ie, id);
      if op == Opt && w != [] {
        height := ItemComplete(st, m, defs, depth, it, ie, w);
        RepDerives(st.rules, m, height, op, it, ie, id, w, e);
        height := height + 1;
      } else {
        var n: nat := 0;
        if op != Opt { n :| DenotesPower(defs, depth, it, n, w) && (op == Plus ==> n > 0); } else { PowerZero(defs, depth, it); }
        height := PowerComplete(st, m, defs, depth, op, it, ie, n, id, e, w);
      }
  }

  lemma PowerZero(defs: Defs, depth: nat, it: Item)
    ensures DenotesPower(defs, depth, it, 0, [])
  {}

  lemma DefinedRule(st: State, m: Meaning, defs: Defs, id: nat)
    requires Rules(st, m, defs, {}) && id < |m| && (m[id].Ref? ==> m[id].name in defs)
    ensures id < |st.rules| && (m[id].Ref? ==> RuleFor(m, defs[m[id].name], st.rules[id]))
    ensures !m[id].Ref? ==> GeneratedRule(m, id, st.rules[id])
  {
    hide RuleFor, GeneratedRule;
    assert RuleOk(st.rules, m, defs, id);
  }

  lemma IdDerives(rules: seq<Rule>, height: nat, id: nat, w: Word, e: Rule)
    requires id < |rules| && rules[id] != [] && DerivesRule(rules, height, rules[id], w)
    requires |e| == 1 && e[0].kind == RULE_REF && e[0].value == id
    ensures Derives(rules, height + 1, id, w) && DerivesSeq(rules, height + 1, e, w)
  {
    hide DerivesRule, DerivesSeq;
    OnlyRef(rules, height + 1, e, w);
  }

  /** The base alternative of a repetition, or S?. */
  lemma RepDerives(rules: seq<Rule>, m: Meaning, height: nat, op: Op, it: Item, ie: Rule, id: nat, w: Word, e: Rule)
    requires ItemElems(m, it, ie) && id < |rules| && rules[id] == RepRule(op, ie, id)
    requires if op == Star then w == [] else DerivesSeq(rules, height, ie, w) || (op == Opt && w == [])
    requires |e| == 1 && e[0].kind == RULE_REF && e[0].value == id
    ensures DerivesSeq(rules, height + 1, e, w)
  {
    hide DerivesRule, DerivesSeq, ItemElems, Piece;
    ItemPiece(m, it, ie);
    RepRuleDerives(rules, height, op, ie, id, w);
    IdDerives(rules, height, id, w, e);
  }

  /** S S': one more repetition. */
  lemma RepAgain(rules: seq<Rule>, m: Meaning, height: nat, op: Op, it: Item, ie: Rule, id: nat, w: Word, i: nat, e: Rule)
    requires ItemElems(m, it, ie) && id < |rules| && rules[id] == RepRule(op, ie, id) && op != Opt
    requires |e| == 1 && e[0].kind == RULE_REF && e[0].value == id
    requires i <= |w| && DerivesSeq(rules, height, ie, w[..i]) && DerivesSeq(rules, height, e, w[i..])
    ensures DerivesSeq(rules, height + 1, e, w)
  {
    hide DerivesRule, DerivesSeq, ItemElems, Piece, Derives;
    ItemPiece(m, it, ie);
    RefPiece(id);
    PieceFollows([Elem(RULE_REF, id)]);
    OnlyRef(rules, height, e, w[i..]);
    OnlyRef(rules, height, [Elem(RULE_REF, id)], w[i..]);
    JoinDerives(rules, height, ie, [Elem(RULE_REF, id)], w[..i], w[i..]);
    Halves(w, i);
    RepRuleDerives(rules, height, op, ie, id, w);
    IdDerives(rules, height, id, w, e);
  }

  lemma PowerSplits(defs: Defs, depth: nat, it: Item, n: nat, w: Word) returns (i: nat)
    requires n > 0 && DenotesPower(defs, depth, it, n, w)
    ensures i <= |w| && Denotes(defs, depth, it, w[..i]) && DenotesPower(defs, depth, it, n - 1, w[i..])
  {
    hide Denotes;
    i :| 0 <= i <= |w| && Denotes(defs, depth, it, w[..i]) && DenotesPower(defs, depth, it, n - 1, w[i..]);
  }

  lemma PowerNothing(defs: Defs, depth: nat, it: Item, w: Word)
    requires DenotesPower(defs, depth, it, 0, w)
    ensures w == []
  {}

  lemma PowerComplete(st: State, m: Meaning, defs: Defs, depth: nat, op: Op, it: Item, ie: Rule, n: nat, id: nat, e: Rule, w: Word)
    returns (height: nat)
    requires Rules(st, m, defs, {}) && ItemElems(m, it, ie) && DenotesPower(defs, depth, it, n, w)
    requires id < |st.rules| && st.rules[id] == RepRule(op, ie, id) && (op == Plus ==> n > 0) && (op == Opt ==> n == 0)
    requires |e| == 1 && e[0].kind == RULE_REF && e[0].value == id
    ensures DerivesSeq(st.rules, height, e, w)
    decreases depth, it, n + 1
  {
    hide Rules, DerivesSeq, Denotes, ItemElems, RepRule, DenotesPower;
    if n == 0 {
      PowerNothing(defs, depth, it, w);
      RepDerives(st.rules, m, 0, op, it, ie, id, w, e);
      height := 1;
    } else {
      var i := PowerSplits(defs, depth, it, n, w);
      var h1 := ItemComplete(st, m, defs, depth, it, ie, w[..i]);
      if op == Plus && n == 1 {
        PowerNothing(defs, depth, it, w[i..]);
        assert w[..i] == w;
        RepDerives(st.rules, m, h1, op, it, ie, id, w, e);
        height := h1 + 1;
      } else {
        var h2 := PowerComplete(st, m, defs, depth, op, it, ie, n - 1, id, e, w[i..]);
        var h: nat := Max(h1, h2);
        DerivesSeqMore(st.rules, h1, h, ie, w[..i]);
        DerivesSeqMore(st.rules, h2, h, e, w[i..]);
        RepAgain(st.rules, m, h, op, it, ie, id, w, i, e);
        height := h + 1;
      }
    }
  }

  lemma BodySplits(defs: Defs, depth: nat, init: Body, last: Item, w: Word) returns (i: nat)
    requires DenotesBody(defs, depth, Snoc(init, last), w)
    ensures i <= |w| && DenotesBody(defs, depth, init, w[..i]) && Denotes(defs, depth, last, w[i..])
  {
    hide Denotes;
    i :| 0 <= i <= |w| && DenotesBody(defs, depth, init, w[..i]) && Denotes(defs, depth, last, w[i..]);
  }

  lemma EmptyDenotes(defs: Defs, depth: nat, w: Word)
    ensures DenotesBody(defs, depth, Empty, w) <==> w == []
  {}

  lemma BodyComplete(st: State, m: Meaning, defs: Defs, depth: nat, body: Body, e: Rule, w: Word) returns (height: nat)
    requires Rules(st, m, defs, {}) && BodyElems(m, body, e) && DenotesBody(defs, depth, body, w)
    ensures DerivesSeq(st.rules, height, e, w)
    decreases depth, body, 0
  {
    hide Rules, DerivesSeq, Denotes, ItemElems, BodyElems, DenotesBody, Piece;
    match body
    case Empty =>
      height := 0;
      EmptyElems(m, e);
      EmptyDenotes(defs, depth, w);
      NothingDerives(st.rules, height, e, w);
    case Snoc(init, last) =>
      var k := BodyParts(m, init, last, e);
      var i := BodySplits(defs, depth, init, last, w);
      var h1 := BodyComplete(st, m, defs, depth, init, e[..k], w[..i]);
      var h2 := ItemComplete(st, m, defs, depth, last, e[k..], w[i..]);
      height := Max(h1, h2);
      DerivesSeqMore(st.rules, h1, height, e[..k], w[..i]);
      DerivesSeqMore(st.rules, h2, height, e[k..], w[i..]);
      BodyPiece(m, init, e[..k]);
      ItemPiece(m, last, e[k..]);
      PieceFollows(e[k..]);
      JoinDerives(st.rules, height, e[..k], e[k..], w[..i], w[i..]);
      Halves(w, i);
  }

  lemma AltsComplete(st: State, m: Meaning, defs: Defs, depth: nat, alts: Alts, e: Rule, w: Word) returns (height: nat)
    requires Rules(st, m, defs, {}) && AltsElems(m, alts, e) && DenotesAlts(defs, depth, alts, w)
    ensures DerivesRule(st.rules, height, e, w)
    decreases depth, alts, 0
  {
    hide Rules, DerivesSeq, DerivesRule, DenotesBody, BodyElems, AltsElems, Piece, NoAlt;
    match alts
    case One(body) =>
      OneBody(m, body, e);
      height := BodyComplete(st, m, defs, depth, body, e, w);
      BodyPiece(m, body, e);
      PieceFollows(e);
      RuleOne(st.rules, height, e, w);
    case Or(before, other) =>
      var k := AltsParts(m, before, other, e);
      BodyPiece(m, other, e[k + 1..]);
      PieceFollows(e[k + 1..]);
      if DenotesAlts(defs, depth, before, w) {
        height := AltsComplete(st, m, defs, depth, before, e[..k], w);
      } else {
        height := BodyComplete(st, m, defs, depth, other, e[k + 1..], w);
      }
      RuleAlt(st.rules, height, e[..k], e[k + 1..], w);
  }

  lemma RuleComplete(st: State, m: Meaning, defs: Defs, depth: nat, alts: Alts, rule: Rule, w: Word) returns (height: nat)
    requires Rules(st, m, defs, {}) && RuleFor(m, alts, rule) && DenotesAlts(defs, depth, alts, w)
    ensures DerivesRule(st.rules, height, rule, w) && rule != []
    decreases depth, alts, 1
  {
    hide Rules, DerivesRule, DenotesAlts, AltsElems;
    var e := rule[..|rule| - 1];
    height := AltsComplete(st, m, defs, depth, alts, e, w);
    assert rule == e + [Elem(END, 0)];
    RuleEnd(st.rules, height, e, w);
  }

  // ---------------------------------------------------------------- the theorem

  /** The language of a symbol in the emitted rules. */
  ghost predicate Derivable(rules: seq<Rule>, id: nat, w: Word) {
    exists height: nat :: Derives(rules, height, id, w)
  }

  /** The language of an expression. */
  ghost predicate Denotable(defs: Defs, item: Item, w: Word) {
    exists depth: nat :: Denotes(defs, depth, item, w)
  }

  lemma SameLanguage(st: State, m: Meaning, defs: Defs, id: nat, w: Word)
    requires Rules(st, m, defs, {}) && id < |m|
    requires m[id].Ref? || m[id].Group? || m[id].Rep?
    ensures Derivable(st.rules, id, w) <==> Denotable(defs, m[id], w)
  {
    hide Rules, Derives, DerivesSeq, Denotes;
    if Derivable(st.rules, id, w) {
      var height: nat :| Derives(st.rules, height, id, w);
      AllSound(st, m, defs, height);
      assert Denotes(defs, height, m[id], w);
    }
    if Denotable(defs, m[id], w) {
      var depth: nat :| Denotes(defs, depth, m[id], w);
      var e := [Elem(RULE_REF, id)];
      var height := ItemComplete(st, m, defs, depth, m[id], e, w);
      OnlyRef(st.rules, height, e, w);
      assert Derives(st.rules, height, id, w);
    }
  }

  /** Compiling a grammar keeps its language: a name derives from the emitted rules exactly the words
      that its definition denotes. */
  lemma CompilePreservesLanguage(defs: seq<Definition>, name: Name, w: Word)
    requires DefsNamesOk(defs) && UserName(name) && name in Compile(defs).ids
    ensures Derivable(Compile(defs).rules, Compile(defs).ids[name], w) <==> Denotable(DefsOf(defs), Ref(name), w)
  {
    hide Rules, Derivable, Denotable, Compile, UserName, DefsOf, DefsNamesOk, Symbols;
    var m := CompileKeeps(defs);
    SymbolBound(Compile(defs).ids, name);
    SameLanguage(Compile(defs), m, DefsOf(defs), Compile(defs).ids[name], w);
  }
}

/** Languages of expressions and of rules. */
module GrammarLanguage {
  import opened GrammarEmit
  import opened GrammarRules
  import opened GrammarSyntax

  /** A sequence of code points. */
  type Word = seq<nat>

  // ---------------------------------------------------------------- what expressions denote

  predicate InRange(r: Range, c: nat) {
    match r.hi
    case Some(hi) => r.lo <= c <= hi
    case None => c == r.lo
  }

  predicate InRanges(ranges: seq<Range>, c: nat) {
    exists i :: 0 <= i < |ranges| && InRange(ranges[i], c)
  }

  /** One character, in a class or outside of it. */
  predicate InClass(negated: bool, ranges: seq<Range>, w: Word) {
    |w| == 1 && InRanges(ranges, w[0]) != negated
  }

  /** A class without ranges leaves no element behind, so that it stands for the empty word.
      `w` is denoted by `item` when references to defined names are followed at most `depth` deep. */
  ghost predicate Denotes(defs: Defs, depth: nat, item: Item, w: Word)
    decreases depth, item, 0
  {
    match item
    case Lit(chars) => w == chars
    case Class(negated, ranges) => if ranges == [] then w == [] else InClass(negated, ranges, w)
    case Ref(name) => depth > 0 && name in defs && DenotesAlts(defs, depth - 1, defs[name], w)
    case Group(alts) => DenotesAlts(defs, depth, alts, w)
    case Rep(Star, it) => exists n: nat :: DenotesPower(defs, depth, it, n, w)
    case Rep(Plus, it) => exists n: nat :: n > 0 && DenotesPower(defs, depth, it, n, w)
    case Rep(Opt, it) => w == [] || Denotes(defs, depth, it, w)
  }

  /** `w` is `n` words of `item` in a row. */
  ghost predicate DenotesPower(defs: Defs, depth: nat, item: Item, n: nat, w: Word)
    decreases depth, item, n + 1
  {
    if n == 0 then w == []
    else exists i :: 0 <= i <= |w| && Denotes(defs, depth, item, w[..i]) && DenotesPower(defs, depth, item, n - 1, w[i..])
  }

  ghost predicate DenotesBody(defs: Defs, depth: nat, body: Body, w: Word)
    decreases depth, body, 0
  {
    match body
    case Empty => w == []
    case Snoc(init, last) =>
      exists i :: 0 <= i <= |w| && DenotesBody(defs, depth, init, w[..i]) && Denotes(defs, depth, last, w[i..])
  }

  ghost predicate DenotesAlts(defs: Defs, depth: nat, alts: Alts, w: Word)
    decreases depth, alts, 0
  {
    match alts
    case One(body) => DenotesBody(defs, depth, body, w)
    case Or(before, other) => DenotesAlts(defs, depth, before, w) || DenotesBody(defs, depth, other, w)
  }

  // ---------------------------------------------------------------- what rules derive

  /** The elements that modify the element before them. */
  predicate Continues(kind: ElemType) { kind == CHAR_RNG_UPPER || kind == CHAR_ALT }

  /** The number of elements at the front that continue a class. */
  function ClassEnd(e: Rule): (n: nat)
    ensures n <= |e|
  {
    if e != [] && Continues(e[0].kind) then 1 + ClassEnd(e[1..]) else 0
  }

  /** Whether the characters and ranges of a class element sequence cover `c`. */
  predicate Covers(e: Rule, c: nat) {
    if e == [] then false
    else if |e| > 1 && e[1].kind == CHAR_RNG_UPPER then e[0].value <= c <= e[1].value || Covers(e[2..], c)
    else e[0].value == c || Covers(e[1..], c)
  }

  /** `id` derives `w` in a derivation of the given height; a symbol whose rule was never added derives nothing. */
  ghost predicate Derives(rules: seq<Rule>, height: nat, id: nat, w: Word)
    decreases height, 0
  {
    height > 0 && id < |rules| && rules[id] != [] && DerivesRule(rules, height - 1, rules[id], w)
  }

  /** An alternative of a rule starts at `a`. */
  predicate StartsAt(rule: Rule, a: nat) {
    a == 0 || (a <= |rule| && rule[a - 1].kind == ALT)
  }

  ghost predicate DerivesRule(rules: seq<Rule>, height: nat, rule: Rule, w: Word)
    decreases height, |rule| + 2
  {
    exists a: nat :: a <= |rule| && StartsAt(rule, a) && DerivesSeq(rules, height, rule[a..], w)
  }

  /** `w` is derived from the elements up to the end of the alternative. */
  ghost predicate DerivesSeq(rules: seq<Rule>, height: nat, e: Rule, w: Word)
    decreases height, |e| + 1
  {
    if e == [] || e[0].kind == END || e[0].kind == ALT then w == []
    else if e[0].kind == RULE_REF then
      exists i :: 0 <= i <= |w| && Derives(rules, height, e[0].value, w[..i]) && DerivesSeq(rules, height, e[1..], w[i..])
    else if e[0].kind == CHAR || e[0].kind == CHAR_NOT then
      var k := 1 + ClassEnd(e[1..]);
      w != [] && Covers(e[..k], w[0]) == (e[0].kind == CHAR) && DerivesSeq(rules, height, e[k..], w[1..])
    else false
  }

  // ---------------------------------------------------------------- putting sequences together

  /** `is_char_element` */
  predicate IsCharElement(kind: ElemType) {
    kind == CHAR || kind == CHAR_NOT || kind == CHAR_ALT || kind == CHAR_RNG_UPPER
  }

  /** What continues a class directly follows a character. */
  predicate InPlace(e: Rule, i: nat)
    requires i < |e|
  {
    Continues(e[i].kind) ==> i > 0 && IsCharElement(e[i - 1].kind)
  }

  /** A stretch of a rule body without alternatives. */
  ghost predicate Piece(e: Rule) {
    forall i :: 0 <= i < |e| ==> e[i].kind != END && e[i].kind != ALT && InPlace(e, i)
  }

  /** What can come behind a piece. */
  ghost predicate Follows(e: Rule) { e != [] ==> !Continues(e[0].kind) }

  lemma {:induction false} ClassEndJoin(a: Rule, b: Rule)
    requires Follows(b)
    ensures ClassEnd(a + b) == ClassEnd(a)
  {
    if a == [] {
      assert a + b == b;
    } else {
      assert (a + b)[1..] == a[1..] + b;
      ClassEndJoin(a[1..], b);
    }
  }

  lemma {:induction false} ClassEndStops(e: Rule)
    ensures Follows(e[ClassEnd(e)..])
  {
    if e != [] && Continues(e[0].kind) {
      ClassEndStops(e[1..]);
      assert e[ClassEnd(e)..] == e[1..][ClassEnd(e[1..])..];
    }
  }

  lemma PieceDrop(e: Rule, k: nat)
    requires Piece(e) && k <= |e| && Follows(e[k..])
    ensures Piece(e[k..])
  {
    forall i | 0 <= i < |e| - k
      ensures InPlace(e[k..], i)
    {
      assert InPlace(e, i + k);
    }
  }

  /** The first class of a piece, and what is behind it. */
  lemma FirstClass(a: Rule, b: Rule)
    requires Piece(a) && Follows(b) && a != [] && a[0].kind != RULE_REF
    ensures a[0].kind == CHAR || a[0].kind == CHAR_NOT
    ensures var k := 1 + ClassEnd(a[1..]);
            k == 1 + ClassEnd((a + b)[1..]) && (a + b)[..k] == a[..k] && (a + b)[k..] == a[k..] + b && Piece(a[k..])
  {
    assert InPlace(a, 0);
    assert (a + b)[1..] == a[1..] + b;
    ClassEndJoin(a[1..], b);
    ClassEndStops(a[1..]);
    var k := 1 + ClassEnd(a[1..]);
    assert a[k..] == a[1..][k - 1..];
    PieceDrop(a, k);
  }

  lemma RefThenPiece(a: Rule)
    requires Piece(a) && a != [] && a[0].kind == RULE_REF
    ensures Piece(a[1..])
  {
    PieceDrop(a, 1);
  }

  lemma RefDerives(rules: seq<Rule>, height: nat, e: Rule, u: Word, v: Word)
    requires e != [] && e[0].kind == RULE_REF
    requires Derives(rules, height, e[0].value, u) && DerivesSeq(rules, height, e[1..], v)
    ensures DerivesSeq(rules, height, e, u + v)
  {
    hide Derives;
    var i := |u|;
    assert (u + v)[..i] == u && (u + v)[i..] == v;
  }

  lemma RefSplits(rules: seq<Rule>, height: nat, e: Rule, w: Word) returns (i: nat)
    requires e != [] && e[0].kind == RULE_REF && DerivesSeq(rules, height, e, w)
    ensures i <= |w| && Derives(rules, height, e[0].value, w[..i]) && DerivesSeq(rules, height, e[1..], w[i..])
  {
    hide Derives;
    i :| 0 <= i <= |w| && Derives(rules, height, e[0].value, w[..i]) && DerivesSeq(rules, height, e[1..], w[i..]);
  }

  /** A class at the front takes one character. */
  ghost predicate Takes(e: Rule, w: Word)
    requires e != []
  {
    w != [] && Covers(e[..1 + ClassEnd(e[1..])], w[0]) == (e[0].kind == CHAR)
  }

  lemma ClassDerives(rules: seq<Rule>, height: nat, e: Rule, w: Word)
    requires e != [] && (e[0].kind == CHAR || e[0].kind == CHAR_NOT)
    ensures DerivesSeq(rules, height, e, w) <==>
            Takes(e, w) && DerivesSeq(rules, height, e[1 + ClassEnd(e[1..])..], w[1..])
  {
    hide Derives, Covers;
  }

  lemma NothingDerives(rules: seq<Rule>, height: nat, e: Rule, w: Word)
    requires e == [] || e[0].kind == END || e[0].kind == ALT
    ensures DerivesSeq(rules, height, e, w) <==> w == []
  {}

  /** A sequence derives what its parts derive one after the other ... */
  lemma {:induction false} JoinDerives(rules: seq<Rule>, height: nat, a: Rule, b: Rule, u: Word, v: Word)
    requires Piece(a) && Follows(b)
    requires DerivesSeq(rules, height, a, u) && DerivesSeq(rules, height, b, v)
    ensures DerivesSeq(rules, height, a + b, u + v)
    decreases |a|
  {
    hide Derives, Takes, DerivesSeq, ClassEnd;
    if a == [] {
      NothingDerives(rules, height, a, u);
      assert a + b == b && u + v == v;
    } else if a[0].kind == RULE_REF {
      var i := RefSplits(rules, height, a, u);
      RefThenPiece(a);
      JoinDerives(rules, height, a[1..], b, u[i..], v);
      assert (a + b)[1..] == a[1..] + b;
      RefDerives(rules, height, a + b, u[..i], u[i..] + v);
      assert u[..i] + (u[i..] + v) == u + v;
    } else {
      FirstClass(a, b);
      var k := 1 + ClassEnd(a[1..]);
      ClassDerives(rules, height, a, u);
      TakesOne(a, u);
      JoinDerives(rules, height, a[k..], b, u[1..], v);
      assert (u + v)[1..] == u[1..] + v;
      SameTakes(a, a + b, u, u + v);
      ClassDerives(rules, height, a + b, u + v);
    }
  }

  lemma SameTakes(a: Rule, b: Rule, u: Word, v: Word)
    requires a != [] && b != [] && u != [] && v != [] && u[0] == v[0]
    requires ClassEnd(a[1..]) == ClassEnd(b[1..]) && a[..1 + ClassEnd(a[1..])] == b[..1 + ClassEnd(b[1..])]
    ensures Takes(a, u) == Takes(b, v)
  {
    assert a[0] == a[..1 + ClassEnd(a[1..])][0] && b[0] == b[..1 + ClassEnd(b[1..])][0];
  }

  /** ... and nothing else. */
  lemma {:induction false} SplitDerives(rules: seq<Rule>, height: nat, a: Rule, b: Rule, w: Word) returns (i: nat)
    requires Piece(a) && Follows(b) && DerivesSeq(rules, height, a + b, w)
    ensures i <= |w| && DerivesSeq(rules, height, a, w[..i]) && DerivesSeq(rules, height, b, w[i..])
    decreases |a|
  {
    hide Derives, Takes, DerivesSeq, ClassEnd, Continues, IsCharElement;
    if a == [] {
      assert a + b == b;
      i := 0;
      assert w[0..] == w;
      NothingDerives(rules, height, a, w[..0]);
    } else if a[0].kind == RULE_REF {
      assert (a + b)[1..] == a[1..] + b;
      var j := RefSplits(rules, height, a + b, w);
      RefThenPiece(a);
      var k := SplitDerives(rules, height, a[1..], b, w[j..]);
      i := j + k;
      RefDerives(rules, height, a, w[..j], w[j..][..k]);
      assert w[..j] + w[j..][..k] == w[..i] && w[i..] == w[j..][k..];
    } else {
      i := SplitClass(rules, height, a, b, w);
    }
  }

  lemma {:induction false} SplitClass(rules: seq<Rule>, height: nat, a: Rule, b: Rule, w: Word) returns (i: nat)
    requires Piece(a) && Follows(b) && DerivesSeq(rules, height, a + b, w)
    requires a != [] && a[0].kind != RULE_REF
    ensures i <= |w| && DerivesSeq(rules, height, a, w[..i]) && DerivesSeq(rules, height, b, w[i..])
    decreases |a|, 0
  {
    hide Derives, Takes, DerivesSeq, ClassEnd;
    FirstClass(a, b);
    var k := 1 + ClassEnd(a[1..]);
    ClassDerives(rules, height, a + b, w);
    TakesOne(a + b, w);
    var j := SplitDerives(rules, height, a[k..], b, w[1..]);
    i := 1 + j;
    assert w[..i][1..] == w[1..][..j] && w[i..] == w[1..][j..];
    SameTakes(a, a + b, w[..i], w);
    ClassDerives(rules, height, a, w[..i]);
  }

  lemma TakesOne(e: Rule, w: Word)
    requires e != [] && Takes(e, w)
    ensures w != []
  {}

  // ---------------------------------------------------------------- alternatives

  /** What is behind the end of an alternative does not matter. */
  lemma {:induction false} EndsThere(rules: seq<Rule>, height: nat, e: Rule, t: Rule, w: Word)
    requires t != [] && (t[0].kind == END || t[0].kind == ALT)
    ensures DerivesSeq(rules, height, e + t, w) <==> DerivesSeq(rules, height, e, w)
    decreases |e|, 1
  {
    hide Derives, DerivesSeq;
    if e == [] || e[0].kind == END || e[0].kind == ALT {
      assert e == [] ==> e + t == t;
      NothingDerives(rules, height, e, w);
      NothingDerives(rules, height, e + t, w);
    } else if e[0].kind == RULE_REF {
      if DerivesSeq(rules, height, e, w) { RefEnds(rules, height, e, e + t, t, w); }
      if DerivesSeq(rules, height, e + t, w) { RefEnds(rules, height, e + t, e, t, w); }
    } else if e[0].kind == CHAR || e[0].kind == CHAR_NOT {
      ClassEnds(rules, height, e, t, w);
    } else {
      NoneDerives(rules, height, e, w);
      NoneDerives(rules, height, e + t, w);
    }
  }

  lemma NoneDerives(rules: seq<Rule>, height: nat, e: Rule, w: Word)
    requires e != [] && e[0].kind != END && e[0].kind != ALT && e[0].kind != RULE_REF
    requires e[0].kind != CHAR && e[0].kind != CHAR_NOT
    ensures !DerivesSeq(rules, height, e, w)
  {}

  /** `t` is there in one of the two sequences and missing in the other. */
  lemma {:induction false} RefEnds(rules: seq<Rule>, height: nat, a: Rule, b: Rule, t: Rule, w: Word)
    requires t != [] && (t[0].kind == END || t[0].kind == ALT) && (b == a + t || a == b + t)
    requires a != [] && b != [] && a[0].kind == RULE_REF && DerivesSeq(rules, height, a, w)
    ensures DerivesSeq(rules, height, b, w)
    decreases if |a| < |b| then |a| else |b|, 0
  {
    hide Derives, DerivesSeq;
    var i := RefSplits(rules, height, a, w);
    assert if |a| < |b| then b[1..] == a[1..] + t else a[1..] == b[1..] + t;
    EndsThere(rules, height, if |a| < |b| then a[1..] else b[1..], t, w[i..]);
    RefDerives(rules, height, b, w[..i], w[i..]);
    assert w[..i] + w[i..] == w;
  }

  lemma {:induction false} ClassEnds(rules: seq<Rule>, height: nat, e: Rule, t: Rule, w: Word)
    requires t != [] && (t[0].kind == END || t[0].kind == ALT) && e != [] && (e[0].kind == CHAR || e[0].kind == CHAR_NOT)
    ensures DerivesSeq(rules, height, e + t, w) <==> DerivesSeq(rules, height, e, w)
    decreases |e|, 0
  {
    hide Derives, Takes, ClassEnd, DerivesSeq;
    assert (e + t)[1..] == e[1..] + t;
    ClassEndJoin(e[1..], t);
    var k := 1 + ClassEnd(e[1..]);
    assert (e + t)[..k] == e[..k] && (e + t)[k..] == e[k..] + t;
    ClassDerives(rules, height, e, w);
    ClassDerives(rules, height, e + t, w);
    if w == [] {
      NothingTaken(e);
      NothingTaken(e + t);
    } else {
      SameTakes(e, e + t, w, w);
      EndsThere(rules, height, e[k..], t, w[1..]);
    }
  }

  lemma NothingTaken(e: Rule)
    requires e != []
    ensures !Takes(e, [])
  {}

  ghost predicate NoAlt(e: Rule) { forall i :: 0 <= i < |e| ==> e[i].kind != ALT }

  lemma RuleOne(rules: seq<Rule>, height: nat, e: Rule, w: Word)
    requires NoAlt(e)
    ensures DerivesRule(rules, height, e, w) <==> DerivesSeq(rules, height, e, w)
  {
    hide DerivesSeq;
    assert StartsAt(e, 0) && e[0..] == e;
  }

  /** A rule derives what one of its alternatives derives. */
  lemma RuleAlt(rules: seq<Rule>, height: nat, e1: Rule, e2: Rule, w: Word)
    requires NoAlt(e2)
    ensures DerivesRule(rules, height, e1 + [Elem(ALT, 0)] + e2, w) <==>
            DerivesRule(rules, height, e1, w) || DerivesSeq(rules, height, e2, w)
  {
    hide DerivesSeq;
    var t := [Elem(ALT, 0)] + e2;
    var rule := e1 + [Elem(ALT, 0)] + e2;
    forall a: nat | a <= |e1|
      ensures StartsAt(rule, a) == StartsAt(e1, a)
      ensures DerivesSeq(rules, height, rule[a..], w) <==> DerivesSeq(rules, height, e1[a..], w)
    {
      assert rule[a..] == e1[a..] + t;
      EndsThere(rules, height, e1[a..], t, w);
    }
    assert rule[|e1| + 1..] == e2 && StartsAt(rule, |e1| + 1);
    forall a: nat | |e1| + 1 < a <= |rule|
      ensures !StartsAt(rule, a)
    {
      assert rule[a - 1] == e2[a - |e1| - 2];
    }
  }

  lemma RuleEnd(rules: seq<Rule>, height: nat, e: Rule, w: Word)
    ensures DerivesRule(rules, height, e + [Elem(END, 0)], w) <==> DerivesRule(rules, height, e, w)
  {
    hide DerivesSeq;
    var t := [Elem(END, 0)];
    var rule := e + t;
    forall a: nat | a <= |e|
      ensures StartsAt(rule, a) == StartsAt(e, a)
      ensures DerivesSeq(rules, height, rule[a..], w) <==> DerivesSeq(rules, height, e[a..], w)
    {
      assert rule[a..] == e[a..] + t;
      EndsThere(rules, height, e[a..], t, w);
    }
    assert !StartsAt(rule, |e| + 1);
  }

  // ---------------------------------------------------------------- characters and classes

  lemma {:induction false} CharsPiece(chars: seq<nat>)
    ensures Piece(Chars(chars))
  {}

  lemma {:induction false} CharsDerive(rules: seq<Rule>, height: nat, chars: seq<nat>, w: Word)
    ensures DerivesSeq(rules, height, Chars(chars), w) <==> w == chars
    decreases |chars|
  {
    hide Derives, Takes;
    var e := Chars(chars);
    if chars == [] {
      NothingDerives(rules, height, e, w);
    } else {
      ClassDerives(rules, height, e, w);
      assert e[1..] == Chars(chars[1..]);
      TakesChar(e, w);
      if w != [] {
        CharsDerive(rules, height, chars[1..], w[1..]);
        assert w == chars <==> w[0] == chars[0] && w[1..] == chars[1..];
      }
    }
  }

  lemma TakesChar(e: Rule, w: Word)
    requires e != [] && e[0].kind == CHAR && Follows(e[1..])
    ensures ClassEnd(e[1..]) == 0
    ensures Takes(e, w) <==> w != [] && w[0] == e[0].value
  {
    var one := e[..1];
    assert |one| == 1 && one[0] == e[0] && one[1..] == [];
    assert w != [] ==> !Covers(one[1..], w[0]);
  }

  /** All elements of a class behind the first continue it. */
  ghost predicate ClassShape(negated: bool, e: Rule) {
    e != [] && e[0].kind == (if negated then CHAR_NOT else CHAR) &&
    forall i :: 1 <= i < |e| ==> Continues(e[i].kind)
  }

  lemma {:induction false} ClassElemsShape(negated: bool, ranges: seq<Range>)
    requires ranges != []
    ensures ClassShape(negated, ClassElems(negated, ranges))
  {
    var n := |ranges| - 1;
    if n > 0 { ClassElemsShape(negated, ranges[..n]); }
  }

  lemma ClassPiece(negated: bool, ranges: seq<Range>)
    ensures Piece(ClassElems(negated, ranges))
  {
    hide ClassElems;
    if ranges != [] {
      ClassElemsShape(negated, ranges);
      var e := ClassElems(negated, ranges);
      forall i | 0 <= i < |e|
        ensures InPlace(e, i)
      {
        assert i <= 1 || Continues(e[i - 1].kind);
      }
    }
  }

  lemma {:induction false} AllContinue(e: Rule)
    requires forall i :: 0 <= i < |e| ==> Continues(e[i].kind)
    ensures ClassEnd(e) == |e|
  {
    if e != [] { AllContinue(e[1..]); }
  }

  /** One more range covers what it covered and the range. */
  lemma {:induction false} CoversMore(e: Rule, kind: ElemType, r: Range, c: nat)
    requires kind != CHAR_RNG_UPPER
    ensures Covers(e + RangeElems(kind, r), c) <==> Covers(e, c) || InRange(r, c)
    decreases |e|
  {
    var t := RangeElems(kind, r);
    if e == [] {
      assert e + t == t;
      if r.hi.Some? { assert t[2..] == []; } else { assert t[1..] == []; }
    } else {
      var k := if |e| > 1 && e[1].kind == CHAR_RNG_UPPER then 2 else 1;
      assert (e + t)[k..] == e[k..] + t;
      CoversMore(e[k..], kind, r, c);
    }
  }

  lemma {:induction false} ClassCovers(negated: bool, ranges: seq<Range>, c: nat)
    ensures Covers(ClassElems(negated, ranges), c) <==> InRanges(ranges, c)
    decreases |ranges|
  {
    hide Covers, InRange;
    if ranges == [] {
      CoversNothing(c);
    } else {
      var n := |ranges| - 1;
      ClassCovers(negated, ranges[..n], c);
      CoversMore(ClassElems(negated, ranges[..n]),
                 if n > 0 then CHAR_ALT else if negated then CHAR_NOT else CHAR, ranges[n], c);
      InRangesMore(ranges, c);
    }
  }

  lemma CoversNothing(c: nat)
    ensures !Covers([], c)
  {}

  lemma InRangesMore(ranges: seq<Range>, c: nat)
    requires ranges != []
    ensures InRanges(ranges, c) <==> InRanges(ranges[..|ranges| - 1], c) || InRange(ranges[|ranges| - 1], c)
  {
    hide InRange;
    var n := |ranges| - 1;
    if InRanges(ranges, c) {
      var i :| 0 <= i < |ranges| && InRange(ranges[i], c);
      assert i < n ==> InRange(ranges[..n][i], c);
    }
    if InRanges(ranges[..n], c) {
      var i :| 0 <= i < n && InRange(ranges[..n][i], c);
      assert InRange(ranges[i], c);
    }
  }

  lemma ClassDerivesSet(rules: seq<Rule>, height: nat, negated: bool, ranges: seq<Range>, w: Word)
    requires ranges != []
    ensures DerivesSeq(rules, height, ClassElems(negated, ranges), w) <==> InClass(negated, ranges, w)
  {
    hide ClassElems, DerivesSeq, Covers, InRanges;
    var e := ClassElems(negated, ranges);
    ClassElemsShape(negated, ranges);
    AllContinue(e[1..]);
    ClassDerives(rules, height, e, w);
    assert e[..|e|] == e;
    if w != [] {
      ClassCovers(negated, ranges, w[0]);
      NothingDerives(rules, height, e[|e|..], w[1..]);
    }
  }

  /** The elements of a class stand for its set of characters exactly when it has a range. */
  lemma ClassMeansSet(rules: seq<Rule>, height: nat, negated: bool, ranges: seq<Range>)
    ensures (forall w: Word :: DerivesSeq(rules, height, ClassElems(negated, ranges), w) <==> InClass(negated, ranges, w)) <==>
            ranges != []
  {
    hide DerivesSeq, InRanges, ClassElems;
    if ranges == [] {
      NothingDerives(rules, height, ClassElems(negated, ranges), []);
      assert DerivesSeq(rules, height, ClassElems(negated, ranges), []) && !InClass(negated, ranges, []);
    } else {
      forall w: Word
        ensures DerivesSeq(rules, height, ClassElems(negated, ranges), w) <==> InClass(negated, ranges, w)
      {
        ClassDerivesSet(rules, height, negated, ranges, w);
      }
    }
  }
}

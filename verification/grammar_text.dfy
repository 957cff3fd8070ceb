/** What the texts that parse stand for, and what that means. */
module GrammarText {
  import opened Bits
  import opened GrammarEmit
  import opened GrammarLanguage
  import opened GrammarLexer
  import opened GrammarMeaning
  import opened GrammarRules
  import opened GrammarSyntax

  // ---------------------------------------------------------------- what a text can stand for

  /** A text in memory ends at its first NUL. */
  ghost predicate NulFree(s: Text) {
    forall i :: 0 <= i < |s| ==> s[i] != 0
  }

  ghost predicate CharsOk(chars: seq<nat>) {
    forall i :: 0 <= i < |chars| ==> chars[i] < Pow16(8)
  }

  ghost predicate RangeOk(r: Range) {
    r.lo < Pow16(8) && (r.hi.Some? ==> r.hi.value < Pow16(8))
  }

  /** Names are non-empty, characters fit 32 bits, and a repeated item is visible. */
  ghost predicate Writable(item: Item) {
    match item
    case Lit(chars) => CharsOk(chars)
    case Class(negated, ranges) => forall i :: 0 <= i < |ranges| ==> RangeOk(ranges[i])
    case Ref(name) => UserName(name) && name != []
    case Group(alts) => WritableAlts(alts)
    case Rep(op, it) => Writable(it) && !Invisible(it)
  }

  ghost predicate WritableBody(body: Body) {
    body.Snoc? ==> WritableBody(body.init) && Writable(body.last)
  }

  ghost predicate WritableAlts(alts: Alts) {
    match alts
    case One(body) => WritableBody(body)
    case Or(before, other) => WritableAlts(before) && WritableBody(other)
  }

  /** The last alternative is empty. */
  predicate EndsEmpty(alts: Alts) {
    match alts
    case One(body) => body.Empty?
    case Or(before, other) => other.Empty?
  }

  ghost predicate WritableDef(def: Definition) {
    UserName(def.name) && def.name != [] && WritableAlts(def.alts)
  }

  /** Behind an empty alternative line ends are skipped as spaces, so that only the last definition can end in one. */
  ghost predicate WritableGrammar(defs: seq<Definition>) {
    (forall i :: 0 <= i < |defs| ==> WritableDef(defs[i])) &&
    forall i :: 0 <= i < |defs| - 1 ==> !EndsEmpty(defs[i].alts)
  }

  /** A byte at which skipping spaces stops. */
  predicate Solid(c: byte, nested: bool) {
    c != HASH && !IsBlank(c, nested)
  }

  lemma WritableNames(item: Item)
    requires Writable(item)
    ensures NamesOk(item)
    decreases item
  {
    hide CharsOk, RangeOk, UserName;
    if item.Group? { WritableAltsNames(item.alts); }
    if item.Rep? { WritableNames(item.item); }
  }

  lemma WritableBodyNames(body: Body)
    requires WritableBody(body)
    ensures BodyNamesOk(body)
    decreases body
  {
    hide Writable, NamesOk;
    if body.Snoc? {
      WritableBodyNames(body.init);
      WritableNames(body.last);
    }
  }

  lemma WritableAltsNames(alts: Alts)
    requires WritableAlts(alts)
    ensures AltsNamesOk(alts)
    decreases alts
  {
    hide WritableBody, BodyNamesOk;
    match alts
    case One(body) => WritableBodyNames(body);
    case Or(before, other) =>
      WritableAltsNames(before);
      WritableBodyNames(other);
  }

  lemma WritableDefsNames(defs: seq<Definition>)
    requires WritableGrammar(defs)
    ensures DefsNamesOk(defs)
  {
    hide UserName, WritableAlts, AltsNamesOk, EndsEmpty;
    forall i | 0 <= i < |defs|
      ensures UserName(defs[i].name) && AltsNamesOk(defs[i].alts)
    {
      assert WritableDef(defs[i]);
      WritableAltsNames(defs[i].alts);
    }
  }

  // ---------------------------------------------------------------- skipping spaces

  /** `i` lies in a comment that starts at `p` or later. */
  ghost predicate InComment(s: Text, p: nat, i: nat) {
    exists j :: p <= j <= i < |s| && s[j] == HASH && forall k :: j <= k <= i ==> s[k] != CR && s[k] != LF
  }

  lemma {:induction false} CommentEnds(s: Text, p: nat)
    requires p <= |s|
    ensures var q := SkipComment(s, p); forall k :: p <= k < q ==> s[k] != CR && s[k] != LF
    ensures At(s, SkipComment(s, p)) in [0, CR, LF]
    decreases |s| - p
  {
    if At(s, p) != 0 && At(s, p) != CR && At(s, p) != LF { CommentEnds(s, p + 1); }
  }

  /** Skipping spaces passes blanks and comments only, and stops at the first byte that is neither. */
  lemma {:induction false} SpaceIsBlank(s: Text, p: nat, newlineOk: bool)
    requires p <= |s|
    ensures var q := SkipSpace(s, p, newlineOk);
            Solid(At(s, q), newlineOk) && forall i :: p <= i < q ==> IsBlank(s[i], newlineOk) || InComment(s, p, i)
    decreases |s| - p
  {
    hide SkipComment, InComment;
    if At(s, p) == HASH {
      var q := SkipComment(s, p + 1);
      CommentEnds(s, p + 1);
      SpaceIsBlank(s, q, newlineOk);
      CommentStart(s, p, q);
      forall i | q <= i < SkipSpace(s, q, newlineOk) && InComment(s, q, i)
        ensures InComment(s, p, i)
      {
        EarlierStart(s, p, q, i);
      }
    } else if IsBlank(At(s, p), newlineOk) {
      SpaceIsBlank(s, p + 1, newlineOk);
      forall i | p + 1 <= i < SkipSpace(s, p + 1, newlineOk) && InComment(s, p + 1, i)
        ensures InComment(s, p, i)
      {
        EarlierStart(s, p, p + 1, i);
      }
    }
  }

  lemma CommentStart(s: Text, p: nat, q: nat)
    requires p < q <= |s| && s[p] == HASH && forall k :: p < k < q ==> s[k] != CR && s[k] != LF
    ensures forall i :: p <= i < q ==> InComment(s, p, i)
  {}

  lemma EarlierStart(s: Text, p: nat, q: nat, i: nat)
    requires p <= q && InComment(s, q, i)
    ensures InComment(s, p, i)
  {}

  lemma SkipNone(s: Text, p: nat, nested: bool)
    requires p <= |s| && Solid(At(s, p), nested)
    ensures SkipSpace(s, p, nested) == p
  {}

  // ---------------------------------------------------------------- every text that parses stands for that

  lemma CharIsOk(s: Text, p: nat)
    requires p <= |s| && Char(s, p).Ok?
    ensures Char(s, p).value.it < Pow16(8)
  {
    hide Char;
    CharFitsElement(s, p);
    assert Pow16(4) == 65536;
    assert Pow16(8) == 0x1_0000_0000;
  }

  lemma {:induction false} LiteralOk(s: Text, p: nat, chars: seq<nat>)
    requires p <= |s| && CharsOk(chars) && Literal(s, p, chars).Ok?
    ensures CharsOk(Literal(s, p, chars).value.it)
    decreases |s| - p
  {
    hide Char, Pow16;
    if At(s, p) != QUOTE {
      CharIsOk(s, p);
      var c := Char(s, p).value;
      LiteralOk(s, c.next, chars + [c.it]);
    }
  }

  ghost predicate RangesOk(ranges: seq<Range>) {
    forall i :: 0 <= i < |ranges| ==> RangeOk(ranges[i])
  }

  lemma OneRangeOk(s: Text, p: nat)
    requires p <= |s| && OneRange(s, p).Ok?
    ensures RangeOk(OneRange(s, p).value.it)
  {
    hide Char, Pow16;
    CharIsOk(s, p);
    var lo := Char(s, p).value;
    if At(s, lo.next) == DASH && At(s, lo.next + 1) != RBRACKET { CharIsOk(s, lo.next + 1); }
  }

  lemma {:induction false} RangesAreOk(s: Text, p: nat, ranges: seq<Range>)
    requires p <= |s| && RangesOk(ranges) && Ranges(s, p, ranges).Ok?
    ensures RangesOk(Ranges(s, p, ranges).value.it)
    decreases |s| - p
  {
    hide OneRange, RangeOk;
    if At(s, p) != RBRACKET {
      OneRangeOk(s, p);
      var x := OneRange(s, p).value;
      RangesAreOk(s, x.next, ranges + [x.it]);
    }
  }

  lemma {:induction false} ItemWritable(s: Text, p: nat, nested: bool)
    requires p <= |s| && StartsItem(At(s, p)) && ParseItem(s, p, nested).Ok?
    ensures Writable(ParseItem(s, p, nested).value.it)
    decreases |s| - p, 0
  {
    hide SkipSpace, Literal, Ranges, RangeOk, CharsOk, Solid;
    if At(s, p) == QUOTE {
      EmptyChars();
      LiteralOk(s, p + 1, []);
    } else if At(s, p) == LBRACKET {
      RangesAreOk(s, if At(s, p + 1) == CARET then p + 2 else p + 1, []);
    } else if At(s, p) == LPAREN {
      SpaceIsBlank(s, p + 1, true);
      AltsWritable(s, SkipSpace(s, p + 1, true), true);
    }
  }

  lemma EmptyChars()
    ensures CharsOk([])
  {}

  /** Only a sequence that reads nothing is empty. */
  lemma {:induction false} BodyWritable(s: Text, p: nat, nested: bool, body: Body)
    requires p <= |s| && WritableBody(body) && ParseBody(s, p, nested, body).Ok?
    ensures var x := ParseBody(s, p, nested, body).value; WritableBody(x.it) && (x.it.Empty? ==> body.Empty? && x.next == p)
    decreases |s| - p, 1
  {
    hide SkipSpace, ParseItem, Invisible;
    if StartsItem(At(s, p)) {
      ItemWritable(s, p, nested);
      var x := ParseItem(s, p, nested).value;
      BodyWritable(s, x.next, nested, Snoc(body, x.it));
    } else if IsOp(At(s, p)) {
      BodyWritable(s, SkipSpace(s, p + 1, nested), nested, Snoc(body.init, Rep(OpOf(At(s, p)), body.last)));
    }
  }

  /** Behind an empty last alternative there is neither a space nor a line end. */
  lemma {:induction false} MoreWritable(s: Text, p: nat, nested: bool, alts: Alts)
    requires p <= |s| && WritableAlts(alts) && ParseMore(s, p, nested, alts).Ok?
    requires EndsEmpty(alts) ==> Solid(At(s, p), true)
    ensures var x := ParseMore(s, p, nested, alts).value;
            WritableAlts(x.it) && (EndsEmpty(x.it) ==> Solid(At(s, x.next), true))
    decreases |s| - p, 2
  {
    hide SkipSpace, ParseBody, Solid, WritableBody;
    if At(s, p) == BAR {
      var q := SkipSpace(s, p + 1, true);
      SpaceIsBlank(s, p + 1, true);
      EmptyWritable();
      BodyWritable(s, q, nested, Empty);
      var x := ParseBody(s, q, nested, Empty).value;
      MoreWritable(s, x.next, nested, Or(alts, x.it));
    }
  }

  lemma EmptyWritable()
    ensures WritableBody(Empty)
  {}

  lemma {:induction false} AltsWritable(s: Text, p: nat, nested: bool)
    requires p <= |s| && ParseAlts(s, p, nested).Ok? && Solid(At(s, p), true)
    ensures var x := ParseAlts(s, p, nested).value;
            WritableAlts(x.it) && (EndsEmpty(x.it) ==> Solid(At(s, x.next), true))
    decreases |s| - p, 3
  {
    hide ParseBody, ParseMore, Solid, WritableBody;
    EmptyWritable();
    BodyWritable(s, p, nested, Empty);
    var x := ParseBody(s, p, nested, Empty).value;
    MoreWritable(s, x.next, nested, One(x.it));
  }

  /** A rule that ends in an empty alternative ends with the text. */
  lemma RuleWritable(s: Text, p: nat)
    requires p <= |s| && ParseRule(s, p).Ok?
    ensures var x := ParseRule(s, p).value; WritableDef(x.it) && (EndsEmpty(x.it.alts) ==> At(s, x.next) == 0)
  {
    hide ParseAlts, SkipSpace, WritableAlts, EndsEmpty;
    var d := SkipSpace(s, NameEnd(s, p), false);
    var q := SkipSpace(s, d + 3, true);
    SpaceIsBlank(s, d + 3, true);
    AltsWritable(s, q, false);
    var x := ParseAlts(s, q, false).value;
    if At(s, x.next) == 0 { SkipNone(s, x.next, true); }
  }

  lemma {:induction false} RulesWritable(s: Text, p: nat, defs: seq<Definition>)
    requires p <= |s| && WritableGrammar(defs) && ParseRules(s, p, defs).Ok?
    requires defs != [] && EndsEmpty(defs[|defs| - 1].alts) ==> At(s, p) == 0
    ensures WritableGrammar(ParseRules(s, p, defs).value.it)
    decreases |s| - p
  {
    hide ParseRule, WritableDef, EndsEmpty;
    if At(s, p) != 0 {
      var x := ParseRule(s, p).value;
      RuleWritable(s, p);
      RulesWritable(s, x.next, defs + [x.it]);
    }
  }

  /** Every parsed grammar is writable, has user names only, and its parse ends at the terminator of the text. */
  lemma ParsedGrammarOk(s: Text)
    requires NulFree(s) && ParseGrammar(s).Ok?
    ensures var x := ParseGrammar(s).value; x.next == |s| && WritableGrammar(x.it) && DefsNamesOk(x.it)
  {
    hide ParseRules, SkipSpace, WritableDef, EndsEmpty, DefsNamesOk;
    RulesWritable(s, SkipSpace(s, 0, true), []);
    WritableDefsNames(ParseGrammar(s).value.it);
  }

  /** The rules that are emitted for a text derive what the definitions in the text denote. */
  lemma TextPreservesLanguage(s: Text, name: Name, w: Word)
    requires NulFree(s) && ParseGrammar(s).Ok?
    requires UserName(name) && name in Compile(ParseGrammar(s).value.it).ids
    ensures var defs := ParseGrammar(s).value.it;
            Derivable(Compile(defs).rules, Compile(defs).ids[name], w) <==> Denotable(DefsOf(defs), Ref(name), w)
  {
    hide ParseGrammar, Derivable, Denotable, Compile, UserName, DefsOf, DefsNamesOk;
    ParsedGrammarOk(s);
    CompilePreservesLanguage(ParseGrammar(s).value.it, name, w);
  }
}

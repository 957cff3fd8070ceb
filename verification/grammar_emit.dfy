/** The symbol table, and the rules that the parser emits for an expression.

    Names of groups and repetitions are generated from the name of the rule in which they stand
    and the id that they get, with an underscore in between, which no name in a text contains.
 */
module GrammarEmit {
  import opened Bits
  import opened GrammarSyntax

  datatype ElemType = END | ALT | RULE_REF | CHAR | CHAR_NOT | CHAR_RNG_UPPER | CHAR_ALT

  datatype Elem = Elem(kind: ElemType, value: nat)

  type Rule = seq<Elem>

  /** The fields of `parse_state`. */
  datatype State = State(ids: map<Name, nat>, rules: seq<Rule>)

  // ---------------------------------------------------------------- generated names

  /** The decimal digits of a number. */
  function Digits(n: nat): (d: seq<byte>)
    ensures |d| > 0 && forall i :: 0 <= i < |d| ==> 48 <= d[i] <= 57
  {
    if n < 10 then [48 + n] else Digits(n / 10) + [48 + n % 10]
  }

  function Number(d: seq<byte>): int {
    if d == [] then 0 else Number(d[..|d| - 1]) * 10 + (d[|d| - 1] as int - 48)
  }

  lemma {:induction false} NumberOfDigits(n: nat)
    ensures Number(Digits(n)) == n
  {
    if n >= 10 {
      NumberOfDigits(n / 10);
      assert Digits(n)[..|Digits(n)| - 1] == Digits(n / 10);
    } else {
      assert Digits(n)[..0] == [];
    }
  }

  /** There are no leading zeros. */
  lemma {:induction false} FirstDigit(n: nat)
    ensures if n == 0 then Digits(n) == [48] else Digits(n)[0] != 48
  {
    if n >= 10 { FirstDigit(n / 10); }
  }

  function Generated(base: Name, id: nat): Name {
    base + [UNDERSCORE] + Digits(id)
  }

  /** What `parse_name` accepts. */
  ghost predicate UserName(name: Name) {
    forall i :: 0 <= i < |name| ==> IsWordChar(name[i])
  }

  /** For instance `root_12`. */
  lemma GeneratedName()
    ensures var s := "root_12"; Generated([114, 111, 111, 116], 12) == seq(|s|, i requires 0 <= i < |s| => s[i] as int)
  {
    assert Digits(12) == [49, 50] by { assert Digits(1) == [49]; }
  }

  /** A generated name has its only underscore behind the base. */
  lemma UnderscoreAt(base: Name, id: nat, k: nat)
    requires UserName(base) && k < |Generated(base, id)|
    ensures Generated(base, id)[k] == UNDERSCORE <==> k == |base|
  {}

  lemma GeneratedIsNoUserName(base: Name, id: nat)
    ensures !UserName(Generated(base, id))
  {
    assert Generated(base, id)[|base|] == UNDERSCORE;
  }

  lemma GeneratedInjective(base: Name, id: nat, base2: Name, id2: nat)
    requires UserName(base) && UserName(base2) && Generated(base, id) == Generated(base2, id2)
    ensures base == base2 && id == id2
  {
    var g := Generated(base, id);
    UnderscoreAt(base, id, |base2|);
    UnderscoreAt(base2, id2, |base2|);
    assert base == g[..|base|] && base2 == g[..|base|];
    assert Digits(id) == g[|base| + 1..] && Digits(id2) == g[|base| + 1..];
    NumberOfDigits(id);
    NumberOfDigits(id2);
  }

  // ---------------------------------------------------------------- the symbol table

  /** `get_symbol_id` */
  function Intern(st: State, name: Name): (r: (State, nat)) {
    if name in st.ids then (st, st.ids[name])
    else (st.(ids := st.ids[name := |st.ids|]), |st.ids|)
  }

  /** `generate_symbol_id` */
  function Generate(st: State, base: Name): (r: (State, nat)) {
    (st.(ids := st.ids[Generated(base, |st.ids|) := |st.ids|]), |st.ids|)
  }

  function Resized(rules: seq<Rule>, n: nat): (r: seq<Rule>)
    ensures |r| == if |rules| >= n then |rules| else n
    ensures forall i :: 0 <= i < |r| ==> r[i] == if i < |rules| then rules[i] else []
  {
    if |rules| >= n then rules else rules + seq(n - |rules|, _ => [])
  }

  /** `add_rule` */
  function AddRule(st: State, id: nat, rule: Rule): (r: State) {
    st.(rules := Resized(st.rules, id + 1)[id := rule])
  }

  // ---------------------------------------------------------------- emission

  function Chars(chars: seq<nat>): (e: Rule)
    ensures |e| == |chars| && forall i :: 0 <= i < |e| ==> e[i] == Elem(CHAR, chars[i])
  {
    seq(|chars|, i requires 0 <= i < |chars| => Elem(CHAR, chars[i]))
  }

  function RangeElems(kind: ElemType, r: Range): (e: Rule)
    ensures |e| == (if r.hi.Some? then 2 else 1) && e[0] == Elem(kind, r.lo)
  {
    [Elem(kind, r.lo)] + match r.hi case Some(hi) => [Elem(CHAR_RNG_UPPER, hi)] case None => []
  }

  /** The elements of a class: `CHAR_ALT` at all ranges but the first. */
  function ClassElems(negated: bool, ranges: seq<Range>): (e: Rule)
    ensures e == [] <==> ranges == []
  {
    if ranges == [] then []
    else
      var n := |ranges| - 1;
      ClassElems(negated, ranges[..n]) +
      RangeElems(if n > 0 then CHAR_ALT else if negated then CHAR_NOT else CHAR, ranges[n])
  }

  lemma NoElems(negated: bool)
    ensures ClassElems(negated, []) == []
  {}

  /** S* is S' ::= S S' | ; S+ is S' ::= S S' | S; S? is S' ::= S | . */
  function RepRule(op: Op, e: Rule, id: nat): Rule {
    match op
    case Star => e + [Elem(RULE_REF, id)] + [Elem(ALT, 0)] + [Elem(END, 0)]
    case Plus => e + [Elem(RULE_REF, id)] + [Elem(ALT, 0)] + e + [Elem(END, 0)]
    case Opt => e + [Elem(ALT, 0)] + [Elem(END, 0)]
  }

  function EmitItem(st: State, base: Name, item: Item): (r: (State, Rule))
    decreases item
  {
    match item
    case Lit(chars) => (st, Chars(chars))
    case Class(negated, ranges) => (st, ClassElems(negated, ranges))
    case Ref(name) =>
      var (st1, id) := Intern(st, name);
      (st1, [Elem(RULE_REF, id)])
    case Group(alts) =>
      var (st1, id) := Generate(st, base);
      var (st2, e) := EmitAlts(st1, base, alts);
      (AddRule(st2, id, e + [Elem(END, 0)]), [Elem(RULE_REF, id)])
    case Rep(op, it) =>
      var (st1, e) := EmitItem(st, base, it);
      var (st2, id) := Generate(st1, base);
      (AddRule(st2, id, RepRule(op, e, id)), [Elem(RULE_REF, id)])
  }

  function EmitBody(st: State, base: Name, body: Body): (r: (State, Rule))
    decreases body
  {
    match body
    case Empty => (st, [])
    case Snoc(init, last) =>
      var (st1, e1) := EmitBody(st, base, init);
      var (st2, e2) := EmitItem(st1, base, last);
      (st2, e1 + e2)
  }

  function EmitAlts(st: State, base: Name, alts: Alts): (r: (State, Rule))
    decreases alts
  {
    match alts
    case One(body) => EmitBody(st, base, body)
    case Or(before, other) =>
      var (st1, e1) := EmitAlts(st, base, before);
      var (st2, e2) := EmitBody(st1, base, other);
      (st2, e1 + [Elem(ALT, 0)] + e2)
  }

  function CompileRule(st: State, def: Definition): State {
    var (st1, id) := Intern(st, def.name);
    var (st2, e) := EmitAlts(st1, def.name, def.alts);
    AddRule(st2, id, e + [Elem(END, 0)])
  }

  const NO_STATE := State(map[], [])

  function Compile(defs: seq<Definition>): State {
    if defs == [] then NO_STATE else CompileRule(Compile(defs[..|defs| - 1]), defs[|defs| - 1])
  }
}

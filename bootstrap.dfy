/**
  * Building a grammar from BNF text (`Grammar.parse_bnf` in
  * nangram/grammar.py): the meta-grammar that describes BNF, and the
  * helpers that turn its parse tree into elements.
  *
  * Those helpers fail in three ways, and the model keeps them apart:
  * `next` on an exhausted lookup raises StopIteration (`Stop`), which an
  * enclosing `list(map(...))` takes for the end of its input and so cuts the
  * list short; indexing an empty list and the like raise another exception
  * (`Fail`).
  */
module Bootstrap {
  import opened Prelude
  import opened Nodes
  import opened Elements
  import opened Grammars

  /** The result of a helper: a value, StopIteration, or another exception. */
  datatype Outcome<T> = Done(value: T) | Stop | Fail

  // ---------------------------------------------------------------------------
  // The BNF meta-grammar
  // ---------------------------------------------------------------------------

  const Letters: string := "abcdefghijklmnopqrstuvwxyzABCDEFGHIJKLMNOPQRSTUVWXYZ"
  const Digits: string := "0123456789"
  /** Python's `string.whitespace`: space, tab, line feed, carriage return,
      vertical tab and form feed. */
  const Whitespace: string := [' ', '\t', '\n', '\r', 11 as char, 12 as char]

  /** One single-character terminal per character of `cs`. */
  function Chars(cs: string): (r: seq<Element>)
    ensures |r| == |cs| && forall i | 0 <= i < |cs| :: r[i] == Terminal([cs[i]], None, None)
  {
    seq(|cs|, i requires 0 <= i < |cs| => Terminal([cs[i]], None, None))
  }

  function T(lit: string): Element { Terminal(lit, None, None) }
  function Sub(name: string): Element { Substitution(name, None, None) }
  function Named(name: string, tag: string): Element { Substitution(name, None, Some(tag)) }
  function OneOf(cs: string): Element { Choice(Chars(cs), None, None) }

  /** The rules of the meta-grammar, one function per rule. */
  function StringContents(): Element { Repetition(OneOf(Letters + Digits + "\\ "), None, None) }
  function OptionalWhitespace(): Element { Repetition(OneOf(Whitespace), Some(" "), None) }
  function Identifier(): Element
  {
    Sequence([OneOf(Letters + "_"), Repetition(OneOf(Letters + Digits + "_"), None, None)], None, None)
  }
  function RuleRule(): Element
  {
    Sequence([Named("identifier", "name"), Sub("optional_whitespace"),
              Option(Sequence([T("\""), Named("string_contents", "override"), T("\""), Sub("optional_whitespace")], None, None), None, None),
              T("="), Sub("optional_whitespace"),
              Named("expression", "expression"), Sub("optional_whitespace"),
              T(".")], None, None)
  }
  function StringRule(): Element
  {
    Sequence([T("\""), Named("string_contents", "contents"), T("\"")], None, None)
  }
  /** The body shared by `repetition` and `option`, between its brackets. */
  function Bracketed(open: string, close: string): Element
  {
    Sequence([T(open), Sub("optional_whitespace"), Named("expression", "expression"), Sub("optional_whitespace"), T(close)], None, None)
  }
  function ItemRule(): Element
  {
    Sequence([Option(Sequence([Named("identifier", "label"), Sub("optional_whitespace"), T(":"), Sub("optional_whitespace")], None, None), None, None),
              Choice([Sub("string"), Sub("identifier"), Sub("option"), Sub("repetition")], None, Some("contents"))], None, None)
  }
  function SequenceRule(): Element
  {
    Sequence([Named("item", "item"),
              Repetition(Sequence([Choice(Chars(Whitespace), Some(" "), None), Named("item", "item")], None, None), None, None)], None, None)
  }
  function ExpressionRule(): Element
  {
    Sequence([Named("sequence", "choice"),
              Repetition(Sequence([Sub("optional_whitespace"), T("|"), Sub("optional_whitespace"), Named("sequence", "choice")], None, None), None, None)], None, None)
  }
  function MainRule(): Element
  {
    Sequence([Named("rule", "rule"),
              Repetition(Sequence([Substitution("optional_whitespace", Some("\n"), None), Named("rule", "rule")], None, None), None, None)], None, None)
  }

  const RuleNames: set<string> := {"string_contents", "optional_whitespace", "identifier", "rule", "string",
                                   "repetition", "option", "item", "sequence", "expression", "main"}

  /** The grammar that `parse_bnf` parses its source with. */
  function MetaGrammar(): Grammar
  {
    DefaultGrammar(map[
      "string_contents" := StringContents(),
      "optional_whitespace" := OptionalWhitespace(),
      "identifier" := Identifier(),
      "rule" := RuleRule(),
      "string" := StringRule(),
      "repetition" := Bracketed("{", "}"),
      "option" := Bracketed("[", "]"),
      "item" := ItemRule(),
      "sequence" := SequenceRule(),
      "expression" := ExpressionRule(),
      "main" := MainRule()
    ])
  }

  lemma CharsRefs(cs: string, ov: Option<string>, keys: set<string>)
    ensures RefsIn(Choice(Chars(cs), ov, None), keys)
  {
    forall i | 0 <= i < |cs|
      ensures RefsIn(Chars(cs)[i], keys)
    {
      assert Chars(cs)[i] == Terminal([cs[i]], None, None);
    }
  }

  lemma LexicalRefs()
    ensures RefsIn(StringContents(), RuleNames) && RefsIn(OptionalWhitespace(), RuleNames) && RefsIn(Identifier(), RuleNames)
  {
    CharsRefs(Letters + Digits + "\\ ", None, RuleNames);
    CharsRefs(Whitespace, None, RuleNames);
    CharsRefs(Letters + "_", None, RuleNames);
    CharsRefs(Letters + Digits + "_", None, RuleNames);
  }

  lemma RuleRefs()
    ensures RefsIn(RuleRule(), RuleNames)
  {
    var es := RuleRule().elements;
    assert RefsIn(es[2], RuleNames);
  }

  lemma ItemRefs()
    ensures RefsIn(StringRule(), RuleNames) && RefsIn(ItemRule(), RuleNames)
    ensures RefsIn(Bracketed("{", "}"), RuleNames) && RefsIn(Bracketed("[", "]"), RuleNames)
  {
    assert RefsIn(ItemRule().elements[0], RuleNames);
    assert RefsIn(ItemRule().elements[1], RuleNames);
  }

  lemma ListRefs()
    ensures RefsIn(SequenceRule(), RuleNames) && RefsIn(ExpressionRule(), RuleNames) && RefsIn(MainRule(), RuleNames)
  {
    CharsRefs(Whitespace, Some(" "), RuleNames);
    assert RefsIn(SequenceRule().elements[1].element, RuleNames);
    assert RefsIn(ExpressionRule().elements[1].element, RuleNames);
    assert RefsIn(MainRule().elements[1].element, RuleNames);
  }

  /** Every rule the meta-grammar refers to is one of its rules, and it has
      the default limits. */
  lemma MetaGrammarClosed()
    ensures Closed(MetaGrammar()) && "main" in MetaGrammar().rules
    ensures MetaGrammar().maxProducts == 8 && MetaGrammar().maxRepetitions == 4 && MetaGrammar().maxRecursions == 8
  {
    MetaRuleNames();
    MetaRefs();
    ClosedOver(MetaGrammar(), RuleNames);
  }

  lemma MetaRuleNames()
    ensures MetaGrammar().rules.Keys == RuleNames
  {
  }

  lemma MetaRefs()
    ensures forall n | n in MetaGrammar().rules :: RefsIn(MetaGrammar().rules[n], RuleNames)
  {
    LexicalRefs();
    RuleRefs();
    ItemRefs();
    ListRefs();
    var m: map<string, Element> := map[];
    AddRule(m, "string_contents", StringContents(), m["string_contents" := StringContents()]);
    m := m["string_contents" := StringContents()];
    AddRule(m, "optional_whitespace", OptionalWhitespace(), m["optional_whitespace" := OptionalWhitespace()]);
    m := m["optional_whitespace" := OptionalWhitespace()];
    AddRule(m, "identifier", Identifier(), m["identifier" := Identifier()]);
    m := m["identifier" := Identifier()];
    AddRule(m, "rule", RuleRule(), m["rule" := RuleRule()]);
    m := m["rule" := RuleRule()];
    AddRule(m, "string", StringRule(), m["string" := StringRule()]);
    m := m["string" := StringRule()];
    AddRule(m, "repetition", Bracketed("{", "}"), m["repetition" := Bracketed("{", "}")]);
    m := m["repetition" := Bracketed("{", "}")];
    AddRule(m, "option", Bracketed("[", "]"), m["option" := Bracketed("[", "]")]);
    m := m["option" := Bracketed("[", "]")];
    AddRule(m, "item", ItemRule(), m["item" := ItemRule()]);
    m := m["item" := ItemRule()];
    AddRule(m, "sequence", SequenceRule(), m["sequence" := SequenceRule()]);
    m := m["sequence" := SequenceRule()];
    AddRule(m, "expression", ExpressionRule(), m["expression" := ExpressionRule()]);
    m := m["expression" := ExpressionRule()];
    AddRule(m, "main", MainRule(), m["main" := MainRule()]);
    m := m["main" := MainRule()];
    assert m == MetaGrammar().rules;
  }

  /** A grammar whose rules all refer only to its own rule names is closed. */
  lemma ClosedOver(g: Grammar, keys: set<string>)
    requires g.rules.Keys == keys
    requires forall n | n in g.rules :: RefsIn(g.rules[n], keys)
    ensures Closed(g)
  {
  }

  /** Adding a rule whose references are all among `RuleNames` keeps every
      rule's references there. */
  lemma AddRule(m: map<string, Element>, name: string, e: Element, m': map<string, Element>)
    requires forall n | n in m :: RefsIn(m[n], RuleNames)
    requires RefsIn(e, RuleNames) && m' == m[name := e]
    ensures forall n | n in m' :: RefsIn(m'[n], RuleNames)
  {
  }

  // ---------------------------------------------------------------------------
  // `source.strip()`
  // ---------------------------------------------------------------------------

  /** Number of leading white-space characters. */
  function Lead(s: string): (i: nat)
    ensures i <= |s|
    ensures forall k | 0 <= k < i :: IsSpaceChar(s[k])
    ensures i < |s| ==> !IsSpaceChar(s[i])
  {
    if s != [] && IsSpaceChar(s[0]) then
      var i := 1 + Lead(s[1..]);
      assert forall k | 1 <= k < i :: s[k] == s[1..][k - 1];
      i
    else 0
  }

  /** Where the trailing white space of `s` begins, not going below `lo`. */
  function End(s: string, lo: nat): (j: nat)
    requires lo <= |s|
    ensures lo <= j <= |s|
    ensures forall k | j <= k < |s| :: IsSpaceChar(s[k])
    ensures j > lo ==> !IsSpaceChar(s[j - 1])
    decreases |s|
  {
    if |s| > lo && IsSpaceChar(s[|s| - 1]) then
      var j := End(s[..|s| - 1], lo);
      assert forall k | j <= k < |s| - 1 :: s[k] == s[..|s| - 1][k];
      j
    else |s|
  }

  /** Python's `str.strip()`: the text without leading and trailing white
      space, which it neither begins nor ends with. */
  function Strip(s: string): (r: string)
    ensures r == s[Lead(s)..End(s, Lead(s))]
    ensures r == "" || (!IsSpaceChar(r[0]) && !IsSpaceChar(r[|r| - 1]))
  {
    s[Lead(s)..End(s, Lead(s))]
  }

  // ---------------------------------------------------------------------------
  // The shapes the tree walk builds
  // ---------------------------------------------------------------------------

  /** What `parse_item` builds: a terminal, a substitution, or an option or
      repetition around an expression, with no override. */
  predicate ItemForm(e: Element)
    decreases e, 0
  {
    e.override == None &&
    match e
    case Terminal(_, _, _) => true
    case Substitution(_, _, _) => true
    case Option(inner, _, _) => ExpressionForm(inner)
    case Repetition(inner, _, _) => ExpressionForm(inner)
    case Sequence(_, _, _) => false
    case Choice(_, _, _) => false
  }

  /** What `parse_choice` builds: a single item, or an unlabelled Sequence of
      two items or more. */
  predicate ChoiceForm(e: Element)
    decreases e, 1
  {
    ItemForm(e) ||
    (e.Sequence? && e.override == None && e.tag == None && |e.elements| >= 2 &&
     forall i | 0 <= i < |e.elements| :: ItemForm(e.elements[i]))
  }

  /** What `parse_expression` builds: a single choice, or an unlabelled Choice
      of two choices or more. */
  predicate ExpressionForm(e: Element)
    decreases e, 2
  {
    ChoiceForm(e) ||
    (e.Choice? && e.override == None && e.tag == None && |e.elements| >= 2 &&
     forall i | 0 <= i < |e.elements| :: ChoiceForm(e.elements[i]))
  }

  lemma FormUnset(e: Element)
    requires ExpressionForm(e)
    ensures e.override == None && e.(override := None) == e
  {
    assert ChoiceForm(e) || e.Choice?;
    assert ChoiceForm(e) ==> ItemForm(e) || e.Sequence?;
    match e
    case Terminal(_, _, _) =>
    case Substitution(_, _, _) =>
    case Sequence(_, _, _) =>
    case Choice(_, _, _) =>
    case Option(_, _, _) =>
    case Repetition(_, _, _) =>
  }

  // ---------------------------------------------------------------------------
  // The tree walk
  // ---------------------------------------------------------------------------

  /** The label of an item: the text of the single `label` node the lookup
      finds, or none when there are zero or several.  The lookup skips a
      `contents` node only among the item's own children (see `Nodes.Get`);
      an item's contents sit one level further down, so the labels inside
      a bracketed expression are counted too. */
  function ItemLabel(item: Node): Option<string>
  {
    var labels := Get(item, "label", ["contents"]);
    if |labels| == 1 then Some(ParsedString(labels[0])) else None
  }

  /** The label the item's own prefix gives it: the lookup that leaves
      `contents` unentered at every depth. */
  function IntendedItemLabel(item: Node): Option<string>
  {
    var labels := GetExcluding(item, "label", ["contents"]);
    if |labels| == 1 then Some(ParsedString(labels[0])) else None
  }

  /** `parse_item`.  The contents node's first child decides the kind by its
      rule name; any other rule name yields no element, a failure here. */
  function ParseItem(item: Node): (r: Outcome<Element>)
    ensures r.Done? ==> ItemForm(r.value) && r.value.tag == ItemLabel(item)
    decreases NodeSize(item), 1, 0
  {
    var tag := ItemLabel(item);
    var contents := Get(item, "contents", []);
    if contents == [] then Stop
    else
      var c := contents[0];
      if c.children == [] then Fail
      else
        var node := c.children[0];
        ChildSmaller(c.children, 0);
        if node.rule == "string" then
          var inner := Get(node, "contents", []);
          if inner == [] then Stop else Done(Terminal(ParsedString(inner[0]), None, tag))
        else if node.rule == "identifier" then
          Done(Substitution(ParsedString(node), None, tag))
        else if node.rule == "option" || node.rule == "repetition" then
          var exprs := Get(node, "expression", []);
          if exprs == [] then Stop
          else
            match ParseExpression(exprs[0])
            case Done(e) => Done(if node.rule == "option" then Option(e, None, tag) else Repetition(e, None, tag))
            case Stop => Stop
            case Fail => Fail
        else Fail
  }

  /** `list(map(f, xs))` over the outcomes of `f` on each of `xs`: the values
      of the leading outcomes, cut short at the first StopIteration (which
      `list` takes for the end of its input), or the first other exception. */
  function Listed<T>(os: seq<Outcome<T>>): (r: Outcome<seq<T>>)
    ensures !r.Stop?
    ensures r.Done? ==> |r.value| <= |os| && forall i | 0 <= i < |r.value| :: os[i] == Done(r.value[i])
    ensures r.Done? && |r.value| < |os| ==> os[|r.value|] == Stop
    ensures r.Fail? <==> exists i :: 0 <= i < |os| && os[i] == Fail && forall j | 0 <= j < i :: os[j].Done?
  {
    if os == [] then Done([])
    else
      match os[0]
      case Stop => Done([])
      case Fail => Fail
      case Done(x) =>
        match Listed(os[1..])
        case Done(xs) => Done([x] + xs)
        case Stop => Stop
        case Fail => Fail
  }

  /** `parse_item` on each of `items`. */
  function ItemOutcomes(parent: Node, items: seq<Node>): (r: seq<Outcome<Element>>)
    requires forall x | x in items :: NodeSize(x) < NodeSize(parent)
    ensures |r| == |items| && forall i | 0 <= i < |r| :: r[i] == ParseItem(items[i])
    decreases NodeSize(parent), 0, |items|
  {
    if items == [] then [] else [ParseItem(items[0])] + ItemOutcomes(parent, items[1..])
  }

  /** `parse_choice`: the items of a choice, wrapped in a Sequence when there
      are several; no item at all raises IndexError. */
  function ParseChoice(choice: Node): (r: Outcome<Element>)
    ensures !r.Stop?
    ensures r.Done? ==> ChoiceForm(r.value)
    decreases NodeSize(choice), 1, 0
  {
    var os := ItemOutcomes(choice, Get(choice, "item", []));
    match Listed(os)
    case Done(es) =>
      assert forall i | 0 <= i < |es| :: os[i] == Done(es[i]) && ItemForm(es[i]);
      if |es| > 1 then Done(Sequence(es, None, None)) else if |es| == 1 then Done(es[0]) else Fail
    case Stop => Stop
    case Fail => Fail
  }

  /** `parse_choice` on each of `choices`. */
  function ChoiceOutcomes(parent: Node, choices: seq<Node>): (r: seq<Outcome<Element>>)
    requires forall x | x in choices :: NodeSize(x) < NodeSize(parent)
    ensures |r| == |choices| && forall i | 0 <= i < |r| :: r[i] == ParseChoice(choices[i])
    decreases NodeSize(parent), 0, |choices|
  {
    if choices == [] then [] else [ParseChoice(choices[0])] + ChoiceOutcomes(parent, choices[1..])
  }

  /** `parse_expression`: the choices of an expression, wrapped in a Choice
      when there are several; none at all raises IndexError. */
  function ParseExpression(expression: Node): (r: Outcome<Element>)
    ensures !r.Stop?
    ensures r.Done? ==> ExpressionForm(r.value)
    decreases NodeSize(expression), 1, 0
  {
    var os := ChoiceOutcomes(expression, Get(expression, "choice", []));
    match Listed(os)
    case Done(es) =>
      assert forall i | 0 <= i < |es| :: os[i] == Done(es[i]) && ChoiceForm(es[i]);
      if |es| > 1 then Done(Choice(es, None, None)) else if |es| == 1 then Done(es[0]) else Fail
    case Stop => Stop
    case Fail => Fail
  }

  /** The override of a rule: the text of its single `override` node, or
      none when there are zero or several. */
  function RuleOverride(rule: Node): Option<string>
  {
    var overrides := Get(rule, "override", []);
    if |overrides| == 1 then Some(ParsedString(overrides[0])) else None
  }

  /** `parse_rule`: the rule's name and its expression, whose generation
      override is then set to the rule's override. */
  function ParseRule(rule: Node): (r: Outcome<(string, Element)>)
    ensures r.Stop? <==> Get(rule, "name", []) == [] || Get(rule, "expression", []) == []
    ensures r.Done? ==> Get(rule, "name", []) != [] && r.value.0 == ParsedString(Get(rule, "name", [])[0])
    ensures r.Done? ==> r.value.1.override == RuleOverride(rule) && ExpressionForm(r.value.1.(override := None))
  {
    var names := Get(rule, "name", []);
    if names == [] then Stop
    else
      var exprs := Get(rule, "expression", []);
      if exprs == [] then Stop
      else
        match ParseExpression(exprs[0])
        case Done(e) =>
          FormUnset(e);
          Done((ParsedString(names[0]), e.(override := RuleOverride(rule))))
        case Stop => Stop
        case Fail => Fail
  }

  /** `list(map(parse_rule, rules))` */
  function MapRules(rules: seq<Node>): Outcome<seq<(string, Element)>>
  {
    Listed(seq(|rules|, i requires 0 <= i < |rules| => ParseRule(rules[i])))
  }

  /** A dictionary built from name-element pairs in order: a later pair
      replaces an earlier one with the same name. */
  function Collapse(ps: seq<(string, Element)>): (m: map<string, Element>)
  {
    if ps == [] then map[] else Collapse(ps[..|ps| - 1])[ps[|ps| - 1].0 := ps[|ps| - 1].1]
  }

  /** The dictionary has exactly the names of the pairs, and each name maps to
      the element of its last pair. */
  lemma {:induction false} CollapseLastWins(ps: seq<(string, Element)>, name: string)
    ensures name in Collapse(ps) <==> exists i :: 0 <= i < |ps| && ps[i].0 == name
    ensures forall i | 0 <= i < |ps| && ps[i].0 == name && (forall j | i < j < |ps| :: ps[j].0 != name) ::
              name in Collapse(ps) && Collapse(ps)[name] == ps[i].1
    decreases |ps|
  {
    if ps != [] {
      var init := ps[..|ps| - 1];
      CollapseLastWins(init, name);
      if exists i :: 0 <= i < |init| && init[i].0 == name {
        var i :| 0 <= i < |init| && init[i].0 == name;
        assert ps[i].0 == name;
      }
      if exists i :: 0 <= i < |ps| && ps[i].0 == name {
        var i :| 0 <= i < |ps| && ps[i].0 == name;
        if i < |ps| - 1 {
          assert init[i].0 == name;
        }
      }
      forall i | 0 <= i < |ps| && ps[i].0 == name && (forall j | i < j < |ps| :: ps[j].0 != name)
        ensures name in Collapse(ps) && Collapse(ps)[name] == ps[i].1
      {
        if i < |ps| - 1 {
          assert init[i] == ps[i];
          assert forall j | i < j < |init| :: init[j] == ps[j];
        }
      }
    }
  }

  /** `parse_rules`: the rules of a tree as a dictionary. */
  function RulesOf(tree: Node): Outcome<map<string, Element>>
  {
    match MapRules(Get(tree, "rule", []))
    case Done(ps) => Done(Collapse(ps))
    case Stop => Stop
    case Fail => Fail
  }

  lemma CollapseSnoc(ps: seq<(string, Element)>, i: nat)
    requires i < |ps|
    ensures Collapse(ps[..i + 1]) == Collapse(ps[..i])[ps[i].0 := ps[i].1]
  {
    assert ps[..i + 1][..i] == ps[..i];
  }

  /** `parse_rules`, with its dictionary comprehension as a loop over the
      listed pairs. */
  method ParseRules(tree: Node) returns (r: Outcome<map<string, Element>>)
    ensures r == RulesOf(tree)
  {
    var listed := MapRules(Get(tree, "rule", []));
    if !listed.Done? {
      return Fail;
    }
    var ps := listed.value;
    var rules: map<string, Element> := map[];
    for i := 0 to |ps|
      invariant rules == Collapse(ps[..i])
    {
      CollapseSnoc(ps, i);
      rules := rules[ps[i].0 := ps[i].1];
    }
    assert ps[..|ps|] == ps;
    r := Done(rules);
  }

  /** The complete parses of the stripped source under the meta-grammar. */
  function MetaParses(source: string, fuel: nat): seq<Node>
  {
    MetaGrammarClosed();
    ParseComplete(MetaGrammar(), Strip(source), "main", fuel)
  }

  /** `parse_bnf`: the rules built from the first complete parse of the
      stripped source, with the default limits; StopIteration when there is
      no complete parse. */
  function ParseBnf(source: string, fuel: nat): Outcome<Grammar>
  {
    var trees := MetaParses(source, fuel);
    if trees == [] then Stop
    else
      match RulesOf(trees[0])
      case Done(rules) => Done(DefaultGrammar(rules))
      case Stop => Stop
      case Fail => Fail
  }

  /** `parse_bnf` raises StopIteration exactly when the stripped source has no
      complete parse; a grammar it returns has the default limits and the
      rules of the first complete parse, which spans the whole stripped
      source. */
  lemma ParseBnfSpec(source: string, fuel: nat)
    ensures ParseBnf(source, fuel).Stop? <==> MetaParses(source, fuel) == []
    ensures ParseBnf(source, fuel).Done? ==>
            var t := MetaParses(source, fuel)[0];
            var g := ParseBnf(source, fuel).value;
            t.start == 0 && t.stop == |Strip(source)| && t.text == Strip(source) && RulesOf(t) == Done(g.rules) &&
            g.maxProducts == 8 && g.maxRepetitions == 4 && g.maxRecursions == 8
  {
    MetaGrammarClosed();
    var trees := MetaParses(source, fuel);
    if trees != [] {
      var t := trees[0];
      ParseCompleteSpec(MetaGrammar(), Strip(source), "main", fuel, t);
      ParseTrees(MetaGrammar(), Strip(source), "main", fuel);
    }
  }

  // ---------------------------------------------------------------------------
  // Reading elements back from the trees the meta-grammar builds for them
  // ---------------------------------------------------------------------------

  /** No element in `e`, itself included, carries a label. */
  predicate Unlabelled(e: Element)
    decreases e
  {
    e.tag == None &&
    match e
    case Terminal(_, _, _) => true
    case Substitution(_, _, _) => true
    case Sequence(es, _, _) => forall i | 0 <= i < |es| :: Unlabelled(es[i])
    case Choice(es, _, _) => forall i | 0 <= i < |es| :: Unlabelled(es[i])
    case Option(inner, _, _) => Unlabelled(inner)
    case Repetition(inner, _, _) => Unlabelled(inner)
  }

  /** Labels only outside brackets: whatever an option or a repetition
      encloses carries none. */
  predicate OuterLabels(e: Element)
    decreases e
  {
    match e
    case Terminal(_, _, _) => true
    case Substitution(_, _, _) => true
    case Sequence(es, _, _) => forall i | 0 <= i < |es| :: OuterLabels(es[i])
    case Choice(es, _, _) => forall i | 0 <= i < |es| :: OuterLabels(es[i])
    case Option(inner, _, _) => Unlabelled(inner)
    case Repetition(inner, _, _) => Unlabelled(inner)
  }

  lemma {:induction false} UnlabelledOuter(e: Element)
    requires Unlabelled(e)
    ensures OuterLabels(e)
    decreases e
  {
    match e
    case Terminal(_, _, _) =>
    case Substitution(_, _, _) =>
    case Sequence(es, _, _) =>
      forall i | 0 <= i < |es| ensures OuterLabels(es[i]) { UnlabelledOuter(es[i]); }
    case Choice(es, _, _) =>
      forall i | 0 <= i < |es| ensures OuterLabels(es[i]) { UnlabelledOuter(es[i]); }
    case Option(inner, _, _) =>
    case Repetition(inner, _, _) =>
  }

  /*
   * The trees below have the shape the meta-grammar's parse gives an item,
   * a sequence, an expression, a rule and a script (nangram/grammar.py:60-75,
   * with the node shapes of `Elements.ParseAt`):
   * - a labelled Substitution is a node carrying the label over the node of
   *   the referenced rule;
   * - a Sequence match is a composite over one node per part, then a
   *   zero-width placeholder;
   * - an unlabelled Option that matched nothing, and a Repetition that
   *   matched no copy, are a zero-width node;
   * - a Repetition that matched copies is a composite over the copies, each
   *   the composite of one match of the repeated sequence.
   * Parts that hold no label at all (terminals, white space, an
   * identifier's characters) are single unlabelled leaves.  Each node whose
   * text the walk reads carries that text; regions elsewhere are left empty.
   */

  /** An unlabelled node without children: a terminal, a placeholder, white
      space, or any part that holds no label. */
  function Leaf(rule: string): Node
  {
    Node(rule, "", 0, 0, [], None)
  }

  /** The composite a Sequence match in `rule` builds: its parts, then the
      zero-width placeholder. */
  function Comp(rule: string, parts: seq<Node>): Node
  {
    Node(rule, "", 0, 0, parts + [Leaf(rule)], None)
  }

  /** The copies of a Repetition over `sep` followed by one more part: one
      composite per part of `rest`. */
  function Copies(rule: string, rest: seq<Node>, sep: seq<Node>): seq<Node>
  {
    if rest == [] then [] else [Comp(rule, sep + [rest[0]])] + Copies(rule, rest[1..], sep)
  }

  /** The match of `(sep x)*` in `rule` over the parts `rest`: a zero-width
      node when there are none, otherwise the composite of the copies. */
  function Repeated(rule: string, rest: seq<Node>, sep: seq<Node>): Node
  {
    if rest == [] then Leaf(rule) else Node(rule, "", 0, 0, Copies(rule, rest, sep) + [Leaf(rule)], None)
  }

  /** The match of `x (sep x)*` in `rule`: the first part, then the
      Repetition over the others, each led by the separator.  No part at all
      is a zero-width node, a match the meta-grammar never makes. */
  function Spread(rule: string, parts: seq<Node>, sep: seq<Node>): Node
  {
    if parts == [] then Leaf(rule) else Comp(rule, [parts[0], Repeated(rule, parts[1..], sep)])
  }

  /** `optional_whitespace` matched as nothing. */
  function Blank(): Node
  {
    Leaf("optional_whitespace")
  }

  /** An identifier: its first character, the Repetition over the others and
      the placeholder. */
  function IdentTree(name: string): Node
  {
    Node("identifier", name, 0, |name|, [Leaf("identifier"), Leaf("identifier"), Leaf("identifier")], None)
  }

  /** The `label` node of an item's prefix, over the identifier. */
  function LabelTree(l: string): Node
  {
    Node("item", l, 0, |l|, [IdentTree(l)], Some("label"))
  }

  /** The labels an item's prefix holds. */
  function PrefixLabels(tag: Option<string>): seq<Node>
  {
    if tag.Some? then [LabelTree(tag.value)] else []
  }

  /** An item's optional `label:` prefix. */
  function PrefixTree(tag: Option<string>): Node
  {
    match tag
    case Some(l) => Comp("item", [LabelTree(l), Blank(), Leaf("item"), Blank()])
    case None => Leaf("item")
  }

  /** A quoted string's `string_contents` under the label `l`, as the
      Substitution in `rule` builds it. */
  function QuotedTree(rule: string, text: string, l: string): Node
  {
    Node(rule, text, 0, |text|, [Node("string_contents", text, 0, |text|, [], None)], Some(l))
  }

  /** The node under an item's `contents`: a string, an identifier, an
      option or a repetition (the other variants are no item). */
  function KindTree(e: Element): Node
    decreases e, 0
  {
    match e
    case Terminal(lit, _, _) => Comp("string", [Leaf("string"), QuotedTree("string", lit, "contents"), Leaf("string")])
    case Substitution(name, _, _) => IdentTree(name)
    case Option(inner, _, _) => Comp("option", [Leaf("option"), Blank(), ExprTree("option", inner), Blank(), Leaf("option")])
    case Repetition(inner, _, _) => Comp("repetition", [Leaf("repetition"), Blank(), ExprTree("repetition", inner), Blank(), Leaf("repetition")])
    case Sequence(_, _, _) => Leaf("sequence")
    case Choice(_, _, _) => Leaf("expression")
  }

  function ContentsTree(e: Element): Node
    decreases e, 1
  {
    Node("item", "", 0, 0, [KindTree(e)], Some("contents"))
  }

  /** An `item`-labelled node over the item rule's prefix and contents. */
  function ItemTree(e: Element): Node
    decreases e, 2
  {
    Node("sequence", "", 0, 0, [Comp("item", [PrefixTree(e.tag), ContentsTree(e)])], Some("item"))
  }

  /** The item trees of a choice: one per element of a Sequence, else the
      choice itself. */
  function ItemTrees(c: Element): seq<Node>
    decreases c, 3
  {
    if c.Sequence? then seq(|c.elements|, i requires 0 <= i < |c.elements| => ItemTree(c.elements[i]))
    else [ItemTree(c)]
  }

  /** A `choice`-labelled node over a sequence: its items, separated by
      white space. */
  function ChoiceTree(c: Element): Node
    decreases c, 4
  {
    Node("expression", "", 0, 0, [Spread("sequence", ItemTrees(c), [Leaf("sequence")])], Some("choice"))
  }

  /** The choice trees of an expression: one per element of a Choice, else
      the expression itself. */
  function ChoiceTrees(e: Element): seq<Node>
    decreases e, 5
  {
    if e.Choice? then seq(|e.elements| , i requires 0 <= i < |e.elements| => ChoiceTree(e.elements[i]))
    else [ChoiceTree(e)]
  }

  /** An `expression`-labelled node, built in rule `outer`, over an
      expression: its choices, separated by `|`. */
  function ExprTree(outer: string, e: Element): Node
    decreases e, 6
  {
    Node(outer, "", 0, 0, [Spread("expression", ChoiceTrees(e), [Blank(), Leaf("expression"), Blank()])], Some("expression"))
  }

  lemma WholeSlice(t: string)
    ensures Slice(t, 0, |t|) == t
  {
    assert t[0..|t|] == t;
  }

  /** The meta-grammar's labels are distinct. */
  lemma LabelsDistinct()
    ensures "label" != "contents" && "label" != "item" && "label" != "choice" && "label" != "expression"
    ensures "contents" != "item" && "item" != "choice" && "choice" != "expression"
    ensures "name" != "expression" && "name" != "override" && "override" != "expression"
    ensures "name" != "label" && "override" != "label" && "name" != "contents" && "override" != "contents"
    ensures "name" != "item" && "name" != "choice" && "override" != "item" && "override" != "choice"
  {
    assert |"label"| == 5 && |"contents"| == 8 && |"item"| == 4 && |"choice"| == 6 && |"expression"| == 10;
    assert |"name"| == 4 && |"override"| == 8;
    assert "contents"[0] != "override"[0] && "name"[0] != "item"[0];
  }

  // The lookup through the shapes above.

  /** A composite's placeholder holds nothing. */
  lemma CompFound(rule: string, parts: seq<Node>, l: string, d: seq<string>)
    ensures Collect(Comp(rule, parts).children, l, d, d) == Collect(parts, l, d, d)
  {
    CollectAppend(parts, [Leaf(rule)], l, d, d);
    CollectOne(Leaf(rule), l, d, d);
  }

  /** A lookup passes through one copy to the part it repeats. */
  lemma CopyFound(rule: string, sep: seq<Node>, x: Node, l: string, d: seq<string>)
    requires forall i | 0 <= i < |sep| :: Lacks(sep[i], l)
    ensures Collect([Comp(rule, sep + [x])], l, d, d) == Collect([x], l, d, d)
  {
    CollectOne(Comp(rule, sep + [x]), l, d, d);
    CompFound(rule, sep + [x], l, d);
    CollectAppend(sep, [x], l, d, d);
    CollectLacks(sep, l, d, d);
  }

  /** A lookup passes through the copies to the parts they hold. */
  lemma {:induction false} CopiesFound(rule: string, rest: seq<Node>, sep: seq<Node>, l: string, d: seq<string>)
    requires forall i | 0 <= i < |sep| :: Lacks(sep[i], l)
    ensures Collect(Copies(rule, rest, sep), l, d, d) == Collect(rest, l, d, d)
    decreases rest
  {
    if rest != [] {
      var c := [Comp(rule, sep + [rest[0]])];
      var tail := Copies(rule, rest[1..], sep);
      assert Copies(rule, rest, sep) == c + tail;
      CollectAppend(c, tail, l, d, d);
      CopyFound(rule, sep, rest[0], l, d);
      CopiesFound(rule, rest[1..], sep, l, d);
      assert rest == [rest[0]] + rest[1..];
      CollectAppend([rest[0]], rest[1..], l, d, d);
    }
  }

  /** A lookup passes through a repetition's copies to the parts they
      hold. */
  lemma RepeatedFound(rule: string, rest: seq<Node>, sep: seq<Node>, l: string, d: seq<string>)
    requires forall i | 0 <= i < |sep| :: Lacks(sep[i], l)
    ensures Collect([Repeated(rule, rest, sep)], l, d, d) == Collect(rest, l, d, d)
  {
    var r := Repeated(rule, rest, sep);
    CollectOne(r, l, d, d);
    if rest != [] {
      CollectAppend(Copies(rule, rest, sep), [Leaf(rule)], l, d, d);
      CollectOne(Leaf(rule), l, d, d);
      CopiesFound(rule, rest, sep, l, d);
    }
  }

  /** A lookup passes through a spread to its parts, in order. */
  lemma SpreadFound(rule: string, parts: seq<Node>, sep: seq<Node>, l: string, d: seq<string>)
    requires forall i | 0 <= i < |sep| :: Lacks(sep[i], l)
    ensures Collect(Spread(rule, parts, sep).children, l, d, d) == Collect(parts, l, d, d)
  {
    if parts != [] {
      var p, rest := parts[0], parts[1..];
      var r := Repeated(rule, rest, sep);
      assert Spread(rule, parts, sep) == Comp(rule, [p, r]);
      CompFound(rule, [p, r], l, d);
      assert [p, r] == [p] + [r];
      CollectAppend([p], [r], l, d, d);
      RepeatedFound(rule, rest, sep, l, d);
      assert parts == [p] + rest;
      CollectAppend([p], rest, l, d, d);
    }
  }

  /** A lookup passes through a node over a spread of a single part. */
  lemma SingleSpread(n: Node, rule: string, p: Node, sep: seq<Node>, l: string, d: seq<string>)
    requires n.tag.None? || (n.tag != Some(l) && n.tag.value !in d)
    requires n.children == [Spread(rule, [p], sep)]
    requires forall i | 0 <= i < |sep| :: Lacks(sep[i], l)
    ensures Collect([n], l, d, d) == Collect([p], l, d, d)
  {
    CollectOne(n, l, d, d);
    CollectOne(Spread(rule, [p], sep), l, d, d);
    SpreadFound(rule, [p], sep, l, d);
  }

  /** A lookup passes through a bracket to the expression inside. */
  lemma BracketPasses(kind: Node, rule: string, x: Node, l: string, d: seq<string>)
    requires kind == Comp(rule, [Leaf(rule), Blank(), x, Blank(), Leaf(rule)])
    ensures Collect([kind], l, d, d) == Collect([x], l, d, d)
  {
    var ps := [Leaf(rule), Blank(), x, Blank(), Leaf(rule)];
    CollectOne(kind, l, d, d);
    CompFound(rule, ps, l, d);
    OnlyPart(ps, 2, l, d);
  }

  /** A node over a spread of parts that all carry `l`: those parts. */
  lemma SpreadTagged(n: Node, rule: string, parts: seq<Node>, sep: seq<Node>, l: string)
    requires n.children == [Spread(rule, parts, sep)]
    requires forall i | 0 <= i < |sep| :: Lacks(sep[i], l)
    requires forall i | 0 <= i < |parts| :: parts[i].tag == Some(l)
    ensures Get(n, l, []) == parts
  {
    CollectOne(Spread(rule, parts, sep), l, [], []);
    SpreadFound(rule, parts, sep, l, []);
    CollectTagged(parts, l, [], []);
  }

  /** Only the part at `k` may hold `l`. */
  lemma OnlyPart(ps: seq<Node>, k: nat, l: string, d: seq<string>)
    requires k < |ps| && forall i | 0 <= i < |ps| && i != k :: Lacks(ps[i], l)
    ensures Collect(ps, l, d, d) == Collect([ps[k]], l, d, d)
  {
    var a, b := ps[..k], ps[k + 1..];
    assert ps == a + ([ps[k]] + b);
    CollectAppend(a, [ps[k]] + b, l, d, d);
    CollectAppend([ps[k]], b, l, d, d);
    forall i | 0 <= i < |a| ensures Lacks(a[i], l) {
      assert a[i] == ps[i];
    }
    forall i | 0 <= i < |b| ensures Lacks(b[i], l) {
      assert b[i] == ps[k + 1 + i];
    }
    CollectLacks(a, l, d, d);
    CollectLacks(b, l, d, d);
  }

  /** In a node over a single composite, the one part carrying `l` is found
      alone when the others hold no `l`. */
  lemma OnlyPartFound(n: Node, rule: string, ps: seq<Node>, k: nat, l: string)
    requires n.children == [Comp(rule, ps)]
    requires k < |ps| && ps[k].tag == Some(l) && forall i | 0 <= i < |ps| && i != k :: Lacks(ps[i], l)
    ensures Get(n, l, []) == [ps[k]]
  {
    CollectOne(Comp(rule, ps), l, [], []);
    CompFound(rule, ps, l, []);
    OnlyPart(ps, k, l, []);
    CollectOne(ps[k], l, [], []);
  }

  // Where the labels are not.

  lemma CompLacks(rule: string, parts: seq<Node>, l: string)
    requires forall i | 0 <= i < |parts| :: Lacks(parts[i], l)
    ensures Lacks(Comp(rule, parts), l)
  {
    var cs := Comp(rule, parts).children;
    forall i | 0 <= i < |cs| ensures Lacks(cs[i], l) {
      if i < |parts| {
        assert cs[i] == parts[i];
      } else {
        assert cs[i] == Leaf(rule);
      }
    }
  }

  lemma {:induction false} CopiesLack(rule: string, rest: seq<Node>, sep: seq<Node>, l: string)
    requires forall i | 0 <= i < |sep| :: Lacks(sep[i], l)
    requires forall i | 0 <= i < |rest| :: Lacks(rest[i], l)
    ensures forall i | 0 <= i < |Copies(rule, rest, sep)| :: Lacks(Copies(rule, rest, sep)[i], l)
    decreases rest
  {
    if rest != [] {
      var ps := sep + [rest[0]];
      assert forall i | 0 <= i < |ps| :: Lacks(ps[i], l);
      CompLacks(rule, ps, l);
      CopiesLack(rule, rest[1..], sep, l);
    }
  }

  lemma SpreadLacks(rule: string, parts: seq<Node>, sep: seq<Node>, l: string)
    requires forall i | 0 <= i < |sep| :: Lacks(sep[i], l)
    requires forall i | 0 <= i < |parts| :: Lacks(parts[i], l)
    ensures Lacks(Spread(rule, parts, sep), l)
  {
    if parts != [] {
      var r := Repeated(rule, parts[1..], sep);
      if |parts| > 1 {
        CopiesLack(rule, parts[1..], sep, l);
        CompLacks(rule, Copies(rule, parts[1..], sep), l);
        assert Lacks(r, l);
      }
      CompLacks(rule, [parts[0], r], l);
    }
  }

  lemma IdentLacks(name: string, l: string)
    ensures Lacks(IdentTree(name), l)
  {
    var cs := IdentTree(name).children;
    assert forall i | 0 <= i < |cs| :: cs[i] == Leaf("identifier");
  }

  lemma QuotedLacks(rule: string, text: string, q: string, l: string)
    requires q != l
    ensures Lacks(QuotedTree(rule, text, q), l)
  {
  }

  lemma PrefixLacks(tag: Option<string>, l: string)
    requires l != "label" || tag == None
    ensures Lacks(PrefixTree(tag), l)
  {
    if tag.Some? {
      IdentLacks(tag.value, l);
      CompLacks("item", [LabelTree(tag.value), Blank(), Leaf("item"), Blank()], l);
    }
  }

  /** The trees carry no label other than the walk's own, and a `label`
      only where an element has one. */
  lemma {:induction false} KindLacks(e: Element, l: string)
    requires l != "item" && l != "choice" && l != "expression" && l != "contents"
    requires l == "label" && (e.Option? || e.Repetition?) ==> Unlabelled(e.element)
    ensures Lacks(KindTree(e), l)
    decreases e, 0
  {
    match e
    case Terminal(lit, _, _) =>
      QuotedLacks("string", lit, "contents", l);
      CompLacks("string", [Leaf("string"), QuotedTree("string", lit, "contents"), Leaf("string")], l);
    case Substitution(name, _, _) =>
      IdentLacks(name, l);
    case Option(inner, _, _) =>
      ExprLacks("option", inner, l);
      CompLacks("option", [Leaf("option"), Blank(), ExprTree("option", inner), Blank(), Leaf("option")], l);
    case Repetition(inner, _, _) =>
      ExprLacks("repetition", inner, l);
      CompLacks("repetition", [Leaf("repetition"), Blank(), ExprTree("repetition", inner), Blank(), Leaf("repetition")], l);
    case Sequence(_, _, _) =>
    case Choice(_, _, _) =>
  }

  lemma {:induction false} ItemLacks(e: Element, l: string)
    requires l != "item" && l != "choice" && l != "expression" && l != "contents"
    requires l == "label" ==> Unlabelled(e)
    ensures Lacks(ItemTree(e), l)
    decreases e, 2
  {
    KindLacks(e, l);
    PrefixLacks(e.tag, l);
    assert Lacks(ContentsTree(e), l);
    CompLacks("item", [PrefixTree(e.tag), ContentsTree(e)], l);
  }

  lemma {:induction false} ChoiceLacks(c: Element, l: string)
    requires l != "item" && l != "choice" && l != "expression" && l != "contents"
    requires l == "label" ==> Unlabelled(c)
    ensures Lacks(ChoiceTree(c), l)
    decreases c, 4
  {
    var items := ItemTrees(c);
    forall i | 0 <= i < |items| ensures Lacks(items[i], l) {
      if c.Sequence? {
        ItemLacks(c.elements[i], l);
      } else {
        ItemLacks(c, l);
      }
    }
    SpreadLacks("sequence", items, [Leaf("sequence")], l);
  }

  lemma {:induction false} ExprLacks(outer: string, e: Element, l: string)
    requires l != "item" && l != "choice" && l != "expression" && l != "contents"
    requires l == "label" ==> Unlabelled(e)
    ensures Lacks(ExprTree(outer, e), l)
    decreases e, 6
  {
    var choices := ChoiceTrees(e);
    forall i | 0 <= i < |choices| ensures Lacks(choices[i], l) {
      if e.Choice? {
        ChoiceLacks(e.elements[i], l);
      } else {
        ChoiceLacks(e, l);
      }
    }
    SpreadLacks("expression", choices, [Blank(), Leaf("expression"), Blank()], l);
  }

  // Items.

  /** The labels a prefix holds, under any exclusion that spares `label`. */
  lemma PrefixFound(tag: Option<string>, d: seq<string>)
    ensures Collect([PrefixTree(tag)], "label", d, d) == PrefixLabels(tag)
  {
    var pre := PrefixTree(tag);
    CollectOne(pre, "label", d, d);
    if tag.Some? {
      var ps := [LabelTree(tag.value), Blank(), Leaf("item"), Blank()];
      CompFound("item", ps, "label", d);
      OnlyPart(ps, 0, "label", d);
      CollectOne(ps[0], "label", d, d);
    }
  }

  /** What the source's label lookup finds in an item tree, whatever it
      skips among the item's own children: the prefix's label, then every
      label inside the contents. */
  lemma ItemLabelsFound(e: Element, x: seq<string>)
    ensures Collect(ItemTree(e).children, "label", x, []) ==
            PrefixLabels(e.tag) + Collect([KindTree(e)], "label", [], [])
  {
    var n: seq<string> := [];
    var pre, con := PrefixTree(e.tag), ContentsTree(e);
    var body := Comp("item", [pre, con]);
    LabelsDistinct();
    CollectOne(body, "label", x, n);
    CompFound("item", [pre, con], "label", n);
    CollectAppend([pre], [con], "label", n, n);
    PrefixFound(e.tag, n);
    CollectOne(con, "label", n, n);
  }

  /** The corrected lookup finds the prefix's label alone. */
  lemma IntendedLabelFound(e: Element)
    ensures IntendedItemLabel(ItemTree(e)) == e.tag
  {
    var x: seq<string> := ["contents"];
    var pre, con := PrefixTree(e.tag), ContentsTree(e);
    var body := Comp("item", [pre, con]);
    LabelsDistinct();
    CollectOne(body, "label", x, x);
    CompFound("item", [pre, con], "label", x);
    CollectAppend([pre], [con], "label", x, x);
    PrefixFound(e.tag, x);
    CollectOne(con, "label", x, x);
    assert GetExcluding(ItemTree(e), "label", x) == PrefixLabels(e.tag);
    if e.tag.Some? {
      WholeSlice(e.tag.value);
    }
  }

  lemma ContentsFound(e: Element)
    ensures Get(ItemTree(e), "contents", []) == [ContentsTree(e)]
  {
    LabelsDistinct();
    PrefixLacks(e.tag, "contents");
    OnlyPartFound(ItemTree(e), "item", [PrefixTree(e.tag), ContentsTree(e)], 1, "contents");
  }

  /** The outcomes of trees that each read back as their element list as
      those elements. */
  lemma {:induction false} ListedDone<T>(os: seq<Outcome<T>>, vs: seq<T>)
    requires |os| == |vs| && forall i | 0 <= i < |os| :: os[i] == Done(vs[i])
    ensures Listed(os) == Done(vs)
  {
    if os != [] {
      ListedDone(os[1..], vs[1..]);
      assert vs == [vs[0]] + vs[1..];
    }
  }

  /** `parse_item` on the tree of a string item: a Terminal of its text. */
  lemma TerminalReads(lit: string, tag: Option<string>)
    ensures var t := ItemTree(Terminal(lit, None, tag));
            ParseItem(t) == Done(Terminal(lit, None, ItemLabel(t)))
  {
    var e := Terminal(lit, None, tag);
    ContentsFound(e);
    var kind := KindTree(e);
    var ps := [Leaf("string"), QuotedTree("string", lit, "contents"), Leaf("string")];
    CompFound("string", ps, "contents", []);
    OnlyPart(ps, 1, "contents", []);
    CollectOne(ps[1], "contents", [], []);
    assert Get(kind, "contents", []) == [ps[1]];
    WholeSlice(lit);
  }

  /** `parse_item` on the tree of an identifier item: a Substitution. */
  lemma SubstitutionReads(name: string, tag: Option<string>)
    ensures var t := ItemTree(Substitution(name, None, tag));
            ParseItem(t) == Done(Substitution(name, None, ItemLabel(t)))
  {
    ContentsFound(Substitution(name, None, tag));
    WholeSlice(name);
  }

  /** The `expression` node inside the brackets of an option or a
      repetition. */
  lemma BracketFound(kind: Node, rule: string, x: Node)
    requires kind == Comp(rule, [Leaf(rule), Blank(), x, Blank(), Leaf(rule)]) && x.tag == Some("expression")
    ensures Get(kind, "expression", []) == [x]
  {
    var ps := [Leaf(rule), Blank(), x, Blank(), Leaf(rule)];
    CompFound(rule, ps, "expression", []);
    OnlyPart(ps, 2, "expression", []);
    CollectOne(x, "expression", [], []);
  }

  /** `parse_item` on the tree of an option item: an Option around the
      expression inside, read back. */
  lemma {:induction false} OptionReads(inner: Element, tag: Option<string>)
    requires ExpressionForm(inner) && OuterLabels(inner)
    ensures var t := ItemTree(Option(inner, None, tag));
            ParseItem(t) == Done(Option(inner, None, ItemLabel(t)))
    decreases inner, 8
  {
    var e := Option(inner, None, tag);
    ContentsFound(e);
    var x := ExprTree("option", inner);
    BracketFound(KindTree(e), "option", x);
    ExprRoundTrip("option", inner);
    BracketRead(ItemTree(e), ContentsTree(e), KindTree(e), x, inner);
  }

  /** `parse_item` on the tree of a repetition item: a Repetition around
      the expression inside, read back. */
  lemma {:induction false} RepetitionReads(inner: Element, tag: Option<string>)
    requires ExpressionForm(inner) && OuterLabels(inner)
    ensures var t := ItemTree(Repetition(inner, None, tag));
            ParseItem(t) == Done(Repetition(inner, None, ItemLabel(t)))
    decreases inner, 8
  {
    var e := Repetition(inner, None, tag);
    ContentsFound(e);
    var x := ExprTree("repetition", inner);
    BracketFound(KindTree(e), "repetition", x);
    ExprRoundTrip("repetition", inner);
    BracketRead(ItemTree(e), ContentsTree(e), KindTree(e), x, inner);
  }

  /** `parse_item` on an item whose contents are a bracket over an
      expression that reads back as `inner`. */
  lemma BracketRead(t: Node, c: Node, kind: Node, x: Node, inner: Element)
    requires Get(t, "contents", []) == [c] && c.children == [kind]
    requires kind.rule == "option" || kind.rule == "repetition"
    requires Get(kind, "expression", []) == [x] && ParseExpression(x) == Done(inner)
    ensures ParseItem(t) == Done(if kind.rule == "option" then Option(inner, None, ItemLabel(t))
                                 else Repetition(inner, None, ItemLabel(t)))
  {
    assert kind.rule != "string" by {
      assert kind.rule[0] != "string"[0];
    }
    assert kind.rule != "identifier" by {
      assert kind.rule[0] != "identifier"[0];
    }
  }

  /** The source's lookup reads an item's own label when its brackets hold
      no labels. */
  lemma ItemLabelRead(e: Element)
    requires (e.Option? || e.Repetition?) ==> Unlabelled(e.element)
    ensures ItemLabel(ItemTree(e)) == e.tag
  {
    ItemLabelsFound(e, ["contents"]);
    LabelsDistinct();
    KindLacks(e, "label");
    CollectLacks([KindTree(e)], "label", [], []);
    if e.tag.Some? {
      WholeSlice(e.tag.value);
    }
  }

  /** Every item whose brackets hold no labels is read back as it was. */
  lemma {:induction false} ItemRoundTrip(e: Element)
    requires ItemForm(e) && OuterLabels(e)
    ensures ParseItem(ItemTree(e)) == Done(e)
    decreases e, 2
  {
    ItemLabelRead(e);
    match e
    case Terminal(lit, _, tag) =>
      TerminalReads(lit, tag);
    case Substitution(name, _, tag) =>
      SubstitutionReads(name, tag);
    case Option(inner, _, tag) =>
      UnlabelledOuter(inner);
      OptionReads(inner, tag);
    case Repetition(inner, _, tag) =>
      UnlabelledOuter(inner);
      RepetitionReads(inner, tag);
  }

  // Sequences and expressions.

  /** The `item` lookup in a choice tree finds its items, in order. */
  lemma ItemsFound(c: Element)
    ensures Get(ChoiceTree(c), "item", []) == ItemTrees(c)
  {
    var ts := ItemTrees(c);
    forall i | 0 <= i < |ts| ensures ts[i].tag == Some("item") {
      if c.Sequence? {
        assert ts[i] == ItemTree(c.elements[i]);
      } else {
        assert ts == [ItemTree(c)];
      }
    }
    SpreadTagged(ChoiceTree(c), "sequence", ts, [Leaf("sequence")], "item");
  }

  /** `parse_choice` on a node whose items each read back: the single
      item, or the Sequence of them all. */
  lemma ChoiceOfItems(x: Node, es: seq<Element>)
    requires |Get(x, "item", [])| == |es| >= 1
    requires forall i | 0 <= i < |es| :: ParseItem(Get(x, "item", [])[i]) == Done(es[i])
    ensures ParseChoice(x) == Done(if |es| == 1 then es[0] else Sequence(es, None, None))
  {
    var os := ItemOutcomes(x, Get(x, "item", []));
    ListedDone(os, es);
  }

  /** `parse_expression` on a node whose choices each read back: the single
      choice, or the Choice of them all. */
  lemma ExpressionOfChoices(x: Node, es: seq<Element>)
    requires |Get(x, "choice", [])| == |es| >= 1
    requires forall i | 0 <= i < |es| :: ParseChoice(Get(x, "choice", [])[i]) == Done(es[i])
    ensures ParseExpression(x) == Done(if |es| == 1 then es[0] else Choice(es, None, None))
  {
    var os := ChoiceOutcomes(x, Get(x, "choice", []));
    ListedDone(os, es);
  }

  /** `parse_choice` on the tree of a sequence of two items or more. */
  lemma {:induction false} SequenceReads(c: Element)
    requires c.Sequence? && ChoiceForm(c) && OuterLabels(c) && !ItemForm(c)
    ensures ParseChoice(ChoiceTree(c)) == Done(c)
    decreases c, 4
  {
    var es := c.elements;
    var ts := ItemTrees(c);
    ItemsFound(c);
    forall i | 0 <= i < |es|
      ensures ParseItem(ts[i]) == Done(es[i])
    {
      ItemRoundTrip(es[i]);
    }
    ChoiceOfItems(ChoiceTree(c), es);
  }

  /** `parse_choice` on the tree of a single item. */
  lemma {:induction false} SingleItemReads(c: Element)
    requires ItemForm(c) && OuterLabels(c)
    ensures ParseChoice(ChoiceTree(c)) == Done(c)
    decreases c, 4
  {
    assert ItemTrees(c) == [ItemTree(c)];
    ItemsFound(c);
    ItemRoundTrip(c);
    ChoiceOfItems(ChoiceTree(c), [c]);
  }

  /** `parse_choice` reads back every choice whose brackets hold no labels. */
  lemma {:induction false} ChoiceRoundTrip(c: Element)
    requires ChoiceForm(c) && OuterLabels(c)
    ensures ParseChoice(ChoiceTree(c)) == Done(c)
    decreases c, 5
  {
    if ItemForm(c) {
      SingleItemReads(c);
    } else {
      SequenceReads(c);
    }
  }

  /** The `choice` lookup in an expression tree finds its choices, in order. */
  lemma ChoicesFound(outer: string, e: Element)
    ensures Get(ExprTree(outer, e), "choice", []) == ChoiceTrees(e)
  {
    var sep := [Blank(), Leaf("expression"), Blank()];
    assert forall i | 0 <= i < |sep| :: Lacks(sep[i], "choice");
    var ts := ChoiceTrees(e);
    forall i | 0 <= i < |ts| ensures ts[i].tag == Some("choice") {
      if e.Choice? {
        assert ts[i] == ChoiceTree(e.elements[i]);
      } else {
        assert ts == [ChoiceTree(e)];
      }
    }
    SpreadTagged(ExprTree(outer, e), "expression", ChoiceTrees(e), sep, "choice");
  }

  /** `parse_expression` on the tree of two choices or more. */
  lemma {:induction false} AlternativesRead(outer: string, e: Element)
    requires e.Choice? && ExpressionForm(e) && OuterLabels(e) && !ChoiceForm(e)
    ensures ParseExpression(ExprTree(outer, e)) == Done(e)
    decreases e, 6
  {
    var es := e.elements;
    var ts := ChoiceTrees(e);
    ChoicesFound(outer, e);
    forall i | 0 <= i < |es|
      ensures ParseChoice(ts[i]) == Done(es[i])
    {
      ChoiceRoundTrip(es[i]);
    }
    ExpressionOfChoices(ExprTree(outer, e), es);
  }

  /** `parse_expression` on the tree of a single choice. */
  lemma {:induction false} SingleChoiceReads(outer: string, e: Element)
    requires ChoiceForm(e) && OuterLabels(e)
    ensures ParseExpression(ExprTree(outer, e)) == Done(e)
    decreases e, 6
  {
    assert !e.Choice?;
    assert ChoiceTrees(e) == [ChoiceTree(e)];
    ChoicesFound(outer, e);
    ChoiceRoundTrip(e);
    ExpressionOfChoices(ExprTree(outer, e), [e]);
  }

  /** `parse_expression` reads back every expression whose brackets hold
      no labels. */
  lemma {:induction false} ExprRoundTrip(outer: string, e: Element)
    requires ExpressionForm(e) && OuterLabels(e)
    ensures ParseExpression(ExprTree(outer, e)) == Done(e)
    decreases e, 7
  {
    if ChoiceForm(e) {
      SingleChoiceReads(outer, e);
    } else {
      AlternativesRead(outer, e);
    }
  }

  /** The item `[a:"b"]`: the source takes the label inside the brackets
      for the item's own, although its prefix gives it none; and the item
      `x:[a:"b"]` loses its label `x`, since two labels are found.  The
      lookup that leaves `contents` unentered at every depth reads both
      prefixes right. */
  lemma NestedLabelMisread()
    ensures var inner := Terminal("b", None, Some("a"));
            var bare := ItemTree(Option(inner, None, None));
            var labelled := ItemTree(Option(inner, None, Some("x")));
            ParseItem(bare) == Done(Option(inner, None, Some("a"))) && IntendedItemLabel(bare) == None &&
            ParseItem(labelled) == Done(Option(inner, None, None)) && IntendedItemLabel(labelled) == Some("x")
  {
    var inner := Terminal("b", None, Some("a"));
    var bare := Option(inner, None, None);
    var labelled := Option(inner, None, Some("x"));
    InnerLabelFound(inner);
    assert KindTree(labelled) == KindTree(bare);
    assert ItemLabel(ItemTree(bare)) == Some("a") by {
      ItemLabelsFound(bare, ["contents"]);
      WholeSlice("a");
    }
    assert ItemLabel(ItemTree(labelled)) == None by {
      ItemLabelsFound(labelled, ["contents"]);
    }
    OptionReads(inner, None);
    OptionReads(inner, Some("x"));
    IntendedLabelFound(bare);
    IntendedLabelFound(labelled);
  }

  /** The labels inside the brackets of an option around a string item:
      that item's own label. */
  lemma InnerLabelFound(inner: Element)
    requires inner.Terminal? && inner.override == None
    ensures Collect([KindTree(Option(inner, None, None))], "label", [], []) == PrefixLabels(inner.tag)
  {
    var n: seq<string> := [];
    var kind := KindTree(Option(inner, None, None));
    var x := ExprTree("option", inner);
    LabelsDistinct();
    BracketPasses(kind, "option", x, "label", n);
    SingleItemLabels(inner);
    assert Collect([ItemTree(inner)], "label", n, n) == Collect(ItemTree(inner).children, "label", n, n) by {
      CollectOne(ItemTree(inner), "label", n, n);
    }
    assert Collect([KindTree(inner)], "label", n, n) == [] by {
      KindLacks(inner, "label");
      CollectLacks([KindTree(inner)], "label", n, n);
    }
    ItemLabelsFound(inner, n);
  }

  /** The lookup passes through the expression and choice nodes around a
      lone item. */
  lemma SingleItemLabels(e: Element)
    requires !e.Choice? && !e.Sequence?
    ensures Collect([ExprTree("option", e)], "label", [], []) == Collect([ItemTree(e)], "label", [], [])
  {
    var n: seq<string> := [];
    var c := ChoiceTree(e);
    LabelsDistinct();
    assert ChoiceTrees(e) == [c] && ItemTrees(e) == [ItemTree(e)];
    SingleSpread(ExprTree("option", e), "expression", c, [Blank(), Leaf("expression"), Blank()], "label", n);
    SingleSpread(c, "sequence", ItemTree(e), [Leaf("sequence")], "label", n);
  }

  // Rules and scripts.

  /** What `parse_rule` builds, labels outside brackets only: an expression
      carrying the rule's override. */
  predicate RuleForm(e: Element)
  {
    ExpressionForm(e.(override := None)) && OuterLabels(e.(override := None))
  }

  /** A rule's optional `"override"` after its name. */
  function OverrideTree(override: Option<string>): Node
  {
    match override
    case Some(o) => Comp("rule", [Leaf("rule"), QuotedTree("rule", o, "override"), Leaf("rule"), Blank()])
    case None => Leaf("rule")
  }

  /** The parts of a rule: name, white space, override, `=`, white space,
      expression, white space and `.`. */
  function RuleParts(name: string, e: Element): seq<Node>
  {
    [Node("rule", name, 0, |name|, [IdentTree(name)], Some("name")), Blank(), OverrideTree(e.override),
     Leaf("rule"), Blank(), ExprTree("rule", e.(override := None)), Blank(), Leaf("rule")]
  }

  /** A `rule`-labelled node over a rule's composite. */
  function RuleTree(name: string, e: Element): Node
  {
    Node("main", "", 0, 0, [Comp("rule", RuleParts(name, e))], Some("rule"))
  }

  /** The tree of a whole script: its rules, separated by white space. */
  function ScriptTree(defs: seq<(string, Element)>): Node
  {
    Spread("main", seq(|defs|, i requires 0 <= i < |defs| => RuleTree(defs[i].0, defs[i].1)), [Blank()])
  }

  /** The lookup in a node over one unlabelled composite of three parts. */
  lemma ThreeParts(t: Node, p0: Node, p1: Node, p2: Node, l: string, first: seq<string>, a0: seq<Node>, a1: seq<Node>, a2: seq<Node>)
    requires |t.children| == 1 && t.children[0].tag == None && t.children[0].children == [p0, p1, p2]
    requires Collect([p0], l, [], []) == a0 && Collect([p1], l, [], []) == a1 && Collect([p2], l, [], []) == a2
    ensures Collect(t.children, l, first, []) == a0 + (a1 + a2)
  {
    var n: seq<string> := [];
    var m := t.children[0];
    assert Collect(t.children, l, first, n) == Collect(m.children, l, n, n) by {
      assert t.children == [m];
      CollectOne(m, l, first, n);
    }
    assert Collect([p1, p2], l, n, n) == a1 + a2 by {
      CollectOne(p1, l, n, n);
      CollectCons(p1, [p2], l, n, n);
    }
    assert Collect(m.children, l, n, n) == a0 + (a1 + a2) by {
      CollectOne(p0, l, n, n);
      CollectCons(p0, [p1, p2], l, n, n);
      assert m.children == [p0] + [p1, p2];
    }
  }

  /** The overrides a rule's override part holds. */
  lemma OverrideFound(override: Option<string>)
    ensures Collect([OverrideTree(override)], "override", [], []) ==
            if override.Some? then [QuotedTree("rule", override.value, "override")] else []
  {
    var ov := OverrideTree(override);
    CollectOne(ov, "override", [], []);
    if override.Some? {
      var ps := [Leaf("rule"), QuotedTree("rule", override.value, "override"), Leaf("rule"), Blank()];
      CompFound("rule", ps, "override", []);
      OnlyPart(ps, 1, "override", []);
      CollectOne(ps[1], "override", [], []);
    }
  }

  /** The override part of a rule holds nothing but its override. */
  lemma OverrideLacks(override: Option<string>, l: string)
    requires l != "override"
    ensures Lacks(OverrideTree(override), l)
  {
    if override.Some? {
      QuotedLacks("rule", override.value, "override", l);
      CompLacks("rule", [Leaf("rule"), QuotedTree("rule", override.value, "override"), Leaf("rule"), Blank()], l);
    }
  }

  /** The lookups of `parse_rule` in a rule tree: its name, its expression
      and the override part's overrides. */
  lemma RuleLookups(name: string, e: Element)
    requires RuleForm(e)
    ensures var t := RuleTree(name, e);
            var ps := RuleParts(name, e);
            Get(t, "name", []) == [ps[0]] && Get(t, "expression", []) == [ps[5]] &&
            Get(t, "override", []) == Collect([OverrideTree(e.override)], "override", [], [])
  {
    NameLookup(name, e);
    ExpressionLookup(name, e);
    OverrideLookup(name, e);
  }

  lemma NameLookup(name: string, e: Element)
    requires RuleForm(e)
    ensures Get(RuleTree(name, e), "name", []) == [RuleParts(name, e)[0]]
  {
    var ps := RuleParts(name, e);
    LabelsDistinct();
    OverrideLacks(e.override, "name");
    ExprLacks("rule", e.(override := None), "name");
    OnlyPartFound(RuleTree(name, e), "rule", ps, 0, "name");
  }

  lemma ExpressionLookup(name: string, e: Element)
    requires RuleForm(e)
    ensures Get(RuleTree(name, e), "expression", []) == [RuleParts(name, e)[5]]
  {
    var ps := RuleParts(name, e);
    LabelsDistinct();
    IdentLacks(name, "expression");
    OverrideLacks(e.override, "expression");
    OnlyPartFound(RuleTree(name, e), "rule", ps, 5, "expression");
  }

  lemma OverrideLookup(name: string, e: Element)
    requires RuleForm(e)
    ensures Get(RuleTree(name, e), "override", []) == Collect([OverrideTree(e.override)], "override", [], [])
  {
    var ps := RuleParts(name, e);
    LabelsDistinct();
    IdentLacks(name, "override");
    ExprLacks("rule", e.(override := None), "override");
    assert forall i | 0 <= i < |ps| && i != 2 :: Lacks(ps[i], "override");
    CollectOne(Comp("rule", ps), "override", [], []);
    CompFound("rule", ps, "override", []);
    OnlyPart(ps, 2, "override", []);
  }

  /** `parse_rule` reads back a rule's name and its element, override
      included. */
  lemma RuleRoundTrip(name: string, e: Element)
    requires RuleForm(e)
    ensures ParseRule(RuleTree(name, e)) == Done((name, e))
  {
    var t, ps := RuleTree(name, e), RuleParts(name, e);
    RuleLookups(name, e);
    OverrideFound(e.override);
    if e.override.Some? {
      WholeSlice(e.override.value);
    }
    assert RuleOverride(t) == e.override;
    WholeSlice(name);
    assert ParsedString(ps[0]) == name;
    ExprRoundTrip("rule", e.(override := None));
    RuleOf(t, ps[0], ps[5], e.(override := None));
  }

  /** `parse_rule` on a node with one name and one expression that reads
      back. */
  lemma RuleOf(x: Node, nm: Node, ex: Node, e: Element)
    requires Get(x, "name", []) == [nm] && Get(x, "expression", []) == [ex]
    requires ParseExpression(ex) == Done(e)
    ensures ParseRule(x) == Done((ParsedString(nm), e.(override := RuleOverride(x))))
  {
  }

  lemma RulesRead(defs: seq<(string, Element)>, rs: seq<Node>)
    requires forall i | 0 <= i < |defs| :: RuleForm(defs[i].1)
    requires |rs| == |defs| && forall i | 0 <= i < |defs| :: rs[i] == RuleTree(defs[i].0, defs[i].1)
    ensures forall i | 0 <= i < |defs| :: ParseRule(rs[i]) == Done(defs[i])
  {
    forall i | 0 <= i < |defs|
      ensures ParseRule(rs[i]) == Done(defs[i])
    {
      RuleRoundTrip(defs[i].0, defs[i].1);
    }
  }

  /** `parse_rules` on the tree of a script: the dictionary of its rules, a
      later rule replacing an earlier one of the same name. */
  lemma RulesRoundTrip(defs: seq<(string, Element)>)
    requires forall i | 0 <= i < |defs| :: RuleForm(defs[i].1)
    ensures RulesOf(ScriptTree(defs)) == Done(Collapse(defs))
  {
    var rs := seq(|defs|, i requires 0 <= i < |defs| => RuleTree(defs[i].0, defs[i].1));
    SpreadFound("main", rs, [Blank()], "rule", []);
    CollectTagged(rs, "rule", [], []);
    assert Get(ScriptTree(defs), "rule", []) == rs;
    var os := seq(|rs|, i requires 0 <= i < |rs| => ParseRule(rs[i]));
    RulesRead(defs, rs);
    ListedDone(os, defs);
  }

  // ---------------------------------------------------------------------------
  // Worked examples on hand-built trees
  // ---------------------------------------------------------------------------

  /** The item `ab`: an identifier becomes a Substitution with no label. */
  lemma IdentifierItem()
    ensures var ident := Node("identifier", "ab", 0, 2, [], None);
            var contents := Node("item", "ab", 0, 2, [ident], Some("contents"));
            var body := Node("item", "ab", 0, 2, [Node("item", "ab", 0, 0, [], None), contents, Node("item", "ab", 2, 2, [], None)], None);
            var item := Node("sequence", "ab", 0, 2, [body], Some("item"));
            ParseItem(item) == Done(Substitution("ab", None, None))
  {
    var ident := Node("identifier", "ab", 0, 2, [], None);
    var contents := Node("item", "ab", 0, 2, [ident], Some("contents"));
    var zero := Node("item", "ab", 0, 0, [], None);
    var body := Node("item", "ab", 0, 2, [zero, contents, Node("item", "ab", 2, 2, [], None)], None);
    var item := Node("sequence", "ab", 0, 2, [body], Some("item"));
    var ph := Node("item", "ab", 2, 2, [], None);
    var x: seq<string> := ["contents"];
    var n: seq<string> := [];
    CollectOne(body, "label", x, n);
    assert body.children == [zero] + [contents, ph];
    CollectCons(zero, [contents, ph], "label", n, n);
    CollectCons(contents, [ph], "label", n, n);
    CollectOne(ident, "label", n, n);
    CollectOne(ph, "label", n, n);
    assert Get(item, "label", x) == [];
    CollectCons(ph, [], "contents", [], []);
    CollectCons(contents, [ph], "contents", [], []);
    CollectCons(zero, [contents, ph], "contents", [], []);
    CollectCons(body, [], "contents", [], []);
    assert Get(item, "contents", []) == [contents];
    assert ParsedString(ident) == "ab";
  }

  /** The item `l:ab`: the label found outside the contents is attached. */
  lemma LabelledItem()
    ensures var s := "l:ab";
            var lab := Node("identifier", s, 0, 1, [], Some("label"));
            var prefix := Node("item", s, 0, 2, [lab, Node("item", s, 1, 2, [], None)], None);
            var ident := Node("identifier", s, 2, 4, [], None);
            var contents := Node("item", s, 2, 4, [ident], Some("contents"));
            var body := Node("item", s, 0, 4, [prefix, contents, Node("item", s, 4, 4, [], None)], None);
            var item := Node("sequence", s, 0, 4, [body], Some("item"));
            ParseItem(item) == Done(Substitution("ab", None, Some("l")))
  {
    var s := "l:ab";
    var lab := Node("identifier", s, 0, 1, [], Some("label"));
    var colon := Node("item", s, 1, 2, [], None);
    var prefix := Node("item", s, 0, 2, [lab, colon], None);
    var ident := Node("identifier", s, 2, 4, [], None);
    var contents := Node("item", s, 2, 4, [ident], Some("contents"));
    var ph := Node("item", s, 4, 4, [], None);
    var body := Node("item", s, 0, 4, [prefix, contents, ph], None);
    var item := Node("sequence", s, 0, 4, [body], Some("item"));
    LabelledLookups(s, lab, colon, prefix, ident, contents, ph, body, item);
    assert ParsedString(lab) == "l";
    assert ParsedString(ident) == "ab";
  }

  lemma LabelledLookups(s: string, lab: Node, colon: Node, prefix: Node, ident: Node, contents: Node, ph: Node, body: Node, item: Node)
    requires lab.tag == Some("label") && lab.children == []
    requires colon.tag == None && colon.children == [] && ph.tag == None && ph.children == []
    requires prefix.tag == None && prefix.children == [lab, colon]
    requires contents.tag == Some("contents") && contents.children == [ident] && ident.tag == None && ident.children == []
    requires body.tag == None && body.children == [prefix, contents, ph]
    requires item.children == [body]
    ensures Get(item, "label", ["contents"]) == [lab]
    ensures Get(item, "contents", []) == [contents]
  {
    LabelLookup(lab, colon, prefix, ident, contents, ph, body, item);
    ContentsLookup(lab, colon, prefix, contents, ph, body, item);
  }

  lemma LabelLookup(lab: Node, colon: Node, prefix: Node, ident: Node, contents: Node, ph: Node, body: Node, item: Node)
    requires lab.tag == Some("label") && lab.children == []
    requires colon.tag == None && colon.children == [] && ph.tag == None && ph.children == []
    requires prefix.tag == None && prefix.children == [lab, colon]
    requires contents.tag == Some("contents") && contents.children == [ident] && ident.tag == None && ident.children == []
    requires body.tag == None && body.children == [prefix, contents, ph]
    requires item.children == [body]
    ensures Get(item, "label", ["contents"]) == [lab]
  {
    var x: seq<string> := ["contents"];
    var n: seq<string> := [];
    var none: seq<Node> := [];
    assert Collect([prefix], "label", n, n) == [lab] by {
      CollectOne(prefix, "label", n, n);
      CollectCons(lab, [colon], "label", n, n);
      CollectOne(colon, "label", n, n);
      assert [lab] + none == [lab];
    }
    assert Collect([contents], "label", n, n) == none by {
      CollectOne(contents, "label", n, n);
      CollectOne(ident, "label", n, n);
      assert "contents" != "label" by {
        assert |"contents"| != |"label"|;
      }
    }
    assert Collect([ph], "label", n, n) == none by {
      CollectOne(ph, "label", n, n);
    }
    ThreeParts(item, prefix, contents, ph, "label", x, [lab], none, none);
    assert [lab] + (none + none) == [lab];
  }

  lemma ContentsLookup(lab: Node, colon: Node, prefix: Node, contents: Node, ph: Node, body: Node, item: Node)
    requires lab.tag == Some("label") && lab.children == []
    requires colon.tag == None && colon.children == [] && ph.tag == None && ph.children == []
    requires prefix.tag == None && prefix.children == [lab, colon]
    requires contents.tag == Some("contents")
    requires body.tag == None && body.children == [prefix, contents, ph]
    requires item.children == [body]
    ensures Get(item, "contents", []) == [contents]
  {
    var n: seq<string> := [];
    var none: seq<Node> := [];
    assert Collect([prefix], "contents", n, n) == none by {
      CollectOne(prefix, "contents", n, n);
      CollectCons(lab, [colon], "contents", n, n);
      CollectOne(colon, "contents", n, n);
      assert "label" != "contents" by {
        assert |"contents"| != |"label"|;
      }
    }
    assert Collect([contents], "contents", n, n) == [contents] by {
      CollectOne(contents, "contents", n, n);
    }
    assert Collect([ph], "contents", n, n) == none by {
      CollectOne(ph, "contents", n, n);
    }
    ThreeParts(item, prefix, contents, ph, "contents", n, none, [contents], none);
    assert none + ([contents] + none) == [contents];
  }
}

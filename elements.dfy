/**
  * The element algebra and its parse semantics (nangram/element.py, with
  * `parse_sequence` from nangram/util.py).
  *
  * Parsing an element at a position enumerates every candidate node there,
  * ambiguities included.  Python's generators become finite sequences.  A
  * `fuel` argument bounds what the source leaves unbounded: each Substitution
  * spends one unit (a rule may refer to itself), and so does each repetition
  * count (the source's loop over counts only stops at a count with no parse).
  */
module Elements {
  import opened Prelude
  import opened Nodes

  /** A right-hand side of a grammar rule.  Every variant carries an optional
      generation override and an optional label (`tag`). */
  datatype Element =
    | Terminal(literal: string, override: Option<string>, tag: Option<string>)
    | Substitution(name: string, override: Option<string>, tag: Option<string>)
    | Sequence(elements: seq<Element>, override: Option<string>, tag: Option<string>)
    | Choice(elements: seq<Element>, override: Option<string>, tag: Option<string>)
    | Option(element: Element, override: Option<string>, tag: Option<string>)
    | Repetition(element: Element, override: Option<string>, tag: Option<string>)

  /** The grammar record: production rules and the three generation limits. */
  datatype Grammar = Grammar(rules: map<string, Element>, maxProducts: nat, maxRepetitions: int, maxRecursions: int)

  /** Python truthiness of an optional string: present and non-empty. */
  predicate Truthy(o: Option<string>)
  {
    o.Some? && o.value != ""
  }

  function Size(e: Element): (k: nat)
    ensures k >= 1
    decreases e
  {
    match e
    case Terminal(_, _, _) => 1
    case Substitution(_, _, _) => 1
    case Sequence(es, _, _) => 1 + SizeList(es)
    case Choice(es, _, _) => 1 + SizeList(es)
    case Option(inner, _, _) => 1 + Size(inner)
    case Repetition(inner, _, _) => 1 + Size(inner)
  }

  function SizeList(es: seq<Element>): (k: nat)
    ensures k >= 1
    decreases es
  {
    if es == [] then 1 else Size(es[0]) + SizeList(es[1..])
  }

  /** Every rule name that `e` refers to is one of `keys`. */
  predicate RefsIn(e: Element, keys: set<string>)
    decreases e
  {
    match e
    case Terminal(_, _, _) => true
    case Substitution(name, _, _) => name in keys
    case Sequence(es, _, _) => RefsInAll(es, keys)
    case Choice(es, _, _) => RefsInAll(es, keys)
    case Option(inner, _, _) => RefsIn(inner, keys)
    case Repetition(inner, _, _) => RefsIn(inner, keys)
  }

  predicate RefsInAll(es: seq<Element>, keys: set<string>)
    decreases es
  {
    forall i | 0 <= i < |es| :: RefsIn(es[i], keys)
  }

  /** Every Substitution in every rule names a rule of the grammar. */
  predicate Closed(g: Grammar)
  {
    forall name | name in g.rules :: RefsIn(g.rules[name], g.rules.Keys)
  }

  /** The same element without its label. */
  function Untagged(e: Element): (r: Element)
    ensures r.tag == None && r.override == e.override
  {
    match e
    case Terminal(lit, ov, _) => Terminal(lit, ov, None)
    case Substitution(name, ov, _) => Substitution(name, ov, None)
    case Sequence(es, ov, _) => Sequence(es, ov, None)
    case Choice(es, ov, _) => Choice(es, ov, None)
    case Option(inner, ov, _) => Option(inner, ov, None)
    case Repetition(inner, ov, _) => Repetition(inner, ov, None)
  }

  /** A zero-width node at `pos`. */
  function Zero(rule: string, s: string, pos: nat, tag: Option<string>): Node
  {
    Node(rule, s, pos, pos, [], tag)
  }

  /** With a truthy label, each node is wrapped once in a node with the same
      region, the node as its only child and the label; otherwise unchanged. */
  function Wrap(rule: string, s: string, nodes: seq<Node>, tag: Option<string>): (r: seq<Node>)
    ensures |r| == |nodes|
  {
    if Truthy(tag) then seq(|nodes|, i requires 0 <= i < |nodes| => Node(rule, s, nodes[i].start, nodes[i].stop, [nodes[i]], tag))
    else nodes
  }

  /** The node a sequence match builds from its children: the region runs from
      the first child's start to the last child's stop. */
  function Composite(rule: string, s: string, c: seq<Node>): Node
    requires |c| > 0
  {
    Node(rule, s, c[0].start, c[|c| - 1].stop, c, None)
  }

  /** `parse` of every variant: all candidate nodes at `pos`. */
  function ParseAt(g: Grammar, e: Element, rule: string, s: string, pos: nat, fuel: nat): seq<Node>
    requires Closed(g) && RefsIn(e, g.rules.Keys)
    decreases fuel, Size(e), 3, 0
  {
    match e
    case Terminal(lit, _, tag) =>
      if Slice(s, pos, pos + |lit|) == lit then [Node(rule, s, pos, pos + |lit|, [], tag)] else []
    case Substitution(name, _, tag) =>
      if fuel == 0 then [] else Wrap(rule, s, ParseAt(g, g.rules[name], name, s, pos, fuel - 1), tag)
    case Sequence(es, _, tag) =>
      Wrap(rule, s, ParseSequence(g, es, rule, s, pos, fuel), tag)
    case Choice(es, _, tag) =>
      Wrap(rule, s, Alternatives(g, es, rule, s, pos, fuel), tag)
    case Option(inner, _, tag) =>
      [Zero(rule, s, pos, tag)] + Wrap(rule, s, ParseAt(g, inner, rule, s, pos, fuel), tag)
    case Repetition(inner, _, tag) =>
      [Zero(rule, s, pos, tag)] + Counts(g, inner, tag, rule, s, pos, 1, fuel)
  }

  /** Choice: each alternative's parses, in alternative order (`chain`). */
  function Alternatives(g: Grammar, es: seq<Element>, rule: string, s: string, pos: nat, fuel: nat): seq<Node>
    requires Closed(g) && RefsInAll(es, g.rules.Keys)
    decreases fuel, SizeList(es), 3, 0
  {
    if es == [] then [] else ParseAt(g, es[0], rule, s, pos, fuel) + Alternatives(g, es[1..], rule, s, pos, fuel)
  }

  /** `parse_sequence`: one composite node per way of matching the elements one
      after the other from `pos`. */
  function ParseSequence(g: Grammar, es: seq<Element>, rule: string, s: string, pos: nat, fuel: nat): seq<Node>
    requires Closed(g) && RefsInAll(es, g.rules.Keys)
    decreases fuel, SizeList(es), 2, 0
  {
    var cs := Sequential(g, es, rule, s, pos, fuel);
    seq(|cs|, i requires 0 <= i < |cs| => Composite(rule, s, cs[i]))
  }

  /** `sequential_choices`: the children lists, one per element plus a trailing
      zero-width placeholder. */
  function Sequential(g: Grammar, es: seq<Element>, rule: string, s: string, pos: nat, fuel: nat): (r: seq<seq<Node>>)
    requires Closed(g) && RefsInAll(es, g.rules.Keys)
    ensures forall i | 0 <= i < |r| :: |r[i]| == |es| + 1
    decreases fuel, SizeList(es), 1, 0
  {
    if es == [] then [[Zero(rule, s, pos, None)]]
    else Extend(g, es, rule, s, ParseAt(g, es[0], rule, s, pos, fuel), fuel)
  }

  /** For each match of the first element, every way to match the rest from
      where it stopped. */
  function Extend(g: Grammar, es: seq<Element>, rule: string, s: string, heads: seq<Node>, fuel: nat): (r: seq<seq<Node>>)
    requires Closed(g) && RefsInAll(es, g.rules.Keys) && es != []
    ensures forall i | 0 <= i < |r| :: |r[i]| == |es| + 1
    decreases fuel, SizeList(es), 0, |heads|
  {
    if heads == [] then []
    else
      var tails := Sequential(g, es[1..], rule, s, heads[0].stop, fuel);
      seq(|tails|, j requires 0 <= j < |tails| => [heads[0]] + tails[j]) + Extend(g, es, rule, s, heads[1..], fuel)
  }

  /** Repetition after its zero-width match: the parses of `n` copies, then of
      `n + 1` copies, and so on, up to the first count with no parse. */
  function Counts(g: Grammar, inner: Element, tag: Option<string>, rule: string, s: string, pos: nat, n: nat, fuel: nat): seq<Node>
    requires Closed(g) && RefsIn(inner, g.rules.Keys)
    decreases fuel, 0, 0, 0
  {
    if fuel == 0 then []
    else
      var nodes := ParseSequence(g, Repeat(inner, n), rule, s, pos, fuel - 1);
      if nodes == [] then [] else Wrap(rule, s, nodes, tag) + Counts(g, inner, tag, rule, s, pos, n + 1, fuel - 1)
  }

  /** `Repetition.parse`: the zero-width match, then a loop over the number of
      copies with a counter of the matches found, left at the first count that
      finds none. */
  method ParseRepetition(g: Grammar, e: Element, rule: string, s: string, pos: nat, fuel: nat) returns (r: seq<Node>)
    requires Closed(g) && RefsIn(e, g.rules.Keys) && e.Repetition?
    ensures r == ParseAt(g, e, rule, s, pos, fuel)
  {
    var inner, tag := e.element, e.tag;
    ghost var all := [Zero(rule, s, pos, tag)] + Counts(g, inner, tag, rule, s, pos, 1, fuel);
    assert all == ParseAt(g, e, rule, s, pos, fuel);
    r := [Zero(rule, s, pos, tag)];
    var n, f := 1, fuel;
    while f > 0
      invariant r + Counts(g, inner, tag, rule, s, pos, n, f) == all
      decreases f
    {
      var nodes := ParseSequence(g, Repeat(inner, n), rule, s, pos, f - 1);
      var wrapped, m := WrapCounting(rule, s, nodes, tag);
      if m == 0 {
        break;
      }
      CountsStep(g, inner, tag, rule, s, pos, n, f);
      r := r + wrapped;
      n, f := n + 1, f - 1;
    }
  }

  /** The inner loop of `Repetition.parse`: yield each match, wrapped when
      labelled, and count the matches. */
  method WrapCounting(rule: string, s: string, nodes: seq<Node>, tag: Option<string>) returns (w: seq<Node>, m: nat)
    ensures w == Wrap(rule, s, nodes, tag) && m == |nodes|
  {
    w, m := [], 0;
    for i := 0 to |nodes|
      invariant m == i
      invariant w == Wrap(rule, s, nodes[..i], tag)
    {
      m := m + 1;
      WrapSnoc(rule, s, nodes, i, tag);
      if Truthy(tag) {
        w := w + [Node(rule, s, nodes[i].start, nodes[i].stop, [nodes[i]], tag)];
      } else {
        w := w + [nodes[i]];
      }
    }
    assert nodes[..|nodes|] == nodes;
  }

  lemma WrapSnoc(rule: string, s: string, nodes: seq<Node>, i: nat, tag: Option<string>)
    requires i < |nodes|
    ensures Wrap(rule, s, nodes[..i + 1], tag) ==
            Wrap(rule, s, nodes[..i], tag) +
            [if Truthy(tag) then Node(rule, s, nodes[i].start, nodes[i].stop, [nodes[i]], tag) else nodes[i]]
  {
    assert nodes[..i + 1] == nodes[..i] + [nodes[i]];
  }

  lemma WrapAppend(rule: string, s: string, a: seq<Node>, b: seq<Node>, tag: Option<string>)
    ensures Wrap(rule, s, a + b, tag) == Wrap(rule, s, a, tag) + Wrap(rule, s, b, tag)
  {
  }

  lemma CountsStep(g: Grammar, inner: Element, tag: Option<string>, rule: string, s: string, pos: nat, n: nat, fuel: nat)
    requires Closed(g) && RefsIn(inner, g.rules.Keys) && fuel > 0
    requires ParseSequence(g, Repeat(inner, n), rule, s, pos, fuel - 1) != []
    ensures Counts(g, inner, tag, rule, s, pos, n, fuel) ==
            Wrap(rule, s, ParseSequence(g, Repeat(inner, n), rule, s, pos, fuel - 1), tag) +
            Counts(g, inner, tag, rule, s, pos, n + 1, fuel - 1)
  {
  }

  // ---------------------------------------------------------------------------
  // Shape of every parse result
  // ---------------------------------------------------------------------------

  /** The children of a sequence match: contiguous from `pos`, each a tiled
      node over `s` starting at or after `pos`, ending in a zero-width
      placeholder. */
  ghost predicate Chain(c: seq<Node>, s: string, pos: nat)
  {
    |c| > 0 && c[0].start == pos &&
    (forall i | 0 <= i < |c| - 1 :: c[i].stop == c[i + 1].start) &&
    (forall i | 0 <= i < |c| :: c[i].text == s && Tiled(c[i]) && pos <= c[i].start) &&
    c[|c| - 1].start == c[|c| - 1].stop
  }

  /** Nodes that start at `pos`, belong to `s` and are tiled. */
  ghost predicate RootedAt(nodes: seq<Node>, s: string, pos: nat)
  {
    forall i | 0 <= i < |nodes| :: nodes[i].start == pos && nodes[i].text == s && Tiled(nodes[i])
  }

  lemma WrapRooted(rule: string, s: string, nodes: seq<Node>, tag: Option<string>, pos: nat)
    requires RootedAt(nodes, s, pos)
    ensures RootedAt(Wrap(rule, s, nodes, tag), s, pos)
  {
  }

  lemma CompositeRooted(rule: string, s: string, c: seq<Node>, pos: nat)
    requires Chain(c, s, pos)
    ensures var x := Composite(rule, s, c); x.start == pos && x.text == s && Tiled(x)
  {
    var last := c[|c| - 1];
    assert Tiled(last) && last.text == s;
  }

  lemma {:induction false} ParseAtShape(g: Grammar, e: Element, rule: string, s: string, pos: nat, fuel: nat)
    requires Closed(g) && RefsIn(e, g.rules.Keys) && pos <= |s|
    ensures RootedAt(ParseAt(g, e, rule, s, pos, fuel), s, pos)
    decreases fuel, Size(e), 3, 0
  {
    match e
    case Terminal(lit, _, tag) =>
      if Slice(s, pos, pos + |lit|) == lit {
        assert pos + |lit| <= |s|;
      }
    case Substitution(name, _, tag) =>
      if fuel > 0 {
        ParseAtShape(g, g.rules[name], name, s, pos, fuel - 1);
        WrapRooted(rule, s, ParseAt(g, g.rules[name], name, s, pos, fuel - 1), tag, pos);
      }
    case Sequence(es, _, tag) =>
      ParseSequenceShape(g, es, rule, s, pos, fuel);
      WrapRooted(rule, s, ParseSequence(g, es, rule, s, pos, fuel), tag, pos);
    case Choice(es, _, tag) =>
      AlternativesShape(g, es, rule, s, pos, fuel);
      WrapRooted(rule, s, Alternatives(g, es, rule, s, pos, fuel), tag, pos);
    case Option(inner, _, tag) =>
      ParseAtShape(g, inner, rule, s, pos, fuel);
      WrapRooted(rule, s, ParseAt(g, inner, rule, s, pos, fuel), tag, pos);
    case Repetition(inner, _, tag) =>
      CountsShape(g, inner, tag, rule, s, pos, 1, fuel);
  }

  lemma {:induction false} AlternativesShape(g: Grammar, es: seq<Element>, rule: string, s: string, pos: nat, fuel: nat)
    requires Closed(g) && RefsInAll(es, g.rules.Keys) && pos <= |s|
    ensures RootedAt(Alternatives(g, es, rule, s, pos, fuel), s, pos)
    decreases fuel, SizeList(es), 3, 0
  {
    if es != [] {
      ParseAtShape(g, es[0], rule, s, pos, fuel);
      AlternativesShape(g, es[1..], rule, s, pos, fuel);
    }
  }

  lemma {:induction false} ParseSequenceShape(g: Grammar, es: seq<Element>, rule: string, s: string, pos: nat, fuel: nat)
    requires Closed(g) && RefsInAll(es, g.rules.Keys) && pos <= |s|
    ensures RootedAt(ParseSequence(g, es, rule, s, pos, fuel), s, pos)
    decreases fuel, SizeList(es), 2, 0
  {
    var cs := Sequential(g, es, rule, s, pos, fuel);
    SequentialShape(g, es, rule, s, pos, fuel);
    forall i | 0 <= i < |cs|
      ensures var x := Composite(rule, s, cs[i]); x.start == pos && x.text == s && Tiled(x)
    {
      CompositeRooted(rule, s, cs[i], pos);
    }
  }

  lemma {:induction false} SequentialShape(g: Grammar, es: seq<Element>, rule: string, s: string, pos: nat, fuel: nat)
    requires Closed(g) && RefsInAll(es, g.rules.Keys) && pos <= |s|
    ensures forall i | 0 <= i < |Sequential(g, es, rule, s, pos, fuel)| :: Chain(Sequential(g, es, rule, s, pos, fuel)[i], s, pos)
    decreases fuel, SizeList(es), 1, 0
  {
    if es != [] {
      var heads := ParseAt(g, es[0], rule, s, pos, fuel);
      ParseAtShape(g, es[0], rule, s, pos, fuel);
      ExtendShape(g, es, rule, s, heads, pos, fuel);
    }
  }

  lemma {:induction false} ExtendShape(g: Grammar, es: seq<Element>, rule: string, s: string, heads: seq<Node>, pos: nat, fuel: nat)
    requires Closed(g) && RefsInAll(es, g.rules.Keys) && es != [] && pos <= |s|
    requires RootedAt(heads, s, pos)
    ensures forall i | 0 <= i < |Extend(g, es, rule, s, heads, fuel)| :: Chain(Extend(g, es, rule, s, heads, fuel)[i], s, pos)
    decreases fuel, SizeList(es), 0, |heads|
  {
    if heads != [] {
      var h := heads[0];
      assert h.start == pos && h.text == s && Tiled(h);
      var tails := Sequential(g, es[1..], rule, s, h.stop, fuel);
      SequentialShape(g, es[1..], rule, s, h.stop, fuel);
      ExtendShape(g, es, rule, s, heads[1..], pos, fuel);
      var front := seq(|tails|, j requires 0 <= j < |tails| => [h] + tails[j]);
      forall j | 0 <= j < |front|
        ensures Chain(front[j], s, pos)
      {
        var t := tails[j];
        assert Chain(t, s, h.stop);
        assert front[j] == [h] + t;
        forall i | 0 <= i < |t|
          ensures pos <= t[i].start
        {
          assert h.stop <= t[i].start;
        }
      }
      var rest := Extend(g, es, rule, s, heads[1..], fuel);
      assert Extend(g, es, rule, s, heads, fuel) == front + rest;
    }
  }

  lemma {:induction false} CountsShape(g: Grammar, inner: Element, tag: Option<string>, rule: string, s: string, pos: nat, n: nat, fuel: nat)
    requires Closed(g) && RefsIn(inner, g.rules.Keys) && pos <= |s|
    ensures RootedAt(Counts(g, inner, tag, rule, s, pos, n, fuel), s, pos)
    decreases fuel, 0, 0, 0
  {
    if fuel > 0 {
      var nodes := ParseSequence(g, Repeat(inner, n), rule, s, pos, fuel - 1);
      ParseSequenceShape(g, Repeat(inner, n), rule, s, pos, fuel - 1);
      WrapRooted(rule, s, nodes, tag, pos);
      CountsShape(g, inner, tag, rule, s, pos, n + 1, fuel - 1);
    }
  }

  // ---------------------------------------------------------------------------
  // Per-variant parse semantics
  // ---------------------------------------------------------------------------

  /** A terminal matches exactly when its literal occurs at `pos`, giving one
      node over the literal with the terminal's own label. */
  lemma TerminalMatch(g: Grammar, lit: string, ov: Option<string>, tag: Option<string>, rule: string, s: string, pos: nat, fuel: nat)
    requires Closed(g) && pos <= |s|
    ensures var r := ParseAt(g, Terminal(lit, ov, tag), rule, s, pos, fuel);
            if pos + |lit| <= |s| && s[pos..pos + |lit|] == lit
            then r == [Node(rule, s, pos, pos + |lit|, [], tag)] && ParsedString(r[0]) == lit
            else r == []
  {
    var sl := Slice(s, pos, pos + |lit|);
    if pos + |lit| > |s| {
      assert |sl| == |s| - pos < |lit|;
    }
  }

  /** The children lists of a sequence match, described without reference to
      the search: a parse of the first element at `pos`, then an assignment of
      the remaining elements from where it stopped, and finally the zero-width
      placeholder. */
  ghost predicate Assignment(g: Grammar, es: seq<Element>, rule: string, s: string, pos: nat, fuel: nat, c: seq<Node>)
    requires Closed(g) && RefsInAll(es, g.rules.Keys)
    decreases |es|
  {
    if es == [] then c == [Zero(rule, s, pos, None)]
    else |c| > 0 && c[0] in ParseAt(g, es[0], rule, s, pos, fuel) && Assignment(g, es[1..], rule, s, c[0].stop, fuel, c[1..])
  }

  lemma {:induction false} ExtendMember(g: Grammar, es: seq<Element>, rule: string, s: string, heads: seq<Node>, fuel: nat, c: seq<Node>)
    requires Closed(g) && RefsInAll(es, g.rules.Keys) && es != []
    ensures c in Extend(g, es, rule, s, heads, fuel) <==>
            |c| > 0 && c[0] in heads && c[1..] in Sequential(g, es[1..], rule, s, c[0].stop, fuel)
    decreases |heads|
  {
    if heads != [] {
      var h := heads[0];
      ExtendMember(g, es, rule, s, heads[1..], fuel, c);
      var tails := Sequential(g, es[1..], rule, s, h.stop, fuel);
      var front := seq(|tails|, j requires 0 <= j < |tails| => [h] + tails[j]);
      assert Extend(g, es, rule, s, heads, fuel) == front + Extend(g, es, rule, s, heads[1..], fuel);
      if c in front {
        var j :| 0 <= j < |tails| && front[j] == c;
        assert c[1..] == tails[j];
      }
      if |c| > 0 && c[0] == h && c[1..] in tails {
        var j :| 0 <= j < |tails| && tails[j] == c[1..];
        assert front[j] == c;
      }
    }
  }

  /** The backtracking search is exhaustive and sound: its children lists are
      exactly the assignments. */
  lemma {:induction false} SequentialExhaustive(g: Grammar, es: seq<Element>, rule: string, s: string, pos: nat, fuel: nat, c: seq<Node>)
    requires Closed(g) && RefsInAll(es, g.rules.Keys)
    ensures c in Sequential(g, es, rule, s, pos, fuel) <==> Assignment(g, es, rule, s, pos, fuel, c)
    decreases |es|
  {
    if es != [] {
      ExtendMember(g, es, rule, s, ParseAt(g, es[0], rule, s, pos, fuel), fuel, c);
      if |c| > 0 {
        SequentialExhaustive(g, es[1..], rule, s, c[0].stop, fuel, c[1..]);
      }
    }
  }

  /** Along an assignment, element i is matched where child i-1 stopped. */
  lemma {:induction false} AssignmentElements(g: Grammar, es: seq<Element>, rule: string, s: string, pos: nat, fuel: nat, c: seq<Node>)
    requires Closed(g) && RefsInAll(es, g.rules.Keys)
    requires Assignment(g, es, rule, s, pos, fuel, c)
    ensures |c| == |es| + 1 && c[|es|] == Zero(rule, s, if es == [] then pos else c[|es| - 1].stop, None)
    ensures forall i | 0 <= i < |es| :: c[i] in ParseAt(g, es[i], rule, s, if i == 0 then pos else c[i - 1].stop, fuel)
    decreases |es|
  {
    if es != [] {
      AssignmentElements(g, es[1..], rule, s, c[0].stop, fuel, c[1..]);
      forall i | 0 <= i < |es|
        ensures c[i] in ParseAt(g, es[i], rule, s, if i == 0 then pos else c[i - 1].stop, fuel)
      {
        if i > 0 {
          assert c[1..][i - 1] == c[i] && es[1..][i - 1] == es[i];
          assert i - 1 > 0 ==> c[1..][i - 2] == c[i - 1];
        }
      }
    }
  }

  /** `parse_sequence` yields one composite per assignment and nothing else. */
  lemma ParseSequenceAssignments(g: Grammar, es: seq<Element>, rule: string, s: string, pos: nat, fuel: nat, x: Node)
    requires Closed(g) && RefsInAll(es, g.rules.Keys)
    ensures x in ParseSequence(g, es, rule, s, pos, fuel) <==>
            exists c :: |c| > 0 && Assignment(g, es, rule, s, pos, fuel, c) && x == Composite(rule, s, c)
  {
    var cs := Sequential(g, es, rule, s, pos, fuel);
    if x in ParseSequence(g, es, rule, s, pos, fuel) {
      var i :| 0 <= i < |cs| && x == Composite(rule, s, cs[i]);
      SequentialExhaustive(g, es, rule, s, pos, fuel, cs[i]);
    }
    if exists c :: |c| > 0 && Assignment(g, es, rule, s, pos, fuel, c) && x == Composite(rule, s, c) {
      var c :| |c| > 0 && Assignment(g, es, rule, s, pos, fuel, c) && x == Composite(rule, s, c);
      SequentialExhaustive(g, es, rule, s, pos, fuel, c);
      var i :| 0 <= i < |cs| && cs[i] == c;
      assert ParseSequence(g, es, rule, s, pos, fuel)[i] == x;
    }
  }

  /** Each composite has one child per element plus the placeholder; the
      children are contiguous from `pos`; child i is a parse of element i where
      child i-1 stopped; and the composite spans from `pos` to the
      placeholder. */
  lemma ParseSequenceSpec(g: Grammar, es: seq<Element>, rule: string, s: string, pos: nat, fuel: nat, x: Node)
    requires Closed(g) && RefsInAll(es, g.rules.Keys) && pos <= |s|
    requires x in ParseSequence(g, es, rule, s, pos, fuel)
    ensures |x.children| == |es| + 1 && Chain(x.children, s, pos)
    ensures x.start == pos && x.stop == x.children[|es|].stop && x.tag == None
    ensures x.children[|es|] == Zero(rule, s, x.stop, None)
    ensures forall i | 0 <= i < |es| :: x.children[i] in ParseAt(g, es[i], rule, s, x.children[i].start, fuel)
  {
    var cs := Sequential(g, es, rule, s, pos, fuel);
    SequentialShape(g, es, rule, s, pos, fuel);
    var i :| 0 <= i < |cs| && x == Composite(rule, s, cs[i]);
    var c := cs[i];
    SequentialExhaustive(g, es, rule, s, pos, fuel, c);
    AssignmentElements(g, es, rule, s, pos, fuel, c);
    assert Chain(c, s, pos);
    forall k | 0 <= k < |es|
      ensures c[k] in ParseAt(g, es[k], rule, s, c[k].start, fuel)
    {
      assert k > 0 ==> c[k - 1].stop == c[k].start;
    }
  }

  /** An empty sequence matches once, zero-width at `pos`, with the
      placeholder as its only child. */
  lemma EmptySequence(g: Grammar, rule: string, s: string, pos: nat, fuel: nat)
    requires Closed(g)
    ensures ParseSequence(g, [], rule, s, pos, fuel) == [Node(rule, s, pos, pos, [Zero(rule, s, pos, None)], None)]
  {
  }

  lemma {:induction false} AlternativesMember(g: Grammar, es: seq<Element>, rule: string, s: string, pos: nat, fuel: nat, x: Node)
    requires Closed(g) && RefsInAll(es, g.rules.Keys)
    ensures x in Alternatives(g, es, rule, s, pos, fuel) <==> exists i :: 0 <= i < |es| && x in ParseAt(g, es[i], rule, s, pos, fuel)
    decreases |es|
  {
    if es != [] {
      AlternativesMember(g, es[1..], rule, s, pos, fuel, x);
      if exists i :: 0 <= i < |es| && x in ParseAt(g, es[i], rule, s, pos, fuel) {
        var i :| 0 <= i < |es| && x in ParseAt(g, es[i], rule, s, pos, fuel);
        if i > 0 {
          assert es[1..][i - 1] == es[i];
        }
      }
      if exists i :: 0 <= i < |es[1..]| && x in ParseAt(g, es[1..][i], rule, s, pos, fuel) {
        var i :| 0 <= i < |es[1..]| && x in ParseAt(g, es[1..][i], rule, s, pos, fuel);
        assert es[1..][i] == es[i + 1];
      }
    }
  }

  /** An unlabelled choice yields a node exactly when one of its alternatives
      does. */
  lemma ChoiceUnion(g: Grammar, es: seq<Element>, ov: Option<string>, tag: Option<string>, rule: string, s: string, pos: nat, fuel: nat, x: Node)
    requires Closed(g) && RefsInAll(es, g.rules.Keys) && !Truthy(tag)
    ensures x in ParseAt(g, Choice(es, ov, tag), rule, s, pos, fuel) <==>
            exists i :: 0 <= i < |es| && x in ParseAt(g, es[i], rule, s, pos, fuel)
  {
    AlternativesMember(g, es, rule, s, pos, fuel, x);
  }

  /** The alternatives' parses are kept in alternative order and with no
      deduplication: for two alternatives, exactly their concatenation. */
  lemma ChoiceOfTwo(g: Grammar, a: Element, b: Element, ov: Option<string>, tag: Option<string>, rule: string, s: string, pos: nat, fuel: nat)
    requires Closed(g) && RefsIn(a, g.rules.Keys) && RefsIn(b, g.rules.Keys) && !Truthy(tag)
    ensures ParseAt(g, Choice([a, b], ov, tag), rule, s, pos, fuel) ==
            ParseAt(g, a, rule, s, pos, fuel) + ParseAt(g, b, rule, s, pos, fuel)
  {
    var es := [a, b];
    assert es[0] == a && es[1..] == [b] && [b][1..] == [];
    assert Alternatives(g, [b], rule, s, pos, fuel) == ParseAt(g, b, rule, s, pos, fuel) + [];
  }

  /** Substitution, Sequence and Choice with a truthy label: the parses of the
      same element without the label, each wrapped once in a node with the same
      region, that parse as only child, the outer rule name and the label. */
  lemma LabelWrapsOnce(g: Grammar, e: Element, rule: string, s: string, pos: nat, fuel: nat)
    requires Closed(g) && RefsIn(e, g.rules.Keys) && Truthy(e.tag)
    requires e.Substitution? || e.Sequence? || e.Choice?
    ensures var bare := ParseAt(g, Untagged(e), rule, s, pos, fuel);
            var r := ParseAt(g, e, rule, s, pos, fuel);
            |r| == |bare| &&
            forall i | 0 <= i < |r| :: r[i] == Node(rule, s, bare[i].start, bare[i].stop, [bare[i]], e.tag)
  {
  }

  /** Option and Repetition: the first result is the zero-width node at `pos`
      carrying the element's own label unwrapped; every later result is the
      corresponding unlabelled result wrapped once when the label is truthy. */
  lemma ZeroWidthFirst(g: Grammar, e: Element, rule: string, s: string, pos: nat, fuel: nat)
    requires Closed(g) && RefsIn(e, g.rules.Keys)
    requires e.Option? || e.Repetition?
    ensures var bare := ParseAt(g, Untagged(e), rule, s, pos, fuel);
            var r := ParseAt(g, e, rule, s, pos, fuel);
            |r| == |bare| && r[0] == Zero(rule, s, pos, e.tag) &&
            r[1..] == Wrap(rule, s, bare[1..], e.tag)
  {
    var bare := ParseAt(g, Untagged(e), rule, s, pos, fuel);
    if e.Repetition? {
      CountsWrap(g, e.element, e.tag, rule, s, pos, 1, fuel);
      assert bare[1..] == Counts(g, e.element, None, rule, s, pos, 1, fuel);
    }
  }

  lemma {:induction false} CountsWrap(g: Grammar, inner: Element, tag: Option<string>, rule: string, s: string, pos: nat, n: nat, fuel: nat)
    requires Closed(g) && RefsIn(inner, g.rules.Keys)
    ensures Counts(g, inner, tag, rule, s, pos, n, fuel) == Wrap(rule, s, Counts(g, inner, None, rule, s, pos, n, fuel), tag)
    decreases fuel
  {
    if fuel > 0 {
      var nodes := ParseSequence(g, Repeat(inner, n), rule, s, pos, fuel - 1);
      if nodes != [] {
        var rest := Counts(g, inner, None, rule, s, pos, n + 1, fuel - 1);
        CountsWrap(g, inner, tag, rule, s, pos, n + 1, fuel - 1);
        assert Counts(g, inner, tag, rule, s, pos, n, fuel) == Wrap(rule, s, nodes, tag) + Wrap(rule, s, rest, tag) by {
          CountsStep(g, inner, tag, rule, s, pos, n, fuel);
        }
        assert Counts(g, inner, None, rule, s, pos, n, fuel) == nodes + rest by {
          CountsStep(g, inner, None, rule, s, pos, n, fuel);
        }
        WrapAppend(rule, s, nodes, rest, tag);
      }
    }
  }

  /** A Substitution parses the referenced rule under that rule's name. */
  lemma SubstitutionDelegates(g: Grammar, name: string, ov: Option<string>, tag: Option<string>, rule: string, s: string, pos: nat, fuel: nat)
    requires Closed(g) && name in g.rules && !Truthy(tag) && fuel > 0
    ensures ParseAt(g, Substitution(name, ov, tag), rule, s, pos, fuel) == ParseAt(g, g.rules[name], name, s, pos, fuel - 1)
  {
  }

  /** The unlabelled results of a repetition after the zero-width one come in
      order of the number of copies: at least `n` copies (`n` + 1 children,
      counting the placeholder), never fewer than an earlier result. */
  lemma {:induction false} CountsOrder(g: Grammar, inner: Element, rule: string, s: string, pos: nat, n: nat, fuel: nat)
    requires Closed(g) && RefsIn(inner, g.rules.Keys)
    ensures forall i | 0 <= i < |Counts(g, inner, None, rule, s, pos, n, fuel)| ::
              |Counts(g, inner, None, rule, s, pos, n, fuel)[i].children| >= n + 1
    ensures forall i, j | 0 <= i < j < |Counts(g, inner, None, rule, s, pos, n, fuel)| ::
              |Counts(g, inner, None, rule, s, pos, n, fuel)[i].children| <= |Counts(g, inner, None, rule, s, pos, n, fuel)[j].children|
    decreases fuel
  {
    if fuel > 0 {
      var nodes := ParseSequence(g, Repeat(inner, n), rule, s, pos, fuel - 1);
      if nodes != [] {
        CountsOrder(g, inner, rule, s, pos, n + 1, fuel - 1);
        var cs := Sequential(g, Repeat(inner, n), rule, s, pos, fuel - 1);
        assert forall i | 0 <= i < |nodes| :: |nodes[i].children| == |cs[i]| == n + 1;
        var rest := Counts(g, inner, None, rule, s, pos, n + 1, fuel - 1);
        var r := nodes + rest;
        assert Counts(g, inner, None, rule, s, pos, n, fuel) == r;
        forall i | 0 <= i < |r|
          ensures |r[i].children| >= n + 1
        {
          if i >= |nodes| {
            assert r[i] == rest[i - |nodes|];
          } else {
            assert r[i] == nodes[i];
          }
        }
        forall i, j | 0 <= i < j < |r|
          ensures |r[i].children| <= |r[j].children|
        {
          if j >= |nodes| {
            assert r[j] == rest[j - |nodes|];
            if i >= |nodes| {
              assert r[i] == rest[i - |nodes|];
            } else {
              assert r[i] == nodes[i];
            }
          } else {
            assert r[i] == nodes[i] && r[j] == nodes[j];
          }
        }
      }
    }
  }

  /** Repetition without a label: the zero-width node first, then matches of
      one copy or more, in non-decreasing number of copies. */
  lemma RepetitionOrder(g: Grammar, inner: Element, ov: Option<string>, tag: Option<string>, rule: string, s: string, pos: nat, fuel: nat)
    requires Closed(g) && RefsIn(inner, g.rules.Keys) && !Truthy(tag)
    ensures var r := ParseAt(g, Repetition(inner, ov, tag), rule, s, pos, fuel);
            r[0] == Zero(rule, s, pos, tag) &&
            (forall i | 1 <= i < |r| :: |r[i].children| >= 2) &&
            (forall i, j | 1 <= i < j < |r| :: |r[i].children| <= |r[j].children|)
  {
    CountsOrder(g, inner, rule, s, pos, 1, fuel);
    CountsWrap(g, inner, tag, rule, s, pos, 1, fuel);
  }
}

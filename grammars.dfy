/**
  * The grammar record's entry points (nangram/grammar.py): `parse`,
  * `parse_complete` and `generate`, and the default generation limits.
  */
module Grammars {
  import opened Prelude
  import opened Nodes
  import opened Util
  import opened Elements
  import opened Generation

  /** `Grammar(rules)` with the default limits of the record. */
  function DefaultGrammar(rules: map<string, Element>): (g: Grammar)
    ensures g.rules == rules
    ensures g.maxProducts == 8 && g.maxRepetitions == 4 && g.maxRecursions == 8
  {
    Grammar(rules, 8, 4, 8)
  }

  /** `parse`: the named rule's element at position 0, under the rule's name. */
  function Parse(g: Grammar, s: string, name: string, fuel: nat): seq<Node>
    requires Closed(g) && name in g.rules
  {
    ParseAt(g, g.rules[name], name, s, 0, fuel)
  }

  /** Every parse tree belongs to the input, starts at its beginning and is
      tiled by its children. */
  lemma ParseTrees(g: Grammar, s: string, name: string, fuel: nat)
    requires Closed(g) && name in g.rules
    ensures forall i | 0 <= i < |Parse(g, s, name, fuel)| ::
              var t := Parse(g, s, name, fuel)[i];
              t.text == s && t.start == 0 && Tiled(t)
  {
    ParseAtShape(g, g.rules[name], name, s, 0, fuel);
  }

  /** The complete trees among `trees`, in order. */
  function KeepComplete(trees: seq<Node>): (r: seq<Node>)
    ensures forall t :: t in r <==> t in trees && IsComplete(t)
    ensures forall t :: multiset(r)[t] == if IsComplete(t) then multiset(trees)[t] else 0
    ensures IsSubsequence(r, trees)
  {
    assert trees != [] ==> trees == [trees[0]] + trees[1..];
    if trees == [] then []
    else if IsComplete(trees[0]) then [trees[0]] + KeepComplete(trees[1..])
    else KeepComplete(trees[1..])
  }

  /** `parse_complete`: the parses that cover the whole input. */
  function ParseComplete(g: Grammar, s: string, name: string, fuel: nat): seq<Node>
    requires Closed(g) && name in g.rules
  {
    KeepComplete(Parse(g, s, name, fuel))
  }

  /** The complete parses are exactly the parses that end at the end of the
      input, each as often as it is parsed, kept in their order. */
  lemma ParseCompleteSpec(g: Grammar, s: string, name: string, fuel: nat, t: Node)
    requires Closed(g) && name in g.rules
    ensures t in ParseComplete(g, s, name, fuel) <==> t in Parse(g, s, name, fuel) && t.stop == |s|
    ensures multiset(ParseComplete(g, s, name, fuel))[t] ==
            if t.stop == |s| then multiset(Parse(g, s, name, fuel))[t] else 0
    ensures IsSubsequence(ParseComplete(g, s, name, fuel), Parse(g, s, name, fuel))
  {
    ParseTrees(g, s, name, fuel);
    if t in Parse(g, s, name, fuel) {
      IsCompleteIffWhole(t);
    }
  }

  /** `generate`: the named rule's element at depth 0. */
  function Generate(g: Grammar, name: string, draw: Sampler, fuel: nat): seq<string>
    requires Closed(g) && name in g.rules && ValidSampler(draw)
  {
    GenerateAt(g, g.rules[name], 0, draw, fuel)
  }

  /** With a positive recursion limit, the rule's override alone when it has
      one; without one, `CountAt` strings whatever the draws. */
  lemma GenerateSpec(g: Grammar, name: string, draw: Sampler, fuel: nat)
    requires Closed(g) && name in g.rules && ValidSampler(draw)
    ensures |Generate(g, name, draw, fuel)| == CountAt(g, g.rules[name], 0, fuel)
    ensures g.maxRecursions <= 0 ==> Generate(g, name, draw, fuel) == []
    ensures g.maxRecursions > 0 && Truthy(g.rules[name].override) ==>
            Generate(g, name, draw, fuel) == [g.rules[name].override.value]
  {
    GenerationCount(g, g.rules[name], 0, draw, fuel);
  }
}

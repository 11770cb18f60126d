/**
  * Generation and parsing agree.  Every string a grammar without generation
  * overrides generates from a rule is parsed back, up to its end, from the
  * start of that rule, once the parser has enough fuel.  The repository's
  * example program reparses the strings it generates "for validity"
  * (examples/english.py:9-17); here that is proved, not assumed.
  */
module GenerateParse {
  import opened Prelude
  import opened Nodes
  import opened Util
  import opened Elements
  import opened Generation
  import opened Grammars

  /** No element in `e`, itself included, has an override generation would
      yield instead of its own strings. */
  predicate Plain(e: Element)
    decreases e
  {
    !Truthy(e.override) &&
    match e
    case Terminal(_, _, _) => true
    case Substitution(_, _, _) => true
    case Sequence(es, _, _) => forall i | 0 <= i < |es| :: Plain(es[i])
    case Choice(es, _, _) => forall i | 0 <= i < |es| :: Plain(es[i])
    case Option(inner, _, _) => Plain(inner)
    case Repetition(inner, _, _) => Plain(inner)
  }

  predicate PlainGrammar(g: Grammar)
  {
    forall name | name in g.rules :: Plain(g.rules[name])
  }

  /** Some parse of `e` at `pos` stops at `stop`. */
  ghost predicate Spans(g: Grammar, e: Element, rule: string, s: string, pos: nat, stop: nat, fuel: nat)
    requires Closed(g) && RefsIn(e, g.rules.Keys)
  {
    exists y :: y in ParseAt(g, e, rule, s, pos, fuel) && y.stop == stop
  }

  /** Some node of `nodes` stops at `stop`. */
  ghost predicate StopsAt(nodes: seq<Node>, stop: nat)
  {
    exists y :: y in nodes && y.stop == stop
  }

  lemma StopsAtAppend(a: seq<Node>, b: seq<Node>, stop: nat)
    requires StopsAt(a, stop) || StopsAt(b, stop)
    ensures StopsAt(a + b, stop)
  {
    var y :| (y in a || y in b) && y.stop == stop;
    assert y in a + b;
  }

  /** `Spans` with every fuel from `n` on. */
  ghost predicate SpansFrom(g: Grammar, e: Element, rule: string, s: string, pos: nat, stop: nat, n: nat)
    requires Closed(g) && RefsIn(e, g.rules.Keys)
  {
    forall f | f >= n :: Spans(g, e, rule, s, pos, stop, f)
  }

  /** `Spans` with every fuel from some bound on. */
  ghost predicate Reaches(g: Grammar, e: Element, rule: string, s: string, pos: nat, stop: nat)
    requires Closed(g) && RefsIn(e, g.rules.Keys)
  {
    exists n: nat :: SpansFrom(g, e, rule, s, pos, stop, n)
  }

  /** Each of `es` spans from its bound to the next with every fuel from `n` on. */
  ghost predicate AllSpanFrom(g: Grammar, es: seq<Element>, rule: string, s: string, b: seq<nat>, n: nat)
    requires Closed(g) && RefsInAll(es, g.rules.Keys) && |b| == |es| + 1
  {
    forall i | 0 <= i < |es| :: SpansFrom(g, es[i], rule, s, b[i], b[i + 1], n)
  }

  lemma {:induction false} SizeMember(es: seq<Element>, i: nat)
    requires i < |es|
    ensures Size(es[i]) < SizeList(es)
    decreases i
  {
    if i > 0 {
      SizeMember(es[1..], i - 1);
      assert es[1..][i - 1] == es[i];
    }
  }

  /** Where each of `parts` begins when they are laid end to end from
      `pos`, followed by where the last one ends. */
  function Bounds(pos: nat, parts: seq<string>): (b: seq<nat>)
    ensures |b| == |parts| + 1 && b[0] == pos && b[|parts|] == pos + |Join(parts)|
    ensures forall i | 0 <= i < |parts| :: b[i + 1] == b[i] + |parts[i]|
    decreases parts
  {
    if parts == [] then [pos] else [pos] + Bounds(pos + |parts[0]|, parts[1..])
  }

  /** `p` occupies `s` from `lo` to `hi`. */
  ghost predicate FoundAt(s: string, lo: nat, hi: nat, p: string)
  {
    lo <= hi <= |s| && s[lo..hi] == p
  }

  /** A joined string found at `pos` has each part at its bounds. */
  lemma PartsAt(s: string, pos: nat, parts: seq<string>, b: seq<nat>)
    requires pos + |Join(parts)| <= |s| && s[pos..pos + |Join(parts)|] == Join(parts)
    requires b == Bounds(pos, parts)
    ensures forall i | 0 <= i < |parts| :: FoundAt(s, b[i], b[i + 1], parts[i])
  {
    forall i | 0 <= i < |parts|
      ensures FoundAt(s, b[i], b[i + 1], parts[i])
    {
      PartAt(s, pos, parts, i);
    }
  }

  lemma {:induction false} PartAt(s: string, pos: nat, parts: seq<string>, i: nat)
    requires pos + |Join(parts)| <= |s| && s[pos..pos + |Join(parts)|] == Join(parts)
    requires i < |parts|
    ensures FoundAt(s, Bounds(pos, parts)[i], Bounds(pos, parts)[i + 1], parts[i])
    decreases i
  {
    var p := parts[0];
    var b := Bounds(pos, parts);
    var rest := Bounds(pos + |p|, parts[1..]);
    assert Join(parts) == p + Join(parts[1..]);
    assert b == [pos] + rest;
    SplitAt(s, pos, p, Join(parts[1..]));
    if i == 0 {
      assert b[0] == pos && b[1] == pos + |p|;
    } else {
      PartAt(s, pos + |p|, parts[1..], i - 1);
      assert b[i] == rest[i - 1] && b[i + 1] == rest[i] && parts[i] == parts[1..][i - 1];
    }
  }

  /** Two strings found together at `pos` are found one after the other. */
  lemma SplitAt(s: string, pos: nat, p: string, q: string)
    requires pos + |p + q| <= |s| && s[pos..pos + |p + q|] == p + q
    ensures s[pos..pos + |p|] == p && s[pos + |p|..pos + |p| + |q|] == q
  {
    assert s[pos..pos + |p|] == (p + q)[..|p|];
    assert s[pos + |p|..pos + |p| + |q|] == (p + q)[|p|..];
  }

  // ---------------------------------------------------------------------------
  // Parsing side: assembling the parses of the parts
  // ---------------------------------------------------------------------------

  /** Parses of the elements from bound to bound chain into an assignment. */
  lemma {:induction false} AssignmentReaches(g: Grammar, es: seq<Element>, rule: string, s: string, b: seq<nat>, f: nat)
    requires Closed(g) && RefsInAll(es, g.rules.Keys) && |b| == |es| + 1
    requires forall i | 0 <= i < |es| :: Spans(g, es[i], rule, s, b[i], b[i + 1], f)
    ensures exists c: seq<Node> :: Assignment(g, es, rule, s, b[0], f, c) && |c| > 0 && c[|c| - 1].stop == b[|es|]
    decreases |es|
  {
    if es == [] {
      assert Assignment(g, es, rule, s, b[0], f, [Zero(rule, s, b[0], None)]);
    } else {
      var y :| y in ParseAt(g, es[0], rule, s, b[0], f) && y.stop == b[1];
      forall i | 0 <= i < |es[1..]|
        ensures Spans(g, es[1..][i], rule, s, b[1..][i], b[1..][i + 1], f)
      {
        assert es[1..][i] == es[i + 1] && b[1..][i] == b[i + 1] && b[1..][i + 1] == b[i + 2];
      }
      AssignmentReaches(g, es[1..], rule, s, b[1..], f);
      var c': seq<Node> :| Assignment(g, es[1..], rule, s, b[1], f, c') && |c'| > 0 && c'[|c'| - 1].stop == b[|es|];
      var c := [y] + c';
      assert c[1..] == c' && c[0] == y;
      assert Assignment(g, es, rule, s, b[0], f, c);
    }
  }

  /** A sequence whose elements parse from bound to bound has a parse that
      stops at the last bound. */
  lemma SequenceReaches(g: Grammar, es: seq<Element>, rule: string, s: string, b: seq<nat>, f: nat)
    requires Closed(g) && RefsInAll(es, g.rules.Keys) && |b| == |es| + 1
    requires forall i | 0 <= i < |es| :: Spans(g, es[i], rule, s, b[i], b[i + 1], f)
    ensures exists y :: y in ParseSequence(g, es, rule, s, b[0], f) && y.stop == b[|es|]
  {
    AssignmentReaches(g, es, rule, s, b, f);
    var c: seq<Node> :| Assignment(g, es, rule, s, b[0], f, c) && |c| > 0 && c[|c| - 1].stop == b[|es|];
    ParseSequenceAssignments(g, es, rule, s, b[0], f, Composite(rule, s, c));
  }

  /** A label wraps a node without moving where it stops. */
  lemma WrapKeepsStop(rule: string, s: string, nodes: seq<Node>, tag: Option<string>, y: Node)
    requires y in nodes
    ensures exists w :: w in Wrap(rule, s, nodes, tag) && w.stop == y.stop
  {
    var i :| 0 <= i < |nodes| && nodes[i] == y;
    assert Wrap(rule, s, nodes, tag)[i].stop == y.stop;
  }

  /** One fuel that serves every element of a list. */
  lemma {:induction false} CommonFuel(g: Grammar, es: seq<Element>, rule: string, s: string, b: seq<nat>)
    requires Closed(g) && RefsInAll(es, g.rules.Keys) && |b| == |es| + 1
    requires forall i | 0 <= i < |es| :: Reaches(g, es[i], rule, s, b[i], b[i + 1])
    ensures exists n: nat :: AllSpanFrom(g, es, rule, s, b, n)
    decreases |es|
  {
    if es == [] {
      assert AllSpanFrom(g, es, rule, s, b, 0);
    } else {
      forall i | 0 <= i < |es[1..]|
        ensures Reaches(g, es[1..][i], rule, s, b[1..][i], b[1..][i + 1])
      {
        assert es[1..][i] == es[i + 1] && b[1..][i] == b[i + 1] && b[1..][i + 1] == b[i + 2];
      }
      CommonFuel(g, es[1..], rule, s, b[1..]);
      var n1: nat :| AllSpanFrom(g, es[1..], rule, s, b[1..], n1);
      assert Reaches(g, es[0], rule, s, b[0], b[1]);
      var n0: nat :| SpansFrom(g, es[0], rule, s, b[0], b[1], n0);
      var n := if n0 <= n1 then n1 else n0;
      forall i | 0 <= i < |es|
        ensures SpansFrom(g, es[i], rule, s, b[i], b[i + 1], n)
      {
        if i > 0 {
          assert es[1..][i - 1] == es[i] && b[1..][i - 1] == b[i] && b[1..][i] == b[i + 1];
          assert SpansFrom(g, es[i], rule, s, b[i], b[i + 1], n1);
        }
      }
      assert AllSpanFrom(g, es, rule, s, b, n);
    }
  }

  /** With the parts of `k` copies parsing from bound to bound, the counts
      from `n` on reach `k` copies, and that count's parses include one
      stopping at the last bound. */
  lemma {:induction false} CountsReach(g: Grammar, inner: Element, tag: Option<string>, rule: string, s: string, b: seq<nat>, k: nat, n: nat, fuel: nat, base: nat)
    requires Closed(g) && RefsIn(inner, g.rules.Keys)
    requires 1 <= n <= k && |b| == k + 1 && fuel >= base + (k - n) + 1
    requires forall i | 0 <= i < k :: SpansFrom(g, inner, rule, s, b[i], b[i + 1], base)
    ensures StopsAt(Counts(g, inner, tag, rule, s, b[0], n, fuel), b[k])
    decreases k - n
  {
    CopiesReach(g, inner, tag, rule, s, b, n, fuel - 1, base);
    CountsStep(g, inner, tag, rule, s, b[0], n, fuel);
    var first := Wrap(rule, s, ParseSequence(g, Repeat(inner, n), rule, s, b[0], fuel - 1), tag);
    var rest := Counts(g, inner, tag, rule, s, b[0], n + 1, fuel - 1);
    if n < k {
      CountsReach(g, inner, tag, rule, s, b, k, n + 1, fuel - 1, base);
      assert StopsAt(rest, b[k]);
    } else {
      assert StopsAt(first, b[k]);
    }
    StopsAtAppend(first, rest, b[k]);
  }

  /** `n` copies of `inner` spanning from bound to bound parse, as one
      count, up to the `n`-th bound. */
  lemma CopiesReach(g: Grammar, inner: Element, tag: Option<string>, rule: string, s: string, b: seq<nat>, n: nat, fuel: nat, base: nat)
    requires Closed(g) && RefsIn(inner, g.rules.Keys)
    requires 1 <= n && |b| >= n + 1 && fuel >= base
    requires forall i | 0 <= i < n :: SpansFrom(g, inner, rule, s, b[i], b[i + 1], base)
    ensures ParseSequence(g, Repeat(inner, n), rule, s, b[0], fuel) != []
    ensures StopsAt(Wrap(rule, s, ParseSequence(g, Repeat(inner, n), rule, s, b[0], fuel), tag), b[n])
  {
    var copies := Repeat(inner, n);
    var bn := b[..n + 1];
    forall i | 0 <= i < n
      ensures Spans(g, copies[i], rule, s, bn[i], bn[i + 1], fuel)
    {
      assert SpansFrom(g, inner, rule, s, b[i], b[i + 1], base);
    }
    SequenceReaches(g, copies, rule, s, bn, fuel);
    var nodes := ParseSequence(g, copies, rule, s, b[0], fuel);
    var y :| y in nodes && y.stop == b[n];
    WrapKeepsStop(rule, s, nodes, tag, y);
  }

  /** A sequence whose elements span from bound to bound spans the whole. */
  lemma SequenceFrom(g: Grammar, es: seq<Element>, ov: Option<string>, tag: Option<string>, rule: string, s: string, b: seq<nat>)
    requires Closed(g) && RefsInAll(es, g.rules.Keys) && |b| == |es| + 1
    requires forall i | 0 <= i < |es| :: Reaches(g, es[i], rule, s, b[i], b[i + 1])
    ensures Reaches(g, Sequence(es, ov, tag), rule, s, b[0], b[|es|])
  {
    var e := Sequence(es, ov, tag);
    CommonFuel(g, es, rule, s, b);
    var n: nat :| AllSpanFrom(g, es, rule, s, b, n);
    forall f | f >= n
      ensures Spans(g, e, rule, s, b[0], b[|es|], f)
    {
      assert forall i | 0 <= i < |es| :: Spans(g, es[i], rule, s, b[i], b[i + 1], f);
      SequenceReaches(g, es, rule, s, b, f);
      var y :| y in ParseSequence(g, es, rule, s, b[0], f) && y.stop == b[|es|];
      WrapKeepsStop(rule, s, ParseSequence(g, es, rule, s, b[0], f), tag, y);
    }
    assert SpansFrom(g, e, rule, s, b[0], b[|es|], n);
  }

  /** `k` copies of `inner` spanning from bound to bound make a repetition
      spanning the whole, with `k` more fuel. */
  lemma RepetitionFrom(g: Grammar, inner: Element, ov: Option<string>, tag: Option<string>, rule: string, s: string, b: seq<nat>, k: nat)
    requires Closed(g) && RefsIn(inner, g.rules.Keys) && 1 <= k && |b| == k + 1
    requires forall i | 0 <= i < k :: Reaches(g, inner, rule, s, b[i], b[i + 1])
    ensures Reaches(g, Repetition(inner, ov, tag), rule, s, b[0], b[k])
  {
    var e := Repetition(inner, ov, tag);
    var copies := Repeat(inner, k);
    forall i | 0 <= i < k
      ensures Reaches(g, copies[i], rule, s, b[i], b[i + 1])
    {
      assert copies[i] == inner;
    }
    CommonFuel(g, copies, rule, s, b);
    var n: nat :| AllSpanFrom(g, copies, rule, s, b, n);
    forall i | 0 <= i < k
      ensures SpansFrom(g, inner, rule, s, b[i], b[i + 1], n)
    {
      assert copies[i] == inner;
    }
    forall f | f >= n + k
      ensures Spans(g, e, rule, s, b[0], b[k], f)
    {
      CountsReach(g, inner, tag, rule, s, b, k, 1, f, n);
      var y :| y in Counts(g, inner, tag, rule, s, b[0], 1, f) && y.stop == b[k];
      assert y in ParseAt(g, e, rule, s, b[0], f);
    }
    assert SpansFrom(g, e, rule, s, b[0], b[k], n + k);
  }

  /** An option or a repetition spans the empty string at any position. */
  lemma EmptySpans(g: Grammar, e: Element, rule: string, s: string, pos: nat)
    requires Closed(g) && RefsIn(e, g.rules.Keys) && (e.Option? || e.Repetition?)
    ensures Reaches(g, e, rule, s, pos, pos)
  {
    forall f | f >= 0
      ensures Spans(g, e, rule, s, pos, pos, f)
    {
      assert Zero(rule, s, pos, e.tag) in ParseAt(g, e, rule, s, pos, f);
    }
    assert SpansFrom(g, e, rule, s, pos, pos, 0);
  }

  // ---------------------------------------------------------------------------
  // Generation side: every generated string spans its own parse
  // ---------------------------------------------------------------------------

  /** A string an element generates, found at `pos`, is parsed by the same
      element from `pos` to its end, for every fuel from some bound on. */
  lemma {:induction false} GeneratedSpans(g: Grammar, e: Element, depth: nat, draw: Sampler, gfuel: nat, rule: string, s: string, pos: nat, x: string)
    requires Closed(g) && RefsIn(e, g.rules.Keys) && ValidSampler(draw) && PlainGrammar(g) && Plain(e)
    requires x in GenerateAt(g, e, depth, draw, gfuel)
    requires pos + |x| <= |s| && s[pos..pos + |x|] == x
    ensures Reaches(g, e, rule, s, pos, pos + |x|)
    decreases gfuel, Size(e), 1
  {
    GenerateGuards(g, e, depth, draw, gfuel);
    VariantSpans(g, e, depth, draw, gfuel, rule, s, pos, x);
  }

  lemma {:induction false} VariantSpans(g: Grammar, e: Element, depth: nat, draw: Sampler, gfuel: nat, rule: string, s: string, pos: nat, x: string)
    requires Closed(g) && RefsIn(e, g.rules.Keys) && ValidSampler(draw) && PlainGrammar(g) && Plain(e)
    requires x in GenerateVariant(g, e, depth, draw, gfuel)
    requires pos + |x| <= |s| && s[pos..pos + |x|] == x
    ensures Reaches(g, e, rule, s, pos, pos + |x|)
    decreases gfuel, Size(e), 0
  {
    var stop := pos + |x|;
    match e
    case Terminal(lit, ov, tag) =>
      forall f | f >= 0
        ensures Spans(g, e, rule, s, pos, stop, f)
      {
        TerminalMatch(g, lit, ov, tag, rule, s, pos, f);
        assert Node(rule, s, pos, pos + |lit|, [], tag) in ParseAt(g, e, rule, s, pos, f);
      }
      assert SpansFrom(g, e, rule, s, pos, stop, 0);
    case Substitution(name, ov, tag) =>
      SubstitutionSpans(g, name, ov, tag, depth, draw, gfuel, rule, s, pos, x);
    case Sequence(es, ov, tag) =>
      SequenceSpans(g, es, ov, tag, depth, draw, gfuel, rule, s, pos, x);
    case Choice(es, ov, tag) =>
      ChoiceSpans(g, es, ov, tag, depth, draw, gfuel, rule, s, pos, x);
    case Option(inner, ov, tag) =>
      OptionSpans(g, inner, ov, tag, depth, draw, gfuel, rule, s, pos, x);
    case Repetition(inner, ov, tag) =>
      RepetitionSpans(g, inner, ov, tag, depth, draw, gfuel, rule, s, pos, x);
  }

  lemma {:induction false} SubstitutionSpans(g: Grammar, name: string, ov: Option<string>, tag: Option<string>, depth: nat, draw: Sampler, gfuel: nat, rule: string, s: string, pos: nat, x: string)
    requires Closed(g) && name in g.rules && ValidSampler(draw) && PlainGrammar(g)
    requires x in GenerateVariant(g, Substitution(name, ov, tag), depth, draw, gfuel)
    requires pos + |x| <= |s| && s[pos..pos + |x|] == x
    ensures Reaches(g, Substitution(name, ov, tag), rule, s, pos, pos + |x|)
    decreases gfuel, 0, 2
  {
    var stop := pos + |x|;
    var e := Substitution(name, ov, tag);
    var target := g.rules[name];
    GeneratedSpans(g, target, depth, draw, gfuel - 1, name, s, pos, x);
    var n: nat :| SpansFrom(g, target, name, s, pos, stop, n);
    forall f | f >= n + 1
      ensures Spans(g, e, rule, s, pos, stop, f)
    {
      assert Spans(g, target, name, s, pos, stop, f - 1);
      var y :| y in ParseAt(g, target, name, s, pos, f - 1) && y.stop == stop;
      WrapKeepsStop(rule, s, ParseAt(g, target, name, s, pos, f - 1), tag, y);
    }
    assert SpansFrom(g, e, rule, s, pos, stop, n + 1);
  }

  lemma {:induction false} SequenceSpans(g: Grammar, es: seq<Element>, ov: Option<string>, tag: Option<string>, depth: nat, draw: Sampler, gfuel: nat, rule: string, s: string, pos: nat, x: string)
    requires Closed(g) && RefsInAll(es, g.rules.Keys) && ValidSampler(draw) && PlainGrammar(g)
    requires Plain(Sequence(es, ov, tag))
    requires x in GenerateVariant(g, Sequence(es, ov, tag), depth, draw, gfuel)
    requires pos + |x| <= |s| && s[pos..pos + |x|] == x
    ensures Reaches(g, Sequence(es, ov, tag), rule, s, pos, pos + |x|)
    decreases gfuel, SizeList(es), 2
  {
    var parts := SequenceParts(g, es, ov, tag, depth, draw, gfuel, x);
    var b := Bounds(pos, parts);
    PartsAt(s, pos, parts, b);
    SequencePartsReach(g, es, depth, draw, gfuel, rule, s, b, parts);
    SequenceFrom(g, es, ov, tag, rule, s, b);
  }

  /** The parts a generated sequence string is joined from. */
  lemma SequenceParts(g: Grammar, es: seq<Element>, ov: Option<string>, tag: Option<string>, depth: nat, draw: Sampler, gfuel: nat, x: string)
    returns (parts: seq<string>)
    requires Closed(g) && RefsInAll(es, g.rules.Keys) && ValidSampler(draw)
    requires x in GenerateVariant(g, Sequence(es, ov, tag), depth, draw, gfuel)
    ensures |parts| == |es| && x == Join(parts)
    ensures forall i | 0 <= i < |es| :: parts[i] in GenerateAt(g, es[i], depth + 1, draw, gfuel)
  {
    SequenceStrings(g, es, ov, tag, depth, draw, gfuel);
    parts :| |parts| == |es| && x == Join(parts) &&
             forall i | 0 <= i < |es| :: parts[i] in GenerateAt(g, es[i], depth + 1, draw, gfuel);
  }

  /** Each part of a generated sequence, found at its bounds, spans them. */
  lemma {:induction false} SequencePartsReach(g: Grammar, es: seq<Element>, depth: nat, draw: Sampler, gfuel: nat, rule: string, s: string, b: seq<nat>, parts: seq<string>)
    requires Closed(g) && RefsInAll(es, g.rules.Keys) && ValidSampler(draw) && PlainGrammar(g)
    requires forall i | 0 <= i < |es| :: Plain(es[i])
    requires |parts| == |es| && |b| == |es| + 1
    requires forall i | 0 <= i < |es| :: parts[i] in GenerateAt(g, es[i], depth + 1, draw, gfuel)
    requires forall i | 0 <= i < |parts| :: FoundAt(s, b[i], b[i + 1], parts[i])
    ensures forall i | 0 <= i < |es| :: Reaches(g, es[i], rule, s, b[i], b[i + 1])
    decreases gfuel, SizeList(es), 1
  {
    forall i | 0 <= i < |es|
      ensures Reaches(g, es[i], rule, s, b[i], b[i + 1])
    {
      var p := parts[i];
      assert FoundAt(s, b[i], b[i + 1], p);
      SizeMember(es, i);
      GeneratedSpans(g, es[i], depth + 1, draw, gfuel, rule, s, b[i], parts[i]);
    }
  }

  lemma {:induction false} ChoiceSpans(g: Grammar, es: seq<Element>, ov: Option<string>, tag: Option<string>, depth: nat, draw: Sampler, gfuel: nat, rule: string, s: string, pos: nat, x: string)
    requires Closed(g) && RefsInAll(es, g.rules.Keys) && ValidSampler(draw) && PlainGrammar(g)
    requires Plain(Choice(es, ov, tag))
    requires x in GenerateVariant(g, Choice(es, ov, tag), depth, draw, gfuel)
    requires pos + |x| <= |s| && s[pos..pos + |x|] == x
    ensures Reaches(g, Choice(es, ov, tag), rule, s, pos, pos + |x|)
    decreases gfuel, SizeList(es), 2
  {
    var stop := pos + |x|;
    var e := Choice(es, ov, tag);
    ChoiceStrings(g, es, ov, tag, depth, draw, gfuel, x);
    var i :| 0 <= i < |es| && x in GenerateAt(g, es[i], depth + 1, draw, gfuel);
    SizeMember(es, i);
    GeneratedSpans(g, es[i], depth + 1, draw, gfuel, rule, s, pos, x);
    var n: nat :| SpansFrom(g, es[i], rule, s, pos, stop, n);
    forall f | f >= n
      ensures Spans(g, e, rule, s, pos, stop, f)
    {
      assert Spans(g, es[i], rule, s, pos, stop, f);
      var y :| y in ParseAt(g, es[i], rule, s, pos, f) && y.stop == stop;
      AlternativesMember(g, es, rule, s, pos, f, y);
      WrapKeepsStop(rule, s, Alternatives(g, es, rule, s, pos, f), tag, y);
    }
    assert SpansFrom(g, e, rule, s, pos, stop, n);
  }

  lemma {:induction false} OptionSpans(g: Grammar, inner: Element, ov: Option<string>, tag: Option<string>, depth: nat, draw: Sampler, gfuel: nat, rule: string, s: string, pos: nat, x: string)
    requires Closed(g) && RefsIn(inner, g.rules.Keys) && ValidSampler(draw) && PlainGrammar(g) && Plain(inner)
    requires x in GenerateVariant(g, Option(inner, ov, tag), depth, draw, gfuel)
    requires pos + |x| <= |s| && s[pos..pos + |x|] == x
    ensures Reaches(g, Option(inner, ov, tag), rule, s, pos, pos + |x|)
    decreases gfuel, Size(inner), 2
  {
    var stop := pos + |x|;
    var e := Option(inner, ov, tag);
    if x == "" {
      EmptySpans(g, e, rule, s, pos);
    } else {
      assert x in GenerateAt(g, inner, depth + 1, draw, gfuel);
      GeneratedSpans(g, inner, depth + 1, draw, gfuel, rule, s, pos, x);
      var n: nat :| SpansFrom(g, inner, rule, s, pos, stop, n);
      forall f | f >= n
        ensures Spans(g, e, rule, s, pos, stop, f)
      {
        assert Spans(g, inner, rule, s, pos, stop, f);
        var y :| y in ParseAt(g, inner, rule, s, pos, f) && y.stop == stop;
        WrapKeepsStop(rule, s, ParseAt(g, inner, rule, s, pos, f), tag, y);
      }
      assert SpansFrom(g, e, rule, s, pos, stop, n);
    }
  }

  lemma {:induction false} RepetitionSpans(g: Grammar, inner: Element, ov: Option<string>, tag: Option<string>, depth: nat, draw: Sampler, gfuel: nat, rule: string, s: string, pos: nat, x: string)
    requires Closed(g) && RefsIn(inner, g.rules.Keys) && ValidSampler(draw) && PlainGrammar(g) && Plain(inner)
    requires x in GenerateVariant(g, Repetition(inner, ov, tag), depth, draw, gfuel)
    requires pos + |x| <= |s| && s[pos..pos + |x|] == x
    ensures Reaches(g, Repetition(inner, ov, tag), rule, s, pos, pos + |x|)
    decreases gfuel, Size(inner), 3
  {
    var parts := RepetitionParts(g, inner, ov, tag, depth, draw, gfuel, x);
    if parts == [] {
      EmptySpans(g, Repetition(inner, ov, tag), rule, s, pos);
    } else {
      var b := Bounds(pos, parts);
      PartsAt(s, pos, parts, b);
      RepeatedPartsReach(g, inner, depth, draw, gfuel, rule, s, b, parts);
      RepetitionFrom(g, inner, ov, tag, rule, s, b, |parts|);
    }
  }

  /** The copies a generated repetition string is joined from: none for the
      empty string, otherwise fewer than `max_repetitions` of them. */
  lemma RepetitionParts(g: Grammar, inner: Element, ov: Option<string>, tag: Option<string>, depth: nat, draw: Sampler, gfuel: nat, x: string)
    returns (parts: seq<string>)
    requires Closed(g) && RefsIn(inner, g.rules.Keys) && ValidSampler(draw)
    requires x in GenerateVariant(g, Repetition(inner, ov, tag), depth, draw, gfuel)
    ensures x == Join(parts) && (parts != [] ==> |parts| < g.maxRepetitions)
    ensures forall i | 0 <= i < |parts| :: parts[i] in GenerateAt(g, inner, depth + 1, draw, gfuel)
  {
    var one := GenerateAt(g, inner, depth + 1, draw, gfuel);
    var r := GenerateVariant(g, Repetition(inner, ov, tag), depth, draw, gfuel);
    var ks := RepeatedCounts(g, one, draw, 1);
    RepetitionStrings(g, inner, ov, tag, depth, draw, gfuel);
    var j :| 0 <= j < |r| && r[j] == x;
    if j == 0 {
      parts := [];
      assert Join(parts) == "";
    } else {
      var k := ks[j - 1];
      assert JoinOf(x, one, k);
      parts :| |parts| == k && x == Join(parts) && forall i | 0 <= i < k :: parts[i] in one;
    }
  }

  /** Each part of a generated repetition, found at its bounds, spans them. */
  lemma {:induction false} RepeatedPartsReach(g: Grammar, inner: Element, depth: nat, draw: Sampler, gfuel: nat, rule: string, s: string, b: seq<nat>, parts: seq<string>)
    requires Closed(g) && RefsIn(inner, g.rules.Keys) && ValidSampler(draw) && PlainGrammar(g) && Plain(inner)
    requires |b| == |parts| + 1
    requires forall i | 0 <= i < |parts| :: parts[i] in GenerateAt(g, inner, depth + 1, draw, gfuel)
    requires forall i | 0 <= i < |parts| :: FoundAt(s, b[i], b[i + 1], parts[i])
    ensures forall i | 0 <= i < |parts| :: Reaches(g, inner, rule, s, b[i], b[i + 1])
    decreases gfuel, Size(inner), 2
  {
    forall i | 0 <= i < |parts|
      ensures Reaches(g, inner, rule, s, b[i], b[i + 1])
    {
      var p := parts[i];
      assert FoundAt(s, b[i], b[i + 1], p);
      GeneratedSpans(g, inner, depth + 1, draw, gfuel, rule, s, b[i], parts[i]);
    }
  }

  /** With every fuel from `n` on, `x` has a complete parse from rule `name`. */
  ghost predicate CompleteFrom(g: Grammar, x: string, name: string, n: nat)
    requires Closed(g) && name in g.rules
  {
    forall f | f >= n :: ParseComplete(g, x, name, f) != []
  }

  /** `generate` and `parse_complete` agree: in a grammar without generation
      overrides, every string a rule generates is a complete parse of that
      rule for every fuel from some bound on. */
  lemma GeneratedStringsParse(g: Grammar, name: string, draw: Sampler, gfuel: nat, x: string)
    requires Closed(g) && name in g.rules && ValidSampler(draw) && PlainGrammar(g)
    requires x in Generate(g, name, draw, gfuel)
    ensures exists n: nat :: CompleteFrom(g, x, name, n)
  {
    assert x[0..|x|] == x;
    GeneratedSpans(g, g.rules[name], 0, draw, gfuel, name, x, 0, x);
    var n: nat :| SpansFrom(g, g.rules[name], name, x, 0, |x|, n);
    forall f | f >= n
      ensures ParseComplete(g, x, name, f) != []
    {
      assert Spans(g, g.rules[name], name, x, 0, |x|, f);
      var y :| y in Parse(g, x, name, f) && y.stop == |x|;
      ParseCompleteSpec(g, x, name, f, y);
    }
    assert CompleteFrom(g, x, name, n);
  }
}

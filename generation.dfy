/**
  * String generation (`Element._generate` and each variant's `generate` in
  * nangram/element.py, over `generate_product` from nangram/util.py).
  *
  * The random draws are an input (`draw`), so generation is a function.  A
  * Substitution generates its target at the same depth, so a chain of rules
  * that only refer to each other never reaches the depth limit; `fuel`, spent
  * by each Substitution, bounds such chains.
  */
module Generation {
  import opened Prelude
  import opened Util
  import opened Elements

  /** `_generate`: nothing at or beyond the depth limit; a truthy override
      alone; otherwise the variant's own strings. */
  function GenerateAt(g: Grammar, e: Element, depth: nat, draw: Sampler, fuel: nat): seq<string>
    requires Closed(g) && RefsIn(e, g.rules.Keys) && ValidSampler(draw)
    decreases fuel, Size(e), 1
  {
    if depth < g.maxRecursions then
      if Truthy(e.override) then [e.override.value] else GenerateVariant(g, e, depth, draw, fuel)
    else []
  }

  /** The variants' `generate`.  Sub-elements are generated one level deeper;
      a Substitution's target at the same depth. */
  function GenerateVariant(g: Grammar, e: Element, depth: nat, draw: Sampler, fuel: nat): seq<string>
    requires Closed(g) && RefsIn(e, g.rules.Keys) && ValidSampler(draw)
    decreases fuel, Size(e), 0
  {
    match e
    case Terminal(lit, _, _) => [lit]
    case Substitution(name, _, _) =>
      if fuel == 0 then [] else GenerateAt(g, g.rules[name], depth, draw, fuel - 1)
    case Sequence(es, _, _) => GenerateProduct(g.maxProducts, GenerateEach(g, es, depth + 1, draw, fuel), draw)
    case Choice(es, _, _) => Flatten(GenerateEach(g, es, depth + 1, draw, fuel))
    case Option(inner, _, _) => [""] + GenerateAt(g, inner, depth + 1, draw, fuel)
    case Repetition(inner, _, _) => [""] + Repeated(g, GenerateAt(g, inner, depth + 1, draw, fuel), draw, 1)
  }

  /** The strings of each element of a list, element by element. */
  function GenerateEach(g: Grammar, es: seq<Element>, depth: nat, draw: Sampler, fuel: nat): seq<seq<string>>
    requires Closed(g) && RefsInAll(es, g.rules.Keys) && ValidSampler(draw)
    decreases fuel, SizeList(es), 2
  {
    if es == [] then [] else [GenerateAt(g, es[0], depth, draw, fuel)] + GenerateEach(g, es[1..], depth, draw, fuel)
  }

  /** Repetition's products for the counts `n`, `n + 1`, … below
      `max_repetitions`, in order of the count. */
  function Repeated(g: Grammar, one: seq<string>, draw: Sampler, n: nat): seq<string>
    requires ValidSampler(draw)
    decreases if n < g.maxRepetitions then g.maxRepetitions - n else 0
  {
    if n < g.maxRepetitions then GenerateProduct(g.maxProducts, Repeat(one, n), draw) + Repeated(g, one, draw, n + 1)
    else []
  }

  /** `Repetition.generate`: the empty string, then a loop over the counts
      1 .. `max_repetitions` - 1 appending each count's product. */
  method GenerateRepetition(g: Grammar, e: Element, depth: nat, draw: Sampler, fuel: nat) returns (r: seq<string>)
    requires Closed(g) && RefsIn(e, g.rules.Keys) && ValidSampler(draw) && e.Repetition?
    ensures r == GenerateVariant(g, e, depth, draw, fuel)
  {
    var one := GenerateAt(g, e.element, depth + 1, draw, fuel);
    ghost var all := [""] + Repeated(g, one, draw, 1);
    r := [""];
    var n := 1;
    while n < g.maxRepetitions
      invariant r + Repeated(g, one, draw, n) == all
      decreases g.maxRepetitions - n
    {
      var prod := GenerateProduct(g.maxProducts, Repeat(one, n), draw);
      assert Repeated(g, one, draw, n) == prod + Repeated(g, one, draw, n + 1);
      r := r + prod;
      n := n + 1;
    }
  }

  // ---------------------------------------------------------------------------
  // How many strings: a count that does not depend on the draws
  // ---------------------------------------------------------------------------

  function Total(xs: seq<nat>): nat
  {
    if xs == [] then 0 else xs[0] + Total(xs[1..])
  }

  function Mul(xs: seq<nat>): nat
  {
    if xs == [] then 1 else xs[0] * Mul(xs[1..])
  }

  function Power(b: nat, k: nat): nat
  {
    if k == 0 then 1 else b * Power(b, k - 1)
  }

  /** The number of strings `_generate` yields, computed from the grammar
      alone: one per terminal or override, the sum over a choice's
      alternatives, the product over a sequence's elements capped at
      `max_products`, and for a repetition one plus, for each count `k`,
      the `k`-th power of the element's count capped at `max_products`. */
  function CountAt(g: Grammar, e: Element, depth: nat, fuel: nat): nat
    requires Closed(g) && RefsIn(e, g.rules.Keys)
    decreases fuel, Size(e), 1
  {
    if depth < g.maxRecursions then
      if Truthy(e.override) then 1 else CountVariant(g, e, depth, fuel)
    else 0
  }

  function CountVariant(g: Grammar, e: Element, depth: nat, fuel: nat): nat
    requires Closed(g) && RefsIn(e, g.rules.Keys)
    decreases fuel, Size(e), 0
  {
    match e
    case Terminal(_, _, _) => 1
    case Substitution(name, _, _) => if fuel == 0 then 0 else CountAt(g, g.rules[name], depth, fuel - 1)
    case Sequence(es, _, _) => Min(g.maxProducts, Mul(CountEach(g, es, depth + 1, fuel)))
    case Choice(es, _, _) => Total(CountEach(g, es, depth + 1, fuel))
    case Option(inner, _, _) => 1 + CountAt(g, inner, depth + 1, fuel)
    case Repetition(inner, _, _) => 1 + RepeatedCount(g, CountAt(g, inner, depth + 1, fuel), 1)
  }

  function CountEach(g: Grammar, es: seq<Element>, depth: nat, fuel: nat): seq<nat>
    requires Closed(g) && RefsInAll(es, g.rules.Keys)
    decreases fuel, SizeList(es), 2
  {
    if es == [] then [] else [CountAt(g, es[0], depth, fuel)] + CountEach(g, es[1..], depth, fuel)
  }

  function RepeatedCount(g: Grammar, c: nat, n: nat): nat
    decreases if n < g.maxRepetitions then g.maxRepetitions - n else 0
  {
    if n < g.maxRepetitions then Min(g.maxProducts, Power(c, n)) + RepeatedCount(g, c, n + 1) else 0
  }

  /** Lengths of lists whose lengths are given. */
  predicate Lengths(xss: seq<seq<string>>, counts: seq<nat>)
  {
    |xss| == |counts| && forall i | 0 <= i < |xss| :: |xss[i]| == counts[i]
  }

  lemma {:induction false} FlattenLength(xss: seq<seq<string>>, counts: seq<nat>)
    requires Lengths(xss, counts)
    ensures |Flatten(xss)| == Total(counts)
  {
    if xss != [] {
      FlattenLength(xss[1..], counts[1..]);
    }
  }

  lemma {:induction false} LengthProductOf(xss: seq<seq<string>>, counts: seq<nat>)
    requires Lengths(xss, counts)
    ensures LengthProduct(xss) == Mul(counts)
  {
    if xss != [] {
      LengthProductOf(xss[1..], counts[1..]);
    }
  }

  lemma {:induction false} RepeatLength(one: seq<string>, k: nat)
    ensures LengthProduct(Repeat(one, k)) == Power(|one|, k)
  {
    if k > 0 {
      RepeatLength(one, k - 1);
      assert Repeat(one, k)[1..] == Repeat(one, k - 1);
    }
  }

  lemma {:induction false} RepeatedLength(g: Grammar, one: seq<string>, draw: Sampler, n: nat)
    requires ValidSampler(draw)
    ensures |Repeated(g, one, draw, n)| == RepeatedCount(g, |one|, n)
    decreases if n < g.maxRepetitions then g.maxRepetitions - n else 0
  {
    if n < g.maxRepetitions {
      RepeatedLength(g, one, draw, n + 1);
      GenerateProductSpec(g.maxProducts, Repeat(one, n), draw);
      RepeatLength(one, n);
    }
  }

  /** However the indices are drawn, generation yields exactly `CountAt`
      strings. */
  lemma {:induction false} GenerationCount(g: Grammar, e: Element, depth: nat, draw: Sampler, fuel: nat)
    requires Closed(g) && RefsIn(e, g.rules.Keys) && ValidSampler(draw)
    ensures |GenerateAt(g, e, depth, draw, fuel)| == CountAt(g, e, depth, fuel)
    decreases fuel, Size(e), 1
  {
    if depth < g.maxRecursions && !Truthy(e.override) {
      VariantCount(g, e, depth, draw, fuel);
    }
  }

  lemma {:induction false} VariantCount(g: Grammar, e: Element, depth: nat, draw: Sampler, fuel: nat)
    requires Closed(g) && RefsIn(e, g.rules.Keys) && ValidSampler(draw)
    ensures |GenerateVariant(g, e, depth, draw, fuel)| == CountVariant(g, e, depth, fuel)
    decreases fuel, Size(e), 0
  {
    match e
    case Terminal(_, _, _) =>
    case Substitution(name, _, _) =>
      if fuel > 0 {
        GenerationCount(g, g.rules[name], depth, draw, fuel - 1);
      }
    case Sequence(es, _, _) =>
      var parts := GenerateEach(g, es, depth + 1, draw, fuel);
      EachCount(g, es, depth + 1, draw, fuel);
      LengthProductOf(parts, CountEach(g, es, depth + 1, fuel));
      GenerateProductSpec(g.maxProducts, parts, draw);
    case Choice(es, _, _) =>
      EachCount(g, es, depth + 1, draw, fuel);
      FlattenLength(GenerateEach(g, es, depth + 1, draw, fuel), CountEach(g, es, depth + 1, fuel));
    case Option(inner, _, _) =>
      GenerationCount(g, inner, depth + 1, draw, fuel);
    case Repetition(inner, _, _) =>
      GenerationCount(g, inner, depth + 1, draw, fuel);
      RepeatedLength(g, GenerateAt(g, inner, depth + 1, draw, fuel), draw, 1);
  }

  lemma {:induction false} EachCount(g: Grammar, es: seq<Element>, depth: nat, draw: Sampler, fuel: nat)
    requires Closed(g) && RefsInAll(es, g.rules.Keys) && ValidSampler(draw)
    ensures Lengths(GenerateEach(g, es, depth, draw, fuel), CountEach(g, es, depth, fuel))
    decreases fuel, SizeList(es), 2
  {
    if es != [] {
      GenerationCount(g, es[0], depth, draw, fuel);
      EachCount(g, es[1..], depth, draw, fuel);
    }
  }

  /** Two different draws give the same number of strings: the count the
      source takes from one round of generation matches the strings another
      round produces. */
  lemma CountIndependentOfDraws(g: Grammar, e: Element, depth: nat, d1: Sampler, d2: Sampler, fuel: nat)
    requires Closed(g) && RefsIn(e, g.rules.Keys) && ValidSampler(d1) && ValidSampler(d2)
    ensures |GenerateAt(g, e, depth, d1, fuel)| == |GenerateAt(g, e, depth, d2, fuel)|
  {
    GenerationCount(g, e, depth, d1, fuel);
    GenerationCount(g, e, depth, d2, fuel);
  }

  // ---------------------------------------------------------------------------
  // What each variant generates
  // ---------------------------------------------------------------------------

  lemma {:induction false} EachAt(g: Grammar, es: seq<Element>, depth: nat, draw: Sampler, fuel: nat)
    requires Closed(g) && RefsInAll(es, g.rules.Keys) && ValidSampler(draw)
    ensures |GenerateEach(g, es, depth, draw, fuel)| == |es|
    ensures forall i | 0 <= i < |es| :: GenerateEach(g, es, depth, draw, fuel)[i] == GenerateAt(g, es[i], depth, draw, fuel)
    decreases |es|
  {
    if es != [] {
      EachAt(g, es[1..], depth, draw, fuel);
    }
  }

  /** The guard of `_generate`: the depth limit is checked before the
      override. */
  lemma GenerateGuards(g: Grammar, e: Element, depth: nat, draw: Sampler, fuel: nat)
    requires Closed(g) && RefsIn(e, g.rules.Keys) && ValidSampler(draw)
    ensures depth >= g.maxRecursions ==> GenerateAt(g, e, depth, draw, fuel) == []
    ensures depth < g.maxRecursions && Truthy(e.override) ==> GenerateAt(g, e, depth, draw, fuel) == [e.override.value]
    ensures depth < g.maxRecursions && !Truthy(e.override) ==>
            GenerateAt(g, e, depth, draw, fuel) == GenerateVariant(g, e, depth, draw, fuel)
  {
  }

  /** A choice yields each alternative's strings, one level deeper, in
      alternative order: a string is generated iff some alternative generates it. */
  lemma ChoiceStrings(g: Grammar, es: seq<Element>, ov: Option<string>, tag: Option<string>, depth: nat, draw: Sampler, fuel: nat, x: string)
    requires Closed(g) && RefsInAll(es, g.rules.Keys) && ValidSampler(draw)
    ensures x in GenerateVariant(g, Choice(es, ov, tag), depth, draw, fuel) <==>
            exists i :: 0 <= i < |es| && x in GenerateAt(g, es[i], depth + 1, draw, fuel)
  {
    var parts := GenerateEach(g, es, depth + 1, draw, fuel);
    EachAt(g, es, depth + 1, draw, fuel);
    FlattenMember(parts, x);
    if exists i :: 0 <= i < |es| && x in GenerateAt(g, es[i], depth + 1, draw, fuel) {
      var i :| 0 <= i < |es| && x in GenerateAt(g, es[i], depth + 1, draw, fuel);
      assert x in parts[i];
    }
  }

  /** A sequence yields at most `max_products` strings, each the
      concatenation of one string generated by every element (one level
      deeper), in element order. */
  lemma SequenceStrings(g: Grammar, es: seq<Element>, ov: Option<string>, tag: Option<string>, depth: nat, draw: Sampler, fuel: nat)
    requires Closed(g) && RefsInAll(es, g.rules.Keys) && ValidSampler(draw)
    ensures |GenerateVariant(g, Sequence(es, ov, tag), depth, draw, fuel)| <= g.maxProducts
    ensures forall x | x in GenerateVariant(g, Sequence(es, ov, tag), depth, draw, fuel) ::
              exists parts :: |parts| == |es| && x == Join(parts) &&
                forall i | 0 <= i < |es| :: parts[i] in GenerateAt(g, es[i], depth + 1, draw, fuel)
  {
    var comps := GenerateEach(g, es, depth + 1, draw, fuel);
    EachAt(g, es, depth + 1, draw, fuel);
    GenerateProductSpec(g.maxProducts, comps, draw);
    forall x | x in GenerateVariant(g, Sequence(es, ov, tag), depth, draw, fuel)
      ensures exists parts :: |parts| == |es| && x == Join(parts) &&
                forall i | 0 <= i < |es| :: parts[i] in GenerateAt(g, es[i], depth + 1, draw, fuel)
    {
      var combo :| IsCombination(comps, combo) && x == Join(combo);
      assert forall i | 0 <= i < |es| :: combo[i] in comps[i];
    }
  }

  /** `x` joins `k` strings, each one of `one`. */
  ghost predicate JoinOf(x: string, one: seq<string>, k: nat)
  {
    exists parts :: |parts| == k && x == Join(parts) && forall j | 0 <= j < k :: parts[j] in one
  }

  /** The count each string of `Repeated` was produced for, string by string. */
  ghost function RepeatedCounts(g: Grammar, one: seq<string>, draw: Sampler, n: nat): seq<nat>
    requires ValidSampler(draw)
    decreases if n < g.maxRepetitions then g.maxRepetitions - n else 0
  {
    if n < g.maxRepetitions then
      Repeat(n, |GenerateProduct(g.maxProducts, Repeat(one, n), draw)|) + RepeatedCounts(g, one, draw, n + 1)
    else []
  }

  /** Every string of `Repeated` from count `n` on joins `k` strings of
      `one`, for a count `n <= k < max_repetitions`, and the counts never
      go down along the list. */
  lemma {:induction false} RepeatedJoins(g: Grammar, one: seq<string>, draw: Sampler, n: nat)
    requires ValidSampler(draw)
    ensures var r := Repeated(g, one, draw, n);
            var ks := RepeatedCounts(g, one, draw, n);
            |ks| == |r| &&
            (forall i | 0 <= i < |r| :: n <= ks[i] < g.maxRepetitions && JoinOf(r[i], one, ks[i])) &&
            (forall i, j | 0 <= i <= j < |r| :: ks[i] <= ks[j])
    decreases if n < g.maxRepetitions then g.maxRepetitions - n else 0
  {
    if n < g.maxRepetitions {
      var prod := GenerateProduct(g.maxProducts, Repeat(one, n), draw);
      var rest := Repeated(g, one, draw, n + 1);
      var krest := RepeatedCounts(g, one, draw, n + 1);
      var r := Repeated(g, one, draw, n);
      var ks := RepeatedCounts(g, one, draw, n);
      assert r == prod + rest;
      assert ks == Repeat(n, |prod|) + krest;
      RepeatedJoins(g, one, draw, n + 1);
      GenerateProductSpec(g.maxProducts, Repeat(one, n), draw);
      forall i | 0 <= i < |r|
        ensures n <= ks[i] < g.maxRepetitions && JoinOf(r[i], one, ks[i])
      {
        if i < |prod| {
          assert r[i] == prod[i] && ks[i] == n;
          assert prod[i] in prod;
          var combo :| IsCombination(Repeat(one, n), combo) && prod[i] == Join(combo);
          assert forall j | 0 <= j < n :: combo[j] in Repeat(one, n)[j];
          assert |combo| == n && r[i] == Join(combo);
        } else {
          assert r[i] == rest[i - |prod|] && ks[i] == krest[i - |prod|];
        }
      }
      forall i, j | 0 <= i <= j < |r|
        ensures ks[i] <= ks[j]
      {
        if j >= |prod| {
          assert ks[j] == krest[j - |prod|];
          if i >= |prod| {
            assert ks[i] == krest[i - |prod|];
          }
        }
      }
    }
  }

  /** A repetition yields the empty string first; every later string joins
      `k` strings the inner element generates one level deeper, for a count
      `1 <= k < max_repetitions` (`ks[i]` for the string at `i + 1`), the
      smaller counts first. */
  lemma RepetitionStrings(g: Grammar, inner: Element, ov: Option<string>, tag: Option<string>, depth: nat, draw: Sampler, fuel: nat)
    requires Closed(g) && RefsIn(inner, g.rules.Keys) && ValidSampler(draw)
    ensures var one := GenerateAt(g, inner, depth + 1, draw, fuel);
            var r := GenerateVariant(g, Repetition(inner, ov, tag), depth, draw, fuel);
            var ks := RepeatedCounts(g, one, draw, 1);
            r[0] == "" && |r| == 1 + |ks| &&
            (forall i | 0 <= i < |ks| :: 1 <= ks[i] < g.maxRepetitions && JoinOf(r[i + 1], one, ks[i])) &&
            (forall i, j | 0 <= i <= j < |ks| :: ks[i] <= ks[j])
  {
    var one := GenerateAt(g, inner, depth + 1, draw, fuel);
    var rest := Repeated(g, one, draw, 1);
    var ks := RepeatedCounts(g, one, draw, 1);
    RepeatedJoins(g, one, draw, 1);
    var r := GenerateVariant(g, Repetition(inner, ov, tag), depth, draw, fuel);
    assert r == [""] + rest;
    ShiftedJoins(r, rest, ks, one, g.maxRepetitions);
  }

  lemma ShiftedJoins(r: seq<string>, rest: seq<string>, ks: seq<nat>, one: seq<string>, maxRepetitions: int)
    requires r == [""] + rest && |ks| == |rest|
    requires forall i | 0 <= i < |rest| :: 1 <= ks[i] < maxRepetitions && JoinOf(rest[i], one, ks[i])
    ensures r[0] == "" && |r| == 1 + |ks|
    ensures forall i | 0 <= i < |ks| :: 1 <= ks[i] < maxRepetitions && JoinOf(r[i + 1], one, ks[i])
  {
    forall i | 0 <= i < |ks|
      ensures 1 <= ks[i] < maxRepetitions && JoinOf(r[i + 1], one, ks[i])
    {
      assert r[i + 1] == rest[i];
    }
  }

  /** An option yields the empty string first, then the inner element's
      strings one level deeper; a repetition yields the empty string first,
      then for each count `k` from 1 below `max_repetitions` at most
      `max_products` joins of `k` inner strings. */
  lemma OptionAndRepetitionStrings(g: Grammar, inner: Element, ov: Option<string>, tag: Option<string>, depth: nat, draw: Sampler, fuel: nat)
    requires Closed(g) && RefsIn(inner, g.rules.Keys) && ValidSampler(draw)
    ensures GenerateVariant(g, Option(inner, ov, tag), depth, draw, fuel) == [""] + GenerateAt(g, inner, depth + 1, draw, fuel)
    ensures var r := GenerateVariant(g, Repetition(inner, ov, tag), depth, draw, fuel);
            r[0] == "" &&
            |r| == 1 + RepeatedCount(g, |GenerateAt(g, inner, depth + 1, draw, fuel)|, 1) &&
            (g.maxRepetitions <= 1 ==> r == [""])
  {
    RepeatedLength(g, GenerateAt(g, inner, depth + 1, draw, fuel), draw, 1);
  }
}

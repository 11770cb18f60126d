/**
  * Counting, sampling and bounded products (nangram/util.py).
  *
  * `parse_sequence` calls back into element parsing, so it lives with the
  * element algebra in module Elements.  The random draw of `random.sample`
  * is an input here: a set of indices of the right size.
  */
module Util {
  import opened Prelude

  /** `get_length`: count the items of a finite sequence. */
  method GetLength<T>(items: seq<T>) returns (n: nat)
    ensures n == |items|
  {
    n := 0;
    for i := 0 to |items|
      invariant n == i
    {
      n := n + 1;
    }
  }

  /** A draw of `random.sample(range(len), min(n, len))`: distinct indices below
      `len`, as many as the smaller of `n` and `len`. */
  predicate IsDraw(chosen: set<nat>, n: nat, len: nat)
  {
    |chosen| == Min(n, len) && forall i | i in chosen :: i < len
  }

  /** The source of the random draws used by generation: given the cap and the
      number of candidates, which candidate indices to keep. */
  type Sampler = (nat, nat) -> set<nat>

  ghost predicate ValidSampler(draw: Sampler)
  {
    forall n: nat, len: nat :: IsDraw(draw(n, len), n, len)
  }

  /** The chosen indices below `k`, in ascending order. */
  function Positions(chosen: set<nat>, k: nat): seq<nat>
  {
    if k == 0 then [] else Positions(chosen, k - 1) + (if k - 1 in chosen then [k - 1] else [])
  }

  /** `Positions` lists each chosen index below `k` once, ascending, and nothing else. */
  lemma {:induction false} PositionsSpec(chosen: set<nat>, k: nat)
    ensures forall j | 0 <= j < |Positions(chosen, k)| :: Positions(chosen, k)[j] < k && Positions(chosen, k)[j] in chosen
    ensures forall i | i < k && i in chosen :: i in Positions(chosen, k)
    ensures forall a, b | 0 <= a < b < |Positions(chosen, k)| :: Positions(chosen, k)[a] < Positions(chosen, k)[b]
  {
    if k > 0 {
      PositionsSpec(chosen, k - 1);
    }
  }

  /** What `random_sample` yields once the indices are drawn: the items at the
      chosen indices, in their original order. */
  function Sample<T>(items: seq<T>, chosen: set<nat>): seq<T>
    decreases |items|
  {
    if items == [] then []
    else
      var k := |items| - 1;
      Sample(items[..k], chosen) + (if k in chosen then [items[k]] else [])
  }

  /** The sample is exactly the items at the chosen positions, in ascending
      position order. */
  lemma {:induction false} SampleAtPositions<T>(items: seq<T>, chosen: set<nat>)
    ensures |Sample(items, chosen)| == |Positions(chosen, |items|)|
    ensures forall j | 0 <= j < |Sample(items, chosen)| ::
              Positions(chosen, |items|)[j] < |items| &&
              Sample(items, chosen)[j] == items[Positions(chosen, |items|)[j]]
    decreases |items|
  {
    PositionsSpec(chosen, |items|);
    if items != [] {
      var k := |items| - 1;
      SampleAtPositions(items[..k], chosen);
    }
  }

  /** The chosen indices below `k`, as a set. */
  function Below(chosen: set<nat>, k: nat): set<nat>
  {
    set i | i in chosen && i < k
  }

  lemma {:induction false} PositionsCount(chosen: set<nat>, k: nat)
    ensures |Positions(chosen, k)| == |Below(chosen, k)|
  {
    if k == 0 {
      assert Below(chosen, k) == {};
    } else {
      PositionsCount(chosen, k - 1);
      var below := Below(chosen, k - 1);
      assert k - 1 !in below;
      if k - 1 in chosen {
        assert Below(chosen, k) == below + {k - 1};
        assert |Positions(chosen, k)| == |Positions(chosen, k - 1)| + 1;
      } else {
        assert Below(chosen, k) == below;
        assert Positions(chosen, k) == Positions(chosen, k - 1);
      }
    }
  }

  /** A sample of a valid draw has exactly `min(n, |items|)` items. */
  lemma SampleSize<T>(items: seq<T>, chosen: set<nat>, n: nat)
    requires IsDraw(chosen, n, |items|)
    ensures |Sample(items, chosen)| == Min(n, |items|)
  {
    SampleAtPositions(items, chosen);
    PositionsCount(chosen, |items|);
    assert Below(chosen, |items|) == chosen;
  }

  /** `random_sample`: walk the items with their indices and keep those drawn. */
  method RandomSample<T>(items: seq<T>, n: nat, chosen: set<nat>) returns (r: seq<T>)
    requires IsDraw(chosen, n, |items|)
    ensures r == Sample(items, chosen)
    ensures |r| == Min(n, |items|)
  {
    r := [];
    for i := 0 to |items|
      invariant r == Sample(items[..i], chosen)
    {
      assert items[..i + 1][..i] == items[..i];
      if i in chosen {
        r := r + [items[i]];
      }
    }
    assert items[..|items|] == items;
    SampleSize(items, chosen, n);
  }

  /** `make_padding`: three spaces per indentation level. */
  function MakePadding(indent: nat): (r: string)
    ensures |r| == 3 * indent
    ensures forall i | 0 <= i < |r| :: r[i] == ' '
  {
    if indent == 0 then "" else "   " + MakePadding(indent - 1)
  }

  // ---------------------------------------------------------------------------
  // Cartesian products (`itertools.product`) and `generate_product`
  // ---------------------------------------------------------------------------

  /** Each head prefixed to each tail, heads varying slowest. */
  function Prefixed(heads: seq<string>, tails: seq<seq<string>>): (r: seq<seq<string>>)
    ensures |r| == |heads| * |tails|
  {
    if heads == [] then []
    else seq(|tails|, j requires 0 <= j < |tails| => [heads[0]] + tails[j]) + Prefixed(heads[1..], tails)
  }

  /** `itertools.product(*components)`, in its lexicographic order. */
  function Product(components: seq<seq<string>>): seq<seq<string>>
  {
    if components == [] then [[]] else Prefixed(components[0], Product(components[1..]))
  }

  /** `reduce(operator.mul, lengths, 1)` */
  function LengthProduct(components: seq<seq<string>>): nat
  {
    if components == [] then 1 else |components[0]| * LengthProduct(components[1..])
  }

  /** One item taken from each component, in component order. */
  ghost predicate IsCombination(components: seq<seq<string>>, combo: seq<string>)
  {
    |combo| == |components| && forall i | 0 <= i < |combo| :: combo[i] in components[i]
  }

  lemma {:induction false} PrefixedMember(heads: seq<string>, tails: seq<seq<string>>, combo: seq<string>)
    ensures combo in Prefixed(heads, tails) <==> |combo| > 0 && combo[0] in heads && combo[1..] in tails
  {
    if heads != [] {
      PrefixedMember(heads[1..], tails, combo);
      var front := seq(|tails|, j requires 0 <= j < |tails| => [heads[0]] + tails[j]);
      if combo in front {
        var j :| 0 <= j < |tails| && front[j] == combo;
        assert combo[1..] == tails[j];
      }
      if |combo| > 0 && combo[0] == heads[0] && combo[1..] in tails {
        var j :| 0 <= j < |tails| && tails[j] == combo[1..];
        assert front[j] == combo;
      }
    }
  }

  /** The product holds every combination and nothing else. */
  lemma {:induction false} ProductCombinations(components: seq<seq<string>>, combo: seq<string>)
    ensures combo in Product(components) <==> IsCombination(components, combo)
    decreases |components|
  {
    if components == [] {
      if IsCombination(components, combo) {
        assert combo == [];
      }
    } else {
      PrefixedMember(components[0], Product(components[1..]), combo);
      if |combo| > 0 {
        ProductCombinations(components[1..], combo[1..]);
        if IsCombination(components, combo) {
          assert forall i | 0 <= i < |combo[1..]| :: combo[1..][i] == combo[i + 1];
        }
        if combo[0] in components[0] && IsCombination(components[1..], combo[1..]) {
          forall i | 0 <= i < |combo|
            ensures combo[i] in components[i]
          {
            if i > 0 {
              assert combo[i] == combo[1..][i - 1];
            }
          }
        }
      }
    }
  }

  lemma {:induction false} ProductLength(components: seq<seq<string>>)
    ensures |Product(components)| == LengthProduct(components)
    decreases |components|
  {
    if components != [] {
      ProductLength(components[1..]);
    }
  }

  /** `''.join(parts)` */
  function Join(parts: seq<string>): string
  {
    if parts == [] then "" else parts[0] + Join(parts[1..])
  }

  /** `generate_product`: draw at most `maxProducts` indices into the product of
      the components and join each combination drawn. */
  function GenerateProduct(maxProducts: nat, components: seq<seq<string>>, draw: Sampler): (r: seq<string>)
    requires ValidSampler(draw)
  {
    var combos := Sample(Product(components), draw(maxProducts, LengthProduct(components)));
    seq(|combos|, i requires 0 <= i < |combos| => Join(combos[i]))
  }

  /** At most `maxProducts` strings, and at most as many as there are
      combinations; each is one item of every component, joined in order. */
  lemma GenerateProductSpec(maxProducts: nat, components: seq<seq<string>>, draw: Sampler)
    requires ValidSampler(draw)
    ensures |GenerateProduct(maxProducts, components, draw)| == Min(maxProducts, LengthProduct(components))
    ensures forall x | x in GenerateProduct(maxProducts, components, draw) ::
              exists combo :: IsCombination(components, combo) && x == Join(combo)
  {
    var items := Product(components);
    var chosen := draw(maxProducts, LengthProduct(components));
    ProductLength(components);
    SampleSize(items, chosen, maxProducts);
    SampleAtPositions(items, chosen);
    var combos := Sample(items, chosen);
    forall x | x in GenerateProduct(maxProducts, components, draw)
      ensures exists combo :: IsCombination(components, combo) && x == Join(combo)
    {
      var i :| 0 <= i < |combos| && x == Join(combos[i]);
      var p := Positions(chosen, |items|)[i];
      ProductCombinations(components, items[p]);
      assert IsCombination(components, combos[i]);
    }
  }
}

/**
  * Parse-tree nodes (nangram/node.py).
  *
  * A node records the rule that produced it, the whole input string, the
  * half-open region [start, stop) it matched, its children and an optional
  * label.  The label is called `tag` here because `label` is a Dafny keyword.
  * The back-reference to the grammar is not kept: nothing in the engine reads it.
  */
module Nodes {
  import opened Prelude

  datatype Node = Node(rule: string, text: string, start: nat, stop: nat, children: seq<Node>, tag: Option<string>)

  /** Python's `s[a:b]` for non-negative bounds: both ends are clamped to |s|, and the
      result is empty when the clamped start is not before the clamped stop. */
  function Slice(s: string, a: nat, b: nat): string
  {
    var lo := Min(a, |s|);
    var hi := Min(b, |s|);
    if lo <= hi then s[lo..hi] else ""
  }

  /** The region lies inside the input string. */
  predicate InBounds(n: Node)
  {
    n.start <= n.stop <= |n.text|
  }

  /** `parsed_string`: the piece of the input the node matched. */
  function ParsedString(n: Node): string
  {
    Slice(n.text, n.start, n.stop)
  }

  /** `is_empty` */
  predicate IsEmpty(n: Node)
  {
    ParsedString(n) == ""
  }

  /** `is_complete`: the node matched the whole input. */
  predicate IsComplete(n: Node)
  {
    n.text == ParsedString(n)
  }

  /** Characters for which Python's `str.isspace` holds: Unicode general category Zs,
      or bidirectional class WS, B or S. */
  predicate IsSpaceChar(c: char)
  {
    var k := c as int;
    (0x09 <= k <= 0x0D) || (0x1C <= k <= 0x20) || k == 0x85 || k == 0xA0 || k == 0x1680 ||
    (0x2000 <= k <= 0x200A) || k == 0x2028 || k == 0x2029 || k == 0x202F || k == 0x205F || k == 0x3000
  }

  /** Python's `str.isspace`: non-empty and made of white space only. */
  predicate IsSpaceString(s: string)
  {
    |s| > 0 && forall i | 0 <= i < |s| :: IsSpaceChar(s[i])
  }

  /** `is_space` */
  predicate IsSpace(n: Node)
  {
    IsSpaceString(ParsedString(n))
  }

  /** A child shown in tree renderings: neither empty nor all white space. */
  predicate Shown(n: Node)
  {
    !IsEmpty(n) && !IsSpace(n)
  }

  function KeepShown(cs: seq<Node>): (r: seq<Node>)
    ensures forall x :: x in r <==> x in cs && Shown(x)
    ensures forall x :: multiset(r)[x] == if Shown(x) then multiset(cs)[x] else 0
    ensures IsSubsequence(r, cs)
  {
    assert cs != [] ==> cs == [cs[0]] + cs[1..];
    if cs == [] then []
    else if Shown(cs[0]) then [cs[0]] + KeepShown(cs[1..])
    else KeepShown(cs[1..])
  }

  /** `filtered_children` */
  function FilteredChildren(n: Node): (r: seq<Node>)
    ensures forall x :: x in r <==> x in n.children && Shown(x)
    ensures forall x :: multiset(r)[x] == if Shown(x) then multiset(n.children)[x] else 0
    ensures IsSubsequence(r, n.children)
  {
    KeepShown(n.children)
  }

  lemma ParsedStringInBounds(n: Node)
    requires InBounds(n)
    ensures ParsedString(n) == n.text[n.start..n.stop]
    ensures |ParsedString(n)| == n.stop - n.start
  {
  }

  lemma IsEmptyIffZeroWidth(n: Node)
    requires InBounds(n)
    ensures IsEmpty(n) <==> n.start == n.stop
  {
    ParsedStringInBounds(n);
  }

  lemma IsCompleteIffWhole(n: Node)
    requires InBounds(n)
    ensures IsComplete(n) <==> n.start == 0 && n.stop == |n.text|
  {
    ParsedStringInBounds(n);
    if n.start == 0 && n.stop == |n.text| {
      assert n.text[0..|n.text|] == n.text;
    }
  }

  /** The shape every parse result has: the region lies in the input, the
      children (if any) cover it contiguously from start to stop, and every
      child shares the input and has this shape too. */
  ghost predicate Tiled(n: Node)
    decreases n
  {
    InBounds(n) &&
    (n.children != [] ==>
       n.children[0].start == n.start && n.children[|n.children| - 1].stop == n.stop &&
       forall i | 0 <= i < |n.children| - 1 :: n.children[i].stop == n.children[i + 1].start) &&
    forall i | 0 <= i < |n.children| :: n.children[i].text == n.text && Tiled(n.children[i])
  }

  // ---------------------------------------------------------------------------
  // Lookup by label (`get`)
  // ---------------------------------------------------------------------------

  /** Whether a child whose label is not the one sought is entered, given the
      exclusion list in force at its level (`child.label not in exclude`). */
  predicate Enterable(c: Node, exclude: seq<string>)
  {
    c.tag.None? || c.tag.value !in exclude
  }

  /** Total number of nodes in a tree and in a list of trees. */
  function NodeSize(n: Node): (k: nat)
    ensures k >= 1
    decreases n
  {
    1 + ForestSize(n.children)
  }

  function ForestSize(cs: seq<Node>): nat
    decreases cs
  {
    if cs == [] then 0 else NodeSize(cs[0]) + ForestSize(cs[1..])
  }

  lemma {:induction false} ChildSmaller(cs: seq<Node>, i: nat)
    requires i < |cs|
    ensures NodeSize(cs[i]) <= ForestSize(cs)
    decreases i
  {
    if i > 0 {
      ChildSmaller(cs[1..], i - 1);
    }
  }

  /**
    * The nearest nodes labelled `l` among the trees `cs`, left to right, depth
    * first.  A tree labelled `l` is yielded and not entered; any other tree is
    * entered when `Enterable` under `first`, and the levels below it use the
    * exclusion list `deeper`.
    */
  function Collect(cs: seq<Node>, l: string, first: seq<string>, deeper: seq<string>): (r: seq<Node>)
    ensures forall x | x in r :: x.tag == Some(l)
    decreases cs
  {
    if cs == [] then []
    else
      var c := cs[0];
      (if c.tag == Some(l) then [c]
       else if Enterable(c, first) then Collect(c.children, l, deeper, deeper)
       else []) + Collect(cs[1..], l, first, deeper)
  }

  /** Every tree collected lies within `cs`: it is no larger than the trees
      together. */
  lemma {:induction false} CollectBounded(cs: seq<Node>, l: string, first: seq<string>, deeper: seq<string>)
    ensures forall x | x in Collect(cs, l, first, deeper) :: NodeSize(x) <= ForestSize(cs)
    decreases cs
  {
    if cs != [] {
      CollectBounded(cs[0].children, l, deeper, deeper);
      CollectBounded(cs[1..], l, first, deeper);
    }
  }

  /** `get(label, exclude)` as written: the recursive call drops `exclude`, so
      the exclusion list only applies to the node's own children. */
  function Get(n: Node, l: string, exclude: seq<string>): (r: seq<Node>)
    ensures forall x | x in r :: x.tag == Some(l) && NodeSize(x) < NodeSize(n)
  {
    CollectBounded(n.children, l, exclude, []);
    Collect(n.children, l, exclude, [])
  }

  /** `get(label, exclude)` as its documentation describes it: nodes labelled
      with an excluded label are not entered at any depth. */
  function GetExcluding(n: Node, l: string, exclude: seq<string>): (r: seq<Node>)
    ensures forall x | x in r :: x.tag == Some(l) && NodeSize(x) < NodeSize(n)
  {
    CollectBounded(n.children, l, exclude, exclude);
    Collect(n.children, l, exclude, exclude)
  }

  /**
    * Declarative reading of the lookup: `x` is reached from the trees `cs`
    * when some tree is `x` itself carrying label `l`, or is a tree not
    * labelled `l`, enterable under `first`, from whose children `x` is reached
    * with `deeper` in force.
    */
  ghost predicate Reached(cs: seq<Node>, x: Node, l: string, first: seq<string>, deeper: seq<string>)
    decreases cs
  {
    exists i | 0 <= i < |cs| ::
      (cs[i].tag == Some(l) && x == cs[i]) ||
      (cs[i].tag != Some(l) && Enterable(cs[i], first) && Reached(cs[i].children, x, l, deeper, deeper))
  }

  lemma {:induction false} CollectReached(cs: seq<Node>, x: Node, l: string, first: seq<string>, deeper: seq<string>)
    ensures x in Collect(cs, l, first, deeper) <==> Reached(cs, x, l, first, deeper)
    decreases cs
  {
    if cs != [] {
      var c := cs[0];
      CollectReached(cs[1..], x, l, first, deeper);
      CollectReached(c.children, x, l, deeper, deeper);
      if Reached(cs, x, l, first, deeper) {
        var i :| 0 <= i < |cs| &&
          ((cs[i].tag == Some(l) && x == cs[i]) ||
           (cs[i].tag != Some(l) && Enterable(cs[i], first) && Reached(cs[i].children, x, l, deeper, deeper)));
        if i > 0 {
          assert cs[1..][i - 1] == cs[i];
          assert Reached(cs[1..], x, l, first, deeper);
        }
      }
      if Reached(cs[1..], x, l, first, deeper) {
        var i :| 0 <= i < |cs[1..]| &&
          ((cs[1..][i].tag == Some(l) && x == cs[1..][i]) ||
           (cs[1..][i].tag != Some(l) && Enterable(cs[1..][i], first) && Reached(cs[1..][i].children, x, l, deeper, deeper)));
        assert cs[i + 1] == cs[1..][i];
      }
    }
  }

  /** `get` yields exactly the nearest labelled nodes: a child carrying the label,
      or one reached through unlabelled, non-excluded children — with the
      exclusion list applied at the first level only. */
  lemma GetNearest(n: Node, x: Node, l: string, exclude: seq<string>)
    ensures x in Get(n, l, exclude) <==> Reached(n.children, x, l, exclude, [])
  {
    CollectReached(n.children, x, l, exclude, []);
  }

  /** The documented lookup never enters an excluded node, at any depth. */
  lemma GetExcludingNearest(n: Node, x: Node, l: string, exclude: seq<string>)
    ensures x in GetExcluding(n, l, exclude) <==> Reached(n.children, x, l, exclude, exclude)
  {
    CollectReached(n.children, x, l, exclude, exclude);
  }

  /** One step of the lookup: the first tree, then the rest. */
  lemma CollectCons(c: Node, cs: seq<Node>, l: string, first: seq<string>, deeper: seq<string>)
    ensures Collect([c] + cs, l, first, deeper) ==
            (if c.tag == Some(l) then [c] else if Enterable(c, first) then Collect(c.children, l, deeper, deeper) else []) +
            Collect(cs, l, first, deeper)
  {
    assert ([c] + cs)[0] == c && ([c] + cs)[1..] == cs;
  }

  /** The lookup over two lists of trees is the lookup over the first, then
      over the second. */
  lemma {:induction false} CollectAppend(a: seq<Node>, b: seq<Node>, l: string, first: seq<string>, deeper: seq<string>)
    ensures Collect(a + b, l, first, deeper) == Collect(a, l, first, deeper) + Collect(b, l, first, deeper)
    decreases a
  {
    if a != [] {
      var c, rest := a[0], a[1..];
      var here := if c.tag == Some(l) then [c] else if Enterable(c, first) then Collect(c.children, l, deeper, deeper) else [];
      assert Collect(a + b, l, first, deeper) == here + Collect(rest + b, l, first, deeper) by {
        assert a + b == [c] + (rest + b);
        CollectCons(c, rest + b, l, first, deeper);
      }
      assert Collect(a, l, first, deeper) == here + Collect(rest, l, first, deeper) by {
        assert a == [c] + rest;
        CollectCons(c, rest, l, first, deeper);
      }
      CollectAppend(rest, b, l, first, deeper);
    } else {
      assert a + b == b;
    }
  }

  /** The lookup over a single tree. */
  lemma CollectOne(c: Node, l: string, first: seq<string>, deeper: seq<string>)
    ensures Collect([c], l, first, deeper) ==
            if c.tag == Some(l) then [c] else if Enterable(c, first) then Collect(c.children, l, deeper, deeper) else []
  {
    CollectCons(c, [], l, first, deeper);
    assert [c] + [] == [c];
  }

  /** Trees that all carry the label are found as they are, in order. */
  lemma {:induction false} CollectTagged(cs: seq<Node>, l: string, first: seq<string>, deeper: seq<string>)
    requires forall i | 0 <= i < |cs| :: cs[i].tag == Some(l)
    ensures Collect(cs, l, first, deeper) == cs
  {
    if cs != [] {
      CollectTagged(cs[1..], l, first, deeper);
      CollectCons(cs[0], cs[1..], l, first, deeper);
      assert cs == [cs[0]] + cs[1..];
    }
  }

  /** No node of the tree carries the label `l`. */
  ghost predicate Lacks(n: Node, l: string)
    decreases n
  {
    n.tag != Some(l) && forall i | 0 <= i < |n.children| :: Lacks(n.children[i], l)
  }

  /** Nothing is found in trees that carry the label nowhere. */
  lemma {:induction false} CollectLacks(cs: seq<Node>, l: string, first: seq<string>, deeper: seq<string>)
    requires forall i | 0 <= i < |cs| :: Lacks(cs[i], l)
    ensures Collect(cs, l, first, deeper) == []
    decreases cs
  {
    if cs != [] {
      CollectLacks(cs[0].children, l, deeper, deeper);
      CollectLacks(cs[1..], l, first, deeper);
    }
  }

  /** Results from earlier children come before those from later children. */
  lemma GetOrder(n: Node, a: seq<Node>, b: seq<Node>, l: string, exclude: seq<string>)
    requires n.children == a + b
    ensures Get(n, l, exclude) == Collect(a, l, exclude, []) + Collect(b, l, exclude, [])
  {
    CollectAppend(a, b, l, exclude, []);
  }

  /** The source's lookup descends into an excluded node below the first level:
      an item whose only child is an unlabelled node holding `contents`, which
      in turn holds a `label` node. */
  lemma GetIgnoresDeepExclusion()
    ensures
      var l := Node("identifier", "a", 0, 1, [], Some("label"));
      var c := Node("item", "a", 0, 1, [l], Some("contents"));
      var s := Node("item", "a", 0, 1, [c], None);
      var item := Node("sequence", "a", 0, 1, [s], Some("item"));
      Get(item, "label", ["contents"]) == [l] && GetExcluding(item, "label", ["contents"]) == []
  {
    var l := Node("identifier", "a", 0, 1, [], Some("label"));
    var c := Node("item", "a", 0, 1, [l], Some("contents"));
    var s := Node("item", "a", 0, 1, [c], None);
    var item := Node("sequence", "a", 0, 1, [s], Some("item"));
    assert Collect([l], "label", [], []) == [l];
    assert Collect([c], "label", [], []) == [l];
    assert Collect([c], "label", ["contents"], ["contents"]) == [];
  }
}

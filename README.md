# NanGram core in Dafny

NanGram is a small Python library for context-free grammars. A grammar maps
rule names to elements. An element is a Terminal, a Substitution (a reference
to another rule), a Sequence, a Choice, an Option or a Repetition, and each
carries an optional label and an optional generation override.

- **Parsing** an element at a position enumerates every candidate parse tree
  there, ambiguities included.
- **Generation** enumerates strings the element matches, bounded by a depth
  limit, a repetition limit and a cap on each product. The cap is enforced by
  sampling products at random.
- **Bootstrapping.** A grammar can be built from BNF text: the text is parsed
  with a fixed meta-grammar, then the parse tree is turned into elements.

This project models that core and proves its properties.

| file | module | models |
|---|---|---|
| `prelude.dfy` | `Prelude` | `Option`, `Min`, subsequences, concatenation of lists |
| `nodes.dfy` | `Nodes` | parse-tree nodes: regions, derived predicates, label lookup `get` |
| `util.dfy` | `Util` | `get_length`, `random_sample` over a given draw, products, `generate_product`, `make_padding` |
| `elements.dfy` | `Elements` | the element algebra, every variant's `parse`, `parse_sequence` |
| `generation.dfy` | `Generation` | `_generate` and every variant's `generate` |
| `grammars.dfy` | `Grammars` | the grammar record, `parse`, `parse_complete`, `generate` |
| `bootstrap.dfy` | `Bootstrap` | the BNF meta-grammar, `strip`, and the `parse_bnf` tree walk |
| `generate_parse.dfy` | `GenerateParse` | every generated string parses completely under the same rule |

Modelling choices:

- **Python generators** become finite sequences.
- **Parsing takes `fuel`.** A Substitution spends one unit and so does each
  repetition count.
- **Generation takes `fuel`.** Only a Substitution spends it, since only a
  Substitution keeps the depth unchanged.
- **Random draws are an input.** `random.sample` becomes a `Sampler`: a
  function from the cap and the number of candidates to a set of indices of
  the right size.
- **Generation checks the depth limit before the override**
  (nangram/element.py:20-23). An override at or beyond the depth limit is
  therefore never produced.
- **Python truthiness of labels and overrides.** An empty string counts as no
  label or no override.
- **The `parse_bnf` helpers return an `Outcome`.** It is one of:
  - `Done`: a value;
  - `Stop`: `next` raised StopIteration on an exhausted lookup;
  - `Fail`: any other exception.

  A StopIteration raised inside `list(map(...))` silently ends that list. The
  model keeps this truncation (`Bootstrap.Listed`).

## Model

| member | source | states |
|---|---|---|
| Nodes.ParsedStringInBounds | nangram/node.py:39-43 | for a region inside the input, the parsed string is exactly the input between start and stop, of length stop - start (out of range, Python's clamping slice is modelled) |
| Nodes.IsEmptyIffZeroWidth | nangram/node.py:45-49 | `is_empty` holds iff the region is zero-width |
| Nodes.IsCompleteIffWhole | nangram/node.py:57-61 | `is_complete` holds iff the region starts at 0 and stops at the end of the input |
| Nodes.FilteredChildren | nangram/node.py:63-67 | exactly the children that are neither empty nor all white space (`str.isspace` code points), each as many times as it occurs among the children, in their original order |
| Nodes.Get | nangram/node.py:26-37 | every node `get` yields carries the label sought and lies strictly inside the node |
| Nodes.GetNearest | nangram/node.py:26-37 | `get` yields exactly the nearest labelled nodes: a child with the label, which is not entered, or one reached through children without it that are not excluded; the exclusion applies to the first level only |
| Nodes.GetOrder | nangram/node.py:32-37 | results come in child order, depth first: the results from earlier children precede those from later ones |
| Nodes.GetIgnoresDeepExclusion | nangram/node.py:35-36 | on a concrete item tree, `get('label', exclude=['contents'])` descends into the `contents` node below the first level |
| Nodes.GetExcludingNearest | nangram/node.py:26-30 | the documented lookup yields the nearest labelled nodes and never enters an excluded node, at any depth |
| Util.GetLength | nangram/util.py:8-17 | the counting loop returns the number of items |
| Util.RandomSample | nangram/util.py:19-31 | the enumerate loop keeps the items at the drawn indices, in order, giving min(n, length) items |
| Util.SampleAtPositions | nangram/util.py:26-31 | the sample is exactly the items at the drawn indices, in ascending index order |
| Util.SampleSize | nangram/util.py:27 | a draw of min(n, length) distinct indices below length gives a sample of that size |
| Util.MakePadding | nangram/util.py:33-36 | three spaces per indentation level, nothing else |
| Util.ProductCombinations | nangram/util.py:67 | the product holds every way of taking one item from each component in order, and nothing else |
| Util.ProductLength | nangram/util.py:65-66 | the product has as many entries as the product of the component lengths |
| Util.GenerateProductSpec | nangram/util.py:56-68 | `generate_product` yields min(max_products, product of lengths) strings, each the in-order concatenation of one item of every component |
| Elements.TerminalMatch | nangram/element.py:59-64 | a terminal yields one node over [p, p+len) with its own label iff the literal occurs at p, and nothing otherwise |
| Elements.SubstitutionDelegates | nangram/element.py:87-94 | an unlabelled substitution yields the referenced rule's parses under that rule's name |
| Elements.LabelWrapsOnce | nangram/element.py:87-155 | with a label, Substitution, Sequence and Choice wrap each unlabelled result once: same region, the result as only child, the outer rule name, the label |
| Elements.ChoiceUnion | nangram/element.py:148-155 | an unlabelled choice yields a node iff some alternative does |
| Elements.ChoiceOfTwo | nangram/element.py:151 | with two alternatives, an unlabelled choice yields exactly their results concatenated, in order and without deduplication |
| Elements.ZeroWidthFirst | nangram/element.py:179-187 | Option and Repetition yield first the zero-width node at the position with their own label, then their unlabelled results, each wrapped once when labelled |
| Elements.ParseRepetition | nangram/element.py:212-227 | the loop over the number of copies, with its match counter and break, computes the repetition's parses |
| Elements.WrapCounting | nangram/element.py:219-225 | the inner loop yields every match of n copies, wrapped once when labelled, and counts exactly the matches |
| Elements.RepetitionOrder | nangram/element.py:212-227 | an unlabelled repetition yields the zero-width node first; every later parse has at least one copy, and the number of copies never decreases |
| Elements.CountsOrder | nangram/element.py:216-227 | from count n on, every parse has n copies or more, in non-decreasing count |
| Elements.ParseSequenceAssignments | nangram/util.py:38-54 | a composite is yielded iff its children are an assignment of the elements |
| Elements.ParseSequenceSpec | nangram/util.py:38-54 | each composite has one child per element plus a zero-width placeholder. The children are contiguous from the position, and child i is a parse of element i where child i-1 stopped. The region runs from the position to the placeholder |
| Elements.SequentialExhaustive | nangram/util.py:41-50 | the backtracking search yields exactly the assignments: first element at the position, the rest from where it stopped |
| Elements.AssignmentElements | nangram/util.py:43-50 | along an assignment, element i is matched where child i-1 stopped, and the last child is the placeholder |
| Elements.EmptySequence | nangram/util.py:49-54 | an empty sequence yields one zero-width node whose single child is the placeholder |
| Elements.ParseAtShape | nangram/element.py:59-227 | every parse result starts at the position, belongs to the input and is tiled: its children cover its region contiguously, recursively |
| Generation.GenerateGuards | nangram/element.py:14-28 | nothing at or beyond the depth limit; a truthy override alone; otherwise the variant's own strings |
| Generation.GenerationCount | nangram/element.py:14-210 | generation yields exactly the number of strings computed from the grammar alone, whatever the draws |
| Generation.CountIndependentOfDraws | nangram/util.py:65-67 | two different draws give the same number of strings, so the length taken from one round matches another round |
| Generation.ChoiceStrings | nangram/element.py:138-146 | a choice generates a string iff one of its alternatives does, one level deeper |
| Generation.SequenceStrings | nangram/element.py:109-115 | a sequence yields at most max_products strings, each the concatenation of one string of every element, one level deeper |
| Generation.OptionAndRepetitionStrings | nangram/element.py:169-210 | an option yields "" then the inner strings; a repetition yields "" first, then a count-determined number of products, and only "" when max_repetitions <= 1 |
| Generation.GenerateRepetition | nangram/element.py:201-210 | the loop over counts 1 .. max_repetitions-1 computes the repetition's strings |
| Generation.RepetitionStrings | nangram/element.py:201-210 | a repetition yields "" first; every later string joins k inner strings for a count 1 <= k < max_repetitions, and the counts never go down |
| Generation.RepeatedJoins | nangram/element.py:206-208 | from count n on, every string joins k inner strings for some n <= k < max_repetitions, in non-decreasing count |
| Generation.RepeatedLength | nangram/element.py:208-210 | the counts n .. max_repetitions-1 contribute, in total, the sum over k of min(max_products, m^k) strings, where m is the number of inner strings |
| Grammars.DefaultGrammar | nangram/grammar.py:13-19 | the default limits are 8 products, 4 repetitions and 8 recursions |
| Grammars.ParseTrees | nangram/grammar.py:29-37 | `parse` runs the rule at position 0; every tree belongs to the input, starts at 0 and is tiled |
| Grammars.ParseCompleteSpec | nangram/grammar.py:39-42 | `parse_complete` keeps exactly the parses that end at the end of the input, each as many times as `parse` yields it, in their order |
| Grammars.GenerateSpec | nangram/grammar.py:21-27 | `generate` runs the rule at depth 0: the override alone when it has one, otherwise the grammar-determined number of strings |
| Bootstrap.MetaGrammarClosed | nangram/grammar.py:51-76 | every rule the BNF meta-grammar refers to is one of its rules, and `main` is one |
| Bootstrap.Strip | nangram/grammar.py:117 | the source without leading and trailing white space, neither beginning nor ending with white space |
| Bootstrap.ParseItem | nangram/grammar.py:78-93 | an item becomes a Terminal, Substitution, Option or Repetition without override. Its label is the text of the single `label` node that `get('label', exclude=['contents'])` finds, none when it finds zero or several |
| Bootstrap.Listed | nangram/grammar.py:96 | `list(map(...))` keeps the values of the leading calls and stops at the first StopIteration, never raising it. It fails iff some call fails before any StopIteration |
| Bootstrap.ParseChoice | nangram/grammar.py:95-97 | a choice becomes its single item, or an unlabelled Sequence of two items or more; never StopIteration |
| Bootstrap.ItemRoundTrip | nangram/grammar.py:78-93 | the tree of any item whose brackets hold no labels is read back as that item: kind, text, label and bracketed expression. The tree nests as the meta-grammar's `item` rule does (grammar.py:70): the optional prefix with its `label` identifier, whitespace and `:`, then the `contents` choice, whose string, option or repetition holds its quotes or brackets, whitespace and inner expression |
| Bootstrap.ChoiceRoundTrip | nangram/grammar.py:95-97 | the tree of any such sequence of items is read back as that element: the single item, or the Sequence of all items in order. As in the `sequence` rule (grammar.py:71), the first item is followed by a Repetition whose copies each hold a separator and the next item |
| Bootstrap.ParseExpression | nangram/grammar.py:99-101 | an expression becomes its single choice, or an unlabelled Choice of two choices or more; never StopIteration |
| Bootstrap.ExprRoundTrip | nangram/grammar.py:99-101 | the tree of any such expression is read back as that element: the single choice, or the Choice of all alternatives in order. As in the `expression` rule (grammar.py:72), later choices sit in the Repetition's copies after whitespace, `|` and whitespace |
| Bootstrap.ParseRule | nangram/grammar.py:103-111 | StopIteration exactly when the rule has no `name` or no `expression` node; otherwise the name is the text of the first `name` node, the element is expression-shaped, and its override is set only from a single `override` node |
| Bootstrap.RuleRoundTrip | nangram/grammar.py:103-111 | the tree of a rule is read back as its name and its element, override included. The tree has the eight parts of the `rule` rule (grammar.py:60-64): name, whitespace, the optional quoted override, `=`, whitespace, expression, whitespace and `.` |
| Bootstrap.CollapseLastWins | nangram/grammar.py:113-114 | the dictionary has exactly the listed names, and a repeated name maps to its last element |
| Bootstrap.ParseRules | nangram/grammar.py:113-114 | the comprehension loop builds the dictionary of the listed pairs |
| Bootstrap.RulesRoundTrip | nangram/grammar.py:113-114 | the tree of a script is read back as the dictionary of its rules, a later rule of the same name replacing an earlier one. As in the `main` rule (grammar.py:75), later rules sit in the Repetition's copies after whitespace |
| Bootstrap.ParseBnfSpec | nangram/grammar.py:116-122 | StopIteration exactly when the stripped source has no complete parse. Otherwise the grammar has the default limits and the rules of the first complete parse, which spans the stripped source |
| Bootstrap.IdentifierItem | nangram/grammar.py:78-89 | the tree of the item `ab` becomes an unlabelled Substitution of `ab` |
| Bootstrap.LabelledItem | nangram/grammar.py:78-89 | the tree of the item `l:ab` becomes a Substitution of `ab` labelled `l` |
| Bootstrap.NestedLabelMisread | nangram/grammar.py:80-81 | the item `[a:"b"]` is read as an Option labelled `a`, and the item `x:[a:"b"]` loses its label `x` |
| Bootstrap.IntendedLabelFound | nangram/node.py:26-30 | the lookup that never enters `contents` reads every item's label from its own prefix |
| GenerateParse.GeneratedSpans | nangram/element.py:14-227 | in a grammar and element without generation overrides (`PlainGrammar`, `Plain`), a string the element generates, wherever it occurs in the input, is spanned by that element's parse from its start to its end, for every fuel from some bound on |
| GenerateParse.GeneratedStringsParse | nangram/grammar.py:21-42 | in a grammar without generation overrides (`PlainGrammar`), every string `generate` yields for a rule has a complete parse under that rule, for every fuel from some bound on |

## Left out

- The grammar back-reference stored in every node is not kept: nothing in the core reads it.
- Printing under `verbose` and the `__str__` renderings are left out: they only produce output.
- `load_bnf` is left out: it only reads a file.
- Parsing is bounded by `fuel`. With too little fuel the model yields fewer parses than the source; no relation between the results for different fuels is proved. Left recursion, where the source raises RecursionError, is not modelled.
- Generation is bounded by `fuel`, spent only by Substitutions. Chains of rules that only substitute each other, where the source recurses without limit, are not modelled.
- Elements.ParseAt, Generation.GenerateAt, Grammars.Parse and Grammars.Generate: a Substitution whose rule name is missing raises KeyError in the source. The model requires every referenced name to be a rule (`Closed`) instead of modelling that error.
- Generation.GenerateAt: the source draws a fresh random sample at every call. The model's `Sampler` gives the same draw for the same cap and number of candidates, so repeated calls with equal arguments agree here where the source may differ.
- Util.RandomSample: the optional `length` argument and the second pass of `sequence_func` are not modelled. The items arrive as a finite sequence with a draw of the right size.
- `max_products` is a natural number. A negative cap, which makes `random.sample` raise ValueError, is not modelled.
- Bootstrap.ParseItem: when the contents node's rule is none of string, identifier, option or repetition, the source returns `None`. The model reports `Fail` instead of carrying a `None` element into the grammar.
- Bootstrap.ParseRule: the source assigns the override to the element it has just built. The model makes the same change as a record update; no other reference to that element exists.
- The meta-grammar is not run end to end on concrete BNF text. The tree walk is shown on trees built with the meta-grammar's nesting, simplified as the next line says; that parsing BNF text yields such trees is not proved.
- Bootstrap.ItemRoundTrip, Bootstrap.ChoiceRoundTrip, Bootstrap.ExprRoundTrip, Bootstrap.RuleRoundTrip and Bootstrap.RulesRoundTrip: their trees (`ItemTree` to `ScriptTree`) keep every labelled node and every composite on the path to one, with the Repetition copies and the empty placeholder each Sequence appends. They simplify the rest. A part that holds no label (a terminal, the whitespace between items, an `optional_whitespace` run, a character of an identifier) is one childless node with empty text. Only the nodes whose text the walk reads carry text; every other node spans the empty region at 0. An identifier's two character parts are single leaves rather than the Choice and Repetition nodes over its characters. An empty script gives an unlabelled leaf, whereas the meta-grammar's `main` needs at least one rule.
- Bootstrap.ItemRoundTrip, Bootstrap.ChoiceRoundTrip, Bootstrap.ExprRoundTrip, Bootstrap.RuleRoundTrip and Bootstrap.RulesRoundTrip require labels only outside brackets (`OuterLabels`): with a label inside brackets the source misreads the item (see Findings).
- GenerateParse.GeneratedSpans and GenerateParse.GeneratedStringsParse: only for grammars (and, for GeneratedSpans, elements) without generation overrides (`PlainGrammar`, `Plain`), since an override string need not match its element. It proves that a complete parse exists for every fuel from some bound on, not which bound.
- Grammars.Generate, Grammars.Parse and Grammars.ParseComplete: the default rule name `main` of `generate`, `parse` and `parse_complete` is not modelled. The rule name is always an argument.

## Findings

| source | as written | input that shows it | evidently intended | confidence | as-written member | corrected member |
|---|---|---|---|---|---|---|
| nangram/node.py:36 | the recursive `child.get(label)` drops `exclude`, so excluded labels are skipped only among the node's own children | `get('label', exclude=['contents'])` on an item node. Its only child is an unlabelled node holding a `contents` node, which holds a `label` node; this is the tree of the unlabelled item `[a:"b"]`. The inner label `a` is found, so `parse_item` labels the outer Option `a`, and with an outer label too both are found and the outer label is dropped | nodes with an excluded label are not traversed at any depth (nangram/node.py:27-30), so the inner label is not found | not executed | Nodes.GetIgnoresDeepExclusion | Nodes.GetExcludingNearest |
| nangram/grammar.py:80-81 | `parse_item` finds the item's label with the lookup above, so a label inside an option or repetition is taken for the item's own | the unlabelled item `[a:"b"]` becomes an Option labelled `a`; the item `x:[a:"b"]` finds two labels and becomes an unlabelled Option | an item's label comes from its own prefix only | not executed | Bootstrap.NestedLabelMisread | Bootstrap.IntendedLabelFound |

`Bootstrap.ParseItem` follows the source's lookup (`Nodes.Get`); the label the item's prefix gives is `Bootstrap.IntendedItemLabel`, built on the corrected lookup (`Nodes.GetExcluding`).

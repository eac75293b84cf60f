/**
 * The LaTeX template picker: the built-in templates grouped by category,
 * the search over them, and the expanded/collapsed flag of each category.
 * `lower` stands for `toLowerCase`.
 */
module LatexHelper {
  import opened Wrappers
  import opened Text
  import opened Seqs

  datatype Item = Item(name: string, latex: string, description: Option<string>)

  datatype Category = Category(category: string, items: seq<Item>)

  /** The templates the picker offers. */
  const Templates: seq<Category> := [
    Category("Basic Math", [
      Item("Fraction", "\\frac{a}{b}", Some("Basic fraction")),
      Item("Square Root", "\\sqrt{x}", Some("Square root")),
      Item("Nth Root", "\\sqrt[n]{x}", Some("Nth root")),
      Item("Power", "x^{n}", Some("Power/exponent")),
      Item("Subscript", "x_{i}", Some("Subscript")),
      Item("Sum", "\\sum_{i=1}^{n} x_i", Some("Summation")),
      Item("Product", "\\prod_{i=1}^{n} x_i", Some("Product"))]),
    Category("Calculus", [
      Item("Derivative", "\\frac{\\diff y}{\\diff x}", Some("Basic derivative")),
      Item("Partial Derivative", "\\frac{\\partial f}{\\partial x}", Some("Partial derivative")),
      Item("Integral", "\\int_{a}^{b} f(x) \\diff x", Some("Definite integral")),
      Item("Double Integral", "\\iint_{D} f(x,y) \\diff x\\diff y", Some("Double integral")),
      Item("Triple Integral", "\\iiint_{V} f(x,y,z) \\diff x\\diff y\\diff z", Some("Triple integral")),
      Item("Limit", "\\lim_{x \\to a} f(x)", Some("Limit"))]),
    Category("Linear Algebra", [
      Item("Matrix", "\\begin{pmatrix} a & b \\\\ c & d \\end{pmatrix}", Some("2x2 matrix")),
      Item("Determinant", "\\begin{vmatrix} a & b \\\\ c & d \\end{vmatrix}", Some("Determinant")),
      Item("Vector", "\\vec{v} = \\begin{pmatrix} x \\\\ y \\\\ z \\end{pmatrix}", Some("Column vector")),
      Item("Inner Product", "\\langle \\vec{u}, \\vec{v} \\rangle", Some("Inner product"))]),
    Category("Sets and Logic", [
      Item("Set", "\\{x \\in \\RR : x > 0\\}", Some("Set definition")),
      Item("Union", "A \\cup B", Some("Set union")),
      Item("Intersection", "A \\cap B", Some("Set intersection")),
      Item("Subset", "A \\subseteq B", Some("Subset")),
      Item("For All", "\\forall x \\in X", Some("Universal quantifier")),
      Item("Exists", "\\exists x \\in X", Some("Existential quantifier"))]),
    Category("Greek Letters", [
      Item("Alpha", "\\alpha", Some("\U{03B1}")),
      Item("Beta", "\\beta", Some("\U{03B2}")),
      Item("Gamma", "\\gamma", Some("\U{03B3}")),
      Item("Delta", "\\delta", Some("\U{03B4}")),
      Item("Epsilon", "\\epsilon", Some("\U{03B5}")),
      Item("Theta", "\\theta", Some("\U{03B8}")),
      Item("Pi", "\\pi", Some("\U{03C0}")),
      Item("Sigma", "\\sigma", Some("\U{03C3}")),
      Item("Phi", "\\phi", Some("\U{03C6}")),
      Item("Omega", "\\omega", Some("\U{03C9}"))]),
    Category("Physics", [
      Item("Vector Field", "\\vec{E}(\\vec{r})", Some("Vector field")),
      Item("Gradient", "\\nabla f", Some("Gradient")),
      Item("Divergence", "\\nabla \\cdot \\vec{F}", Some("Divergence")),
      Item("Curl", "\\nabla \\times \\vec{F}", Some("Curl")),
      Item("Laplacian", "\\nabla^2 f", Some("Laplacian")),
      Item("Quantum State", "|\\psi\\rangle", Some("Quantum state (ket)")),
      Item("Expectation", "\\langle \\hat{A} \\rangle", Some("Quantum expectation value"))])
  ]

  // ---------------------------------------------------------------------
  // Search
  // ---------------------------------------------------------------------

  /** The search term, lower-cased, is part of the item's lower-cased
      name, LaTeX or description; a missing description reads as `''`. */
  predicate Matches(item: Item, term: string, lower: string -> string) {
    var t := lower(term);
    || Contains(lower(item.name), t)
    || Contains(lower(item.latex), t)
    || Contains(if item.description.Some? then lower(item.description.value) else [], t)
  }

  /** `templates.map(category => ({ ...category, items: <matching items> }))`. */
  function Narrow(templates: seq<Category>, term: string, lower: string -> string): (r: seq<Category>)
    ensures |r| == |templates|
    ensures forall k :: 0 <= k < |r| ==> r[k].category == templates[k].category
  {
    seq(|templates|, k requires 0 <= k < |templates| =>
      Category(templates[k].category, Filter(templates[k].items, item => Matches(item, term, lower))))
  }

  predicate NonEmpty(category: Category) {
    |category.items| > 0
  }

  /** `filteredTemplates`: the narrowed categories that still hold items. */
  function FilteredTemplates(templates: seq<Category>, term: string, lower: string -> string): (r: seq<Category>)
    ensures forall k :: 0 <= k < |r| ==> |r[k].items| > 0
  {
    Filter(Narrow(templates, term, lower), NonEmpty)
  }

  /** An item is kept in its category exactly when it matches the search,
      as often as the category holds it, and the kept items stay in their
      order. */
  lemma NarrowedItems(templates: seq<Category>, term: string, lower: string -> string, k: nat, item: Item)
    requires k < |templates|
    ensures var kept := Narrow(templates, term, lower)[k].items;
      && (item in kept <==> item in templates[k].items && Matches(item, term, lower))
      && multiset(kept)[item] == (if Matches(item, term, lower) then multiset(templates[k].items)[item] else 0)
      && Subsequence(kept, templates[k].items)
  {
    var p := (i: Item) => Matches(i, term, lower);
    assert Narrow(templates, term, lower)[k].items == Filter(templates[k].items, p);
    FilterMembers(templates[k].items, p, item);
    FilterCounts(templates[k].items, p, item);
    FilterSubsequence(templates[k].items, p);
  }

  /** The shown categories are the narrowed ones that are not empty, in
      the order of the templates: a category is shown exactly when one of
      its items matches, and it is shown as often as it occurs among the
      narrowed ones. */
  lemma ShownCategories(templates: seq<Category>, term: string, lower: string -> string, c: Category)
    ensures c in FilteredTemplates(templates, term, lower) <==> c in Narrow(templates, term, lower) && |c.items| > 0
    ensures multiset(FilteredTemplates(templates, term, lower))[c]
      == if |c.items| > 0 then multiset(Narrow(templates, term, lower))[c] else 0
    ensures Subsequence(FilteredTemplates(templates, term, lower), Narrow(templates, term, lower))
  {
    FilterMembers(Narrow(templates, term, lower), NonEmpty, c);
    FilterCounts(Narrow(templates, term, lower), NonEmpty, c);
    FilterSubsequence(Narrow(templates, term, lower), NonEmpty);
  }

  /** The category at index `k` is shown, with its matching items,
      exactly when at least one of its items matches. */
  lemma CategoryShownIffMatch(templates: seq<Category>, term: string, lower: string -> string, k: nat)
    requires k < |templates|
    ensures Narrow(templates, term, lower)[k] in FilteredTemplates(templates, term, lower)
      <==> exists item :: item in templates[k].items && Matches(item, term, lower)
  {
    var narrowed := Narrow(templates, term, lower);
    var c := narrowed[k];
    ShownCategories(templates, term, lower, c);
    if exists item :: item in templates[k].items && Matches(item, term, lower) {
      var item :| item in templates[k].items && Matches(item, term, lower);
      NarrowedItems(templates, term, lower, k, item);
    }
    if |c.items| > 0 {
      NarrowedItems(templates, term, lower, k, c.items[0]);
    }
  }

  /** With an empty search every item matches, so templates whose
      categories all hold items come back unchanged. */
  lemma EmptySearchKeepsAll(templates: seq<Category>, lower: string -> string)
    requires lower([]) == []
    requires forall k :: 0 <= k < |templates| ==> |templates[k].items| > 0
    ensures FilteredTemplates(templates, [], lower) == templates
  {
    var p := (i: Item) => Matches(i, [], lower);
    forall k | 0 <= k < |templates|
      ensures Narrow(templates, [], lower)[k] == templates[k]
    {
      var items := templates[k].items;
      forall j | 0 <= j < |items|
        ensures p(items[j])
      {
        assert OccursAt(lower(items[j].name), [], 0);
      }
      FilterKeepsAll(items, p);
    }
    var narrowed := Narrow(templates, [], lower);
    assert narrowed == templates;
    FilterKeepsAll(templates, NonEmpty);
  }

  /** Every built-in category holds items, so the empty search shows all
      of them. */
  lemma EmptySearchShowsAllTemplates(lower: string -> string)
    requires lower([]) == []
    ensures FilteredTemplates(Templates, [], lower) == Templates
  {
    EmptySearchKeepsAll(Templates, lower);
  }

  // ---------------------------------------------------------------------
  // Expanded categories
  // ---------------------------------------------------------------------

  /** `prev[category]` read as a flag: a missing entry is `false`. */
  function IsExpanded(expanded: map<string, bool>, category: string): bool {
    category in expanded && expanded[category]
  }

  /** `toggleCategory(category)`: that category's flag is flipped, and no
      other category's flag changes. */
  function ToggleCategory(expanded: map<string, bool>, category: string): (r: map<string, bool>)
    ensures category in r && IsExpanded(r, category) == !IsExpanded(expanded, category)
    ensures forall c :: c != category ==> (c in r <==> c in expanded)
    ensures forall c :: c != category && c in expanded ==> r[c] == expanded[c]
  {
    expanded[category := !IsExpanded(expanded, category)]
  }

  /** Toggling twice restores every flag as read. */
  lemma ToggleTwice(expanded: map<string, bool>, category: string, c: string)
    ensures IsExpanded(ToggleCategory(ToggleCategory(expanded, category), category), c) == IsExpanded(expanded, c)
  {
  }
}

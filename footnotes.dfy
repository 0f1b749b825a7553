/** The footnote map the markdown writer threads through one document (or
    through all documents of a combined rendering): one entry per immutable
    field's CEL formula, keyed by an identifier derived from the formula
    (ts/writer/markdown.ts, addImmutabilityConstraint and
    addFootnoteDefinitions). */
module MarkdownFootnotes {
  import opened JsValues
  import opened JsStrings
  import opened MarkdownAst
  import Converter
  import opened SeqFacts

  /** One `footnoteId -> celFormula` entry. */
  datatype Footnote = Footnote(id: string, formula: string)

  /** The keys of a `Map` are pairwise distinct. */
  predicate DistinctIds(entries: seq<Footnote>) {
    forall i, j | 0 <= i < j < |entries| :: entries[i].id != entries[j].id
  }

  /** The position of `id` among the keys, searching from `i`. */
  function IndexOfFrom(entries: seq<Footnote>, id: string, i: nat): (k: Option<nat>)
    requires i <= |entries|
    ensures k.Some? ==> i <= k.value < |entries| && entries[k.value].id == id
                        && forall j | i <= j < k.value :: entries[j].id != id
    ensures k.None? ==> forall j | i <= j < |entries| :: entries[j].id != id
    decreases |entries| - i
  {
    if i == |entries| then None
    else if entries[i].id == id then Some(i)
    else IndexOfFrom(entries, id, i + 1)
  }

  function IndexOf(entries: seq<Footnote>, id: string): Option<nat> {
    IndexOfFrom(entries, id, 0)
  }

  /** `map.get(id)` */
  function Lookup(entries: seq<Footnote>, id: string): Option<string> {
    match IndexOf(entries, id)
    case Some(k) => Some(entries[k].formula)
    case None => None
  }

  /** `map.set(id, formula)`: an existing key keeps its position and takes
      the new value; a new key is appended, as `Map` iteration follows
      insertion order. */
  function MapSet(entries: seq<Footnote>, id: string, formula: string): seq<Footnote> {
    match IndexOf(entries, id)
    case Some(k) => entries[k := Footnote(id, formula)]
    case None => entries + [Footnote(id, formula)]
  }

  /** `set` keeps the keys distinct, makes `id` map to `formula`, leaves
      every other key's value alone, and adds `id` last iff it was new. */
  lemma MapSetSpec(entries: seq<Footnote>, id: string, formula: string)
    requires DistinctIds(entries)
    ensures var r := MapSet(entries, id, formula);
            && DistinctIds(r)
            && Lookup(r, id) == Some(formula)
            && (forall other | other != id :: Lookup(r, other) == Lookup(entries, other))
            && (Lookup(entries, id).Some? ==> |r| == |entries| && forall i | 0 <= i < |r| :: r[i].id == entries[i].id)
            && (Lookup(entries, id).None? ==> r[..|entries|] == entries && r[|entries|] == Footnote(id, formula))
  {
    var r := MapSet(entries, id, formula);
    forall other | other != id ensures Lookup(r, other) == Lookup(entries, other) {
      match IndexOf(entries, other)
      case Some(k) =>
        assert IndexOf(r, other) == Some(k) by {
          IndexOfUnique(r, other, k);
        }
      case None =>
    }
    match IndexOf(entries, id)
    case Some(k) =>
      IndexOfUnique(r, id, k);
    case None =>
      IndexOfUnique(r, id, |entries|);
  }

  /** In a map whose entry `k` has key `id` and no earlier entry does, the
      search finds `k`. */
  lemma IndexOfUnique(entries: seq<Footnote>, id: string, k: nat)
    requires k < |entries| && entries[k].id == id
    requires forall j | 0 <= j < k :: entries[j].id != id
    ensures IndexOf(entries, id) == Some(k)
  {
  }

  /** Setting a key to the value it already holds changes nothing. */
  lemma MapSetUnchanged(entries: seq<Footnote>, id: string, formula: string)
    requires Lookup(entries, id) == Some(formula)
    ensures MapSet(entries, id, formula) == entries
  {
    var k := IndexOf(entries, id).value;
    assert entries[k] == Footnote(id, formula);
  }

  /** The mutable `Map<string, string>` behind the footnotes. */
  class FootnotePool {
    var entries: seq<Footnote>

    ghost predicate Valid()
      reads this
    {
      DistinctIds(entries)
    }

    /** `new Map<string, string>()` */
    constructor ()
      ensures Valid() && entries == []
    {
      entries := [];
    }

    /** `footnotes.set(id, formula)`: a key search, then an update in place
        or an append. */
    method Set(id: string, formula: string)
      requires Valid()
      modifies this
      ensures Valid()
      ensures entries == MapSet(old(entries), id, formula)
    {
      MapSetSpec(entries, id, formula);
      var k := 0;
      while k < |entries| && entries[k].id != id
        invariant 0 <= k <= |entries|
        invariant forall j | 0 <= j < k :: entries[j].id != id
      {
        k := k + 1;
      }
      if k < |entries| {
        IndexOfUnique(entries, id, k);
        entries := entries[k := Footnote(id, formula)];
      } else {
        entries := entries + [Footnote(id, formula)];
      }
    }
  }

  /** `immutable_by_CEL_` followed by the formula with every space turned
      into an underscore. */
  function FootnoteId(formula: string): string {
    "immutable_by_CEL_" + ReplaceChar(formula, ' ', '_')
  }

  /** On formulas without underscores the identifier determines the
      formula. */
  lemma FootnoteIdInjective(a: string, b: string)
    requires '_' !in a && '_' !in b
    requires FootnoteId(a) == FootnoteId(b)
    ensures a == b
  {
    var prefix := "immutable_by_CEL_";
    var ra := ReplaceChar(a, ' ', '_');
    var rb := ReplaceChar(b, ' ', '_');
    assert ra == FootnoteId(a)[|prefix|..];
    assert rb == FootnoteId(b)[|prefix|..];
    assert |a| == |b|;
    forall i | 0 <= i < |a| ensures a[i] == b[i] {
      assert a[i] != '_' && b[i] != '_';
      assert ra[i] == rb[i];
    }
  }

  /** An immutability rule (`self == oldSelf` or `oldSelf == self`, padded
      with whitespace) holds no underscore. */
  lemma ImmutabilityRuleHasNoUnderscore(rule: string)
    requires Converter.IsImmutabilityRule(rule)
    ensures '_' !in rule
  {
    var core := Trim(rule);
    TrimDecomposition(rule);
    var k :| 0 <= k <= |rule| - |core| && core == rule[k..k + |core|]
             && AllWhitespace(rule[..k]) && AllWhitespace(rule[k + |core|..]);
    WhitespaceHasNoUnderscore(rule[..k]);
    WhitespaceHasNoUnderscore(rule[k + |core|..]);
    ComparisonHasNoUnderscore(core);
    NotInConcatenation(rule[..k], core, rule[k + |core|..], '_');
    SplitInThree(rule, k, k + |core|);
  }

  lemma ComparisonHasNoUnderscore(core: string)
    requires core == Converter.SelfIsOldSelf || core == Converter.OldSelfIsSelf
    ensures '_' !in core
  {
  }

  lemma WhitespaceHasNoUnderscore(s: string)
    requires AllWhitespace(s)
    ensures '_' !in s
  {
    forall i | 0 <= i < |s| ensures s[i] != '_' {
      assert IsWhitespace(s[i]);
    }
  }

  /** Two immutable fields share a footnote exactly when their rules are
      the same text, so the map never swaps one field's formula for
      another's. */
  lemma FootnoteIdsOfImmutabilityRules(a: string, b: string)
    requires Converter.IsImmutabilityRule(a) && Converter.IsImmutabilityRule(b)
    ensures FootnoteId(a) == FootnoteId(b) <==> a == b
  {
    ImmutabilityRuleHasNoUnderscore(a);
    ImmutabilityRuleHasNoUnderscore(b);
    if FootnoteId(a) == FootnoteId(b) {
      FootnoteIdInjective(a, b);
    }
  }

  const ImmutableNote := "This field is immutable. Once set, it cannot be modified as enforced by the CEL validation rule: "

  /** The definition node of one footnote. */
  function DefinitionNode(note: Footnote): Node {
    FootnoteDefinition(note.id, [Paragraph([Text(ImmutableNote), InlineCode(note.formula)])])
  }

  /** One definition per map entry, in insertion order. */
  function FootnoteDefinitions(entries: seq<Footnote>): (defs: seq<Node>)
    ensures |defs| == |entries|
    ensures forall i | 0 <= i < |defs| :: defs[i].FootnoteDefinition? && defs[i].identifier == entries[i].id
    ensures forall i | 0 <= i < |defs| ::
              defs[i].children == [Paragraph([Text(ImmutableNote), InlineCode(entries[i].formula)])]
  {
    seq(|entries|, i requires 0 <= i < |entries| => DefinitionNode(entries[i]))
  }

  /** The formula the map holds for an identifier is the one its definition
      shows, after the fixed note. */
  lemma LookupDefinition(entries: seq<Footnote>, id: string, formula: string)
    requires Lookup(entries, id) == Some(formula)
    ensures var defs := FootnoteDefinitions(entries);
            exists k | 0 <= k < |defs| ::
              defs[k] == FootnoteDefinition(id, [Paragraph([Text(ImmutableNote), InlineCode(formula)])])
  {
    var k := IndexOf(entries, id).value;
    assert FootnoteDefinitions(entries)[k] == DefinitionNode(entries[k]);
  }

  /** addFootnoteDefinitions: the loop over the map. */
  method AddFootnoteDefinitions(pool: FootnotePool) returns (defs: seq<Node>)
    ensures defs == FootnoteDefinitions(pool.entries)
  {
    defs := [];
    var entries := pool.entries;
    for i := 0 to |entries|
      invariant |defs| == i
      invariant forall j | 0 <= j < i :: defs[j] == DefinitionNode(entries[j])
    {
      var footnoteId, celFormula := entries[i].id, entries[i].formula;
      defs := defs + [FootnoteDefinition(footnoteId, [Paragraph([Text(ImmutableNote), InlineCode(celFormula)])])];
    }
  }
}

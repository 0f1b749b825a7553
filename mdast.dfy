/** The slice of the mdast syntax tree the markdown writer builds
    (ts/writer/markdown.ts, the low-level helpers), the external libraries it
    calls, and the `join` rule it hands to the serializer. */
module MarkdownAst {
  import opened JsValues

  /** An mdast node. `Other` stands for any node the markdown parser may
      return that the writer itself never builds. */
  datatype Node =
    | Root(children: seq<Node>)
    | Heading(depth: int, children: seq<Node>)
    | Paragraph(children: seq<Node>)
    | List(ordered: bool, children: seq<Node>)
    | ListItem(children: seq<Node>)
    | Code(lang: Option<string>, value: string)
    | Table(children: seq<Node>)
    | TableRow(children: seq<Node>)
    | TableCell(children: seq<Node>)
    | Text(value: string)
    | Strong(children: seq<Node>)
    | InlineCode(value: string)
    | Link(url: string, children: seq<Node>)
    | FootnoteReference(identifier: string)
    | FootnoteDefinition(identifier: string, children: seq<Node>)
    | Other(nodeType: string, children: seq<Node>)

  /** The libraries the writer calls, taken as parameters: the markdown
      parser (GFM tables enabled), `yaml.dump` with the writer's fixed
      options, `JSON.stringify`, and the serializer with a `join` rule. */
  datatype Libraries = Libraries(
    fromMarkdown: string -> seq<Node>,
    yamlDump: Value -> string,
    jsonStringify: Value -> string,
    toMarkdown: (Node, (Node, Node) -> int) -> string)

  // ---------------------------------------------------------------------
  // Node builders
  // ---------------------------------------------------------------------

  /** `heading(depth, children)`: the depth is clamped to 1..6. */
  function HeadingNode(depth: int, children: seq<Node>): (h: Node)
    ensures h.Heading? && 1 <= h.depth <= 6 && h.children == children
    ensures 1 <= depth <= 6 ==> h.depth == depth
    ensures depth < 1 ==> h.depth == 1
    ensures depth > 6 ==> h.depth == 6
  {
    Heading(if depth < 1 then 1 else if depth > 6 then 6 else depth, children)
  }

  /** `heading(depth, "text")` */
  function HeadingText(depth: int, title: string): Node {
    HeadingNode(depth, [Text(title)])
  }

  /** `bulletList(items)`: one list item holding one paragraph per item. */
  function BulletList(items: seq<seq<Node>>): (l: Node)
    ensures l.List? && !l.ordered && |l.children| == |items|
    ensures forall i | 0 <= i < |items| :: l.children[i].ListItem? && l.children[i].children == [Paragraph(items[i])]
  {
    List(false, seq(|items|, i requires 0 <= i < |items| => ListItem([Paragraph(items[i])])))
  }

  /** Code blocks and lists are block content; everything else is inline. */
  predicate IsBlock(n: Node) {
    n.Code? || n.List?
  }

  /** The inline elements of an item, in order. */
  function InlinePart(item: seq<Node>): (r: seq<Node>)
    ensures forall n | n in r :: !IsBlock(n)
  {
    if item == [] then []
    else
      var last := item[|item| - 1];
      InlinePart(item[..|item| - 1]) + (if IsBlock(last) then [] else [last])
  }

  /** The block elements of an item, in order. */
  function BlockPart(item: seq<Node>): (r: seq<Node>)
    ensures forall n | n in r :: IsBlock(n)
  {
    if item == [] then []
    else
      var last := item[|item| - 1];
      BlockPart(item[..|item| - 1]) + (if IsBlock(last) then [last] else [])
  }

  /** One item of `complexBulletList`: its inline elements gathered into a
      leading paragraph (only when there are any), then its blocks. */
  function ComplexListItem(item: seq<Node>): (li: Node)
    ensures li.ListItem?
    ensures var blocks := BlockPart(item);
            && |blocks| <= |li.children| <= |blocks| + 1
            && li.children[|li.children| - |blocks|..] == blocks
            && (|li.children| == |blocks| + 1 <==> InlinePart(item) != [])
  {
    var inlineContent := InlinePart(item);
    ListItem((if |inlineContent| > 0 then [Paragraph(inlineContent)] else []) + BlockPart(item))
  }

  /** `complexBulletList(items)` */
  function ComplexBulletList(items: seq<seq<Node>>): (l: Node)
    ensures l.List? && !l.ordered && |l.children| == |items|
    ensures forall i | 0 <= i < |items| :: l.children[i].ListItem?
  {
    List(false, seq(|items|, i requires 0 <= i < |items| => ComplexListItem(items[i])))
  }

  /** The split loses nothing and invents nothing: the inline and block
      parts together are a rearrangement of the item. */
  lemma {:induction false} ItemPartition(item: seq<Node>)
    ensures multiset(InlinePart(item)) + multiset(BlockPart(item)) == multiset(item)
  {
    if item != [] {
      var front := item[..|item| - 1];
      var last := item[|item| - 1];
      ItemPartition(front);
      assert item == front + [last];
      assert multiset(item) == multiset(front) + multiset{last};
    }
  }

  /** The leading paragraph is present iff the item has an inline element. */
  lemma {:induction false} ParagraphIffInline(item: seq<Node>)
    ensures |InlinePart(item)| > 0 <==> exists i | 0 <= i < |item| :: !IsBlock(item[i])
  {
    if item != [] {
      var front := item[..|item| - 1];
      ParagraphIffInline(front);
      assert forall i | 0 <= i < |front| :: front[i] == item[i];
    }
  }

  /** Parts of an item without blocks. */
  lemma {:induction false} InlineOnly(item: seq<Node>)
    requires forall i | 0 <= i < |item| :: !IsBlock(item[i])
    ensures InlinePart(item) == item && BlockPart(item) == []
  {
    if item != [] {
      var front, last := item[..|item| - 1], item[|item| - 1];
      assert forall i | 0 <= i < |front| :: !IsBlock(front[i]) by {
        forall i | 0 <= i < |front| ensures !IsBlock(front[i]) {
          assert front[i] == item[i];
        }
      }
      InlineOnly(front);
      assert !IsBlock(last);
      assert InlinePart(item) == InlinePart(front) + [last];
      assert BlockPart(item) == BlockPart(front);
    }
  }

  /** On items of inline content only, `complexBulletList` builds the same
      list as `bulletList`. */
  lemma BulletListOfInlineItems(items: seq<seq<Node>>)
    requires forall i | 0 <= i < |items| :: items[i] != [] && forall j | 0 <= j < |items[i]| :: !IsBlock(items[i][j])
    ensures ComplexBulletList(items) == BulletList(items)
  {
    forall i | 0 <= i < |items|
      ensures ComplexBulletList(items).children[i] == BulletList(items).children[i]
    {
      InlineOnly(items[i]);
    }
  }

  /** The element loop of `complexBulletList`. */
  method SplitItem(item: seq<Node>) returns (inlineContent: seq<Node>, blockContent: seq<Node>)
    ensures inlineContent == InlinePart(item) && blockContent == BlockPart(item)
  {
    inlineContent, blockContent := [], [];
    for i := 0 to |item|
      invariant inlineContent == InlinePart(item[..i]) && blockContent == BlockPart(item[..i])
    {
      var element := item[i];
      assert item[..i + 1][..i] == item[..i];
      if element.Code? || element.List? {
        blockContent := blockContent + [element];
      } else {
        inlineContent := inlineContent + [element];
      }
    }
    assert item[..|item|] == item;
  }

  /** `complexBulletList`, item by item. */
  method BuildComplexBulletList(items: seq<seq<Node>>) returns (list: Node)
    ensures list == ComplexBulletList(items)
  {
    var listItems: seq<Node> := [];
    for k := 0 to |items|
      invariant |listItems| == k
      invariant forall j | 0 <= j < k :: listItems[j] == ComplexListItem(items[j])
    {
      var inlineContent, blockContent := SplitItem(items[k]);
      var children := (if |inlineContent| > 0 then [Paragraph(inlineContent)] else []) + blockContent;
      assert ListItem(children) == ComplexListItem(items[k]);
      listItems := listItems + [ListItem(children)];
    }
    list := List(false, listItems);
    assert list.children == ComplexBulletList(items).children;
  }

  /** Inline code elements separated by ", " text elements: the rendering of
      the allowed values and of the short names. */
  function CommaSeparatedCode(values: seq<string>): seq<Node> {
    if values == [] then []
    else
      CommaSeparatedCode(values[..|values| - 1])
        + (if |values| > 1 then [Text(", ")] else [])
        + [InlineCode(values[|values| - 1])]
  }

  /** The shape of a comma-separated run: value `i` at position `2i`, a
      separator between each two neighbours and nowhere else. */
  lemma {:induction false} CommaSeparatedCodeShape(values: seq<string>)
    ensures var nodes := CommaSeparatedCode(values);
            && |nodes| == (if values == [] then 0 else 2 * |values| - 1)
            && (forall i | 0 <= i < |values| :: nodes[2 * i] == InlineCode(values[i]))
            && (forall i | 0 <= i < |values| - 1 :: nodes[2 * i + 1] == Text(", "))
  {
    if values != [] {
      var front := values[..|values| - 1];
      CommaSeparatedCodeShape(front);
      assert forall i | 0 <= i < |front| :: front[i] == values[i];
    }
  }

  /** The `forEach` that puts the separator before every value but the
      first (the allowed values). */
  method SeparateBefore(values: seq<string>) returns (nodes: seq<Node>)
    ensures nodes == CommaSeparatedCode(values)
  {
    nodes := [];
    for index := 0 to |values|
      invariant nodes == CommaSeparatedCode(values[..index])
    {
      assert values[..index + 1][..index] == values[..index];
      if index > 0 {
        nodes := nodes + [Text(", ")];
      }
      nodes := nodes + [InlineCode(values[index])];
    }
    assert values[..|values|] == values;
  }

  /** The `forEach` that puts the separator after every value but the last
      (the short names). */
  method SeparateAfter(values: seq<string>) returns (nodes: seq<Node>)
    ensures nodes == CommaSeparatedCode(values)
  {
    nodes := [];
    for index := 0 to |values|
      invariant nodes == CommaSeparatedCode(values[..index]) + (if 0 < index < |values| then [Text(", ")] else [])
    {
      assert values[..index + 1][..index] == values[..index];
      nodes := nodes + [InlineCode(values[index])];
      if index < |values| - 1 {
        nodes := nodes + [Text(", ")];
      }
    }
    assert values[..|values|] == values;
  }

  // ---------------------------------------------------------------------
  // The serializer's join rule
  // ---------------------------------------------------------------------

  /** A text child reading "Constraints" or "Example". */
  predicate IsSectionLabel(n: Node) {
    n.Text? && (n.value == "Constraints" || n.value == "Example")
  }

  /** Some strong child of the paragraph holds such a label. */
  predicate HasConstraintsOrExample(children: seq<Node>) {
    exists i | 0 <= i < |children| ::
      children[i].Strong? && exists j | 0 <= j < |children[i].children| :: IsSectionLabel(children[i].children[j])
  }

  /** The `join` callback: the number of blank lines between two siblings.
      None between list items, between a paragraph and a following code
      block, and between a "Constraints"/"Example" label paragraph and a
      following list; one otherwise. */
  function Join(left: Node, right: Node): (gap: int)
    ensures gap == 0 || gap == 1
    ensures gap == 0 ==> (left.ListItem? && right.ListItem?) || (left.Paragraph? && (right.Code? || right.List?))
    ensures left.ListItem? && right.ListItem? ==> gap == 0
    ensures left.Paragraph? && right.Code? ==> gap == 0
    ensures left.Paragraph? && right.List? ==> (gap == 0 <==> HasConstraintsOrExample(left.children))
  {
    if left.ListItem? && right.ListItem? then 0
    else if left.Paragraph? && right.Code? then 0
    else if left.Paragraph? && right.List? && HasConstraintsOrExample(left.children) then 0
    else 1
  }

  /** No blank line between any two adjacent siblings. */
  predicate AdjacentTight(children: seq<Node>) {
    forall i | 0 <= i < |children| - 1 :: Join(children[i], children[i + 1]) == 0
  }
}

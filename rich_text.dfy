/**
 * The rich-text extractor of the Jira client: flattens an issue description,
 * a tree of Atlassian Document Format blocks, into plain text. Paragraphs
 * become their inline texts separated by spaces, ordered lists numbered
 * lines, bullet lists `- ` lines, any other block the empty string, and the
 * blocks of one level are separated by a blank line.
 */
module RichText {
  import opened Wrappers
  import opened Strings

  /** A block node, told apart by its `type`; every type the extractor does not know is `Other`. */
  datatype Block =
    | Paragraph(inlines: seq<Option<string>>)       // the `text` of each inline node, when it has one
    | OrderedList(order: int, items: seq<ListItem>)  // `attrs.order` is the number of the first item
    | BulletList(items: seq<ListItem>)
    | Other

  /** A list item, whose `content` (a sequence of blocks) may be absent. */
  datatype ListItem = NoContent | ItemContent(blocks: seq<Block>)

  /** `contentItem.text || ''`: a missing text reads as the empty string. */
  function InlineText(t: Option<string>): string
  {
    t.GetOr("")
  }

  /** The texts of a paragraph's inline nodes, one per node. */
  function InlineTexts(inlines: seq<Option<string>>): (r: seq<string>)
    ensures |r| == |inlines|
    ensures forall i :: 0 <= i < |inlines| ==> r[i] == InlineText(inlines[i])
  {
    if inlines == [] then [] else [InlineText(inlines[0])] + InlineTexts(inlines[1..])
  }

  /** `extractTextFromContent(content)` on a present block sequence. */
  function ExtractBlocks(bs: seq<Block>): string
    decreases bs, 1
  {
    Join(BlockTexts(bs), "\n\n")
  }

  /** The text of each block, one per block. */
  function BlockTexts(bs: seq<Block>): (r: seq<string>)
    ensures |r| == |bs|
    ensures forall i :: 0 <= i < |bs| ==> r[i] == BlockText(bs[i])
    decreases bs, 0
  {
    if bs == [] then [] else [BlockText(bs[0])] + BlockTexts(bs[1..])
  }

  /** The text of one block, by its type. */
  function BlockText(b: Block): string
  {
    match b
    case Paragraph(inlines) => Join(InlineTexts(inlines), " ")
    case OrderedList(order, items) => Join(OrderedLines(order, items), "\n")
    case BulletList(items) => Join(BulletLines(items), "\n")
    case Other => ""
  }

  /** `item.content ? extractTextFromContent(item.content) : ''` */
  function ItemText(item: ListItem): string
  {
    match item
    case NoContent => ""
    case ItemContent(bs) => ExtractBlocks(bs)
  }

  /** The lines of an ordered list whose first item is numbered `start`: the i-th line is numbered `start + i`. */
  function OrderedLines(start: int, items: seq<ListItem>): (r: seq<string>)
    ensures |r| == |items|
    ensures forall i :: 0 <= i < |items| ==> r[i] == IntToString(start + i) + ". " + ItemText(items[i])
    decreases items
  {
    seq(|items|, i requires 0 <= i < |items| => IntToString(start + i) + ". " + ItemText(items[i]))
  }

  /** The lines of a bullet list: each item's text behind `- `. */
  function BulletLines(items: seq<ListItem>): (r: seq<string>)
    ensures |r| == |items|
    ensures forall i :: 0 <= i < |items| ==> r[i] == "- " + ItemText(items[i])
  {
    if items == [] then [] else ["- " + ItemText(items[0])] + BulletLines(items[1..])
  }

  /**
   * `extractTextFromContent(content)`: absent content gives the empty string;
   * otherwise the texts of the blocks, separated by a blank line.
   */
  function Extract(content: Option<seq<Block>>): (r: string)
    ensures content.None? ==> r == ""
    ensures content == Some([]) ==> r == ""
    ensures content.Some? && |content.value| == 1 ==> r == BlockText(content.value[0])
  {
    match content
    case None => ""
    case Some(bs) => ExtractBlocks(bs)
  }

  /** A number prints without a line break. */
  lemma NoNewlineInNumber(n: int)
    ensures '\n' !in IntToString(n)
  {
    var r := IntToString(n);
    forall i | 0 <= i < |r| ensures r[i] != '\n' {
      assert IsDigit(r[i]) || (i == 0 && r[i] == '-');
    }
  }

  /**
   * An ordered list with `n` items gives exactly `n` lines, the i-th being
   * `start + i`, `. ` and the item's text (the empty text when the item has
   * no content), provided no item text spans several lines.
   */
  lemma {:induction false} OrderedListLines(start: int, items: seq<ListItem>)
    requires items != []
    requires forall i :: 0 <= i < |items| ==> '\n' !in ItemText(items[i])
    ensures |Split(BlockText(OrderedList(start, items)), "\n")| == |items|
    ensures forall i :: 0 <= i < |items| ==>
      Split(BlockText(OrderedList(start, items)), "\n")[i] == IntToString(start + i) + ". " + ItemText(items[i])
  {
    var lines := OrderedLines(start, items);
    forall i | 0 <= i < |lines| ensures '\n' !in lines[i] {
      NoNewlineInNumber(start + i);
      assert lines[i] == IntToString(start + i) + ". " + ItemText(items[i]);
    }
    SplitJoinChar(lines, '\n');
  }

  /**
   * A bullet list with `n` items gives exactly `n` lines, each `- ` followed
   * by the item's text, provided no item text spans several lines.
   */
  lemma {:induction false} BulletListLines(items: seq<ListItem>)
    requires items != []
    requires forall i :: 0 <= i < |items| ==> '\n' !in ItemText(items[i])
    ensures |Split(BlockText(BulletList(items)), "\n")| == |items|
    ensures forall i :: 0 <= i < |items| ==>
      Split(BlockText(BulletList(items)), "\n")[i] == "- " + ItemText(items[i])
  {
    var lines := BulletLines(items);
    forall i | 0 <= i < |lines| ensures '\n' !in lines[i] {
      assert lines[i] == "- " + ItemText(items[i]);
    }
    SplitJoinChar(lines, '\n');
  }

  /** A paragraph's text splits back at single spaces into its inline texts, when those hold no space. */
  lemma {:induction false} ParagraphWords(inlines: seq<Option<string>>)
    requires inlines != []
    requires forall i :: 0 <= i < |inlines| ==> ' ' !in InlineText(inlines[i])
    ensures Split(BlockText(Paragraph(inlines)), " ") == InlineTexts(inlines)
  {
    SplitJoinChar(InlineTexts(inlines), ' ');
  }

  /**
   * A description with several top-level blocks is the first block's text,
   * a blank line, and the text of the remaining blocks; a block of unknown
   * type contributes the empty string.
   */
  lemma {:induction false} ExtractCons(b: Block, rest: seq<Block>)
    requires rest != []
    ensures Extract(Some([b] + rest)) == BlockText(b) + "\n\n" + Extract(Some(rest))
    ensures b == Other ==> Extract(Some([b] + rest)) == "\n\n" + Extract(Some(rest))
  {
    var texts := BlockTexts([b] + rest);
    assert texts[1..] == BlockTexts(rest);
  }

  /** An ordered list numbered from 3 with the items `a` and `b` reads `3. a` and `4. b` on two lines. */
  lemma OrderedListExample()
    ensures Extract(Some([OrderedList(3, [ItemContent([Paragraph([Some("a")])]),
                                         ItemContent([Paragraph([Some("b")])])])]))
         == "3. a\n4. b"
  {
    var a := ItemContent([Paragraph([Some("a")])]);
    var b := ItemContent([Paragraph([Some("b")])]);
    assert ItemText(a) == "a";
    assert ItemText(b) == "b";
    assert IntToString(3) == "3";
    assert IntToString(4) == "4";
    var lines := OrderedLines(3, [a, b]);
    assert lines[0] == "3" + ". " + "a" == "3. a";
    assert lines[1] == "4" + ". " + "b" == "4. b";
    assert lines == ["3. a", "4. b"];
    assert "3. a" + "\n" + "4. b" == "3. a\n4. b";
  }

  /** A bullet list with the items `x` and `y` reads `- x` and `- y` on two lines. */
  lemma BulletListExample()
    ensures Extract(Some([BulletList([ItemContent([Paragraph([Some("x")])]),
                                      ItemContent([Paragraph([Some("y")])])])]))
         == "- x\n- y"
  {
    var x := ItemContent([Paragraph([Some("x")])]);
    var y := ItemContent([Paragraph([Some("y")])]);
    assert ItemText(x) == "x";
    assert ItemText(y) == "y";
    var lines := BulletLines([x, y]);
    assert lines[0] == "- " + "x" == "- x";
    assert lines[1] == "- " + "y" == "- y";
    assert lines == ["- x", "- y"];
    assert "- x" + "\n" + "- y" == "- x\n- y";
  }
}

/**
 * Serialised block-editor comments built by the import helpers
 * (utils/db2wp_gutenberg_functions.php): ACF, heading, list, paragraph and
 * image blocks. json_encode() and uniqid() are parameters.
 */
module Gutenberg {
  import opened Php

  const BlockOpen := "<!-- wp:"
  const AcfPrefix := "acf/"

  // ---------------------------------------------------------------------------
  // Reading a block back

  lemma OccursAtChar(s: string, c: char, i: int)
    ensures OccursAt(s, [c], i) <==> 0 <= i < |s| && s[i] == c
  {
    if 0 <= i < |s| && s[i] == c {
      assert s[i..i + 1] == [c];
    }
  }

  /** The block type a serialised block names: the text after "<!-- wp:" up to the next space. */
  function BlockName(block: string): (r: Option<string>)
    ensures r.Some? ==> ' ' !in r.value && StartsWith(block, BlockOpen + r.value + " ")
  {
    if !StartsWith(block, BlockOpen) then None
    else
      match FindFrom(block, " ", |BlockOpen|)
      case None => None
      case Some(j) =>
        var name := block[|BlockOpen|..j];
        forall i | 0 <= i < |name| ensures name[i] != ' ' {
          OccursAtChar(block, ' ', |BlockOpen| + i);
        }
        OccursAtChar(block, ' ', j);
        assert block[..|BlockOpen| + |name| + 1] == BlockOpen + name + " ";
        Some(name)
  }

  /** A block that opens with "<!-- wp:" + name + " " names exactly that block type. */
  lemma {:induction false} BlockNameOf(name: string, rest: string)
    requires ' ' !in name
    ensures BlockName(BlockOpen + name + " " + rest) == Some(name)
  {
    var block := BlockOpen + name + " " + rest;
    var j := |BlockOpen| + |name|;
    assert block[..|BlockOpen|] == BlockOpen;
    OccursAtChar(block, ' ', j);
    forall i | |BlockOpen| <= i < j ensures !OccursAt(block, " ", i) {
      OccursAtChar(block, ' ', i);
      assert block[i] == name[i - |BlockOpen|];
    }
    assert block[|BlockOpen|..j] == name;
  }

  /** Two blocks that differ only in the content between a fixed opening and closing have the same content. */
  lemma WrapInjective(open: string, close: string, c1: string, c2: string)
    requires open + c1 + close == open + c2 + close
    ensures c1 == c2
  {
    var r := open + c1 + close;
    assert c1 == r[|open|..|open| + |c1|];
    assert c2 == (open + c2 + close)[|open|..|open| + |c2|];
  }

  // ---------------------------------------------------------------------------
  // ACF block

  /** The block name: "acf/" is put in front unless the name already starts with it. */
  function AcfName(name: string): (r: string)
    ensures StartsWith(r, AcfPrefix) && EndsWith(r, name)
    ensures StartsWith(name, AcfPrefix) ==> r == name
    ensures !StartsWith(name, AcfPrefix) ==> |r| == |name| + |AcfPrefix|
  {
    if StartsWith(name, AcfPrefix) then name else AcfPrefix + name
  }

  /** Prefixing is idempotent. */
  lemma AcfNameIdempotent(name: string)
    ensures AcfName(AcfName(name)) == AcfName(name)
  {
  }

  /** The array whose JSON encoding is the block's attributes. */
  datatype AcfBlockArray = AcfBlockArray(id: string, name: string, data: map<string, Value>, align: string, mode: string)

  /**
   * db2wp_generate_acf_block: uniqueId is what uniqid('block_') returned.
   * The comment opens with the prefixed block name and is self-closing.
   */
  function AcfBlock(name: string, data: map<string, Value>, uniqueId: string,
                    jsonEncode: AcfBlockArray -> string): (r: string)
    ensures StartsWith(r, BlockOpen + AcfName(name) + " ") && EndsWith(r, " /-->")
    ensures r == BlockOpen + AcfName(name) + " " + jsonEncode(AcfBlockArray(uniqueId, AcfName(name), data, "", "edit")) + " /-->"
  {
    var head := BlockOpen + AcfName(name) + " ";
    var json := jsonEncode(AcfBlockArray(uniqueId, AcfName(name), data, "", "edit"));
    PrefixConcat(head, json + " /-->");
    SuffixConcat(head + json, " /-->");
    head + json + " /-->"
  }

  /**
   * The block is self-closing, names the prefixed block type, and between
   * the name and " /-->" holds the encoding of the block array: the unique
   * id, the prefixed name, the data, empty alignment and edit mode.
   */
  lemma AcfBlockShape(name: string, data: map<string, Value>, uniqueId: string,
                      jsonEncode: AcfBlockArray -> string)
    requires ' ' !in name
    ensures BlockName(AcfBlock(name, data, uniqueId, jsonEncode)) == Some(AcfName(name))
    ensures EndsWith(AcfBlock(name, data, uniqueId, jsonEncode), " /-->")
    ensures StartsWith(AcfName(name), AcfPrefix)
    ensures var b := AcfBlock(name, data, uniqueId, jsonEncode);
            var start := |BlockOpen| + |AcfName(name)| + 1;
            start <= |b| - 5
            && b[start..|b| - 5] == jsonEncode(AcfBlockArray(uniqueId, AcfName(name), data, "", "edit"))
  {
    var full := AcfName(name);
    assert ' ' !in full by {
      if !StartsWith(name, AcfPrefix) {
        assert full == AcfPrefix + name;
      }
    }
    var json := jsonEncode(AcfBlockArray(uniqueId, full, data, "", "edit"));
    assert AcfBlock(name, data, uniqueId, jsonEncode) == BlockOpen + full + " " + (json + " /-->");
    BlockNameOf(full, json + " /-->");
    var head := BlockOpen + full + " ";
    assert (head + json + " /-->")[|head|..|head| + |json|] == json;
  }

  /** Passing a name that already carries the prefix builds the same block. */
  lemma AcfBlockPrefixIdempotent(name: string, data: map<string, Value>, uniqueId: string,
                                 jsonEncode: AcfBlockArray -> string)
    ensures AcfBlock(AcfName(name), data, uniqueId, jsonEncode) == AcfBlock(name, data, uniqueId, jsonEncode)
  {
    AcfNameIdempotent(name);
  }

  // ---------------------------------------------------------------------------
  // Heading block

  const HeadingOpen := "<!-- wp:heading "
  const LevelAttr := "{\"level\":"
  const HeadingClose := "<!-- /wp:heading -->"

  /** The attribute object: a level is written only when it is not 2. */
  function HeadingAttrs(level: int): string {
    if level != 2 then LevelAttr + IntToString(level) + "}" else ""
  }

  /** The block comment that opens a heading. */
  function HeadingHead(level: int): string {
    HeadingOpen + HeadingAttrs(level) + " -->"
  }

  function ElementOpen(level: int): string {
    "<h" + IntToString(level) + ">"
  }

  function ElementClose(level: int): string {
    "</h" + IntToString(level) + ">"
  }

  function HeadingPrefix(level: int): string {
    HeadingHead(level) + ElementOpen(level)
  }

  function HeadingSuffix(level: int): string {
    ElementClose(level) + HeadingClose
  }

  /** The heading element <hN>content</hN>. */
  function HeadingElement(level: int, content: string): string {
    ElementOpen(level) + content + ElementClose(level)
  }

  /** db2wp_generate_block_heading. */
  function HeadingBlock(level: int, content: string): (r: string)
    ensures level == 2 ==> r == "<!-- wp:heading  --><h2>" + content + "</h2><!-- /wp:heading -->"
    ensures |r| > |HeadingOpen| && (r[|HeadingOpen|] == '{' <==> level != 2)
    ensures EndsWith(r, HeadingElement(level, content) + HeadingClose)
  {
    EndsWithRegroup(HeadingHead(level), ElementOpen(level), content, ElementClose(level), HeadingClose);
    HeadingPrefix(level) + content + HeadingSuffix(level)
  }

  /** A level other than 2: the level attribute closes the opening comment, then the hN element and the close. */
  lemma HeadingBlockExact(level: int, content: string)
    requires level != 2
    ensures HeadingBlock(level, content)
            == HeadingOpen + LevelAttr + IntToString(level) + "} -->" + HeadingElement(level, content) + HeadingClose
  {
    HeadingRegroup(HeadingHead(level), ElementOpen(level), content, ElementClose(level), HeadingClose);
    ConcatBrace(HeadingOpen + LevelAttr + IntToString(level));
  }

  lemma HeadingRegroup(head: string, open: string, content: string, close: string, tail: string)
    ensures head + open + content + (close + tail) == head + (open + content + close) + tail
  {
  }

  lemma ConcatBrace(p: string)
    ensures p + "}" + " -->" == p + "} -->"
  {
    assert "}" + " -->" == "} -->";
  }

  /** Digits followed by a closing brace: the text up to the first brace is determined. */
  lemma PrefixBeforeBrace(r: string, p: string, d1: string, d2: string)
    requires StartsWith(r, p + d1 + "}") && StartsWith(r, p + d2 + "}")
    requires '}' !in d1 && '}' !in d2
    ensures d1 == d2
  {
    assert r[|p| + |d1|] == (p + d1 + "}")[|p| + |d1|] == '}';
    assert r[|p| + |d2|] == (p + d2 + "}")[|p| + |d2|] == '}';
    assert forall i :: 0 <= i < |d1| ==> r[|p| + i] == (p + d1 + "}")[|p| + i] == d1[i];
    assert forall i :: 0 <= i < |d2| ==> r[|p| + i] == (p + d2 + "}")[|p| + i] == d2[i];
    assert |d1| == |d2|;
  }

  /** A heading with a level other than 2 starts with its level attribute. */
  lemma HeadingLevelPrefix(level: int, content: string)
    requires level != 2
    ensures StartsWith(HeadingBlock(level, content), HeadingOpen + LevelAttr + IntToString(level) + "}")
  {
    var n := IntToString(level);
    var x := HeadingOpen + LevelAttr + n + "}";
    assert HeadingOpen + HeadingAttrs(level) == x;
    PrefixConcat(x, " -->");
    StartsWithAppend(HeadingHead(level), x, ElementOpen(level));
    StartsWithAppend(HeadingPrefix(level), x, content);
    StartsWithAppend(HeadingPrefix(level) + content, x, HeadingSuffix(level));
  }

  /** A heading block determines both its level and its content. */
  lemma HeadingBlockInjective(l1: int, c1: string, l2: int, c2: string)
    requires HeadingBlock(l1, c1) == HeadingBlock(l2, c2)
    ensures l1 == l2 && c1 == c2
  {
    var r := HeadingBlock(l1, c1);
    assert (l1 == 2) == (l2 == 2);
    if l1 != 2 {
      HeadingLevelPrefix(l1, c1);
      HeadingLevelPrefix(l2, c2);
      PrefixBeforeBrace(r, HeadingOpen + LevelAttr, IntToString(l1), IntToString(l2));
      IntToStringInjective(l1, l2);
    }
    WrapInjective(HeadingPrefix(l1), HeadingSuffix(l1), c1, c2);
  }

  /** A block opening "<!-- wp:" + name + " " names that block type. */
  lemma BlockNameOfPrefix(block: string, name: string)
    requires ' ' !in name && StartsWith(block, BlockOpen + name + " ")
    ensures BlockName(block) == Some(name)
  {
    var p := BlockOpen + name + " ";
    assert block == p + block[|p|..];
    BlockNameOf(name, block[|p|..]);
  }

  lemma HeadingBlockName(level: int, content: string)
    ensures BlockName(HeadingBlock(level, content)) == Some("heading")
  {
    var x := HeadingOpen;
    PrefixConcat(x, HeadingAttrs(level));
    StartsWithAppend(x + HeadingAttrs(level), x, " -->");
    StartsWithAppend(HeadingHead(level), x, ElementOpen(level));
    StartsWithAppend(HeadingPrefix(level), x, content);
    StartsWithAppend(HeadingPrefix(level) + content, x, HeadingSuffix(level));
    assert HeadingOpen == BlockOpen + "heading" + " ";
    BlockNameOfPrefix(HeadingBlock(level, content), "heading");
  }

  // ---------------------------------------------------------------------------
  // List block

  const ListOpen := "<!-- wp:list "
  const ListClose := "<!-- /wp:list -->"

  /** The attribute object of an ordered list. */
  const OrderedAttrs := "{\"ordered\":1}"

  /** The opening comment and list element of a list of the given type. */
  function ListPrefix(listType: string): string {
    ListOpen + (if listType == "o" then OrderedAttrs else "") + " -->" + "<" + listType + "l>"
  }

  /** The closing list element and comment of a list of the given type. */
  function ListSuffix(listType: string): string {
    "</" + listType + "l>" + ListClose
  }

  /** db2wp_generate_block_list: listType "o" or "u" selects <ol> or <ul>. */
  function ListBlock(listType: string, content: string): (r: string)
    ensures |r| > |ListOpen| && (r[|ListOpen|] == '{' <==> listType == "o")
    ensures EndsWith(r, "</" + listType + "l>" + ListClose)
  {
    var attrs := if listType == "o" then "{\"ordered\":" + ToString(Bool(true)) + "}" else "";
    var mid := attrs + " -->" + "<" + listType + "l>" + content;
    var close := "</" + listType + "l>" + ListClose;
    assert mid[0] == (attrs + " -->")[0] == (if listType == "o" then '{' else ' ');
    SuffixConcat(ListOpen + mid, close);
    assert (ListOpen + mid + close)[|ListOpen|] == mid[0];
    ListOpen + mid + close
  }

  /**
   * The list block is its opening comment and list element, the content,
   * then its closing element and comment; `(string) true` is "1".
   */
  lemma ListBlockExact(listType: string, content: string)
    ensures ListBlock(listType, content) == ListPrefix(listType) + content + ListSuffix(listType)
  {
    assert ToString(Bool(true)) == "1";
  }

  /** An ordered list opens with its attribute object and an <ol> element. */
  lemma OrderedListOpening(content: string)
    ensures StartsWith(ListBlock("o", content), ListOpen + OrderedAttrs + " --><ol>")
  {
  }

  /** Any other list type opens without attributes, with the element named after the type. */
  lemma UnorderedListOpening(listType: string, content: string)
    requires listType != "o"
    ensures StartsWith(ListBlock(listType, content), ListOpen + " --><" + listType + "l>")
  {
  }

  /** For a given list type, the block determines its content. */
  lemma ListBlockInjective(listType: string, c1: string, c2: string)
    requires ListBlock(listType, c1) == ListBlock(listType, c2)
    ensures c1 == c2
  {
    ListBlockExact(listType, c1);
    ListBlockExact(listType, c2);
    WrapInjective(ListPrefix(listType), ListSuffix(listType), c1, c2);
  }

  /** Reads the content back out of a list block of the given type. */
  function ListContent(listType: string, block: string): (r: Option<string>)
    ensures r.Some? ==> |block| == |ListPrefix(listType)| + |r.value| + |ListSuffix(listType)|
  {
    var p := ListPrefix(listType);
    var q := ListSuffix(listType);
    if |block| >= |p| + |q| && StartsWith(block, p) && EndsWith(block, q)
    then Some(block[|p|..|block| - |q|])
    else None
  }

  /** Reading a built list returns its content, and a successful read rebuilds the block. */
  lemma ListRoundTrip(listType: string, content: string, block: string)
    ensures ListContent(listType, ListBlock(listType, content)) == Some(content)
    ensures ListContent(listType, block).Some? ==> ListBlock(listType, ListContent(listType, block).value) == block
  {
    var p := ListPrefix(listType);
    var q := ListSuffix(listType);
    var b := ListBlock(listType, content);
    ListBlockExact(listType, content);
    assert b[..|p|] == p;
    assert b[|b| - |q|..] == q;
    assert b[|p|..|b| - |q|] == content;
    if ListContent(listType, block).Some? {
      var c := ListContent(listType, block).value;
      ListBlockExact(listType, c);
      assert block == block[..|p|] + c + block[|block| - |q|..];
    }
  }

  lemma ListBlockName(listType: string, content: string)
    ensures BlockName(ListBlock(listType, content)) == Some("list")
  {
    var r := ListBlock(listType, content);
    assert r == BlockOpen + "list" + " " + r[|ListOpen|..];
    BlockNameOf("list", r[|ListOpen|..]);
  }

  // ---------------------------------------------------------------------------
  // Paragraph block

  const ParagraphOpen := "<!-- wp:paragraph --><p>"
  const ParagraphClose := "</p><!-- /wp:paragraph -->"

  /** db2wp_generate_block_paragraph: the content between the paragraph block's tags. */
  function ParagraphBlock(content: string): (r: string)
    ensures StartsWith(r, ParagraphOpen) && EndsWith(r, ParagraphClose)
    ensures |r| == |ParagraphOpen| + |content| + |ParagraphClose|
  {
    PrefixConcat(ParagraphOpen, content + ParagraphClose);
    SuffixConcat(ParagraphOpen + content, ParagraphClose);
    ParagraphOpen + content + ParagraphClose
  }

  /** Reads the content back out of a paragraph block. */
  function ParagraphContent(block: string): (r: Option<string>)
    ensures r.Some? ==> |block| == |r.value| + |ParagraphOpen| + |ParagraphClose|
  {
    if |block| >= |ParagraphOpen| + |ParagraphClose| && StartsWith(block, ParagraphOpen) && EndsWith(block, ParagraphClose)
    then Some(block[|ParagraphOpen|..|block| - |ParagraphClose|])
    else None
  }

  /** Reading a built paragraph returns its content, and a successful read rebuilds the block. */
  lemma ParagraphRoundTrip(content: string, block: string)
    ensures ParagraphContent(ParagraphBlock(content)) == Some(content)
    ensures ParagraphContent(block).Some? ==> ParagraphBlock(ParagraphContent(block).value) == block
  {
    var b := ParagraphBlock(content);
    assert b[..|ParagraphOpen|] == ParagraphOpen;
    assert b[|b| - |ParagraphClose|..] == ParagraphClose;
    assert b[|ParagraphOpen|..|b| - |ParagraphClose|] == content;
    if ParagraphContent(block).Some? {
      var c := ParagraphContent(block).value;
      assert block == block[..|ParagraphOpen|] + c + block[|block| - |ParagraphClose|..];
    }
  }

  lemma ParagraphBlockName(content: string)
    ensures BlockName(ParagraphBlock(content)) == Some("paragraph")
  {
    var r := ParagraphBlock(content);
    assert r == BlockOpen + "paragraph" + " " + r[|BlockOpen| + 10..];
    BlockNameOf("paragraph", r[|BlockOpen| + 10..]);
  }

  // ---------------------------------------------------------------------------
  // Image block

  const ImageClose := "</figure></div><!-- /wp:image -->"

  /** The block arguments: the caller's arguments over align "left", the attachment id and sizeSlug "large". */
  function ImageArgs(args: map<string, Value>, attid: int): (r: map<string, Value>)
    ensures r.Keys == args.Keys + {"align", "id", "sizeSlug"}
    ensures forall k :: k in args ==> r[k] == args[k]
    ensures "align" !in args ==> r["align"] == Str("left")
    ensures "id" !in args ==> r["id"] == Int(attid)
    ensures "sizeSlug" !in args ==> r["sizeSlug"] == Str("large")
  {
    ParseArgs(args, map["align" := Str("left"), "id" := Int(attid), "sizeSlug" := Str("large")])
  }

  /** The class of the figure element. */
  function FigureClass(blockArgs: map<string, Value>): string
    requires "align" in blockArgs && "sizeSlug" in blockArgs
  {
    "align" + ToString(blockArgs["align"]) + " size-" + ToString(blockArgs["sizeSlug"])
  }

  /** With no caller arguments the figure is left-aligned at the large size. */
  lemma FigureClassDefault(attid: int)
    ensures FigureClass(ImageArgs(map[], attid)) == "alignleft size-large"
  {
  }

  /** The alt attribute: present exactly when the trimmed alt text is not empty. */
  function AltAttribute(altText: string): (r: string)
    ensures r == "" <==> EmptyString(Trim(altText))
    ensures r != "" ==> r == "alt=\"" + Trim(altText) + "\" "
  {
    var alt := Trim(altText);
    if !EmptyString(alt) then "alt=\"" + alt + "\" " else ""
  }

  /** The figcaption element: present exactly when the caption is truthy. */
  function CaptionElement(caption: string): (r: string)
    ensures r == "" <==> EmptyString(caption)
    ensures r != "" ==> r == "<figcaption>" + caption + "</figcaption>"
  {
    if !EmptyString(caption) then "<figcaption>" + caption + "</figcaption>" else ""
  }

  /** The img element. */
  function ImgElement(imageUrl: string, altText: string, attid: int): string {
    "<img src=\"" + imageUrl + "\" " + AltAttribute(altText) + "class=\"wp-image-" + IntToString(attid) + "\"/>"
  }

  const ImageOpen := "<!-- wp:image "

  /** The wrapper div and the opening figure element with its class. */
  function FigureOpen(blockArgs: map<string, Value>): string
    requires "align" in blockArgs && "sizeSlug" in blockArgs
  {
    "<div class=\"wp-block-image\">" + "<figure class=\"" + FigureClass(blockArgs) + "\">"
  }

  /**
   * db2wp_generate_block_image. imageUrl is what wp_get_attachment_url()
   * returned ("" for false) and altText the tag-stripped alt meta.
   */
  function ImageBlock(attid: int, args: map<string, Value>, caption: string, imageUrl: string, altText: string,
                      jsonEncode: map<string, Value> -> string): (r: string)
    ensures r == "" <==> attid == 0
    ensures attid != 0 ==> StartsWith(r, ImageOpen + jsonEncode(ImageArgs(args, attid)) + " -->")
    ensures attid != 0 ==> EndsWith(r, FigureOpen(ImageArgs(args, attid))
                                       + (ImgElement(imageUrl, altText, attid) + CaptionElement(caption) + ImageClose))
  {
    if attid == 0 then ""
    else
      var blockArgs := ImageArgs(args, attid);
      var head := ImageOpen + jsonEncode(blockArgs) + " -->";
      var body := FigureOpen(blockArgs) + (ImgElement(imageUrl, altText, attid) + CaptionElement(caption) + ImageClose);
      PrefixConcat(head, body);
      SuffixConcat(head, body);
      head + body
  }

  /**
   * A non-empty image block is exactly the image comment with its JSON
   * attributes, directly followed by the div and figure, the img element,
   * the caption and the closing markup.
   */
  lemma ImageBlockExact(attid: int, args: map<string, Value>, caption: string, imageUrl: string, altText: string,
                        jsonEncode: map<string, Value> -> string)
    requires attid != 0
    ensures ImageBlock(attid, args, caption, imageUrl, altText, jsonEncode)
            == ImageOpen + jsonEncode(ImageArgs(args, attid)) + " -->"
               + (FigureOpen(ImageArgs(args, attid)) + (ImgElement(imageUrl, altText, attid) + CaptionElement(caption) + ImageClose))
  {
  }

  /** A non-empty image block opens like an image block and ends with the img element, caption and closing markup. */
  lemma ImageBlockEnds(attid: int, args: map<string, Value>, caption: string, imageUrl: string, altText: string,
                       jsonEncode: map<string, Value> -> string)
    requires attid != 0
    ensures var r := ImageBlock(attid, args, caption, imageUrl, altText, jsonEncode);
            StartsWith(r, ImageOpen)
            && EndsWith(r, ImgElement(imageUrl, altText, attid) + CaptionElement(caption) + ImageClose)
  {
    var r := ImageBlock(attid, args, caption, imageUrl, altText, jsonEncode);
    var head := ImageOpen + jsonEncode(ImageArgs(args, attid)) + " -->";
    var tail := ImgElement(imageUrl, altText, attid) + CaptionElement(caption) + ImageClose;
    assert r[..|ImageOpen|] == head[..|ImageOpen|];
    SuffixConcat(FigureOpen(ImageArgs(args, attid)), tail);
    EndsWithTrans(r, FigureOpen(ImageArgs(args, attid)) + tail, tail);
  }

  /** The block carries a figcaption. */
  predicate HasFigcaption(block: string) {
    EndsWith(block, "</figcaption>" + ImageClose)
  }

  /** Any text ending in an element closed by "/>" and then the caption element has a figcaption iff the caption is truthy. */
  lemma FigcaptionIff(r: string, img: string, caption: string)
    requires EndsWith(img, "\"/>")
    requires EndsWith(r, img + CaptionElement(caption) + ImageClose)
    ensures HasFigcaption(r) <==> !EmptyString(caption)
  {
    var tail := img + CaptionElement(caption) + ImageClose;
    var fig := "</figcaption>" + ImageClose;
    if EmptyString(caption) {
      EndsWithAt(img, "\"/>", 1);
      assert tail == img + ImageClose;
      assert tail[|img| - 2] == '/';
      EndsWithAt(r, tail, |img| - 2);
      EndsWithAt(r, fig, 11);
    } else {
      assert tail == (img + "<figcaption>" + caption) + fig;
      SuffixConcat(img + "<figcaption>" + caption, fig);
      EndsWithTrans(r, tail, fig);
    }
  }

  lemma ImgElementEnd(imageUrl: string, altText: string, attid: int)
    ensures EndsWith(ImgElement(imageUrl, altText, attid), "\"/>")
  {
    SuffixConcat("<img src=\"" + imageUrl + "\" " + AltAttribute(altText) + "class=\"wp-image-" + IntToString(attid), "\"/>");
  }

  /** A figcaption appears exactly when the caption is truthy. */
  lemma ImageCaptionIff(attid: int, args: map<string, Value>, caption: string, imageUrl: string, altText: string,
                        jsonEncode: map<string, Value> -> string)
    requires attid != 0
    ensures HasFigcaption(ImageBlock(attid, args, caption, imageUrl, altText, jsonEncode)) <==> !EmptyString(caption)
  {
    ImgElementEnd(imageUrl, altText, attid);
    ImageBlockEnds(attid, args, caption, imageUrl, altText, jsonEncode);
    FigcaptionIff(ImageBlock(attid, args, caption, imageUrl, altText, jsonEncode), ImgElement(imageUrl, altText, attid), caption);
  }

  lemma ImageBlockName(attid: int, args: map<string, Value>, caption: string, imageUrl: string, altText: string,
                       jsonEncode: map<string, Value> -> string)
    requires attid != 0
    ensures BlockName(ImageBlock(attid, args, caption, imageUrl, altText, jsonEncode)) == Some("image")
  {
    ImageBlockEnds(attid, args, caption, imageUrl, altText, jsonEncode);
    ImageOpenNamesImage(ImageBlock(attid, args, caption, imageUrl, altText, jsonEncode));
  }

  /** Any text opening like an image block names the "image" block type. */
  lemma ImageOpenNamesImage(r: string)
    requires StartsWith(r, ImageOpen)
    ensures BlockName(r) == Some("image")
  {
    assert ImageOpen == BlockOpen + "image" + " ";
    BlockNameOfPrefix(r, "image");
  }
}

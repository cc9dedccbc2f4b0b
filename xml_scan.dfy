/** The raw-XML scans of src/fetcher.rs: `extract_xml_element`, which cuts the text between
    the first `<tag>` and the next `</tag>`, and `extract_comments_from_xml`, which pairs each
    RSS `<item>`'s `<link>` with its `<comments>`. */
module XmlScan {
  import opened Wrappers
  import opened Text
  import opened Utf8

  function StartTag(tag: string): string { "<" + tag + ">" }

  function EndTag(tag: string): string { "</" + tag + ">" }

  /** The content of the first `<tag>` element runs from `s` to `e`: `s` is just past the
      first `<tag>` of `xml`, and `e` is the first `</tag>` at or after `s`. */
  ghost predicate ContentSpan(xml: string, tag: string, s: int, e: int) {
    var st := StartTag(tag);
    && s >= |st|
    && FirstOccurrence(xml, st, s - |st|)
    && s <= e
    && FirstOccurrence(xml[s..], EndTag(tag), e - s)
  }

  /** `extract_xml_element`: the trimmed text between the first `<tag>` and the first `</tag>`
      after it; None when there is no `<tag>`, or no `</tag>` after the first one. */
  function ExtractXmlElement(xml: string, tag: string): (r: Option<string>)
    ensures r.Some? ==> Contains(xml, StartTag(tag))
  {
    var st := StartTag(tag);
    match Find(xml, st)
    case None => None
    case Some(i) =>
      var s := i + |st|;
      match Find(xml[s..], EndTag(tag))
      case None => None
      case Some(j) => Some(Trim(xml[s..s + j]))
  }

  /** The element exists exactly when the content span does, and is then the trimmed text
      of that span. */
  lemma ExtractSpec(xml: string, tag: string)
    ensures ExtractXmlElement(xml, tag).Some? <==> exists s, e :: ContentSpan(xml, tag, s, e)
    ensures ExtractXmlElement(xml, tag).Some? ==>
      exists s, e :: ContentSpan(xml, tag, s, e) && ExtractXmlElement(xml, tag).value == Trim(xml[s..e])
  {
    var st := StartTag(tag);
    match Find(xml, st)
    case None =>
      NoSpanWithoutStart(xml, tag);
    case Some(i) =>
      var s := i + |st|;
      match Find(xml[s..], EndTag(tag))
      case None =>
        NoSpanWithoutEnd(xml, tag, i);
      case Some(j) =>
        assert ContentSpan(xml, tag, s, s + j);
  }

  lemma NoSpanWithoutStart(xml: string, tag: string)
    requires forall k :: !OccursAt(xml, StartTag(tag), k)
    ensures forall s, e :: !ContentSpan(xml, tag, s, e)
  {
  }

  lemma NoSpanWithoutEnd(xml: string, tag: string, i: nat)
    requires FirstOccurrence(xml, StartTag(tag), i)
    requires !Contains(xml[i + |StartTag(tag)|..], EndTag(tag))
    ensures forall s, e :: !ContentSpan(xml, tag, s, e)
  {
    var st := StartTag(tag);
    forall s, e | ContentSpan(xml, tag, s, e) ensures false {
      FirstOccurrenceUnique(xml, st, s - |st|, i);
    }
  }

  /** There is at most one content span. */
  lemma SpanUnique(xml: string, tag: string, s: int, e: int)
    requires ContentSpan(xml, tag, s, e)
    ensures forall s', e' | ContentSpan(xml, tag, s', e') :: s' == s && e' == e
  {
    var st := StartTag(tag);
    forall s', e' | ContentSpan(xml, tag, s', e') ensures s' == s && e' == e {
      FirstOccurrenceUnique(xml, st, s - |st|, s' - |st|);
      FirstOccurrenceUnique(xml[s..], EndTag(tag), e - s, e' - s);
    }
  }

  /** No `<tag>` in the input: nothing is extracted. */
  lemma AbsentTag(xml: string, tag: string)
    requires !Contains(xml, StartTag(tag))
    ensures ExtractXmlElement(xml, tag) == None
  {
    ExtractSpec(xml, tag);
  }

  /** A `<tag>` with no `</tag>` after it: nothing is extracted. */
  lemma UnclosedTag(xml: string, tag: string, i: nat)
    requires FirstOccurrence(xml, StartTag(tag), i)
    requires !Contains(xml[i + |StartTag(tag)|..], EndTag(tag))
    ensures ExtractXmlElement(xml, tag) == None
  {
    NoSpanWithoutEnd(xml, tag, i);
    ExtractSpec(xml, tag);
  }

  /** A string without `<` holds no tag. */
  lemma NoAngle(s: string, pat: string)
    requires pat != [] && pat[0] == '<'
    requires forall i | 0 <= i < |s| :: s[i] != '<'
    ensures !Contains(s, pat)
  {
  }

  /** A pattern that has `<` only as its first character, placed after text that does not
      contain it, is first found right after that text. */
  lemma FirstAfter(pre: string, pat: string, rest: string)
    requires pat != [] && pat[0] == '<' && forall i | 1 <= i < |pat| :: pat[i] != '<'
    requires !Contains(pre, pat)
    ensures FirstOccurrence(pre + pat + rest, pat, |pre|)
  {
    var s := pre + pat + rest;
    assert s[|pre|..|pre| + |pat|] == pat;
    forall k | 0 <= k < |pre| ensures !OccursAt(s, pat, k) {
      if k + |pat| <= |pre| {
        assert s[k..k + |pat|] == pre[k..k + |pat|];
        assert !OccursAt(pre, pat, k);
      } else if k + |pat| <= |s| {
        assert s[k..k + |pat|][|pre| - k] == s[|pre|] == '<';
      }
    }
  }

  /** No `<` inside a tag name. */
  predicate PlainTag(tag: string) {
    forall i | 0 <= i < |tag| :: tag[i] != '<'
  }

  /** In a plain tag's start and end tags, `<` comes first and nowhere else. */
  lemma TagShape(tag: string)
    requires PlainTag(tag)
    ensures forall i | 1 <= i < |StartTag(tag)| :: StartTag(tag)[i] != '<'
    ensures forall i | 1 <= i < |EndTag(tag)| :: EndTag(tag)[i] != '<'
  {
    var st, et := StartTag(tag), EndTag(tag);
    assert forall i | 1 <= i < |st| - 1 :: st[i] == tag[i - 1];
    assert forall i | 2 <= i < |et| - 1 :: et[i] == tag[i - 2];
  }

  /** Whenever the content span exists, the element is the trimmed text of that span. */
  lemma ExtractAtSpan(xml: string, tag: string, s: int, e: int)
    requires ContentSpan(xml, tag, s, e)
    ensures ExtractXmlElement(xml, tag) == Some(Trim(xml[s..e]))
  {
    SpanUnique(xml, tag, s, e);
    ExtractSpec(xml, tag);
    var r := ExtractXmlElement(xml, tag);
    var s0, e0 :| ContentSpan(xml, tag, s0, e0) && r.value == Trim(xml[s0..e0]);
  }

  /** Where the content span lies when the element is written out. */
  lemma WrappedSpan(pre: string, tag: string, content: string, post: string)
    requires PlainTag(tag)
    requires !Contains(pre, StartTag(tag))
    requires !Contains(content, EndTag(tag))
    ensures var s := |pre| + |StartTag(tag)|;
      && ContentSpan(pre + StartTag(tag) + content + EndTag(tag) + post, tag, s, s + |content|)
      && (pre + StartTag(tag) + content + EndTag(tag) + post)[s..s + |content|] == content
  {
    var st, et := StartTag(tag), EndTag(tag);
    var rest := content + et + post;
    var xml := pre + st + rest;
    assert xml == pre + st + content + et + post;
    var s := |pre| + |st|;
    TagShape(tag);
    FirstAfter(pre, st, rest);
    assert xml[s..] == rest;
    FirstAfter(content, et, post);
    assert xml[s..s + |content|] == content;
  }

  /** The first `<tag>` element, with no `<tag>` before it and no `</tag>` inside it, is
      extracted as its content, trimmed, whatever follows it. */
  lemma ExtractWrapped(pre: string, tag: string, content: string, post: string)
    requires PlainTag(tag)
    requires !Contains(pre, StartTag(tag))
    requires !Contains(content, EndTag(tag))
    ensures ExtractXmlElement(pre + StartTag(tag) + content + EndTag(tag) + post, tag) == Some(Trim(content))
  {
    var s := |pre| + |StartTag(tag)|;
    WrappedSpan(pre, tag, content, post);
    SpanContent(pre + StartTag(tag) + content + EndTag(tag) + post, tag, s, s + |content|, content);
  }

  lemma SpanContent(xml: string, tag: string, s: int, e: int, content: string)
    requires ContentSpan(xml, tag, s, e) && xml[s..e] == content
    ensures ExtractXmlElement(xml, tag) == Some(Trim(content))
  {
    ExtractAtSpan(xml, tag, s, e);
  }

  /** The same, for an input known to be put together that way. */
  lemma ElementIs(xml: string, pre: string, tag: string, content: string, post: string)
    requires xml == pre + StartTag(tag) + content + EndTag(tag) + post
    requires PlainTag(tag)
    requires !Contains(pre, StartTag(tag))
    requires !Contains(content, EndTag(tag))
    ensures ExtractXmlElement(xml, tag) == Some(Trim(content))
  {
    ExtractWrapped(pre, tag, content, post);
  }

  /** Whitespace around the content is dropped. */
  lemma {:induction false} TrimStartPadded(pad: string, core: string)
    requires Blank(pad)
    requires core == [] || !IsWhitespace(core[0])
    ensures TrimStart(pad + core) == core
  {
    if pad != [] {
      assert (pad + core)[1..] == pad[1..] + core;
      TrimStartPadded(pad[1..], core);
    }
  }

  lemma {:induction false} TrimEndPadded(core: string, pad: string)
    requires Blank(pad)
    requires core == [] || !IsWhitespace(core[|core| - 1])
    ensures TrimEnd(core + pad) == core
  {
    if pad != [] {
      var init := pad[..|pad| - 1];
      assert (core + pad)[..|core + pad| - 1] == core + init;
      TrimEndPadded(core, init);
    } else {
      assert core + pad == core;
    }
  }

  /** `trim` of padded text gives back the text. */
  lemma TrimPadded(left: string, core: string, right: string)
    requires Blank(left)
    requires Blank(right)
    requires core != [] && !IsWhitespace(core[0]) && !IsWhitespace(core[|core| - 1])
    ensures Trim(left + core + right) == core
  {
    assert left + core + right == left + (core + right);
    TrimStartPadded(left, core + right);
    TrimEndPadded(core, right);
  }

  /** Text without whitespace at its ends is its own trim. */
  lemma TrimClean(core: string)
    requires core != [] && !IsWhitespace(core[0]) && !IsWhitespace(core[|core| - 1])
    ensures Trim(core) == core
  {
    assert TrimStart(core) == core;
    assert TrimEnd(core) == core;
  }

  /** The element an input is known to be put together from: its content with the padding on
      either side trimmed away. */
  lemma ExtractsTo(xml: string, pre: string, tag: string, left: string, core: string, right: string, post: string)
    requires xml == pre + StartTag(tag) + (left + core + right) + EndTag(tag) + post
    requires PlainTag(tag)
    requires !Contains(pre, StartTag(tag))
    requires !Contains(left + core + right, EndTag(tag))
    requires Blank(left)
    requires Blank(right)
    requires core != [] && !IsWhitespace(core[0]) && !IsWhitespace(core[|core| - 1])
    ensures ExtractXmlElement(xml, tag) == Some(core)
  {
    ElementIs(xml, pre, tag, left + core + right, post);
    TrimPadded(left, core, right);
  }

  /** The tags the tests below use. */
  lemma TitleTags()
    ensures StartTag("title") == "<title>" && EndTag("title") == "</title>"
    ensures PlainTag("title")
  {
  }

  lemma LinkTags()
    ensures StartTag("link") == "<link>" && EndTag("link") == "</link>"
    ensures PlainTag("link")
  {
  }

  /** The empty text holds no tag. */
  lemma NothingInEmpty(pat: string)
    requires pat != []
    ensures !Contains([], pat)
  {
  }

  /** Empty text on either side changes nothing. */
  lemma NoPadding(s: string)
    ensures [] + s + [] == s
  {
  }

  /** The extractor's unit tests, src/fetcher.rs:281-328. Each input is written as the
      concatenation of its parts (the strings are those of the tests), and each test is
      preceded by the facts about its parts that it needs. */
  lemma SimpleElement()
    ensures ExtractXmlElement("<title>" + "Hello World" + "</title>", "title") == Some("Hello World")
  {
    SimpleShape();
    TitleTags();
    NothingInEmpty(StartTag("title"));
    SimpleParts();
    ExtractsTo("<title>" + "Hello World" + "</title>", [], "title", [], "Hello World", [], []);
  }

  lemma SimpleShape()
    ensures "<title>" + "Hello World" + "</title>"
         == [] + StartTag("title") + ([] + "Hello World" + []) + EndTag("title") + []
  {
    TitleTags();
  }

  lemma SimpleParts()
    ensures !Contains([] + "Hello World" + [], EndTag("title"))
  {
    TitleTags();
    NoPadding("Hello World");
    AbsentChar("Hello World", EndTag("title"), '/');
  }

  lemma ElementWithWhitespace()
    ensures ExtractXmlElement("<link>" + "  " + "https://example.com" + "  " + "</link>", "link")
         == Some("https://example.com")
  {
    PaddedShape();
    LinkTags();
    NothingInEmpty(StartTag("link"));
    PaddedParts();
    ExtractsTo("<link>" + "  " + "https://example.com" + "  " + "</link>", [], "link", "  ", "https://example.com", "  ", []);
  }

  lemma PaddedShape()
    ensures "<link>" + "  " + "https://example.com" + "  " + "</link>"
         == [] + StartTag("link") + ("  " + "https://example.com" + "  ") + EndTag("link") + []
  {
    LinkTags();
  }

  lemma PaddedParts()
    ensures !Contains("  " + "https://example.com" + "  ", EndTag("link"))
  {
    LinkTags();
    AbsentChar("  " + "https://example.com" + "  ", EndTag("link"), 'k');
  }

  lemma ElementNotFound()
    ensures ExtractXmlElement("<title>" + "Hello" + "</title>", "link") == None
  {
    NotFoundParts();
    AbsentTag("<title>" + "Hello" + "</title>", "link");
  }

  lemma NotFoundParts()
    ensures !Contains("<title>" + "Hello" + "</title>", StartTag("link"))
  {
    LinkTags();
    AbsentChar("<title>" + "Hello" + "</title>", StartTag("link"), 'k');
  }

  lemma EmptyElement()
    ensures ExtractXmlElement("<title>" + "</title>", "title") == Some("")
  {
    EmptyShape();
    TitleTags();
    NothingInEmpty(StartTag("title"));
    NothingInEmpty(EndTag("title"));
    ElementIs("<title>" + "</title>", [], "title", [], []);
  }

  lemma EmptyShape()
    ensures "<title>" + "</title>" == [] + StartTag("title") + [] + EndTag("title") + []
  {
    TitleTags();
  }


  lemma NoClosingTag()
    ensures ExtractXmlElement("<title>" + "Hello", "title") == None
  {
    UnclosedParts();
    UnclosedTag("<title>" + "Hello", "title", 0);
  }

  lemma UnclosedParts()
    ensures FirstOccurrence("<title>" + "Hello", StartTag("title"), 0)
    ensures !Contains(("<title>" + "Hello")[0 + |StartTag("title")|..], EndTag("title"))
  {
    TitleTags();
    TagShape("title");
    FirstAfter([], StartTag("title"), "Hello");
    assert [] + StartTag("title") + "Hello" == "<title>" + "Hello";
    assert ("<title>" + "Hello")[|StartTag("title")|..] == "Hello";
    AbsentChar("Hello", EndTag("title"), '/');
  }

  lemma SurroundingContent()
    ensures ExtractXmlElement("<item>" + "<link>" + "https://example.com" + "</link>" + "<title>Test</title></item>", "link")
         == Some("https://example.com")
  {
    SurroundedShape();
    LinkTags();
    SurroundedPrefix();
    SurroundedParts();
    ExtractsTo("<item>" + "<link>" + "https://example.com" + "</link>" + "<title>Test</title></item>",
      "<item>", "link", [], "https://example.com", [], "<title>Test</title></item>");
  }

  lemma SurroundedShape()
    ensures "<item>" + "<link>" + "https://example.com" + "</link>" + "<title>Test</title></item>"
         == "<item>" + StartTag("link") + ([] + "https://example.com" + []) + EndTag("link") + "<title>Test</title></item>"
  {
    LinkTags();
  }

  lemma SurroundedParts()
    ensures !Contains([] + "https://example.com" + [], EndTag("link"))
  {
    LinkTags();
    NoPadding("https://example.com");
    AbsentChar("https://example.com", EndTag("link"), 'k');
  }

  lemma SurroundedPrefix()
    ensures !Contains("<item>", StartTag("link"))
  {
    LinkTags();
    AbsentChar("<item>", StartTag("link"), 'l');
  }

  lemma FirstOfSeveral()
    ensures ExtractXmlElement("<link>" + "first" + "</link>" + "<link>second</link>", "link") == Some("first")
  {
    SeveralShape();
    LinkTags();
    NothingInEmpty(StartTag("link"));
    SeveralParts();
    ExtractsTo("<link>" + "first" + "</link>" + "<link>second</link>", [], "link", [], "first", [], "<link>second</link>");
  }

  lemma SeveralShape()
    ensures "<link>" + "first" + "</link>" + "<link>second</link>"
         == [] + StartTag("link") + ([] + "first" + []) + EndTag("link") + "<link>second</link>"
  {
    LinkTags();
  }

  lemma SeveralParts()
    ensures !Contains([] + "first" + [], EndTag("link"))
  {
    LinkTags();
    NoPadding("first");
    AbsentChar("first", EndTag("link"), '<');
  }

  // ---------------------------------------------------------------------------------------
  // extract_comments_from_xml

  const ItemOpen: string := "<item>"
  const ItemClose: string := "</item>"

  /** `xml_str.split("<item>").skip(1)`: the text after each `<item>`, up to the next one. */
  function ItemBlocks(text: string): (blocks: seq<string>) {
    Split(text, ItemOpen)[1..]
  }

  /** The part of a block before its first `</item>`, or all of it when it has none. */
  function ItemBody(block: string): (body: string)
    ensures |body| <= |block| && body == block[..|body|]
    ensures !Contains(block, ItemClose) ==> body == block
    ensures Contains(block, ItemClose) ==> OccursAt(block, ItemClose, |body|)
    ensures !Contains(body, ItemClose)
  {
    match Find(block, ItemClose)
    case None => block
    case Some(e) =>
      NothingBeforeFirst(block, ItemClose, e);
      block[..e]
  }

  /** The (link, comments) pair of one item body, when it has both elements. */
  function BodyPair(body: string): Option<(string, string)> {
    match (ExtractXmlElement(body, "link"), ExtractXmlElement(body, "comments"))
    case (Some(link), Some(comments)) => Some((link, comments))
    case _ => None
  }

  /** The pair of each block, in order. */
  function BlockPairs(blocks: seq<string>): (pairs: seq<Option<(string, string)>>)
    ensures |pairs| == |blocks|
  {
    seq(|blocks|, i requires 0 <= i < |blocks| => BodyPair(ItemBody(blocks[i])))
  }

  /** The map the pairs build when inserted in order: a later pair with the same link replaces
      the comments URL of an earlier one. */
  function CommentsOf(pairs: seq<Option<(string, string)>>): (m: map<string, string>)
    ensures |m| <= |pairs|
    ensures forall link | link in m :: Some((link, m[link])) in pairs
    decreases |pairs|
  {
    if pairs == [] then map[]
    else
      var init := pairs[..|pairs| - 1];
      var prev := CommentsOf(init);
      assert forall p | p in init :: p in pairs;
      match pairs[|pairs| - 1]
      case None => prev
      case Some((link, comments)) => prev[link := comments]
  }

  /** `extract_comments_from_xml` as a function of the bytes: the map from the item blocks of
      the decoded text, or the empty map when the bytes are not UTF-8. */
  function CommentsMap(bytes: seq<byte>): map<string, string> {
    match Decode(bytes)
    case None => map[]
    case Some(text) => CommentsOf(BlockPairs(ItemBlocks(text)))
  }

  /** The loop body of `extract_comments_from_xml` for one block: its `<link>` and
      `<comments>`, looked for only before the block's `</item>`. */
  method ScanItem(block: string) returns (link: Option<string>, comments: Option<string>)
    ensures link.Some? && comments.Some? <==> BodyPair(ItemBody(block)).Some?
    ensures BodyPair(ItemBody(block)).Some? ==> BodyPair(ItemBody(block)).value == (link.value, comments.value)
  {
    var end := Find(block, ItemClose);
    var item := if end.Some? then block[..end.value] else block;
    link := ExtractXmlElement(item, "link");
    comments := ExtractXmlElement(item, "comments");
  }

  /** The loop of `extract_comments_from_xml` over the blocks that follow each `<item>`. */
  method CollectComments(blocks: seq<string>) returns (m: map<string, string>)
    ensures m == CommentsOf(BlockPairs(blocks))
  {
    m := map[];
    ghost var pairs := BlockPairs(blocks);
    var k := 0;
    while k < |blocks|
      invariant 0 <= k <= |blocks|
      invariant m == CommentsOf(pairs[..k])
    {
      var link, comments := ScanItem(blocks[k]);
      BlockPairAt(blocks, k);
      CommentsOfPrefix(pairs, k);
      if link.Some? && comments.Some? {
        m := m[link.value := comments.value];
      }
      k := k + 1;
    }
    assert pairs[..k] == pairs;
  }

  /** One more pair: the map of the longer prefix records it, or is unchanged for None. */
  lemma CommentsOfPrefix(pairs: seq<Option<(string, string)>>, k: nat)
    requires k < |pairs|
    ensures pairs[k].None? ==> CommentsOf(pairs[..k + 1]) == CommentsOf(pairs[..k])
    ensures pairs[k].Some? ==>
      CommentsOf(pairs[..k + 1]) == CommentsOf(pairs[..k])[pairs[k].value.0 := pairs[k].value.1]
  {
    assert pairs[..k + 1][..k] == pairs[..k];
  }

  /** `extract_comments_from_xml`: the empty map when the bytes are not UTF-8; otherwise the
      link -> comments pairs of the `<item>` blocks, the text before the first `<item>` skipped. */
  method ExtractCommentsFromXml(bytes: seq<byte>) returns (m: map<string, string>)
    ensures m == CommentsMap(bytes)
    ensures Decode(bytes).None? ==> m == map[]
  {
    var decoded := Decode(bytes);
    if decoded.None? {
      return map[];
    }
    var pieces := Split(decoded.value, ItemOpen);
    m := CollectComments(pieces[1..]);
  }

  /** Which comments URL a link ends up with: that of the last pair carrying the link. */
  lemma {:induction false} LastPairWins(pairs: seq<Option<(string, string)>>, i: nat, link: string, comments: string)
    requires i < |pairs| && pairs[i] == Some((link, comments))
    requires forall j | i < j < |pairs| :: pairs[j].None? || pairs[j].value.0 != link
    ensures link in CommentsOf(pairs) && CommentsOf(pairs)[link] == comments
    decreases |pairs|
  {
    var init := pairs[..|pairs| - 1];
    if i < |pairs| - 1 {
      LastPairWins(init, i, link, comments);
    }
  }

  /** A link is recorded as soon as one pair carries it. */
  lemma {:induction false} LinkRecorded(pairs: seq<Option<(string, string)>>, i: nat, link: string, c: string)
    requires i < |pairs| && pairs[i] == Some((link, c))
    ensures link in CommentsOf(pairs)
    decreases |pairs|
  {
    var init := pairs[..|pairs| - 1];
    if i < |pairs| - 1 {
      LinkRecorded(init, i, link, c);
    }
  }

  /** Text before the first `<item>` plays no part. */
  lemma PreambleIgnored(pre: string, rest: string)
    requires FirstOccurrence(pre + ItemOpen + rest, ItemOpen, |pre|)
    ensures ItemBlocks(pre + ItemOpen + rest) == Split(rest, ItemOpen)
  {
    var text := pre + ItemOpen + rest;
    assert Find(text, ItemOpen) == Some(|pre|);
    assert text[|pre| + |ItemOpen|..] == rest;
  }

  /** `<item>` and `</item>` have `<` first and nowhere else. */
  lemma ItemTagsShape()
    ensures ItemOpen == StartTag("item") && ItemClose == EndTag("item")
    ensures forall i | 1 <= i < |ItemOpen| :: ItemOpen[i] != '<'
    ensures forall i | 1 <= i < |ItemClose| :: ItemClose[i] != '<'
  {
    TagShape("item");
  }

  /** Splitting pieces joined by a tag-like separator that none of them contains gives the
      pieces back. */
  lemma {:induction false} SplitJoinTags(pieces: seq<string>, sep: string)
    requires sep != [] && sep[0] == '<' && forall i | 1 <= i < |sep| :: sep[i] != '<'
    requires pieces != [] && forall i | 0 <= i < |pieces| :: !Contains(pieces[i], sep)
    ensures Split(Join(pieces, sep), sep) == pieces
    decreases |pieces|
  {
    if |pieces| > 1 {
      SplitFirst(pieces[0], sep, Join(pieces[1..], sep));
      SplitJoinTags(pieces[1..], sep);
      assert pieces == [pieces[0]] + pieces[1..];
    }
  }

  /** A first piece without the separator is split off whole. */
  lemma SplitFirst(p: string, sep: string, rest: string)
    requires sep != [] && sep[0] == '<' && forall i | 1 <= i < |sep| :: sep[i] != '<'
    requires !Contains(p, sep)
    ensures Split(p + sep + rest, sep) == [p] + Split(rest, sep)
  {
    var text := p + sep + rest;
    FirstAfter(p, sep, rest);
    var i := Find(text, sep).value;
    FirstOccurrenceUnique(text, sep, i, |p|);
    assert text[|p| + |sep|..] == rest;
    assert text[..|p|] == p;
  }

  /** The pieces after the first separator of a text made of a preamble and pieces joined by a
      tag-like separator. */
  lemma SplitAfterPreamble(pre: string, blocks: seq<string>, sep: string)
    requires sep != [] && sep[0] == '<' && forall i | 1 <= i < |sep| :: sep[i] != '<'
    requires !Contains(pre, sep)
    requires blocks != [] && forall i | 0 <= i < |blocks| :: !Contains(blocks[i], sep)
    ensures Split(pre + sep + Join(blocks, sep), sep)[1..] == blocks
  {
    var pieces := [pre] + blocks;
    assert pieces[1..] == blocks;
    assert Join(pieces, sep) == pre + sep + Join(blocks, sep);
    SplitJoinTags(pieces, sep);
  }

  /** The blocks of a text made of a preamble and blocks each opened by `<item>`. */
  lemma ItemBlocksOf(pre: string, blocks: seq<string>)
    requires !Contains(pre, ItemOpen)
    requires blocks != [] && forall i | 0 <= i < |blocks| :: !Contains(blocks[i], ItemOpen)
    ensures ItemBlocks(pre + ItemOpen + Join(blocks, ItemOpen)) == blocks
  {
    ItemTagsShape();
    SplitAfterPreamble(pre, blocks, ItemOpen);
  }

  /** The map an RSS document of that shape gives, sent as UTF-8: that of its blocks' pairs. */
  lemma RssComments(pre: string, blocks: seq<string>)
    requires !Contains(pre, ItemOpen)
    requires blocks != [] && forall i | 0 <= i < |blocks| :: !Contains(blocks[i], ItemOpen)
    ensures CommentsMap(Encode(pre + ItemOpen + Join(blocks, ItemOpen))) == CommentsOf(BlockPairs(blocks))
  {
    DecodeEncode(pre + ItemOpen + Join(blocks, ItemOpen));
    ItemBlocksOf(pre, blocks);
  }

  /** A block is read only up to its first `</item>`. */
  lemma BodyBeforeClose(body: string, tail: string)
    requires !Contains(body, ItemClose)
    ensures ItemBody(body + ItemClose + tail) == body
  {
    ItemTagsShape();
    var block := body + ItemClose + tail;
    FirstAfter(body, ItemClose, tail);
    FirstOccurrenceUnique(block, ItemClose, Find(block, ItemClose).value, |body|);
    assert block[..|body|] == body;
  }

  /** An item body with a `<link>` element followed by a `<comments>` element pairs their
      trimmed contents. */
  lemma LinkAndComments(a: string, link: string, b: string, comments: string, c: string)
    requires !Contains(a, StartTag("link")) && !Contains(link, EndTag("link"))
    requires !Contains(a + StartTag("link") + link + EndTag("link") + b, StartTag("comments"))
    requires !Contains(comments, EndTag("comments"))
    ensures var head := a + StartTag("link") + link + EndTag("link") + b;
      BodyPair(head + StartTag("comments") + comments + EndTag("comments") + c) == Some((Trim(link), Trim(comments)))
  {
    var head := a + StartTag("link") + link + EndTag("link") + b;
    var tail := b + StartTag("comments") + comments + EndTag("comments") + c;
    var body := head + StartTag("comments") + comments + EndTag("comments") + c;
    Regroup(a, StartTag("link"), link, EndTag("link"), b, StartTag("comments") + comments + EndTag("comments") + c);
    PairTags();
    ElementIs(body, a, "link", link, tail);
    ElementIs(body, head, "comments", comments, c);
    PairOf(body, Trim(link), Trim(comments));
  }

  lemma PairTags()
    ensures PlainTag("link") && PlainTag("comments")
  {
  }

  lemma Regroup(a: string, st: string, x: string, et: string, b: string, rest: string)
    ensures a + st + x + et + b + (rest) == a + st + x + et + (b + rest)
    ensures (a + st + x + et + b) + rest == a + st + x + et + (b + rest)
  {
  }

  /** Both elements found: the body's pair is theirs. */
  lemma PairOf(body: string, link: string, comments: string)
    requires ExtractXmlElement(body, "link") == Some(link)
    requires ExtractXmlElement(body, "comments") == Some(comments)
    ensures BodyPair(body) == Some((link, comments))
  {
  }

  /** An item body without a `<comments>` element adds nothing. */
  lemma NoCommentsElement(body: string)
    requires !Contains(body, StartTag("comments"))
    ensures BodyPair(body) == None
  {
    AbsentTag(body, "comments");
  }

  /** A document without `<item>` gives the empty map. */
  lemma NoItems(text: string)
    requires !Contains(text, ItemOpen)
    ensures CommentsMap(Encode(text)) == map[]
  {
    DecodeEncode(text);
    assert Split(text, ItemOpen) == [text];
  }

  /** The shapes of the extractor's unit tests, src/fetcher.rs:335-447: one item with both
      elements gives one entry; an item without `<comments>` gives none; of three items the
      two with comments are recorded and the one without is not. */
  lemma SingleItemWithComments(pre: string, body: string, post: string, link: string, comments: string)
    requires !Contains(pre, ItemOpen) && !Contains(body, ItemOpen) && !Contains(body, ItemClose)
    requires !Contains(post, ItemOpen)
    requires BodyPair(body) == Some((link, comments))
    ensures CommentsMap(Encode(pre + ItemOpen + Join([body + ItemClose + post], ItemOpen))) == map[link := comments]
  {
    var block := body + ItemClose + post;
    ItemTagsShape();
    ClosedBlockHasNoOpen(body, post);
    RssComments(pre, [block]);
    BodyBeforeClose(body, post);
    assert BlockPairs([block]) == [Some((link, comments))];
    assert [Some((link, comments))][..0] == [];
  }

  lemma ItemWithoutComments(pre: string, body: string, post: string)
    requires !Contains(pre, ItemOpen) && !Contains(body, ItemOpen) && !Contains(body, ItemClose)
    requires !Contains(post, ItemOpen)
    requires !Contains(body, StartTag("comments"))
    ensures CommentsMap(Encode(pre + ItemOpen + Join([body + ItemClose + post], ItemOpen))) == map[]
  {
    var block := body + ItemClose + post;
    ClosedBlockHasNoOpen(body, post);
    RssComments(pre, [block]);
    BodyBeforeClose(body, post);
    NoCommentsElement(body);
    var pairs: seq<Option<(string, string)>> := [None];
    assert BlockPairs([block]) == pairs;
    assert pairs[..0] == [];
  }

  lemma MixedItems(pre: string, blocks: seq<string>, link1: string, c1: string, link2: string, link3: string, c3: string)
    requires !Contains(pre, ItemOpen)
    requires |blocks| == 3 && forall i | 0 <= i < 3 :: !Contains(blocks[i], ItemOpen)
    requires BodyPair(ItemBody(blocks[0])) == Some((link1, c1))
    requires !Contains(ItemBody(blocks[1]), StartTag("comments"))
    requires BodyPair(ItemBody(blocks[2])) == Some((link3, c3))
    requires link1 != link3 && link2 != link1 && link2 != link3
    ensures var m := CommentsMap(Encode(pre + ItemOpen + Join(blocks, ItemOpen)));
      && |m| == 2
      && link1 in m && m[link1] == c1
      && link2 !in m
      && link3 in m && m[link3] == c3
  {
    RssComments(pre, blocks);
    NoCommentsElement(ItemBody(blocks[1]));
    MixedPairs(blocks, link1, c1, link3, c3);
    TwoOfThree(link1, c1, link2, link3, c3);
  }

  /** The pairs of a block with both elements, a block without comments, and another. */
  lemma MixedPairs(blocks: seq<string>, link1: string, c1: string, link3: string, c3: string)
    requires |blocks| == 3
    requires BodyPair(ItemBody(blocks[0])) == Some((link1, c1))
    requires BodyPair(ItemBody(blocks[1])) == None
    requires BodyPair(ItemBody(blocks[2])) == Some((link3, c3))
    ensures BlockPairs(blocks) == [Some((link1, c1)), None, Some((link3, c3))]
  {
    BlockPairAt(blocks, 0);
    BlockPairAt(blocks, 1);
    BlockPairAt(blocks, 2);
    ThreePairs(BlockPairs(blocks), Some((link1, c1)), None, Some((link3, c3)));
  }

  lemma BlockPairAt(blocks: seq<string>, i: nat)
    requires i < |blocks|
    ensures BlockPairs(blocks)[i] == BodyPair(ItemBody(blocks[i]))
  {
  }

  lemma ThreePairs(pairs: seq<Option<(string, string)>>, p0: Option<(string, string)>,
                   p1: Option<(string, string)>, p2: Option<(string, string)>)
    requires |pairs| == 3 && pairs[0] == p0 && pairs[1] == p1 && pairs[2] == p2
    ensures pairs == [p0, p1, p2]
  {
  }

  /** The map of a pair, a block without one, and another pair. */
  lemma TwoOfThree(link1: string, c1: string, link2: string, link3: string, c3: string)
    requires link1 != link3 && link2 != link1 && link2 != link3
    ensures var m := CommentsOf([Some((link1, c1)), None, Some((link3, c3))]);
      && |m| == 2
      && link1 in m && m[link1] == c1
      && link2 !in m
      && link3 in m && m[link3] == c3
  {
    var pairs := [Some((link1, c1)), None, Some((link3, c3))];
    LastPairWins(pairs, 0, link1, c1);
    LastPairWins(pairs, 2, link3, c3);
    var m := CommentsOf(pairs);
    assert m.Keys == {link1, link3};
  }

  /** A tag-like `open` does not occur across a tag-like `close` that differs from it in its
      second character, when neither side contains it. */
  lemma NoOpenAcrossClose(body: string, close: string, post: string, open: string)
    requires |open| >= 2 && open[0] == '<' && forall i | 1 <= i < |open| :: open[i] != '<'
    requires |close| >= 2 && close[0] == '<' && close[1] != open[1]
    requires forall i | 1 <= i < |close| :: close[i] != '<'
    requires !Contains(body, open) && !Contains(post, open)
    ensures !Contains(body + close + post, open)
  {
    var block := body + close + post;
    assert block[0..|body|] == body;
    assert block[|body|..|body| + |close|] == close;
    assert block[|body| + |close|..|block|] == post;
    forall k | 0 <= k && k + |open| <= |block| ensures !OccursAt(block, open, k) {
      if k + |open| <= |body| {
        NotWithin(block, body, 0, open, k);
      } else if k < |body| + |close| {
        AcrossClose(block, body, close, open, k);
      } else {
        NotWithin(block, post, |body| + |close|, open, k);
      }
    }
  }

  /** A window that lies inside a part without the pattern is not the pattern. */
  lemma NotWithin(block: string, part: string, off: nat, pat: string, k: nat)
    requires off + |part| <= |block| && block[off..off + |part|] == part
    requires off <= k && k + |pat| <= off + |part|
    requires !Contains(part, pat)
    ensures !OccursAt(block, pat, k)
  {
    var w, v := block[k..k + |pat|], part[k - off..k - off + |pat|];
    forall j | 0 <= j < |pat| ensures w[j] == v[j] {
      assert part[k - off + j] == block[off..off + |part|][k - off + j];
    }
    assert w == v;
    assert !OccursAt(part, pat, k - off);
  }

  /** A window that starts before the end of `close` and reaches past `body` is not `open`:
      it has a `<` where `open` has none, or the wrong second character. */
  lemma AcrossClose(block: string, body: string, close: string, open: string, k: nat)
    requires |open| >= 2 && open[0] == '<' && forall i | 1 <= i < |open| :: open[i] != '<'
    requires |close| >= 2 && close[0] == '<' && close[1] != open[1]
    requires forall i | 1 <= i < |close| :: close[i] != '<'
    requires |body| + |close| <= |block| && block[|body|..|body| + |close|] == close
    requires |body| < k + |open| && k < |body| + |close| && k + |open| <= |block|
    ensures !OccursAt(block, open, k)
  {
    var w := block[k..k + |open|];
    if k < |body| {
      assert w[|body| - k] == close[0] == '<';
    } else if k == |body| {
      assert w[1] == close[1];
    } else {
      assert w[0] == close[k - |body|];
    }
  }

  /** A block closed by `</item>` has no `<item>` in it when neither side has one. */
  lemma ClosedBlockHasNoOpen(body: string, post: string)
    requires !Contains(body, ItemOpen) && !Contains(post, ItemOpen)
    ensures !Contains(body + ItemClose + post, ItemOpen)
  {
    ItemTagsShape();
    NoOpenAcrossClose(body, ItemClose, post, ItemOpen);
  }

  /** Empty input gives the empty map. */
  lemma EmptyInput()
    ensures CommentsMap([]) == map[]
  {
    assert Split([], ItemOpen) == [[]];
  }

  /** Bytes that are not UTF-8, as in the extractor's unit test, give the empty map. */
  lemma InvalidUtf8Input()
    ensures CommentsMap([0xFF, 0xFE, 0x00, 0x01]) == map[]
  {
    InvalidLeadByte();
  }
}

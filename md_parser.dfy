/** The block parser of md_parser.c. Each line is offered to the heading
    recogniser, then the blockquote recogniser, then the paragraph
    recogniser; a blank line after an open block becomes a section break.
    The multi-line recognisers merge a line into the open block by
    rewriting its content in place, and a blockquote's accumulated content
    is split into lines again and parsed into child blocks. */
module MdParser {
  import opened Ctype
  import opened FileReader

  // ---------------------------------------------------------------------
  // Blocks
  // ---------------------------------------------------------------------

  /** BlockTag: the heading kinds H1..H6 carry their level 1..6. */
  datatype BlockKind = Heading(level: nat) | Paragraph | SectionBreak | Blockquote | HorizontalLine

  /** TagType: BLOCK or INLINE. */
  datatype TagType = Block | Inline

  /** The fields of an MDBlock except its links; `content` and `tag` are
      NULL when None. */
  datatype BlockValue = BlockValue(content: Option<string>, tag: Option<string>, kind: BlockKind, tagType: TagType)

  /** What a recogniser does with a line: nothing, merge it into the open
      block (the C functions return that same block), or open a new one. */
  datatype Parsed = NoMatch | Merged(block: BlockValue) | Opened(block: BlockValue)

  /** MDBlock: a block of the document, linked to its first child and to
      the block after it. */
  class MDBlock {
    var content: Option<string>
    var tag: Option<string>
    var kind: BlockKind
    var tagType: TagType
    var child: MDBlock?
    var next: MDBlock?

    /** A freshly malloc'd block with both links NULL. */
    constructor (content: Option<string>, tag: Option<string>, kind: BlockKind, tagType: TagType)
      ensures View() == BlockValue(content, tag, kind, tagType)
      ensures child == null && next == null
    {
      this.content := content;
      this.tag := tag;
      this.kind := kind;
      this.tagType := tagType;
      child := null;
      next := null;
    }

    function View(): BlockValue
      reads this
    {
      BlockValue(content, tag, kind, tagType)
    }
  }

  /** The open block a recogniser is given, as a value. */
  function Current(b: MDBlock?): Option<BlockValue>
    reads b
  {
    if b == null then None else Some(b.View())
  }

  /** The blocks whose content the recognisers read are never NULL. */
  predicate Wellformed(v: BlockValue) {
    v.kind == Paragraph || v.kind == Blockquote ==> v.content.Some?
  }

  /** The content of a block, "" standing for NULL. */
  function Body(v: BlockValue): string {
    if v.content.Some? then v.content.value else ""
  }

  /** is_header_block: the kind is one of H1..H6. */
  function IsHeaderBlock(v: BlockValue): (r: bool)
    ensures r <==> exists level :: 1 <= level <= 6 && v.kind == Heading(level)
  {
    v.kind.Heading? && 1 <= v.kind.level <= 6
  }

  /** is_empty_or_whitespace: the character loop; NULL counts as empty. */
  method IsEmptyOrWhitespace(str: Option<string>) returns (r: bool)
    ensures r <==> str.None? || AllSpace(str.value)
  {
    if str.None? {
      return true;
    }
    var s := str.value;
    var i := 0;
    while i < |s|
      invariant i <= |s|
      invariant forall k :: 0 <= k < i ==> IsSpace(s[k])
    {
      if !IsSpace(s[i]) {
        return false;
      }
      i := i + 1;
    }
    return true;
  }

  // ---------------------------------------------------------------------
  // The recognisers, as functions of the open block and the line
  // ---------------------------------------------------------------------

  /** Length of the run of `c` that starts at index `i`. */
  function CharRun(s: string, i: nat, c: char): (n: nat)
    requires i <= |s|
    ensures i + n <= |s|
    ensures forall k :: i <= k < i + n ==> s[k] == c
    ensures i + n == |s| || s[i + n] != c
    decreases |s| - i
  {
    if i < |s| && s[i] == c then 1 + CharRun(s, i + 1, c) else 0
  }

  lemma CharRunIs(s: string, i: nat, c: char, j: nat)
    requires i <= j <= |s|
    requires forall k :: i <= k < j ==> s[k] == c
    requires j == |s| || s[j] != c
    ensures CharRun(s, i, c) == j - i
    decreases j - i
  {
    if i < j {
      CharRunIs(s, i + 1, c, j);
    }
  }

  /** `sprintf(tag, "h%d", level)` for a one-digit level. */
  function HeadingTag(level: nat): string
    requires level <= 9
  {
    ['h', ('0' as int + level) as char]
  }

  /** heading_parser: the run of `#`, a whitespace character right after
      it, and a level of 1 to 6; the content is what follows the whole
      whitespace run. */
  function HeadingLine(line: string): Option<BlockValue> {
    var n := CharRun(line, 0, '#');
    if !IsSpace(At(line, n)) || n == 0 || n > 6 then None
    else Some(BlockValue(Some(line[n + SpaceRun(line, n)..]), Some(HeadingTag(n)), Heading(n), Block))
  }

  /** paragraph_parser: a blank line is refused; an open paragraph takes
      the line after a space; otherwise a new paragraph starts. */
  function ParagraphLine(curr: Option<BlockValue>, line: string): Parsed {
    if AllSpace(line) then NoMatch
    else if curr.Some? && curr.value.kind == Paragraph then
      Merged(curr.value.(content := Some(Body(curr.value) + " " + line)))
    else Opened(BlockValue(Some(line), Some("p"), Paragraph, Block))
  }

  /** The syntax test of blockquote_parser: after the run of `>` comes
      whitespace or the end of the line. */
  predicate QuoteSyntax(line: string) {
    var n := CharRun(line, 0, '>');
    n == |line| || IsSpace(line[n])
  }

  /** The text blockquote_parser keeps: exactly one leading character is
      dropped, then the whitespace run after it. */
  function Unquoted(line: string): string
    requires line != []
  {
    line[1 + SpaceRun(line, 1)..]
  }

  /** blockquote_parser: an open blockquote takes the text and a newline;
      a new blockquote opens only at the start, after a section break or
      after a heading; after anything else (a paragraph) the line is
      refused. */
  function QuoteLine(curr: Option<BlockValue>, line: string): Parsed {
    if AllSpace(line) || !QuoteSyntax(line) then NoMatch
    else
      var text := Unquoted(line);
      if curr.Some? && curr.value.kind == Blockquote then
        Merged(curr.value.(content := Some(Body(curr.value) + text + "\n")))
      else if curr.None? || curr.value.kind == SectionBreak || IsHeaderBlock(curr.value) then
        Opened(BlockValue(Some(text + "\n"), Some("blockquote"), Blockquote, Block))
      else NoMatch
  }

  /** The block block_parsing makes for a blank line: no content, INLINE,
      and a tag that is never set. */
  const SectionBreakBlock := BlockValue(None, None, SectionBreak, Inline)

  /** block_parsing: heading, then blockquote, then paragraph; when all
      three refuse, a section break, except that with no open block the
      paragraph's NULL equals the current NULL and nothing is returned. */
  function ParseLine(curr: Option<BlockValue>, line: string): Parsed {
    match HeadingLine(line)
    case Some(h) => Opened(h)
    case None =>
      var q := QuoteLine(curr, line);
      if !q.NoMatch? then q
      else
        var p := ParagraphLine(curr, line);
        if !p.NoMatch? then p
        else if curr.None? then NoMatch
        else Opened(SectionBreakBlock)
  }

  // ---------------------------------------------------------------------
  // The block list a sequence of lines gives
  // ---------------------------------------------------------------------

  /** The open block: the last one made. */
  function Tail(vs: seq<BlockValue>): Option<BlockValue> {
    if vs == [] then None else Some(vs[|vs| - 1])
  }

  /** The list after one recogniser outcome. */
  function Apply(vs: seq<BlockValue>, p: Parsed): seq<BlockValue> {
    match p
    case NoMatch => vs
    case Merged(v) => if vs == [] then [] else vs[..|vs| - 1] + [v]
    case Opened(v) => vs + [v]
  }

  /** The blocks the lines give, in line order, each line offered to
      block_parsing with the last block as the open one. */
  function Run(lines: seq<string>): seq<BlockValue> {
    if lines == [] then []
    else
      var prev := Run(lines[..|lines| - 1]);
      Apply(prev, ParseLine(Tail(prev), lines[|lines| - 1]))
  }

  /** A block of the document with its children. */
  datatype Tree = Tree(block: BlockValue, children: seq<Tree>)

  /** Second component of the measure the child parse decreases: content
      that does not end with a newline counts as one step larger. */
  function Flag(c: string): nat {
    if EndsWith(c, '\n') then 0 else 1
  }

  /** `inner` is below `outer` in the (length, Flag) order. */
  predicate Shrinks(inner: string, outer: string) {
    |inner| < |outer| || (|inner| == |outer| && Flag(inner) < Flag(outer))
  }

  /** child_block_parsing of a block with content `c`: the blocks of its
      lines, every blockquote among them with the parse of its own content
      as children. */
  function Forest(c: string): seq<Tree>
    decreases |c|, Flag(c), 1
  {
    Grow(c, Run(Split(c, '\n')))
  }

  function Grow(c: string, vs: seq<BlockValue>): seq<Tree>
    decreases |c|, Flag(c), 0, |vs|
  {
    if vs == [] then []
    else Grow(c, vs[..|vs| - 1]) + [Tree(vs[|vs| - 1], Kids(c, vs[|vs| - 1]))]
  }

  /** The children of one block made from `c`; a nested blockquote always
      shrinks (ChildContentShrinks), so the guard only states the
      termination argument. */
  function Kids(c: string, v: BlockValue): seq<Tree>
    decreases |c|, Flag(c), 0, 0
  {
    if v.kind == Blockquote && Shrinks(Body(v), c) then Forest(Body(v)) else []
  }

  // ---------------------------------------------------------------------
  // What the recognisers promise
  // ---------------------------------------------------------------------

  /** heading_parser accepts exactly a run of 1 to 6 `#` followed by a
      whitespace character; the heading has that many hashes as its level,
      "h" and the level's digit as its tag, and as content the rest of the
      line after the whole whitespace run. */
  lemma HeadingLineFacts(line: string)
    ensures var n := CharRun(line, 0, '#');
      HeadingLine(line).Some? <==> 1 <= n <= 6 && n < |line| && IsSpace(line[n])
    ensures HeadingLine(line).Some? ==>
      var n := CharRun(line, 0, '#');
      var h := HeadingLine(line).value;
      var t := h.content.value;
      h.kind == Heading(n) && h.tag == Some(['h', "0123456"[n]]) && h.tagType == Block
      && h.content.Some? && n < |line| - |t| && line[|line| - |t|..] == t
      && (forall k :: n <= k < |line| - |t| ==> IsSpace(line[k]))
      && (t == [] || !IsSpace(t[0]))
  {
  }

  /** No `#` at all, seven or more, or a non-space right after the run:
      no heading. */
  lemma HeadingRefused(line: string)
    requires line == [] || line[0] != '#' || CharRun(line, 0, '#') > 6
             || !IsSpace(At(line, CharRun(line, 0, '#')))
    ensures HeadingLine(line).None?
  {
  }

  /** The text of a quoted line drops its first character and the
      whitespace after it, and nothing more. */
  lemma UnquotedFacts(line: string)
    requires line != []
    ensures var t := Unquoted(line);
      |t| < |line| && line[|line| - |t|..] == t
      && (forall k :: 1 <= k < |line| - |t| ==> IsSpace(line[k]))
      && (t == [] || !IsSpace(t[0]))
  {
  }

  /** A nested quote loses only its first `>`: ">> x" becomes "> x". */
  lemma NestedQuote(line: string)
    requires line == ">> x"
    ensures QuoteLine(None, line) == Opened(BlockValue(Some("> x\n"), Some("blockquote"), Blockquote, Block))
  {
    assert CharRun(line, 0, '>') == 2 by {
      CharRunIs(line, 0, '>', 2);
    }
    assert SpaceRun(line, 1) == 0;
    assert QuoteSyntax(line) by {
      assert IsSpace(line[2]);
    }
    assert Unquoted(line) + "\n" == "> x\n";
    assert !AllSpace(line) by {
      assert !IsSpace(line[0]);
    }
  }

  /** The syntax test also admits a line that starts with whitespace and
      holds no `>` at all: it is taken as quoted text. */
  lemma IndentedLineIsQuote(line: string)
    requires line != [] && IsSpace(line[0]) && !AllSpace(line)
    ensures QuoteLine(None, line) == Opened(BlockValue(Some(Unquoted(line) + "\n"), Some("blockquote"), Blockquote, Block))
  {
    assert CharRun(line, 0, '>') == 0;
  }

  /** blockquote_parser refuses blank lines and lines failing the syntax
      test; otherwise it merges into an open blockquote, opens one at the
      start, after a section break or after a heading, and refuses after
      anything else. */
  lemma QuoteLineFacts(curr: Option<BlockValue>, line: string)
    ensures var q := QuoteLine(curr, line);
      (q.NoMatch? <==>
         (AllSpace(line) || !QuoteSyntax(line)
          || (curr.Some? && curr.value.kind != Blockquote && curr.value.kind != SectionBreak && !IsHeaderBlock(curr.value))))
      && (q.Merged? <==> !AllSpace(line) && QuoteSyntax(line) && curr.Some? && curr.value.kind == Blockquote)
      && (q.Merged? ==> q.block == curr.value.(content := Some(Body(curr.value) + Unquoted(line) + "\n")))
      && (q.Opened? ==> q.block == BlockValue(Some(Unquoted(line) + "\n"), Some("blockquote"), Blockquote, Block))
  {
  }

  /** After a paragraph a quoted line is refused by blockquote_parser. */
  lemma QuoteAfterParagraph(curr: Option<BlockValue>, line: string)
    requires curr.Some? && curr.value.kind == Paragraph
    ensures QuoteLine(curr, line) == NoMatch
  {
  }

  /** paragraph_parser: blank is refused; an open paragraph takes the line
      after a space and keeps everything else; otherwise a new paragraph
      holds the line. */
  lemma ParagraphLineFacts(curr: Option<BlockValue>, line: string)
    ensures var p := ParagraphLine(curr, line);
      (p.NoMatch? <==> AllSpace(line))
      && (p.Merged? <==> !AllSpace(line) && curr.Some? && curr.value.kind == Paragraph)
      && (p.Merged? ==>
            (p.block.content == Some(Body(curr.value) + " " + line)
             && p.block.tag == curr.value.tag && p.block.kind == Paragraph && p.block.tagType == curr.value.tagType))
      && (p.Opened? ==> p.block == BlockValue(Some(line), Some("p"), Paragraph, Block))
  {
  }

  /** block_parsing: a heading wins over everything; nothing happens only
      to a blank line with no open block; a blank line after an open block
      is a section break; a merge keeps the open block's kind, which is a
      paragraph or a blockquote. */
  lemma ParseLineFacts(curr: Option<BlockValue>, line: string)
    ensures HeadingLine(line).Some? ==> ParseLine(curr, line) == Opened(HeadingLine(line).value)
    ensures ParseLine(curr, line).NoMatch? <==> curr.None? && AllSpace(line)
    ensures AllSpace(line) && curr.Some? ==> ParseLine(curr, line) == Opened(SectionBreakBlock)
    ensures ParseLine(curr, line).Merged? ==>
      curr.Some? && ParseLine(curr, line).block.kind == curr.value.kind
      && (curr.value.kind == Paragraph || curr.value.kind == Blockquote)
  {
    if AllSpace(line) {
      assert CharRun(line, 0, '#') == 0 by {
        if line != [] {
          assert IsSpace(line[0]);
        }
      }
    }
  }

  /** Each line adds at most one block. */
  lemma {:induction false} RunLength(lines: seq<string>)
    ensures |Run(lines)| <= |lines|
    decreases |lines|
  {
    if lines != [] {
      RunLength(lines[..|lines| - 1]);
    }
  }

  /** Every blank line after the first block appends its own section
      break, so consecutive blank lines give consecutive section breaks;
      before any block a blank line changes nothing. */
  lemma RunBlankLine(lines: seq<string>, blank: string)
    requires AllSpace(blank)
    ensures Run(lines + [blank]) == if Run(lines) == [] then [] else Run(lines) + [SectionBreakBlock]
  {
    assert (lines + [blank])[..|lines|] == lines;
    ParseLineFacts(Tail(Run(lines)), blank);
  }

  /** The trees of a block list: one per block, in order, each with the
      children Kids gives. */
  lemma {:induction false} GrowFacts(c: string, vs: seq<BlockValue>)
    ensures |Grow(c, vs)| == |vs|
    ensures forall k :: 0 <= k < |vs| ==> Grow(c, vs)[k] == Tree(vs[k], Kids(c, vs[k]))
    decreases |vs|
  {
    if vs != [] {
      GrowFacts(c, vs[..|vs| - 1]);
    }
  }

  /** child_block_parsing's result: one tree per block the lines of `c`
      give, in line order, and every blockquote among them has as children
      the parse of its own content. */
  lemma ForestFacts(c: string)
    ensures var vs := Run(Split(c, '\n'));
      |Forest(c)| == |vs|
      && forall k :: 0 <= k < |vs| ==>
        Forest(c)[k].block == vs[k]
        && Forest(c)[k].children == (if vs[k].kind == Blockquote then Forest(Body(vs[k])) else [])
  {
    var lines := Split(c, '\n');
    GrowFacts(c, Run(lines));
    ChildContentShrinks(c, |lines|);
    assert lines[..|lines|] == lines;
  }

  // ---------------------------------------------------------------------
  // The recognisers on MDBlock
  // ---------------------------------------------------------------------

  /** heading_parser: the two pointer-advancing loops, then a fresh block
      for a level of 1 to 6. */
  method HeadingParser(line: string) returns (b: MDBlock?)
    ensures b == null <==> HeadingLine(line).None?
    ensures b != null ==> fresh(b) && b.View() == HeadingLine(line).value && b.child == null && b.next == null
  {
    var headingLevel := 0;
    var p := 0;
    while p < |line| && line[p] == '#'
      invariant p <= |line| && headingLevel == p
      invariant forall k :: 0 <= k < p ==> line[k] == '#'
    {
      headingLevel := headingLevel + 1;
      p := p + 1;
    }
    CharRunIs(line, 0, '#', p);
    if !IsSpace(At(line, p)) {
      return null;
    }
    var start := p;
    while p < |line| && IsSpace(line[p])
      invariant start <= p <= |line|
      invariant forall k :: start <= k < p ==> IsSpace(line[k])
    {
      p := p + 1;
    }
    SpaceRunIs(line, start, p);
    if 0 < headingLevel < 7 {
      b := new MDBlock(Some(line[p..]), Some(HeadingTag(headingLevel)), Heading(headingLevel), Block);
    } else {
      b := null;
    }
  }

  /** paragraph_parser: merging rewrites the open paragraph's content in
      place and returns that same block. */
  method ParagraphParser(block: MDBlock?, line: string) returns (r: MDBlock?)
    requires block != null ==> Wellformed(block.View())
    modifies block
    ensures block != null ==> block.child == old(block.child) && block.next == old(block.next)
    ensures match ParagraphLine(old(Current(block)), line)
      case NoMatch => r == null && Current(block) == old(Current(block))
      case Merged(v) => r == block && block != null && block.View() == v
      case Opened(v) =>
        r != null && fresh(r) && r.View() == v && r.child == null && r.next == null
        && Current(block) == old(Current(block))
  {
    var blank := IsEmptyOrWhitespace(Some(line));
    if blank {
      return null;
    }
    if block != null && block.kind == Paragraph {
      block.content := Some(block.content.value + " " + line);
      return block;
    }
    r := new MDBlock(Some(line), Some("p"), Paragraph, Block);
  }

  /** blockquote_parser: the `>` loop and its syntax test (the NUL the C
      code also accepts is the end of the line), one character and the
      whitespace after it skipped, then merging into the open blockquote
      in place or opening a new one. */
  method BlockquoteParser(block: MDBlock?, line: string) returns (r: MDBlock?)
    requires block != null ==> Wellformed(block.View())
    modifies block
    ensures block != null ==> block.child == old(block.child) && block.next == old(block.next)
    ensures match QuoteLine(old(Current(block)), line)
      case NoMatch => r == null && Current(block) == old(Current(block))
      case Merged(v) => r == block && block != null && block.View() == v
      case Opened(v) =>
        r != null && fresh(r) && r.View() == v && r.child == null && r.next == null
        && Current(block) == old(Current(block))
  {
    var blank := IsEmptyOrWhitespace(Some(line));
    if blank {
      return null;
    }
    var p := 0;
    while p < |line| && line[p] == '>'
      invariant p <= |line|
      invariant forall k :: 0 <= k < p ==> line[k] == '>'
    {
      p := p + 1;
    }
    CharRunIs(line, 0, '>', p);
    if p < |line| && !IsSpace(line[p]) {
      return null;
    }
    var q := 1;
    while q < |line| && IsSpace(line[q])
      invariant 1 <= q <= |line|
      invariant forall k :: 1 <= k < q ==> IsSpace(line[k])
    {
      q := q + 1;
    }
    SpaceRunIs(line, 1, q);
    var text := line[q..];
    if block != null && block.kind == Blockquote {
      block.content := Some(block.content.value + text + "\n");
      return block;
    }
    if block == null || block.kind == SectionBreak || IsHeaderBlock(block.View()) {
      r := new MDBlock(Some(text + "\n"), Some("blockquote"), Blockquote, Block);
      return r;
    }
    return null;
  }

  /** block_parsing: the three recognisers in order; a merge returns NULL,
      and so does a paragraph refusal when there is no open block. */
  method BlockParsing(curr: MDBlock?, line: string) returns (r: MDBlock?)
    requires curr != null ==> Wellformed(curr.View())
    modifies curr
    ensures curr != null ==> curr.child == old(curr.child) && curr.next == old(curr.next)
    ensures match ParseLine(old(Current(curr)), line)
      case NoMatch => r == null && Current(curr) == old(Current(curr))
      case Merged(v) => r == null && curr != null && curr.View() == v
      case Opened(v) =>
        r != null && fresh(r) && r.View() == v && r.child == null && r.next == null
        && Current(curr) == old(Current(curr))
  {
    var newBlock := HeadingParser(line);
    if newBlock != null {
      return newBlock;
    }
    newBlock := BlockquoteParser(curr, line);
    if newBlock != null && newBlock == curr {
      return null;
    } else if newBlock != null {
      return newBlock;
    }
    newBlock := ParagraphParser(curr, line);
    if newBlock == curr {
      return null;
    } else if newBlock != null {
      return newBlock;
    }
    newBlock := new MDBlock(None, None, SectionBreak, Inline);
    return newBlock;
  }

  // ---------------------------------------------------------------------
  // Why the child parse terminates
  // ---------------------------------------------------------------------

  /** The summed length of the lines. */
  function Total(lines: seq<string>): nat {
    if lines == [] then 0 else |lines[0]| + Total(lines[1..])
  }

  lemma {:induction false} TotalAppend(a: seq<string>, b: seq<string>)
    ensures Total(a + b) == Total(a) + Total(b)
    decreases |a|
  {
    if a == [] {
      assert a + b == b;
    } else {
      assert (a + b)[1..] == a[1..] + b;
      TotalAppend(a[1..], b);
    }
  }

  lemma TotalPrefix(lines: seq<string>, i: nat)
    requires i <= |lines|
    ensures Total(lines[..i]) <= Total(lines)
  {
    assert lines == lines[..i] + lines[i..];
    TotalAppend(lines[..i], lines[i..]);
  }

  lemma {:induction false} JoinLength(lines: seq<string>, sep: char)
    requires lines != []
    ensures |Join(lines, sep)| + 1 == Total(lines) + |lines|
    decreases |lines|
  {
    if |lines| > 1 {
      JoinLength(lines[1..], sep);
    }
  }

  /** The lines of a content are no longer than it, and strictly shorter
      when it ends with a newline. */
  lemma SplitTotal(c: string)
    ensures Total(Split(c, '\n')) <= |c|
    ensures EndsWith(c, '\n') ==> Total(Split(c, '\n')) < |c|
  {
    JoinSplit(c, '\n');
    if Split(c, '\n') != [] {
      JoinLength(Split(c, '\n'), '\n');
    }
  }

  /** What every block of a run keeps: the content the recognisers read
      is there, and a blockquote's content ends with a newline and is no
      longer than all the lines together. */
  predicate Bounded(v: BlockValue, total: nat) {
    Wellformed(v) && (v.kind == Blockquote ==> EndsWith(Body(v), '\n') && |Body(v)| <= total)
  }

  lemma ParseLineBounded(curr: Option<BlockValue>, line: string, total: nat)
    requires curr.Some? ==> Bounded(curr.value, total)
    ensures ParseLine(curr, line).Merged? ==> Bounded(ParseLine(curr, line).block, total + |line|)
    ensures ParseLine(curr, line).Opened? ==> Bounded(ParseLine(curr, line).block, total + |line|)
  {
    if HeadingLine(line).None? && !AllSpace(line) && QuoteSyntax(line) {
      assert |Unquoted(line)| + 1 <= |line|;
    }
  }

  lemma {:induction false} RunBounded(lines: seq<string>)
    ensures forall k :: 0 <= k < |Run(lines)| ==> Bounded(Run(lines)[k], Total(lines))
    decreases |lines|
  {
    if lines != [] {
      var n := |lines| - 1;
      var prev := Run(lines[..n]);
      RunBounded(lines[..n]);
      assert lines == lines[..n] + [lines[n]];
      TotalAppend(lines[..n], [lines[n]]);
      assert Total([lines[n]]) == |lines[n]|;
      ParseLineBounded(Tail(prev), lines[n], Total(lines[..n]));
    }
  }

  /** Every block the lines of `c` give has the content its recogniser
      reads, and every blockquote among them has content below `c` in the
      order the child parse decreases: strictly shorter when `c` ends with
      a newline, as a blockquote's content always does. */
  lemma ChildContentShrinks(c: string, i: nat)
    requires i <= |Split(c, '\n')|
    ensures forall k :: 0 <= k < |Run(Split(c, '\n')[..i])| ==>
      Wellformed(Run(Split(c, '\n')[..i])[k])
      && (Run(Split(c, '\n')[..i])[k].kind == Blockquote ==> Shrinks(Body(Run(Split(c, '\n')[..i])[k]), c))
  {
    var lines := Split(c, '\n')[..i];
    RunBounded(lines);
    TotalPrefix(Split(c, '\n'), i);
    SplitTotal(c);
  }

  /** One more line: its outcome applied to the blocks so far. */
  lemma RunStep(lines: seq<string>, i: nat)
    requires i < |lines|
    ensures Run(lines[..i + 1]) == Apply(Run(lines[..i]), ParseLine(Tail(Run(lines[..i])), lines[i]))
  {
    assert lines[..i + 1][..i] == lines[..i];
    assert lines[..i + 1][i] == lines[i];
  }

  // ---------------------------------------------------------------------
  // The block forest on the heap
  // ---------------------------------------------------------------------

  /** The shape of a built chain: each node with the shapes of its
      children. */
  datatype Shape = Shape(node: MDBlock, kids: seq<Shape>)

  /** Every node of the shapes, children included. */
  ghost function Objs(shs: seq<Shape>): set<MDBlock>
    decreases shs
  {
    if shs == [] then {} else {shs[0].node} + Objs(shs[0].kids) + Objs(shs[1..])
  }

  /** `head` starts a chain of the shapes' nodes linked by `next` and
      ending in `end`; each blockquote's `child` starts the chain of its
      children, ending in NULL; every other block has no child. */
  ghost predicate Chain(head: MDBlock?, shs: seq<Shape>, end: MDBlock?)
    reads Objs(shs)
    decreases shs
  {
    if shs == [] then head == end
    else
      var n := shs[0].node;
      head == n
      && (if n.kind == Blockquote then Chain(n.child, shs[0].kids, null) else n.child == null && shs[0].kids == [])
      && Chain(n.next, shs[1..], end)
  }

  /** The child links of one node, as Chain states them. */
  ghost predicate Local(sh: Shape)
    reads {sh.node} + Objs(sh.kids)
  {
    if sh.node.kind == Blockquote then Chain(sh.node.child, sh.kids, null)
    else sh.node.child == null && sh.kids == []
  }

  /** The values the shapes' nodes hold. */
  ghost function Trees(shs: seq<Shape>): seq<Tree>
    reads Objs(shs)
    decreases shs
  {
    if shs == [] then [] else [Tree(shs[0].node.View(), Trees(shs[0].kids))] + Trees(shs[1..])
  }

  /** Every node a shape names is allocated, so a call that modifies
      some other object leaves the node's fields alone. */
  lemma {:induction false} ObjsAllocated(shs: seq<Shape>)
    ensures forall o :: o in Objs(shs) ==> allocated(o)
    decreases shs
  {
    if shs != [] {
      ObjsAllocated(shs[0].kids);
      ObjsAllocated(shs[1..]);
    }
  }

  /** A chain ending in a node extends by that node. */
  lemma {:induction false} ChainSnoc(head: MDBlock?, shs: seq<Shape>, sh: Shape, end: MDBlock?)
    requires Chain(head, shs, sh.node) && sh.node.next == end && Local(sh)
    ensures Chain(head, shs + [sh], end)
    ensures Trees(shs + [sh]) == Trees(shs) + [Tree(sh.node.View(), Trees(sh.kids))]
    ensures Objs(shs + [sh]) == Objs(shs) + {sh.node} + Objs(sh.kids)
    decreases |shs|
  {
    if shs == [] {
      assert [sh][1..] == [];
    } else {
      assert (shs + [sh])[0] == shs[0];
      assert (shs + [sh])[1..] == shs[1..] + [sh];
      ChainSnoc(shs[0].node.next, shs[1..], sh, end);
    }
  }

  /** md_parser.c:64-66 and 76-78: a finished blockquote gets the parse of
      its content as children; any other block keeps its NULL child. */
  method AttachChildren(tail: MDBlock, ghost c: string) returns (ghost sh: Shape)
    requires Wellformed(tail.View()) && tail.child == null
    requires tail.kind == Blockquote ==> Shrinks(Body(tail.View()), c)
    modifies tail
    ensures sh.node == tail && tail.View() == old(tail.View()) && tail.next == old(tail.next)
    ensures Local(sh) && tail !in Objs(sh.kids)
    ensures Trees(sh.kids) == Kids(c, tail.View())
    ensures forall o :: o in Objs(sh.kids) ==> fresh(o)
    decreases |c|, Flag(c), 0, 0
  {
    if tail.kind == Blockquote {
      var kidsHead, kids := ChildBlockParsing(tail);
      tail.child := kidsHead;
      sh := Shape(tail, kids);
    } else {
      sh := Shape(tail, []);
    }
  }

  /** The state of the child_block_parsing loop after the blocks `vs`:
      `head` starts the chain of the finished blocks `done`, which ends in
      the open block `tail`; the finished blocks hold the trees of all but
      the last value and `tail` holds the last. */
  ghost predicate Building(head: MDBlock?, done: seq<Shape>, tail: MDBlock?, c: string, vs: seq<BlockValue>)
    reads tail, Objs(done)
  {
    |done| <= |vs|
    && (tail == null <==> vs == [])
    && (tail == null ==> head == null && done == [])
    && (tail != null ==>
          tail !in Objs(done) && tail.child == null && tail.next == null && Chain(head, done, tail)
          && |done| + 1 == |vs| && tail.View() == vs[|done|])
    && Trees(done) == Grow(c, vs[..|done|])
  }

  /** The open block took the line in (or ignored it): the state holds
      with the open block's new value last. */
  lemma BuildingKeep(head: MDBlock?, done: seq<Shape>, tail: MDBlock, c: string, vs: seq<BlockValue>)
    requires tail !in Objs(done) && tail.child == null && tail.next == null && Chain(head, done, tail)
    requires |done| + 1 == |vs| && Trees(done) == Grow(c, vs[..|done|]) && tail.View() == vs[|done|]
    ensures Building(head, done, tail, c, vs)
  {
  }

  /** The first block of an empty list opens it. */
  lemma BuildingFirst(b: MDBlock, c: string, v: BlockValue)
    requires b.child == null && b.next == null && b.View() == v
    ensures Building(b, [], b, c, [v])
  {
    assert [v][..0] == [];
  }

  /** A new block after a finished one: the finished one joins the chain
      with its children and the new block is the open one. */
  lemma BuildingExtend(head: MDBlock?, done: seq<Shape>, sh: Shape, b: MDBlock, c: string, vs: seq<BlockValue>, v: BlockValue)
    requires Chain(head, done + [sh], b) && b !in Objs(done + [sh])
    requires Trees(done + [sh]) == Trees(done) + [Tree(sh.node.View(), Trees(sh.kids))]
    requires |done| + 1 == |vs| && Trees(done) == Grow(c, vs[..|done|])
    requires sh.node.View() == vs[|done|] && Trees(sh.kids) == Kids(c, vs[|done|])
    requires b.child == null && b.next == null && b.View() == v
    ensures Building(head, done + [sh], b, c, vs + [v])
  {
    assert (vs + [v])[..|done| + 1] == vs;
    assert vs == vs[..|done|] + [vs[|done|]];
  }

  /** md_parser.c:64-68: the open block gets its children and then the
      new block `b` as its next. */
  method Finish(tail: MDBlock, ghost c: string, b: MDBlock) returns (ghost sh: Shape)
    requires Wellformed(tail.View()) && tail.child == null && b != tail
    requires tail.kind == Blockquote ==> Shrinks(Body(tail.View()), c)
    modifies tail
    ensures sh.node == tail && tail.View() == old(tail.View()) && tail.next == b
    ensures Local(sh) && tail !in Objs(sh.kids) && b !in Objs(sh.kids)
    ensures Trees(sh.kids) == Kids(c, tail.View())
    ensures forall o :: o in Objs(sh.kids) ==> fresh(o)
    decreases |c|, Flag(c), 0, 1
  {
    sh := AttachChildren(tail, c);
    ghost var kids := Trees(sh.kids);
    tail.next := b;
    assert Trees(sh.kids) == kids;
  }

  /** md_parser.c:64-69: the open block is finished (its children parsed)
      and the new block `b` is linked after it as the open one. */
  method Link(head: MDBlock?, tail: MDBlock, ghost done: seq<Shape>, ghost c: string, ghost vs: seq<BlockValue>, b: MDBlock)
    returns (ghost newDone: seq<Shape>)
    requires Building(head, done, tail, c, vs)
    requires Wellformed(tail.View()) && (tail.kind == Blockquote ==> Shrinks(Body(tail.View()), c))
    requires b != tail && b !in Objs(done) && b.child == null && b.next == null
    modifies tail
    ensures b.View() == old(b.View())
    ensures Building(head, newDone, b, c, vs + [b.View()])
    ensures forall o :: o in Objs(newDone) ==> o in Objs(done) || o == tail || fresh(o)
    decreases |c|, Flag(c), 0, 2
  {
    ObjsAllocated(done);
    ghost var sh := Finish(tail, c, b);
    ChainSnoc(head, done, sh, b);
    newDone := done + [sh];
    BuildingExtend(head, done, sh, b, c, vs, b.View());
  }

  /** One turn of the child_block_parsing loop: block_parsing with the open
      block; a new block first finishes the open one (its children) and is
      then linked after it. */
  method Absorb(head: MDBlock?, tail: MDBlock?, ghost done: seq<Shape>, ghost c: string, ghost vs: seq<BlockValue>,
                line: string)
    returns (newHead: MDBlock?, newTail: MDBlock?, ghost newDone: seq<Shape>)
    requires Building(head, done, tail, c, vs)
    requires tail != null ==> Wellformed(tail.View()) && (tail.kind == Blockquote ==> Shrinks(Body(tail.View()), c))
    modifies tail
    ensures Building(newHead, newDone, newTail, c, Apply(vs, ParseLine(Tail(vs), line)))
    ensures newTail != null ==> newTail == tail || fresh(newTail)
    ensures forall o :: o in Objs(newDone) ==> o in Objs(done) || o == tail || fresh(o)
    decreases |c|, Flag(c), 0, 3
  {
    ObjsAllocated(done);
    ghost var p := ParseLine(Tail(vs), line);
    var newBlock := BlockParsing(tail, line);
    newHead, newTail, newDone := head, tail, done;
    if newBlock != null {
      ghost var v := p.block;
      if tail == null {
        newHead := newBlock;
        newTail := newHead;
        BuildingFirst(newBlock, c, v);
      } else {
        newDone := Link(head, tail, done, c, vs, newBlock);
        newTail := newBlock;
      }
    } else if tail != null {
      ghost var vs2 := Apply(vs, p);
      assert vs2 == vs[..|done|] + [tail.View()];
      assert vs2[..|done|] == vs[..|done|];
      BuildingKeep(head, done, tail, c, vs2);
    }
  }

  /** child_block_parsing: the block's content split into lines and each
      line parsed with the last block as the open one; new blocks are
      linked through `next` in line order and every blockquote gets its
      children once the block after it arrives, the last one after the
      loop. The block itself is left unchanged. */
  method ChildBlockParsing(block: MDBlock) returns (head: MDBlock?, ghost shs: seq<Shape>)
    requires block.content.Some?
    ensures Chain(head, shs, null)
    ensures Trees(shs) == Forest(block.content.value)
    ensures forall o :: o in Objs(shs) ==> fresh(o)
    decreases |block.content.value|, Flag(block.content.value), 1
  {
    ghost var c := block.content.value;
    var lines, lineCount := ContentSplitter(block.content.value, '\n');
    head := null;
    var tail: MDBlock? := head;
    ghost var done: seq<Shape> := [];
    for i := 0 to lineCount
      invariant block.content == Some(c) && lines == Split(c, '\n')
      invariant Building(head, done, tail, c, Run(lines[..i]))
      invariant tail != null ==> fresh(tail)
      invariant forall o :: o in Objs(done) ==> fresh(o)
    {
      RunStep(lines, i);
      ChildContentShrinks(c, i);
      head, tail, done := Absorb(head, tail, done, c, Run(lines[..i]), lines[i]);
    }
    assert lines[..lineCount] == lines;
    ChildContentShrinks(c, lineCount);
    shs := Close(head, tail, done, c, Run(lines));
  }

  /** md_parser.c:76-78: after the last line the open block gets its
      children and ends the chain. */
  method Close(head: MDBlock?, tail: MDBlock?, ghost done: seq<Shape>, ghost c: string, ghost vs: seq<BlockValue>)
    returns (ghost shs: seq<Shape>)
    requires Building(head, done, tail, c, vs)
    requires tail != null ==> Wellformed(tail.View()) && (tail.kind == Blockquote ==> Shrinks(Body(tail.View()), c))
    modifies tail
    ensures Chain(head, shs, null) && Trees(shs) == Grow(c, vs)
    ensures forall o :: o in Objs(shs) ==> o in Objs(done) || o == tail || fresh(o)
    decreases |c|, Flag(c), 0, 1
  {
    shs := done;
    if tail != null {
      ObjsAllocated(done);
      ghost var sh := AttachChildren(tail, c);
      ChainSnoc(head, done, sh, null);
      shs := done + [sh];
      assert vs == vs[..|done|] + [vs[|done|]];
    }
  }
}

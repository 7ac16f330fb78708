/** The link and reference post-processing of md_regex.c. The regular
    expression engine is outside the model: every matching loop consumes a
    sequence of capture-offset records (one per successful match, in the
    order the engine reports them) and the model decides, as the C code
    does, which of them are dropped as escaped and what record each kept
    one becomes. */
module MdRegex {
  import opened Ctype

  // ---------------------------------------------------------------------
  // Backslash escapes
  // ---------------------------------------------------------------------

  /** Length of the run of backslashes that ends just before `pos`. */
  function BackslashRun(s: string, pos: nat): (n: nat)
    requires pos <= |s|
    ensures n <= pos
    ensures forall k :: pos - n <= k < pos ==> s[k] == '\\'
    ensures n == pos || s[pos - n - 1] != '\\'
    decreases pos
  {
    if pos > 0 && s[pos - 1] == '\\' then 1 + BackslashRun(s, pos - 1) else 0
  }

  /** The character at `pos` is escaped: an odd number of backslashes
      stands right before it. Nothing is escaped at position 0. */
  function Escaped(s: string, pos: nat): (r: bool)
    requires pos <= |s|
    ensures pos == 0 ==> !r
  {
    BackslashRun(s, pos) % 2 == 1
  }

  /** is_escaped_at: the loop that walks back from `pos` over backslashes,
      counting them. */
  method IsEscapedAt(str: string, pos: nat) returns (escaped: bool)
    requires pos <= |str|
    ensures escaped == Escaped(str, pos)
  {
    var backslashs: nat := 0;
    var p: nat := pos;
    while p > 0 && str[p - 1] == '\\'
      invariant p <= pos
      invariant backslashs + BackslashRun(str, p) == BackslashRun(str, pos)
    {
      backslashs := backslashs + 1;
      p := p - 1;
    }
    escaped := backslashs % 2 == 1;
  }

  /** One more backslash in front of a character flips whether it is
      escaped. */
  lemma EscapeFlips(s: string, pos: nat)
    requires pos < |s| && s[pos] == '\\'
    ensures Escaped(s, pos + 1) == !Escaped(s, pos)
  {
  }

  /** `str[start-1]` is the opening delimiter `c` and is escaped. */
  predicate OpenEscaped(s: string, start: nat, c: char)
    requires start <= |s|
  {
    start >= 1 && s[start - 1] == c && Escaped(s, start - 1)
  }

  /** `str[end]` (the NUL when end == |s|) is the closing delimiter `c` and
      is escaped. */
  predicate CloseEscaped(s: string, end: nat, c: char)
    requires end <= |s|
  {
    At(s, end) == c && Escaped(s, end)
  }

  /** is_escaped: NULL or an empty range is never escaped; otherwise the
      range is escaped when its opening or its closing delimiter is. */
  function IsEscaped(str: Option<string>, startTarget: char, endTarget: char, start: nat, end: nat): (r: bool)
    requires str.Some? ==> end <= |str.value|
    ensures str.None? || start >= end ==> !r
    ensures str.Some? && start < end ==>
      (r <==> (start >= 1 && str.value[start - 1] == startTarget && BackslashRun(str.value, start - 1) % 2 == 1)
              || (At(str.value, end) == endTarget && BackslashRun(str.value, end) % 2 == 1))
  {
    if str.None? || start >= end then false
    else OpenEscaped(str.value, start, startTarget) || CloseEscaped(str.value, end, endTarget)
  }

  // ---------------------------------------------------------------------
  // ASCII lower-casing of C strings
  // ---------------------------------------------------------------------

  /** Every character lowered with `tolower`. */
  function LowerStr(s: string): (r: string)
    ensures |r| == |s|
    ensures forall i :: 0 <= i < |s| ==> r[i] == ToLower(s[i])
  {
    if s == [] then [] else LowerStr(s[..|s| - 1]) + [ToLower(s[|s| - 1])]
  }

  /** Lowering changes only A-Z, and lowering twice is lowering once. */
  lemma LowerStrFacts(s: string)
    ensures forall i :: 0 <= i < |s| ==> (LowerStr(s)[i] == s[i] <==> !IsUpper(s[i]))
    ensures LowerStr(LowerStr(s)) == LowerStr(s)
  {
    assert forall i :: 0 <= i < |s| ==> LowerStr(LowerStr(s))[i] == LowerStr(s)[i];
  }

  /** Lowering a buffer up to its NUL leaves the NUL where it was. */
  lemma LowerCStr(buf: seq<char>)
    ensures CStr(LowerStr(CStr(buf)) + buf[CLen(buf)..]) == LowerStr(CStr(buf))
  {
    var n := CLen(buf);
    var lowered := LowerStr(CStr(buf)) + buf[n..];
    assert lowered[..n] == LowerStr(CStr(buf));
    forall k | 0 <= k < n ensures lowered[k] != '\0' {
      assert buf[k] in buf[..n];
    }
    CLenIs(lowered, n);
  }

  /** str_to_lower: lowers the buffer in place up to its first NUL; NULL is
      left alone. */
  method StrToLower(str: array?<char>)
    modifies str
    ensures str != null ==> str[..] == LowerStr(old(CStr(str[..]))) + old(str[CLen(str[..])..])
  {
    if str == null {
      return;
    }
    ghost var before := str[..];
    var p := 0;
    while p < str.Length && str[p] != '\0'
      invariant p <= str.Length
      invariant forall k :: 0 <= k < p ==> before[k] != '\0' && str[k] == ToLower(before[k])
      invariant forall k :: p <= k < str.Length ==> str[k] == before[k]
    {
      str[p] := ToLower(str[p]);
      p := p + 1;
    }
    LoweredBuffer(before, str[..], p);
  }

  /** The buffer when str_to_lower's loop stops at the NUL (or the end). */
  lemma LoweredBuffer(before: seq<char>, after: seq<char>, p: nat)
    requires p <= |before| == |after|
    requires forall k :: 0 <= k < p ==> before[k] != '\0' && after[k] == ToLower(before[k])
    requires forall k :: p <= k < |after| ==> after[k] == before[k]
    requires p == |before| || before[p] == '\0'
    ensures after == LowerStr(CStr(before)) + before[CLen(before)..]
  {
    assert '\0' !in before[..p];
    CLenIs(before, p);
    var r := LowerStr(CStr(before)) + before[p..];
    assert forall k :: 0 <= k < |after| ==> after[k] == r[k];
  }

  /** A fresh copy of `s` followed by a NUL, as the parse functions build
      their label and tag buffers with malloc and memcpy. */
  method NewCString(s: string) returns (buf: array<char>)
    ensures fresh(buf) && buf[..] == s + ['\0']
  {
    buf := new char[|s| + 1];
    var i := 0;
    while i < |s|
      invariant i <= |s|
      invariant buf[..i] == s[..i]
    {
      buf[i] := s[i];
      i := i + 1;
      assert buf[..i] == buf[..i - 1] + [s[i - 1]];
      assert s[..i] == s[..i - 1] + [s[i - 1]];
    }
    buf[|s|] := '\0';
    assert buf[..] == buf[..|s|] + [buf[|s|]];
  }

  // ---------------------------------------------------------------------
  // Link references and their list
  // ---------------------------------------------------------------------

  /** The data of one MDLinkReference node; the label is stored lowered. */
  datatype Reference = Reference(name: string, url: string, title: Option<string>)

  /** MDLinkReference: one node of the singly linked reference list. */
  class RefNode {
    var name: string
    var url: string
    var title: Option<string>
    var next: RefNode?

    /** new_md_link_reference: copies of the three strings, next NULL. */
    constructor (name: string, url: string, title: Option<string>)
      ensures this.name == name && this.url == url && this.title == title
      ensures next == null
    {
      this.name := name;
      this.url := url;
      this.title := title;
      next := null;
    }

    function View(): Reference
      reads this
    {
      Reference(name, url, title)
    }
  }

  /** `head` starts a NULL-terminated chain through `next` that visits
      exactly the nodes of `nodes`, in order. */
  ghost predicate IsList(head: RefNode?, nodes: seq<RefNode>)
    reads nodes
  {
    (head == null <==> nodes == [])
    && (nodes != [] ==> head == nodes[0] && nodes[|nodes| - 1].next == null)
    && (forall i :: 0 <= i < |nodes| - 1 ==> nodes[i].next == nodes[i + 1])
  }

  /** The references the chain holds, head first. */
  ghost function Refs(nodes: seq<RefNode>): (r: seq<Reference>)
    reads nodes
    ensures |r| == |nodes|
  {
    if nodes == [] then [] else [nodes[0].View()] + Refs(nodes[1..])
  }

  lemma {:induction false} RefsAt(nodes: seq<RefNode>, j: nat)
    requires j < |nodes|
    ensures Refs(nodes)[j] == nodes[j].View()
  {
    if j > 0 {
      RefsAt(nodes[1..], j - 1);
    }
  }

  /** Position of the first reference whose label is `key`. */
  function FindRef(refs: seq<Reference>, key: string): (r: Option<nat>)
    ensures r.Some? ==> r.value < |refs| && refs[r.value].name == key
    ensures r.Some? ==> forall j :: 0 <= j < r.value ==> refs[j].name != key
    ensures r.None? ==> forall j :: 0 <= j < |refs| ==> refs[j].name != key
  {
    if refs == [] then None
    else if refs[0].name == key then Some(0)
    else match FindRef(refs[1..], key)
      case None => None
      case Some(k) => Some(k + 1)
  }

  /** The elements in reverse order. */
  function Reverse<T>(s: seq<T>): seq<T> {
    if s == [] then [] else [s[|s| - 1]] + Reverse(s[..|s| - 1])
  }

  lemma {:induction false} ReverseAt<T>(s: seq<T>, k: nat)
    requires k < |s|
    ensures |Reverse(s)| == |s| && Reverse(s)[k] == s[|s| - 1 - k]
  {
    ReverseLength(s);
    if k > 0 {
      ReverseAt(s[..|s| - 1], k - 1);
    }
  }

  lemma {:induction false} ReverseLength<T>(s: seq<T>)
    ensures |Reverse(s)| == |s|
  {
    if s != [] {
      ReverseLength(s[..|s| - 1]);
    }
  }

  /** Looking a label up in the reversed list of definitions finds the LAST
      definition of that label in line order. */
  lemma LastDefinitionWins(defs: seq<Reference>, key: string)
    ensures FindRef(Reverse(defs), key).Some? <==> exists i :: 0 <= i < |defs| && defs[i].name == key
    ensures FindRef(Reverse(defs), key).Some? ==>
      var i := |defs| - 1 - FindRef(Reverse(defs), key).value;
      0 <= i < |defs| && defs[i].name == key
      && forall j :: i < j < |defs| ==> defs[j].name != key
  {
    ReverseLength(defs);
    var n := |defs|;
    match FindRef(Reverse(defs), key)
    case None =>
      forall i | 0 <= i < n ensures defs[i].name != key {
        ReverseAt(defs, n - 1 - i);
      }
    case Some(k) =>
      ReverseAt(defs, k);
      forall j | n - 1 - k < j < n ensures defs[j].name != key {
        ReverseAt(defs, n - 1 - j);
      }
  }

  /** find_link_reference: NULL when either argument is NULL; otherwise the
      caller's label buffer is lowered in place and the walk returns the
      first node whose label equals it. */
  method FindLinkReference(head: RefNode?, labelBuf: array?<char>, ghost nodes: seq<RefNode>) returns (r: RefNode?)
    requires IsList(head, nodes)
    modifies labelBuf
    ensures head == null || labelBuf == null ==> r == null
    ensures head == null && labelBuf != null ==> labelBuf[..] == old(labelBuf[..])
    ensures head != null && labelBuf != null ==>
      labelBuf[..] == LowerStr(old(CStr(labelBuf[..]))) + old(labelBuf[CLen(labelBuf[..])..])
    ensures head != null && labelBuf != null ==>
      match FindRef(Refs(nodes), LowerStr(old(CStr(labelBuf[..]))))
      case None => r == null
      case Some(k) => r == nodes[k]
  {
    if head == null || labelBuf == null {
      return null;
    }
    ghost var key := LowerStr(CStr(labelBuf[..]));
    ghost var before := labelBuf[..];
    StrToLower(labelBuf);
    LowerCStr(before);
    ghost var lowered := labelBuf[..];
    var current := head;
    ghost var k := 0;
    while current != null
      invariant labelBuf[..] == lowered
      invariant k <= |nodes|
      invariant current == if k < |nodes| then nodes[k] else null
      invariant CStr(labelBuf[..]) == key
      invariant forall j :: 0 <= j < k ==> Refs(nodes)[j].name != key
      decreases |nodes| - k
    {
      RefsAt(nodes, k);
      if current.name == CStr(labelBuf[..]) {
        return current;
      }
      current := current.next;
      k := k + 1;
    }
    return null;
  }

  // ---------------------------------------------------------------------
  // Capture-offset records
  // ---------------------------------------------------------------------

  /** One ovector pair: PCRE2_UNSET, or the offsets [lo, hi) of a capture. */
  datatype Group = Unset | Cap(lo: nat, hi: nat)

  /** One successful match: the engine's return code and groups 0..n-1
      (group 0 is the whole match). */
  datatype Match = Match(rc: int, groups: seq<Group>)

  /** A captured group lies inside the subject. */
  predicate Proper(s: string, g: Group) {
    g.Cap? ==> g.lo <= g.hi <= |s|
  }

  /** The match has `total` groups, all inside the subject, of which the
      first `required` are always set (the pattern's non-optional groups). */
  predicate Fits(s: string, m: Match, total: nat, required: nat) {
    |m.groups| == total
    && (forall k :: 0 <= k < total ==> Proper(s, m.groups[k]))
    && (forall k :: 0 <= k < required && k < total ==> m.groups[k].Cap?)
  }

  /** The text of a captured group. */
  function Text(s: string, g: Group): (r: string)
    requires g.Cap? && Proper(s, g)
    ensures |r| == g.hi - g.lo
  {
    s[g.lo..g.hi]
  }

  /** The per-group escape test written inline in every loop: the delimiter
      before the group, or the one after it, is escaped. */
  predicate GroupEscaped(s: string, g: Group, open: char, close: char)
    requires g.Cap? && Proper(s, g)
  {
    OpenEscaped(s, g.lo, open) || CloseEscaped(s, g.hi, close)
  }

  /** For a non-empty group the inline test is is_escaped. */
  lemma GroupEscapedIsEscaped(s: string, g: Group, open: char, close: char)
    requires g.Cap? && Proper(s, g) && g.lo < g.hi
    ensures GroupEscaped(s, g, open, close) == IsEscaped(Some(s), open, close, g.lo, g.hi)
  {
  }

  // ---------------------------------------------------------------------
  // Link definitions: parse_markdown_links_reference
  // ---------------------------------------------------------------------

  /** Groups of the reference pattern: 1 label, 2 url, 3 double-quoted
      title, 4 single-quoted title, 5 parenthesised title. */
  predicate RefFits(line: string, m: Option<Match>) {
    m.Some? ==> Fits(line, m.value, 6, 3)
  }

  predicate TitleOpen(c: char) {
    c == '"' || c == '\'' || c == '('
  }

  predicate TitleClose(c: char) {
    c == '"' || c == '\'' || c == ')'
  }

  /** A boundary of the reference match is escaped: the brackets around the
      label, the angle brackets around the url, or the quotes around a
      double-quoted title. */
  predicate RefDropped(line: string, m: Match)
    requires Fits(line, m, 6, 3)
  {
    var title := m.groups[3];
    GroupEscaped(line, m.groups[1], '[', ']')
    || GroupEscaped(line, m.groups[2], '<', '>')
    || (title.Cap? && ((title.lo >= 1 && TitleOpen(line[title.lo - 1]) && Escaped(line, title.lo - 1))
                       || (TitleClose(At(line, title.hi)) && Escaped(line, title.hi))))
  }

  /** What parse_markdown_links_reference makes of one line (a record the
      engine cannot produce, one that does not fit the line, yields
      nothing). */
  function RefOf(line: string, m: Option<Match>): Option<Reference> {
    if m.None? || !Fits(line, m.value, 6, 3) || RefDropped(line, m.value) then None
    else
      var g := m.value.groups;
      Some(Reference(LowerStr(Text(line, g[1])), Text(line, g[2]),
                     if m.value.rc >= 4 && g[3].Cap? then Some(Text(line, g[3])) else None))
  }

  /** No match or an escaped boundary yields nothing; otherwise the label
      is stored lowered and the title is the double-quoted one or none: a
      single-quoted or parenthesised title (groups 4 and 5) is never kept. */
  lemma RefOfFacts(line: string, m: Option<Match>)
    requires RefFits(line, m)
    ensures RefOf(line, m).Some? <==> m.Some? && !RefDropped(line, m.value)
    ensures RefOf(line, m).Some? ==>
      var g := m.value.groups;
      && RefOf(line, m).value.name == LowerStr(line[g[1].lo..g[1].hi])
      && RefOf(line, m).value.url == line[g[2].lo..g[2].hi]
      && (RefOf(line, m).value.title.Some? <==> m.value.rc >= 4 && g[3].Cap?)
      && (g[3].Unset? ==> RefOf(line, m).value.title.None?)
      && forall i :: 0 <= i < |RefOf(line, m).value.name| ==> !IsUpper(RefOf(line, m).value.name[i])
  {
  }

  /** parse_markdown_links_reference on one line whose match (if any) is
      `m`: NULL when there is no match or a boundary is escaped; otherwise
      a fresh node whose label buffer was lowered with str_to_lower. */
  method ParseLinkReference(line: string, m: Option<Match>) returns (ref: RefNode?)
    requires '\0' !in line
    requires RefFits(line, m)
    ensures ref == null <==> RefOf(line, m).None?
    ensures ref != null ==> fresh(ref) && ref.View() == RefOf(line, m).value && ref.next == null
  {
    if m.None? {
      return null;
    }
    var g := m.value.groups;
    if RefDropped(line, m.value) {
      return null;
    }
    var labelText := Text(line, g[1]);
    assert '\0' !in labelText by {
      forall i | 0 <= i < |labelText| ensures labelText[i] != '\0' {
        assert labelText[i] == line[g[1].lo + i];
      }
    }
    var labelBuf := NewCString(labelText);
    CStrTerminated(labelText);
    StrToLower(labelBuf);
    LowerCStr(labelText + ['\0']);
    var url := Text(line, g[2]);
    var title: Option<string> := None;
    if m.value.rc >= 4 && g[3].Cap? {
      title := Some(Text(line, g[3]));
    }
    ref := new RefNode(CStr(labelBuf[..]), url, title);
  }

  /** The references the lines yield, in line order. */
  function Yielded(lines: seq<string>, ms: seq<Option<Match>>): seq<Reference>
    requires |ms| == |lines|
  {
    if lines == [] then []
    else
      var n := |lines| - 1;
      Yielded(lines[..n], ms[..n]) + (match RefOf(lines[n], ms[n]) case None => [] case Some(r) => [r])
  }

  /** At most one reference per line; a line without one adds nothing. */
  lemma {:induction false} YieldedCount(lines: seq<string>, ms: seq<Option<Match>>)
    requires |ms| == |lines|
    ensures |Yielded(lines, ms)| <= |lines|
    ensures (forall i :: 0 <= i < |lines| ==> RefOf(lines[i], ms[i]).None?) ==> Yielded(lines, ms) == []
  {
    if lines != [] {
      var n := |lines| - 1;
      YieldedCount(lines[..n], ms[..n]);
    }
  }

  /** gen_markdown_link_reference_list over the reader's lines: every
      reference a line yields is inserted at the head, so the list holds
      the references in reverse line order; other lines still advance the
      reader. */
  method GenLinkReferenceList(lines: seq<string>, ms: seq<Option<Match>>) returns (head: RefNode?, ghost nodes: seq<RefNode>)
    requires |ms| == |lines|
    requires forall i :: 0 <= i < |lines| ==> '\0' !in lines[i] && RefFits(lines[i], ms[i])
    ensures IsList(head, nodes)
    ensures Refs(nodes) == Reverse(Yielded(lines, ms))
  {
    head := null;
    nodes := [];
    var i := 0;
    while i < |lines|
      invariant i <= |lines|
      invariant IsList(head, nodes)
      invariant Refs(nodes) == Reverse(Yielded(lines[..i], ms[..i]))
    {
      ReverseYieldedStep(lines, ms, i);
      head, nodes := AddLine(head, nodes, lines[i], ms[i]);
      i := i + 1;
    }
    assert lines[..i] == lines;
    assert ms[..i] == ms;
  }

  /** One turn of the do-while: parse the current line and, when it yields
      a reference, insert that at the head. */
  method AddLine(head: RefNode?, ghost nodes: seq<RefNode>, line: string, m: Option<Match>)
    returns (newHead: RefNode?, ghost newNodes: seq<RefNode>)
    requires IsList(head, nodes)
    requires '\0' !in line && RefFits(line, m)
    ensures IsList(newHead, newNodes)
    ensures Refs(newNodes) == match RefOf(line, m) case None => old(Refs(nodes)) case Some(r) => [r] + old(Refs(nodes))
  {
    ghost var before := Refs(nodes);
    var ref := ParseLinkReference(line, m);
    if ref == null {
      newHead, newNodes := head, nodes;
      assert Refs(nodes) == before;
    } else {
      assert Refs(nodes) == before;
      newHead, newNodes := Push(ref, head, nodes);
    }
  }

  /** The head insertion of gen_markdown_link_reference_list: `ref`
      becomes the new head and points at the old one. */
  method Push(ref: RefNode, head: RefNode?, ghost nodes: seq<RefNode>) returns (newHead: RefNode, ghost newNodes: seq<RefNode>)
    requires IsList(head, nodes) && ref !in nodes && ref.next == null
    modifies ref
    ensures newHead == ref && newNodes == [ref] + nodes && IsList(newHead, newNodes)
    ensures Refs(newNodes) == [old(ref.View())] + old(Refs(nodes))
  {
    ghost var before := Refs(nodes);
    if head == null {
      newHead := ref;
    } else {
      ref.next := head;
      newHead := ref;
    }
    assert Refs(nodes) == before;
    newNodes := [ref] + nodes;
    assert newNodes[1..] == nodes;
  }

  /** One more line adds its reference, if any, at the end. */
  lemma YieldedStep(lines: seq<string>, ms: seq<Option<Match>>, i: nat)
    requires |ms| == |lines| && i < |lines|
    ensures Yielded(lines[..i + 1], ms[..i + 1]) ==
      Yielded(lines[..i], ms[..i]) + (match RefOf(lines[i], ms[i]) case None => [] case Some(r) => [r])
  {
    assert lines[..i + 1][..i] == lines[..i];
    assert ms[..i + 1][..i] == ms[..i];
    assert lines[..i + 1][i] == lines[i];
    assert ms[..i + 1][i] == ms[i];
  }

  /** The list, in reverse line order, after one more line. */
  lemma ReverseYieldedStep(lines: seq<string>, ms: seq<Option<Match>>, i: nat)
    requires |ms| == |lines| && i < |lines|
    ensures Reverse(Yielded(lines[..i + 1], ms[..i + 1])) ==
      match RefOf(lines[i], ms[i])
      case None => Reverse(Yielded(lines[..i], ms[..i]))
      case Some(r) => [r] + Reverse(Yielded(lines[..i], ms[..i]))
  {
    YieldedStep(lines, ms, i);
    match RefOf(lines[i], ms[i]) {
      case None =>
        assert Yielded(lines[..i], ms[..i]) + [] == Yielded(lines[..i], ms[..i]);
      case Some(r) => ReverseSnoc(Yielded(lines[..i], ms[..i]), r);
    }
  }

  lemma ReverseSnoc<T>(s: seq<T>, x: T)
    ensures Reverse(s + [x]) == [x] + Reverse(s)
  {
    assert (s + [x])[..|s|] == s;
  }

  // ---------------------------------------------------------------------
  // Link records: the four matching loops
  // ---------------------------------------------------------------------

  /** MDLinkRegex, as new_md_link fills it: a label, an optional url, title
      and image source, and the match's [start, end) offsets. */
  datatype Link = Link(text: string, url: Option<string>, title: Option<string>, src: Option<string>, start: int, end: int)

  /** The four loops, told apart by their pattern; a tag-link pass also
      sees the reference list. */
  datatype Pass = General | Tag(refs: seq<Reference>) | Simple | Image

  /** The groups each pattern has, and which of them it always sets:
      general links and images 0-2 (3 the optional title), tag links 0-2,
      simple addresses 0-1 (2 a url, 3 an e-mail address). */
  predicate PassFits(pass: Pass, s: string, m: Match) {
    match pass
    case General => Fits(s, m, 4, 3)
    case Tag(_) => Fits(s, m, 3, 3)
    case Simple => Fits(s, m, 4, 2)
    case Image => Fits(s, m, 4, 3)
  }

  predicate AllFit(pass: Pass, s: string, ms: seq<Match>) {
    forall i {:trigger PassFits(pass, s, ms[i])} :: 0 <= i < |ms| ==> PassFits(pass, s, ms[i])
  }

  /** The escape filter of the general-link loop: the brackets around the
      label, the parentheses around the url, or the quotes around a title. */
  predicate GeneralDropped(s: string, m: Match)
    requires Fits(s, m, 4, 3)
  {
    var g := m.groups;
    GroupEscaped(s, g[1], '[', ']') || GroupEscaped(s, g[2], '(', ')')
    || (g[3].Cap? && GroupEscaped(s, g[3], '"', '"'))
  }

  /** The escape filter of the tag-link loop: either pair of brackets. */
  predicate TagDropped(s: string, m: Match)
    requires Fits(s, m, 3, 3)
  {
    GroupEscaped(s, m.groups[1], '[', ']') || GroupEscaped(s, m.groups[2], '[', ']')
  }

  /** The escape filter of the simple-address loop: the angle brackets. */
  predicate SimpleDropped(s: string, m: Match)
    requires Fits(s, m, 4, 2)
  {
    GroupEscaped(s, m.groups[1], '<', '>')
  }

  /** The escape filter of the image loop: the `!` itself (the position
      tested is that of the `!`), then the same delimiters as a general
      link. */
  predicate ImageDropped(s: string, m: Match)
    requires Fits(s, m, 4, 3)
  {
    var g := m.groups;
    (g[0].lo >= 1 && Escaped(s, g[0].lo))
    || GroupEscaped(s, g[1], '[', ']') || GroupEscaped(s, g[2], '(', ')')
    || (g[3].Cap? && GroupEscaped(s, g[3], '"', '"'))
  }

  /** A kept general link: label and url groups, the title only when the
      engine reports the third group, the whole match as its range. */
  function GeneralLink(s: string, m: Match): Link
    requires Fits(s, m, 4, 3)
  {
    var g := m.groups;
    Link(Text(s, g[1]), Some(Text(s, g[2])), if m.rc >= 4 && g[3].Cap? then Some(Text(s, g[3])) else None,
         None, g[0].lo, g[0].hi)
  }

  /** A kept tag link, resolved through the references, or None. */
  function TagLink(refs: seq<Reference>, s: string, m: Match): Option<Link>
    requires Fits(s, m, 3, 3)
  {
    var g := m.groups;
    match FindRef(refs, LowerStr(Text(s, g[2])))
    case None => None
    case Some(k) => Some(Link(Text(s, g[1]), Some(refs[k].url), refs[k].title, None, g[0].lo, g[0].hi))
  }

  /** The prefix an e-mail address's url gets. */
  const Mailto: string := "mailto:"

  /** A kept simple address: the range includes the angle brackets. */
  function SimpleLink(s: string, m: Match): Link
    requires Fits(s, m, 4, 2)
  {
    var g := m.groups;
    var text := Text(s, g[1]);
    Link(text, Some(if g[3].Cap? then Mailto + text else text), None, None, g[1].lo - 1, g[1].hi + 1)
  }

  /** A kept image: a source and no url. */
  function ImageLink(s: string, m: Match): Link
    requires Fits(s, m, 4, 3)
  {
    var g := m.groups;
    Link(Text(s, g[1]), None, if g[3].Cap? then Some(Text(s, g[3])) else None, Some(Text(s, g[2])), g[0].lo, g[0].hi)
  }

  predicate Dropped(pass: Pass, s: string, m: Match)
    requires PassFits(pass, s, m)
  {
    match pass
    case General => GeneralDropped(s, m)
    case Tag(_) => TagDropped(s, m)
    case Simple => SimpleDropped(s, m)
    case Image => ImageDropped(s, m)
  }

  /** The record one match becomes, or None when the loop stores nothing
      for it (or when the record does not fit the subject, which the
      engine never reports). */
  function Outcome(pass: Pass, s: string, m: Match): Option<Link> {
    if !PassFits(pass, s, m) || Dropped(pass, s, m) then None
    else match pass
      case General => Some(GeneralLink(s, m))
      case Tag(refs) => TagLink(refs, s, m)
      case Simple => Some(SimpleLink(s, m))
      case Image => Some(ImageLink(s, m))
  }

  function OptionSeq(o: Option<Link>): seq<Link> {
    match o
    case None => []
    case Some(l) => [l]
  }

  /** The array a loop returns: the records of the kept matches, in match
      order. */
  function Links(pass: Pass, s: string, ms: seq<Match>): seq<Link> {
    if ms == [] then []
    else Links(pass, s, ms[..|ms| - 1]) + OptionSeq(Outcome(pass, s, ms[|ms| - 1]))
  }

  /** Scanning resumes at the end of each match, kept or dropped, so the
      records of later matches follow those of earlier ones. */
  lemma {:induction false} LinksAppend(pass: Pass, s: string, a: seq<Match>, b: seq<Match>)
    ensures Links(pass, s, a + b) == Links(pass, s, a) + Links(pass, s, b)
    decreases |b|
  {
    if b == [] {
      assert a + b == a;
    } else {
      var n := |b| - 1;
      assert (a + b)[..|a + b| - 1] == a + b[..n];
      LinksAppend(pass, s, a, b[..n]);
    }
  }

  /** One more match adds its record, if any, at the end. */
  lemma LinksStep(pass: Pass, s: string, ms: seq<Match>, i: nat)
    requires i < |ms|
    ensures Links(pass, s, ms[..i + 1]) == Links(pass, s, ms[..i]) + OptionSeq(Outcome(pass, s, ms[i]))
  {
    assert ms[..i + 1][..i] == ms[..i];
    assert ms[..i + 1][i] == ms[i];
  }

  /** The loops' step: the array so far, extended by the record of the
      next match, is the array of one more match. */
  lemma LinksExtend(pass: Pass, s: string, ms: seq<Match>, i: nat, arr: seq<Link>, o: Option<Link>)
    requires i < |ms| && arr == Links(pass, s, ms[..i]) && o == Outcome(pass, s, ms[i])
    ensures arr + OptionSeq(o) == Links(pass, s, ms[..i + 1])
  {
    LinksStep(pass, s, ms, i);
  }

  /** Every record a match produces is in the array. */
  lemma {:induction false} LinksKept(pass: Pass, s: string, ms: seq<Match>, i: nat)
    requires i < |ms| && Outcome(pass, s, ms[i]).Some?
    ensures Outcome(pass, s, ms[i]).value in Links(pass, s, ms)
    decreases |ms|
  {
    var n := |ms| - 1;
    if i < n {
      assert ms[..n][i] == ms[i];
      LinksKept(pass, s, ms[..n], i);
    }
  }

  /** Every record in the array was produced by one of the matches, and
      there are no more records than matches. */
  lemma {:induction false} LinksFrom(pass: Pass, s: string, ms: seq<Match>, l: Link)
    ensures l in Links(pass, s, ms) ==> exists i :: 0 <= i < |ms| && Outcome(pass, s, ms[i]) == Some(l)
    ensures |Links(pass, s, ms)| <= |ms|
    decreases |ms|
  {
    if ms != [] {
      var n := |ms| - 1;
      LinksFrom(pass, s, ms[..n], l);
      if l in Links(pass, s, ms[..n]) {
        var i :| 0 <= i < n && Outcome(pass, s, ms[..n][i]) == Some(l);
        assert ms[..n][i] == ms[i];
      }
    }
  }

  /** A general link takes the label and url groups and, only when the
      engine reports the third group, the title. */
  lemma GeneralLinkFacts(s: string, m: Match)
    requires PassFits(General, s, m)
    ensures Outcome(General, s, m).Some? <==> !Dropped(General, s, m)
    ensures Outcome(General, s, m).Some? ==>
      var l := Outcome(General, s, m).value; var g := m.groups;
      && l.text == s[g[1].lo..g[1].hi] && l.url == Some(s[g[2].lo..g[2].hi])
      && (l.title.Some? <==> m.rc >= 4 && g[3].Cap?)
      && l.src.None? && l.start == g[0].lo && l.end == g[0].hi
  {
  }

  /** A tag link is stored only when its lowered tag names a reference,
      and then takes that reference's url and title. */
  lemma TagLinkFacts(s: string, refs: seq<Reference>, m: Match)
    requires PassFits(Tag(refs), s, m)
    ensures Outcome(Tag(refs), s, m).Some? <==>
      !Dropped(Tag(refs), s, m) && FindRef(refs, LowerStr(s[m.groups[2].lo..m.groups[2].hi])).Some?
    ensures Outcome(Tag(refs), s, m).Some? ==>
      var l := Outcome(Tag(refs), s, m).value;
      var k := FindRef(refs, LowerStr(s[m.groups[2].lo..m.groups[2].hi])).value;
      && l.text == s[m.groups[1].lo..m.groups[1].hi]
      && l.url == Some(refs[k].url) && l.title == refs[k].title
      && l.start == m.groups[0].lo && l.end == m.groups[0].hi
  {
  }

  /** A simple address spans its angle brackets, and its url is
      "mailto:" + label exactly when the e-mail group matched, the label
      itself otherwise. */
  lemma SimpleLinkFacts(s: string, m: Match)
    requires PassFits(Simple, s, m) && !Dropped(Simple, s, m)
    requires 1 <= m.groups[1].lo && m.groups[1].hi < |s|
    requires s[m.groups[1].lo - 1] == '<' && s[m.groups[1].hi] == '>'
    ensures Outcome(Simple, s, m) == Some(SimpleLink(s, m))
    ensures
      var l := SimpleLink(s, m);
      && 0 <= l.start < l.end <= |s|
      && s[l.start..l.end] == "<" + l.text + ">"
      && (l.url == Some(Mailto + l.text) <==> m.groups[3].Cap?)
      && (m.groups[3].Unset? ==> l.url == Some(l.text))
      && l.title.None? && l.src.None?
  {
    var g := m.groups[1];
    var text := s[g.lo..g.hi];
    assert SimpleLink(s, m).text == text;
    SliceAround(s, g.lo - 1, g.hi);
    assert |Mailto + text| != |text|;
  }

  /** A slice whose two ends are the characters around an inner slice. */
  lemma SliceAround(s: string, a: nat, b: nat)
    requires a < b < |s|
    ensures s[a..b + 1] == [s[a]] + s[a + 1..b] + [s[b]]
  {
  }

  /** An image takes its source from the second group and never a url. */
  lemma ImageLinkFacts(s: string, m: Match)
    requires PassFits(Image, s, m)
    ensures Outcome(Image, s, m).Some? <==> !Dropped(Image, s, m)
    ensures Outcome(Image, s, m).Some? ==>
      var l := Outcome(Image, s, m).value; var g := m.groups;
      && l.text == s[g[1].lo..g[1].hi] && l.src == Some(s[g[2].lo..g[2].hi])
      && l.url.None? && (l.title.Some? <==> g[3].Cap?)
      && l.start == g[0].lo && l.end == g[0].hi
  {
  }

  /** The store step shared by the four loops: the capacity doubles when
      the array is full and the match passed the escape filter (`grow`),
      then a kept record is appended. */
  method Store(arr: seq<Link>, count: nat, capacity: nat, grow: bool, link: Option<Link>)
    returns (arr': seq<Link>, count': nat, capacity': nat)
    requires 2 <= capacity && count == |arr| <= capacity
    requires link.Some? ==> grow
    ensures arr' == arr + OptionSeq(link)
    ensures 2 <= capacity' && count' == |arr'| <= capacity'
    ensures capacity' == (if grow && count == capacity then 2 * capacity else capacity)
  {
    arr', count', capacity' := arr, count, capacity;
    if grow && count' == capacity' {
      capacity' := capacity' * 2;
    }
    if link.Some? {
      arr' := arr' + [link.value];
      count' := count' + 1;
    }
  }

  /** parse_markdown_general_links: NULL for a NULL subject; otherwise the
      records of the unescaped matches, in a count/capacity array that
      starts at two and doubles when full. */
  method ParseMarkdownGeneralLinks(str: Option<string>, ms: seq<Match>) returns (arr: seq<Link>, count: nat)
    requires str.Some? ==> AllFit(General, str.value, ms)
    ensures str.None? ==> arr == []
    ensures str.Some? ==> arr == Links(General, str.value, ms)
    ensures count == |arr|
  {
    if str.None? {
      return [], 0;
    }
    var s := str.value;
    var capacity: nat := 2;
    arr, count := [], 0;
    var i := 0;
    while i < |ms|
      invariant i <= |ms|
      invariant 2 <= capacity && count == |arr| <= capacity
      invariant arr == Links(General, s, ms[..i])
    {
      var link := GeneralRecord(s, ms[i]);
      LinksExtend(General, s, ms, i, arr, link);
      arr, count, capacity := Store(arr, count, capacity, link.Some?, link);
      i := i + 1;
    }
    assert ms[..i] == ms;
  }

  /** One turn of the general-link loop: the escape checks, then the
      record built from the captured label, url and optional title. */
  method GeneralRecord(s: string, m: Match) returns (link: Option<Link>)
    requires PassFits(General, s, m)
    ensures link == Outcome(General, s, m)
  {
    var g := m.groups;
    if GroupEscaped(s, g[1], '[', ']') || GroupEscaped(s, g[2], '(', ')') {
      return None;
    }
    if g[3].Cap? && GroupEscaped(s, g[3], '"', '"') {
      return None;
    }
    var title: Option<string> := None;
    if m.rc >= 4 && g[3].Cap? {
      title := Some(Text(s, g[3]));
    }
    link := Some(Link(Text(s, g[1]), Some(Text(s, g[2])), title, None, g[0].lo, g[0].hi));
  }

  /** parse_markdown_links_tag: like the general loop, but a match is
      stored only when find_link_reference resolves its tag. */
  method ParseMarkdownLinksTag(head: RefNode?, ghost nodes: seq<RefNode>, str: Option<string>, ms: seq<Match>)
    returns (arr: seq<Link>, count: nat)
    requires IsList(head, nodes)
    requires str.Some? ==> '\0' !in str.value && AllFit(Tag(Refs(nodes)), str.value, ms)
    ensures str.None? ==> arr == []
    ensures str.Some? ==> arr == Links(Tag(Refs(nodes)), str.value, ms)
    ensures count == |arr|
  {
    if str.None? {
      return [], 0;
    }
    var s := str.value;
    ghost var refs := Refs(nodes);
    var capacity: nat := 2;
    arr, count := [], 0;
    var i := 0;
    while i < |ms|
      invariant i <= |ms|
      invariant refs == Refs(nodes)
      invariant 2 <= capacity && count == |arr| <= capacity
      invariant arr == Links(Tag(refs), s, ms[..i])
    {
      var link, passed := TagRecord(head, nodes, refs, s, ms[i]);
      LinksExtend(Tag(refs), s, ms, i, arr, link);
      arr, count, capacity := Store(arr, count, capacity, passed, link);
      i := i + 1;
    }
    assert ms[..i] == ms;
  }

  /** One turn of the tag-link loop: the escape checks, then the lookup of
      the tag and, when it resolves, a record with the reference's url and
      title. */
  method TagRecord(head: RefNode?, ghost nodes: seq<RefNode>, ghost refs: seq<Reference>, s: string, m: Match)
    returns (link: Option<Link>, passed: bool)
    requires IsList(head, nodes) && refs == Refs(nodes) && '\0' !in s && PassFits(Tag(refs), s, m)
    ensures link == Outcome(Tag(refs), s, m)
    ensures passed == !TagDropped(s, m) && (link.Some? ==> passed)
  {
    var g := m.groups;
    if GroupEscaped(s, g[1], '[', ']') || GroupEscaped(s, g[2], '[', ']') {
      return None, false;
    }
    passed := true;
    var text := Text(s, g[1]);
    var tagText := Text(s, g[2]);
    NoNulInside(s, g[2].lo, g[2].hi);
    var ref := ResolveTag(head, nodes, tagText);
    if FindRef(refs, LowerStr(tagText)).Some? {
      RefsAt(nodes, FindRef(refs, LowerStr(tagText)).value);
    }
    TagLookup(s, refs, m, nodes, LowerStr(tagText), ref);
    if ref == null {
      return None, true;
    }
    link := Some(Link(text, Some(ref.url), ref.title, None, g[0].lo, g[0].hi));
  }

  /** The tag copied into a fresh NUL-terminated buffer and looked up with
      find_link_reference, which lowers that buffer. */
  method ResolveTag(head: RefNode?, ghost nodes: seq<RefNode>, tagText: string) returns (ref: RefNode?)
    requires IsList(head, nodes) && '\0' !in tagText
    ensures FindRef(Refs(nodes), LowerStr(tagText)).None? ==> ref == null
    ensures FindRef(Refs(nodes), LowerStr(tagText)).Some? ==> ref == nodes[FindRef(Refs(nodes), LowerStr(tagText)).value]
  {
    ghost var refs := Refs(nodes);
    var tag := NewCString(tagText);
    CStrTerminated(tagText);
    ref := FindLinkReference(head, tag, nodes);
    assert Refs(nodes) == refs;
  }

  /** A slice of a string without NUL has none either. */
  lemma NoNulInside(s: string, lo: nat, hi: nat)
    requires lo <= hi <= |s| && '\0' !in s
    ensures '\0' !in s[lo..hi]
  {
    forall j | 0 <= j < hi - lo ensures s[lo..hi][j] != '\0' {
      assert s[lo..hi][j] == s[lo + j];
    }
  }

  /** What the lookup of an unescaped tag link decides for its outcome. */
  lemma TagLookup(s: string, refs: seq<Reference>, m: Match, nodes: seq<RefNode>, key: string, ref: RefNode?)
    requires PassFits(Tag(refs), s, m) && !Dropped(Tag(refs), s, m)
    requires |refs| == |nodes| && key == LowerStr(s[m.groups[2].lo..m.groups[2].hi])
    requires FindRef(refs, key).None? ==> ref == null
    requires FindRef(refs, key).Some? ==>
      ref == nodes[FindRef(refs, key).value] && refs[FindRef(refs, key).value] == nodes[FindRef(refs, key).value].View()
    ensures ref == null <==> Outcome(Tag(refs), s, m).None?
    ensures ref != null ==>
      Outcome(Tag(refs), s, m) == Some(Link(s[m.groups[1].lo..m.groups[1].hi], Some(ref.url), ref.title, None,
                                            m.groups[0].lo, m.groups[0].hi))
  {
  }

  /** parse_simple_addresses: an autolink <url> or <address>; the record
      spans the angle brackets and an e-mail address gets a mailto: url. */
  method ParseSimpleAddresses(str: Option<string>, ms: seq<Match>) returns (arr: seq<Link>, count: nat)
    requires str.Some? ==> AllFit(Simple, str.value, ms)
    ensures str.None? ==> arr == []
    ensures str.Some? ==> arr == Links(Simple, str.value, ms)
    ensures count == |arr|
  {
    if str.None? {
      return [], 0;
    }
    var s := str.value;
    var capacity: nat := 2;
    arr, count := [], 0;
    var i := 0;
    while i < |ms|
      invariant i <= |ms|
      invariant 2 <= capacity && count == |arr| <= capacity
      invariant arr == Links(Simple, s, ms[..i])
    {
      var link := SimpleRecord(s, ms[i]);
      LinksExtend(Simple, s, ms, i, arr, link);
      arr, count, capacity := Store(arr, count, capacity, link.Some?, link);
      i := i + 1;
    }
    assert ms[..i] == ms;
  }

  /** One turn of the simple-address loop: the angle-bracket escape
      checks, then the record whose url gets "mailto:" when the e-mail
      group matched. */
  method SimpleRecord(s: string, m: Match) returns (link: Option<Link>)
    requires PassFits(Simple, s, m)
    ensures link == Outcome(Simple, s, m)
  {
    var g := m.groups;
    if GroupEscaped(s, g[1], '<', '>') {
      return None;
    }
    var text := Text(s, g[1]);
    var url := if g[3].Cap? then Mailto + text else text;
    link := Some(Link(text, Some(url), None, None, g[1].lo - 1, g[1].hi + 1));
  }

  /** parse_markdown_images: ![label](src "title"); the record has a
      source and no url. */
  method ParseMarkdownImages(str: Option<string>, ms: seq<Match>) returns (arr: seq<Link>, count: nat)
    requires str.Some? ==> AllFit(Image, str.value, ms)
    ensures str.None? ==> arr == []
    ensures str.Some? ==> arr == Links(Image, str.value, ms)
    ensures count == |arr|
  {
    if str.None? {
      return [], 0;
    }
    var s := str.value;
    var capacity: nat := 2;
    arr, count := [], 0;
    var i := 0;
    while i < |ms|
      invariant i <= |ms|
      invariant 2 <= capacity && count == |arr| <= capacity
      invariant arr == Links(Image, s, ms[..i])
    {
      var link := ImageRecord(s, ms[i]);
      LinksExtend(Image, s, ms, i, arr, link);
      arr, count, capacity := Store(arr, count, capacity, link.Some?, link);
      i := i + 1;
    }
    assert ms[..i] == ms;
  }

  /** One turn of the image loop: the escape check of the `!`, those of
      the delimiters, then the record with a source and no url. */
  method ImageRecord(s: string, m: Match) returns (link: Option<Link>)
    requires PassFits(Image, s, m)
    ensures link == Outcome(Image, s, m)
  {
    var g := m.groups;
    if g[0].lo >= 1 {
      var bang := IsEscapedAt(s, g[0].lo);
      if bang {
        return None;
      }
    }
    if GroupEscaped(s, g[1], '[', ']') || GroupEscaped(s, g[2], '(', ')') {
      return None;
    }
    if g[3].Cap? && GroupEscaped(s, g[3], '"', '"') {
      return None;
    }
    var title: Option<string> := None;
    if g[3].Cap? {
      title := Some(Text(s, g[3]));
    }
    link := Some(Link(Text(s, g[1]), None, title, Some(Text(s, g[2])), g[0].lo, g[0].hi));
  }

  // ---------------------------------------------------------------------
  // Combining and sorting
  // ---------------------------------------------------------------------

  /** cmp_md_link_start: the difference of the start offsets, whose sign
      orders the links by start. */
  function CmpLinkStart(a: Link, b: Link): (r: int)
    ensures r < 0 <==> a.start < b.start
    ensures r == 0 <==> a.start == b.start
    ensures r > 0 <==> a.start > b.start
  {
    a.start - b.start
  }

  predicate SortedByStart(links: seq<Link>) {
    forall i, j :: 0 <= i < j < |links| ==> links[i].start <= links[j].start
  }

  /** `l` placed before the first link that compares greater. */
  function InsertByStart(l: Link, links: seq<Link>): seq<Link> {
    if links == [] then [l]
    else if CmpLinkStart(l, links[0]) <= 0 then [l] + links
    else [links[0]] + InsertByStart(l, links[1..])
  }

  /** The order qsort with cmp_md_link_start leaves the links in, up to the
      order among links with equal starts. */
  function SortByStart(links: seq<Link>): seq<Link> {
    if links == [] then [] else InsertByStart(links[0], SortByStart(links[1..]))
  }

  /** Every link starts at or after `b`. */
  predicate StartsFrom(b: int, links: seq<Link>) {
    forall i :: 0 <= i < |links| ==> b <= links[i].start
  }

  lemma SortedCons(x: Link, links: seq<Link>)
    requires StartsFrom(x.start, links) && SortedByStart(links)
    ensures SortedByStart([x] + links)
  {
    forall i, j | 0 <= i < j < |[x] + links| ensures ([x] + links)[i].start <= ([x] + links)[j].start {
      assert ([x] + links)[j] == links[j - 1];
      if i > 0 {
        assert ([x] + links)[i] == links[i - 1];
      }
    }
  }

  lemma {:induction false} InsertStartsFrom(b: int, l: Link, links: seq<Link>)
    requires b <= l.start && StartsFrom(b, links)
    ensures StartsFrom(b, InsertByStart(l, links))
  {
    if links != [] && CmpLinkStart(l, links[0]) > 0 {
      InsertStartsFrom(b, l, links[1..]);
    }
  }

  lemma {:induction false} InsertSorted(l: Link, links: seq<Link>)
    requires SortedByStart(links)
    ensures SortedByStart(InsertByStart(l, links))
  {
    if links == [] {
    } else if CmpLinkStart(l, links[0]) <= 0 {
      assert StartsFrom(l.start, links) by {
        forall i | 0 <= i < |links| ensures l.start <= links[i].start {
          if i > 0 {
            assert links[0].start <= links[i].start;
          }
        }
      }
      SortedCons(l, links);
    } else {
      var rest := links[1..];
      assert SortedByStart(rest) by {
        forall i, j | 0 <= i < j < |rest| ensures rest[i].start <= rest[j].start {
          assert rest[i] == links[i + 1] && rest[j] == links[j + 1];
        }
      }
      InsertSorted(l, rest);
      assert StartsFrom(links[0].start, rest) by {
        forall i | 0 <= i < |rest| ensures links[0].start <= rest[i].start {
          assert rest[i] == links[i + 1];
        }
      }
      InsertStartsFrom(links[0].start, l, rest);
      SortedCons(links[0], InsertByStart(l, rest));
    }
  }

  lemma {:induction false} InsertPerm(l: Link, links: seq<Link>)
    ensures multiset(InsertByStart(l, links)) == multiset(links) + multiset{l}
  {
    if links != [] && CmpLinkStart(l, links[0]) > 0 {
      InsertPerm(l, links[1..]);
      assert links == [links[0]] + links[1..];
    }
  }

  /** The sorted array is ordered by start and holds the same links. */
  lemma {:induction false} SortFacts(links: seq<Link>)
    ensures SortedByStart(SortByStart(links))
    ensures multiset(SortByStart(links)) == multiset(links)
  {
    if links != [] {
      SortFacts(links[1..]);
      InsertSorted(links[0], SortByStart(links[1..]));
      InsertPerm(links[0], SortByStart(links[1..]));
      assert links == [links[0]] + links[1..];
    }
  }

  /** parse_markdown_links: the general, tag and simple arrays copied one
      after the other into one array of their total count, then sorted by
      start. */
  method ParseMarkdownLinks(head: RefNode?, ghost nodes: seq<RefNode>, str: Option<string>,
                            generalMatches: seq<Match>, simpleMatches: seq<Match>, tagMatches: seq<Match>)
    returns (links: seq<Link>, resultCount: nat)
    requires IsList(head, nodes)
    requires str.Some? ==> '\0' !in str.value
    requires str.Some? ==> AllFit(General, str.value, generalMatches)
    requires str.Some? ==> AllFit(Simple, str.value, simpleMatches)
    requires str.Some? ==> AllFit(Tag(Refs(nodes)), str.value, tagMatches)
    ensures resultCount == |links|
    ensures str.None? ==> links == []
    ensures str.Some? ==>
      var general := Links(General, str.value, generalMatches);
      var tags := Links(Tag(Refs(nodes)), str.value, tagMatches);
      var simple := Links(Simple, str.value, simpleMatches);
      && resultCount == |general| + |tags| + |simple|
      && SortedByStart(links)
      && multiset(links) == multiset(general + tags + simple)
  {
    var general, generalCount := ParseMarkdownGeneralLinks(str, generalMatches);
    var simple, simpleCount := ParseSimpleAddresses(str, simpleMatches);
    var tags, tagCount := ParseMarkdownLinksTag(head, nodes, str, tagMatches);
    var totalCount := generalCount + simpleCount + tagCount;
    var combined := general + tags + simple;
    SortFacts(combined);
    links := SortByStart(combined);
    resultCount := totalCount;
    assert |links| == |combined| by {
      assert |multiset(links)| == |multiset(combined)|;
    }
  }
}

/** The in-memory helpers of file_reader.c: splitting a block's accumulated
    text into lines, and a copying left trim. */
module FileReader {
  import opened Ctype

  /** Initial capacity of the line array (MTHC_SPLITTER_CAP). */
  const SplitterCap: nat := 10

  /** `strchr(s + from, c)` as an index: the first position at or after
      `from` that holds `c`. */
  function FindChar(s: string, from: nat, c: char): (r: Option<nat>)
    requires from <= |s|
    ensures r.Some? ==> from <= r.value < |s| && s[r.value] == c
    ensures r.Some? ==> c !in s[from..r.value]
    ensures r.None? ==> c !in s[from..]
    decreases |s| - from
  {
    if from == |s| then None
    else if s[from] == c then Some(from)
    else FindChar(s, from + 1, c)
  }

  /** The lines content_splitter produces: every segment before a splitter
      (empty ones included), then the trailing segment if it is non-empty. */
  function Split(content: string, sep: char): seq<string>
    decreases |content|
  {
    if content == [] then []
    else match FindChar(content, 0, sep)
      case None => [content]
      case Some(k) => [content[..k]] + Split(content[k + 1..], sep)
  }

  /** The lines joined back with the splitter between them. */
  function Join(lines: seq<string>, sep: char): string {
    if lines == [] then []
    else if |lines| == 1 then lines[0]
    else lines[0] + [sep] + Join(lines[1..], sep)
  }

  predicate EndsWith(s: string, c: char) {
    s != [] && s[|s| - 1] == c
  }

  /** content_splitter(content, splitter, &count): the while loop over
      strchr that appends each segment to a capacity-doubling array, then
      the non-empty tail segment. */
  method ContentSplitter(content: string, splitter: char) returns (lines: seq<string>, splitCount: nat)
    requires splitter != '\0'
    ensures lines == Split(content, splitter)
    ensures splitCount == |lines|
  {
    var count := 0;
    var capacity := SplitterCap;
    lines := [];
    var start := 0;
    // strchr(start, splitter), as an offset from start
    var end := FindChar(content[start..], 0, splitter);
    while end.Some?
      invariant start <= |content|
      invariant end == FindChar(content[start..], 0, splitter)
      invariant count == |lines| <= capacity && SplitterCap <= capacity
      invariant lines + Split(content[start..], splitter) == Split(content, splitter)
      decreases |content| - start
    {
      var len := end.value;
      SplitStep(content, start, splitter, len, lines);
      var line := content[start..start + len];
      if count >= capacity {
        capacity := capacity * 2;
      }
      lines := lines + [line];
      count := count + 1;
      start := start + len + 1;
      end := FindChar(content[start..], 0, splitter);
    }
    SplitTail(content, start, splitter);
    if start < |content| {
      var line := content[start..];
      if count >= capacity {
        capacity := capacity * 2;
      }
      lines := lines + [line];
      count := count + 1;
    }
    splitCount := count;
  }

  lemma SplitAtSeparator(content: string, start: nat, sep: char, len: nat)
    requires start <= |content|
    requires FindChar(content[start..], 0, sep) == Some(len)
    ensures start + len < |content|
    ensures Split(content[start..], sep) == [content[start..start + len]] + Split(content[start + len + 1..], sep)
  {
    var rest := content[start..];
    assert rest[..len] == content[start..start + len];
    assert rest[len + 1..] == content[start + len + 1..];
  }

  /** The loop invariant of content_splitter survives one found splitter. */
  lemma SplitStep(content: string, start: nat, sep: char, len: nat, lines: seq<string>)
    requires start <= |content|
    requires FindChar(content[start..], 0, sep) == Some(len)
    requires lines + Split(content[start..], sep) == Split(content, sep)
    ensures start + len < |content|
    ensures (lines + [content[start..start + len]]) + Split(content[start + len + 1..], sep) == Split(content, sep)
  {
    SplitAtSeparator(content, start, sep, len);
    var line, next := content[start..start + len], Split(content[start + len + 1..], sep);
    assert (lines + [line]) + next == lines + ([line] + next);
  }

  /** Split on content whose first splitter is at k. */
  lemma SplitAt(content: string, sep: char, k: nat)
    requires FindChar(content, 0, sep) == Some(k)
    ensures content == content[..k] + [sep] + content[k + 1..]
    ensures sep !in content[..k]
    ensures Split(content, sep) == [content[..k]] + Split(content[k + 1..], sep)
    ensures EndsWith(content, sep) == (content[k + 1..] == [] || EndsWith(content[k + 1..], sep))
  {
    assert content[0..k] == content[..k];
  }

  /** Split on non-empty content without a splitter. */
  lemma SplitNone(content: string, sep: char)
    requires content != [] && FindChar(content, 0, sep).None?
    ensures Split(content, sep) == [content]
    ensures sep !in content && !EndsWith(content, sep)
  {
    assert content[0..] == content;
    assert content[|content| - 1] in content;
  }

  lemma SplitTail(content: string, start: nat, sep: char)
    requires start <= |content|
    requires FindChar(content[start..], 0, sep).None?
    ensures Split(content[start..], sep) == if start < |content| then [content[start..]] else []
  {
  }

  /** No line returned by content_splitter contains the splitter. */
  lemma {:induction false} SplitLinesHaveNoSeparator(content: string, sep: char)
    ensures forall i :: 0 <= i < |Split(content, sep)| ==> sep !in Split(content, sep)[i]
    decreases |content|
  {
    if content != [] {
      match FindChar(content, 0, sep)
      case None =>
      case Some(k) =>
        assert content[0..k] == content[..k];
        SplitLinesHaveNoSeparator(content[k + 1..], sep);
    }
  }

  /** Joining the lines with the splitter gives back the content, minus one
      trailing splitter when the content ended with one. */
  lemma {:induction false} JoinSplit(content: string, sep: char)
    ensures Join(Split(content, sep), sep) + (if EndsWith(content, sep) then [sep] else []) == content
    decreases |content|
  {
    if content != [] {
      match FindChar(content, 0, sep)
      case None =>
        SplitNone(content, sep);
      case Some(k) =>
        var rest := content[k + 1..];
        SplitAt(content, sep, k);
        JoinSplit(rest, sep);
        var pre, lines := content[..k], Split(rest, sep);
        if rest == [] {
          assert Join(Split(content, sep), sep) == pre;
        } else {
          SplitNonEmpty(rest, sep);
          JoinCons(pre, lines, sep);
          var end := if EndsWith(rest, sep) then [sep] else [];
          ConcatAssoc(pre + [sep], Join(lines, sep), end);
        }
    }
  }

  lemma ConcatAssoc(a: string, b: string, c: string)
    ensures a + b + c == a + (b + c)
  {
    assert forall i | 0 <= i < |a + b + c| :: (a + b + c)[i] == (a + (b + c))[i];
  }

  lemma JoinCons(line: string, lines: seq<string>, sep: char)
    requires lines != []
    ensures Join([line] + lines, sep) == line + [sep] + Join(lines, sep)
  {
    assert ([line] + lines)[1..] == lines;
  }

  /** Non-empty content splits into at least one line. */
  lemma SplitNonEmpty(content: string, sep: char)
    requires content != []
    ensures Split(content, sep) != []
  {
    if FindChar(content, 0, sep).Some? {} else {}
  }

  /** The number of lines is the number of splitters, plus one when the
      segment after the last splitter is non-empty. */
  lemma {:induction false} SplitCount(content: string, sep: char)
    ensures |Split(content, sep)| == Count(content, sep) + (if content != [] && !EndsWith(content, sep) then 1 else 0)
    decreases |content|
  {
    if content != [] {
      match FindChar(content, 0, sep)
      case None =>
        SplitNone(content, sep);
        CountNone(content, sep);
      case Some(k) =>
        var rest := content[k + 1..];
        SplitAt(content, sep, k);
        SplitCount(rest, sep);
        CountFirst(content[..k], sep, rest);
    }
  }

  /** The splitters of `pre + [sep] + rest` when `pre` holds none. */
  lemma CountFirst(pre: string, sep: char, rest: string)
    requires sep !in pre
    ensures Count(pre + [sep] + rest, sep) == 1 + Count(rest, sep)
  {
    CountAppend(pre + [sep], rest, sep);
    CountAppend(pre, [sep], sep);
    CountNone(pre, sep);
    assert Count([sep], sep) == 1 by {
      assert [sep][..0] == [];
    }
  }

  /** ltrim_space (file_reader.c): a fresh copy of the string without its
      leading whitespace run; the argument is left untouched. */
  method LTrimSpace(str: string) returns (trimmed: string)
    ensures |trimmed| <= |str| && str[|str| - |trimmed|..] == trimmed
    ensures forall k :: 0 <= k < |str| - |trimmed| ==> IsSpace(str[k])
    ensures trimmed == [] || !IsSpace(trimmed[0])
  {
    var p := 0;
    while p < |str| && IsSpace(str[p])
      invariant p <= |str|
      invariant forall k :: 0 <= k < p ==> IsSpace(str[k])
    {
      p := p + 1;
    }
    trimmed := str[p..];
  }
}

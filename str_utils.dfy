/** Emphasis substitution (str_utils.c): find the leftmost `*`/`_` opener
    that has a closer, rewrite the delimited span as `<em>`/`<strong>`, and
    repeat over the whole string, resolving each span's inner text first. */
module StrUtils {
  import opened Ctype

  predicate IsMarker(c: char) {
    c == '*' || c == '_'
  }

  /** Number of `*` and `_` characters: the measure every substitution
      lowers, since the tag names contain neither. */
  function Markers(s: string): nat {
    if s == [] then 0 else Markers(s[..|s| - 1]) + (if IsMarker(s[|s| - 1]) then 1 else 0)
  }

  lemma {:induction false} MarkersAppend(a: string, b: string)
    ensures Markers(a + b) == Markers(a) + Markers(b)
    decreases |b|
  {
    if b == [] {
      assert a + b == a;
    } else {
      assert (a + b)[..|a + b| - 1] == a + b[..|b| - 1];
      MarkersAppend(a, b[..|b| - 1]);
    }
  }

  lemma MarkersNone(s: string)
    requires forall k :: 0 <= k < |s| ==> !IsMarker(s[k])
    ensures Markers(s) == 0
  {
    if s != [] {
      MarkersNone(s[..|s| - 1]);
    }
  }

  lemma MarkersAll(s: string)
    requires forall k :: 0 <= k < |s| ==> IsMarker(s[k])
    ensures Markers(s) == |s|
  {
    if s != [] {
      MarkersAll(s[..|s| - 1]);
    }
  }

  /** `pat` occurs in `s` starting at index `j`. */
  predicate OccursAt(s: string, pat: string, j: nat) {
    j + |pat| <= |s| && s[j..j + |pat|] == pat
  }

  /** `strstr(s + from, pat)` as an index: the first occurrence of `pat`
      starting at or after `from`. */
  function IndexOf(s: string, pat: string, from: nat): Option<nat>
    requires from <= |s|
    decreases |s| - from
  {
    if OccursAt(s, pat, from) then Some(from)
    else if from == |s| then None
    else IndexOf(s, pat, from + 1)
  }

  /** IndexOf finds the first occurrence at or after `from`, and None means
      there is none. */
  lemma {:induction false} IndexOfFacts(s: string, pat: string, from: nat)
    requires from <= |s|
    ensures var r := IndexOf(s, pat, from);
      && (r.Some? ==> from <= r.value && OccursAt(s, pat, r.value))
      && (r.Some? ==> forall j :: from <= j < r.value ==> !OccursAt(s, pat, j))
      && (r.None? ==> forall j :: from <= j <= |s| ==> !OccursAt(s, pat, j))
    decreases |s| - from
  {
    if !OccursAt(s, pat, from) && from < |s| {
      IndexOfFacts(s, pat, from + 1);
    }
  }

  /** The delimiter an opener at `i` stands for: doubled when the next
      character is the same marker. */
  function Syntax(s: string, i: nat): string
    requires i < |s| && IsMarker(s[i])
  {
    if i + 1 < |s| && s[i + 1] == s[i] then [s[i], s[i]] else [s[i]]
  }

  function TagFor(syntax: string): string {
    if |syntax| == 2 then "strong" else "em"
  }

  /** Where the matching closer of an opener at `i` starts, if any. */
  function CloserOf(s: string, i: nat): Option<nat>
    requires i < |s| && IsMarker(s[i])
  {
    IndexOf(s, Syntax(s, i), i + |Syntax(s, i)|)
  }

  predicate HasCloser(s: string, i: nat) {
    i < |s| && IsMarker(s[i]) && CloserOf(s, i).Some?
  }

  /** A matched span: its delimiter, its tag and the half-open range of the
      whole span, delimiters included. */
  datatype Span = Span(syntax: string, tag: string, start: nat, end: nat)

  /** The span an opener at `i` forms with its closer. */
  function PairAt(s: string, i: nat): Span
    requires HasCloser(s, i)
  {
    var syntax := Syntax(s, i);
    Span(syntax, TagFor(syntax), i, CloserOf(s, i).value + |syntax|)
  }

  /** What find_tag_pair promises of a pair it builds at opener `i`: the
      delimiter stands at both ends, no occurrence of it begins strictly
      inside (strstr finds the first one), and the tag matches its width. */
  lemma PairAtFacts(s: string, i: nat)
    requires HasCloser(s, i)
    ensures var p := PairAt(s, i);
      && p.start == i && p.start + 2 * |p.syntax| <= p.end <= |s|
      && (|p.syntax| == 1 || |p.syntax| == 2)
      && (forall k :: 0 <= k < |p.syntax| ==> p.syntax[k] == s[i])
      && (p.tag == if |p.syntax| == 2 then "strong" else "em")
      && OccursAt(s, p.syntax, p.start) && OccursAt(s, p.syntax, p.end - |p.syntax|)
      && (forall j :: p.start + |p.syntax| <= j < p.end - |p.syntax| ==> !OccursAt(s, p.syntax, j))
  {
    var syntax := Syntax(s, i);
    IndexOfFacts(s, syntax, i + |syntax|);
    if |syntax| == 2 {
      assert s[i..i + 2] == syntax;
    } else {
      assert s[i..i + 1] == syntax;
    }
  }

  /** The span find_tag_pair returns from scan position `idx`, as a value:
      the pair of the first opener at or after `idx` that has a closer. */
  function FindPair(s: string, idx: nat): Option<Span>
    decreases |s| - idx
  {
    if idx >= |s| then None
    else if HasCloser(s, idx) then Some(PairAt(s, idx))
    else FindPair(s, idx + 1)
  }

  /** FindPair returns the pair of the first opener at or after `idx` that
      has a closer, and None exactly when there is no such opener. */
  lemma {:induction false} FindPairFacts(s: string, idx: nat)
    ensures var r := FindPair(s, idx);
      && (r.Some? ==> idx <= r.value.start && HasCloser(s, r.value.start) && r.value == PairAt(s, r.value.start))
      && (r.Some? ==> forall j :: idx <= j < r.value.start ==> !HasCloser(s, j))
      && (r.None? <==> forall j :: idx <= j < |s| ==> !HasCloser(s, j))
    decreases |s| - idx
  {
    if idx < |s| && !HasCloser(s, idx) {
      FindPairFacts(s, idx + 1);
    }
  }

  function Wrap(tag: string, inner: string): string {
    "<" + tag + ">" + inner + "</" + tag + ">"
  }

  /** The span's interior, delimiters excluded. */
  function Inner(s: string, p: Span): string
    requires p.start + 2 * |p.syntax| <= p.end <= |s|
  {
    s[p.start + |p.syntax|..p.end - |p.syntax|]
  }

  /** The span [p.start, p.end) of `s` replaced by `sub` wrapped in the
      pair's tags. */
  function Rewrap(s: string, p: Span, sub: string): string
    requires p.start <= p.end <= |s|
  {
    s[..p.start] + Wrap(p.tag, sub) + s[p.end..]
  }

  /** The string str_sub_tagpair builds from a pair. */
  function Splice(s: string, p: Span): string
    requires p.start + 2 * |p.syntax| <= p.end <= |s|
  {
    Rewrap(s, p, Inner(s, p))
  }

  /** The string update_tag_pair_str builds: the interior of the span
      replaced by `sub`, both delimiters kept. */
  function Replaced(s: string, p: Span, sub: string): string
    requires p.start + 2 * |p.syntax| <= p.end <= |s|
  {
    s[..p.start + |p.syntax|] + sub + s[p.end - |p.syntax|..]
  }

  /** The span after its interior became `sub`: same start, end moved. */
  function Resized(p: Span, sub: string): Span {
    Span(p.syntax, p.tag, p.start, p.start + |sub| + 2 * |p.syntax|)
  }

  /** Where the next scan starts after a span has been replaced.
      AtOldEnd is what fullstr_sub_tagpair does: the end of the pair before
      the tags were inserted. AfterReplacement is just past the inserted
      `</tag>`. */
  datatype Resume = AtOldEnd | AfterReplacement

  /** fullstr_sub_tagpair from scan position `idx`, as a value. */
  function ResolveFrom(s: string, idx: nat, mode: Resume): (r: string)
    ensures Markers(r) <= Markers(s)
    decreases Markers(s)
  {
    match FindPair(s, idx)
    case None => s
    case Some(p) =>
      FindPairFacts(s, idx);
      PairAtFacts(s, p.start);
      SpanMarkers(s, p);
      var sub := ResolveFrom(Inner(s, p), 0, mode);
      WrapMarkers(s[..p.start], p.tag, sub, s[p.end..]);
      ResolveFrom(Rewrap(s, p, sub), NextScan(p, sub, mode), mode)
  }

  function NextScan(p: Span, sub: string, mode: Resume): nat {
    match mode
    case AtOldEnd => p.start + |sub| + 2 * |p.syntax|
    case AfterReplacement => p.start + |Wrap(p.tag, sub)|
  }

  /** The span's two delimiters are markers, so its interior holds
      2 * |syntax| fewer of them than the whole string. */
  lemma SpanMarkers(s: string, p: Span)
    requires p.start + 2 * |p.syntax| <= p.end <= |s|
    requires OccursAt(s, p.syntax, p.start) && OccursAt(s, p.syntax, p.end - |p.syntax|)
    requires forall k :: 0 <= k < |p.syntax| ==> IsMarker(p.syntax[k])
    ensures Markers(s) == Markers(s[..p.start]) + 2 * |p.syntax| + Markers(Inner(s, p)) + Markers(s[p.end..])
  {
    SpanDecompose(s, p);
    MarkersAll(p.syntax);
    FiveMarkers(s[..p.start], p.syntax, Inner(s, p), s[p.end..]);
  }

  lemma SpanDecompose(s: string, p: Span)
    requires p.start + 2 * |p.syntax| <= p.end <= |s|
    requires OccursAt(s, p.syntax, p.start) && OccursAt(s, p.syntax, p.end - |p.syntax|)
    ensures s == s[..p.start] + p.syntax + Inner(s, p) + p.syntax + s[p.end..]
  {
    var e1, e2 := p.start + |p.syntax|, p.end - |p.syntax|;
    assert s[p.start..e1] == p.syntax && s[e2..p.end] == p.syntax;
    assert s == s[..p.start] + s[p.start..e1] + s[e1..e2] + s[e2..p.end] + s[p.end..];
  }

  lemma FiveMarkers(a: string, d: string, m: string, z: string)
    ensures Markers(a + d + m + d + z) == Markers(a) + Markers(d) + Markers(m) + Markers(d) + Markers(z)
  {
    MarkersAppend(a + d + m + d, z);
    MarkersAppend(a + d + m, d);
    MarkersAppend(a + d, m);
    MarkersAppend(a, d);
  }

  lemma MarkersRange(s: string, i: nat, j: nat, k: nat)
    requires i <= j <= k <= |s|
    ensures Markers(s[i..k]) == Markers(s[i..j]) + Markers(s[j..k])
    ensures k == |s| ==> Markers(s[i..]) == Markers(s[i..j]) + Markers(s[j..])
  {
    assert s[i..k] == s[i..j] + s[j..k];
    MarkersAppend(s[i..j], s[j..k]);
    assert k == |s| ==> s[i..k] == s[i..] && s[j..k] == s[j..];
  }

  lemma MarkersSplit(s: string, j: nat)
    requires j <= |s|
    ensures Markers(s) == Markers(s[..j]) + Markers(s[j..])
  {
    assert s == s[..j] + s[j..];
    MarkersAppend(s[..j], s[j..]);
  }

  lemma WrapMarkers(a: string, tag: string, sub: string, z: string)
    requires tag == "em" || tag == "strong"
    ensures Markers(a + Wrap(tag, sub) + z) == Markers(a) + Markers(sub) + Markers(z)
  {
    TagMarkers(tag, sub);
    MarkersAppend(a + Wrap(tag, sub), z);
    MarkersAppend(a, Wrap(tag, sub));
  }

  /** The tags add no markers. */
  lemma TagMarkers(tag: string, sub: string)
    requires tag == "em" || tag == "strong"
    ensures Markers(Wrap(tag, sub)) == Markers(sub)
  {
    var o, c := "<" + tag + ">", "</" + tag + ">";
    assert Wrap(tag, sub) == o + sub + c;
    MarkersAppend(o + sub, c);
    MarkersAppend(o, sub);
    MarkersNone(o);
    MarkersNone(c);
  }

  /** The whole-string resolution, as fullstr_sub_tagpair writes it. */
  function Resolve(s: string): string {
    ResolveFrom(s, 0, AtOldEnd)
  }

  /** The whole-string resolution that resumes after each replacement. */
  function ResolveIntended(s: string): string {
    ResolveFrom(s, 0, AfterReplacement)
  }

  /** memcpy(dst + at, src, |src|): the first `at` cells are kept, `src`
      follows them, and the cells after it are untouched. */
  method CopyInto(dst: array<char>, at: nat, src: string)
    requires at + |src| <= dst.Length
    modifies dst
    ensures dst[..at + |src|] == old(dst[..at]) + src
    ensures dst[at + |src|..] == old(dst[at + |src|..])
  {
    var k := 0;
    while k < |src|
      invariant k <= |src|
      invariant dst[..at + k] == old(dst[..at]) + src[..k]
      invariant dst[at + k..] == old(dst[at + k..])
    {
      dst[at + k] := src[k];
      k := k + 1;
      assert dst[..at + k] == dst[..at + k - 1] + [src[k - 1]];
      assert src[..k] == src[..k - 1] + [src[k - 1]];
    }
  }

  lemma WrapParts(a: string, tag: string, m: string, z: string)
    ensures a + Wrap(tag, m) + z == a + ("<" + tag + ">") + m + ("</" + tag + ">") + z
  {
  }

  /** A buffer of `len` characters filled by five consecutive memcpy
      calls. */
  method Concat5(len: nat, a: string, b: string, c: string, d: string, e: string) returns (r: string)
    requires len == |a| + |b| + |c| + |d| + |e|
    ensures r == a + b + c + d + e
  {
    var buf := new char[len];
    CopyInto(buf, 0, a);
    CopyInto(buf, |a|, b);
    assert buf[..|a| + |b|] == a + b;
    CopyInto(buf, |a| + |b|, c);
    assert buf[..|a| + |b| + |c|] == a + b + c;
    CopyInto(buf, |a| + |b| + |c|, d);
    assert buf[..|a| + |b| + |c| + |d|] == a + b + c + d;
    CopyInto(buf, |a| + |b| + |c| + |d|, e);
    assert buf[..] == buf[..len];
    r := buf[..];
  }

  /** A buffer of `len` characters filled by three consecutive memcpy
      calls. */
  method Concat3(len: nat, a: string, b: string, c: string) returns (r: string)
    requires len == |a| + |b| + |c|
    ensures r == a + b + c
  {
    var buf := new char[len];
    CopyInto(buf, 0, a);
    CopyInto(buf, |a|, b);
    assert buf[..|a| + |b|] == a + b;
    CopyInto(buf, |a| + |b|, c);
    assert buf[..] == buf[..len];
    r := buf[..];
  }

  /** str_copy: NULL gives NULL, otherwise a fresh copy (strcpy). */
  method StrCopy(str: Option<string>) returns (r: Option<string>)
    ensures r == str
  {
    if str.None? {
      return None;
    }
    var copy := new char[|str.value|];
    CopyInto(copy, 0, str.value);
    assert copy[..] == copy[..|str.value|];
    r := Some(copy[..]);
  }

  /** The TagPair record: its own copy of the string, the delimiter, the
      tag name and the offsets of the span's two ends in `str`. */
  class TagPair {
    var str: string
    var syntax: string
    var tag: string
    var start: nat
    var end: nat

    constructor (str: string, syntax: string, tag: string, start: nat, end: nat)
      ensures this.str == str && this.syntax == syntax && this.tag == tag
      ensures this.start == start && this.end == end
    {
      this.str := str;
      this.syntax := syntax;
      this.tag := tag;
      this.start := start;
      this.end := end;
    }

    /** The offsets delimit a span with room for both delimiters. */
    predicate Valid()
      reads this
    {
      start + 2 * |syntax| <= end <= |str|
    }

    function View(): Span
      reads this
    {
      Span(syntax, tag, start, end)
    }

    /** update_tag_pair_str: replace the text strictly between the two
        delimiters by `sub`, keeping the delimiters and `start`. NULL leaves
        the pair unchanged. */
    method UpdateStr(sub: Option<string>)
      requires Valid()
      modifies this
      ensures Valid()
      ensures sub.None? ==> str == old(str) && end == old(end)
      ensures sub.Some? ==> str == Replaced(old(str), old(View()), sub.value)
      ensures sub.Some? ==> View() == Resized(old(View()), sub.value)
      ensures sub.Some? ==> Inner(str, View()) == sub.value
      ensures start == old(start) && syntax == old(syntax) && tag == old(tag)
    {
      if sub.None? {
        return;
      }
      var s := sub.value;
      var n := |syntax|;
      var newLen := |str| - (end - start) + 2 * n + |s|;
      var newStr := Concat3(newLen, str[..start + n], s, str[end - n..]);
      assert newStr == Replaced(str, View(), s);
      end := start + |s| + 2 * n;
      str := newStr;
      assert Inner(str, View()) == str[start + n..start + n + |s|];
    }
  }

  /** new_tag_pair: NULL when any string argument is NULL, otherwise a pair
      over a fresh copy of `str`. */
  method NewTagPair(str: Option<string>, syntax: Option<string>, tag: Option<string>, start: nat, end: nat)
    returns (pair: TagPair?)
    ensures pair == null <==> str.None? || syntax.None? || tag.None?
    ensures pair != null ==> fresh(pair)
    ensures pair != null ==> pair.str == str.value && pair.View() == Span(syntax.value, tag.value, start, end)
  {
    if str.None? || syntax.None? || tag.None? {
      return null;
    }
    var copy := StrCopy(str);
    pair := new TagPair(copy.value, syntax.value, tag.value, start, end);
  }

  /** str_sub_tagpair: the string with the pair's span rewritten as
      `<tag>inner</tag>`, assembled by five copies into a buffer of the
      length computed from the pair. NULL pair gives NULL. */
  method StrSubTagPair(pair: TagPair?) returns (r: Option<string>)
    requires pair != null ==> pair.Valid()
    ensures pair == null ==> r.None?
    ensures pair != null ==> r == Some(Splice(pair.str, pair.View()))
    ensures pair != null ==> |r.value| == |pair.str| - (pair.end - pair.start) + (|pair.tag| + 2) + (|pair.tag| + 3) + (pair.end - pair.start - 2 * |pair.syntax|)
  {
    if pair == null {
      return None;
    }
    var str, syntax, tag, start, end := pair.str, pair.syntax, pair.tag, pair.start, pair.end;
    var substrLen := end - start;
    var syntaxLen := |syntax|;
    var prefixLen := |tag| + 2;
    var suffixLen := |tag| + 3;
    var replacementLen := substrLen - 2 * syntaxLen;
    var totalLen := |str| - substrLen + prefixLen + suffixLen + replacementLen;
    var inner := str[start + syntaxLen..start + syntaxLen + replacementLen];
    assert inner == Inner(str, pair.View());
    var result := Concat5(totalLen, str[..start], "<" + tag + ">", inner, "</" + tag + ">", str[end..]);
    WrapParts(str[..start], tag, inner, str[end..]);
    r := Some(result);
  }

  /** find_tag_pair: the indexed scan from `startIdx` that skips openers
      without a closer and builds the pair of the first one that has one. */
  method FindTagPair(str: string, startIdx: nat) returns (pair: TagPair?)
    ensures pair == null <==> FindPair(str, startIdx).None?
    ensures pair != null ==> fresh(pair) && pair.str == str && pair.View() == FindPair(str, startIdx).value
  {
    var strLen := |str|;
    var i := startIdx;
    while i < strLen
      invariant startIdx <= i
      invariant forall j :: startIdx <= j < i ==> !HasCloser(str, j)
    {
      if IsMarker(str[i]) {
        var doubled := i + 1 < strLen && str[i + 1] == str[i];
        var syntax := if doubled then [str[i], str[i]] else [str[i]];
        var tag := if doubled then "strong" else "em";
        // strstr(start_ptr + |syntax|, syntax)
        var endPtr := IndexOf(str, syntax, i + |syntax|);
        if endPtr.None? {
          assert !HasCloser(str, i) by {
            assert syntax == Syntax(str, i);
          }
          i := i + 1;
          continue;
        }
        assert HasCloser(str, i) && PairAt(str, i) == Span(syntax, tag, i, endPtr.value + |syntax|) by {
          assert syntax == Syntax(str, i);
        }
        FirstPairAt(str, startIdx, i);
        pair := NewTagPair(Some(str), Some(syntax), Some(tag), i, endPtr.value + |syntax|);
        return;
      }
      i := i + 1;
    }
    FirstPairNone(str, startIdx, i);
    return null;
  }

  lemma FirstPairAt(s: string, idx: nat, i: nat)
    requires idx <= i && HasCloser(s, i)
    requires forall j :: idx <= j < i ==> !HasCloser(s, j)
    ensures FindPair(s, idx) == Some(PairAt(s, i))
  {
    FindPairFacts(s, idx);
  }

  lemma FirstPairNone(s: string, idx: nat, i: nat)
    requires idx <= i && |s| <= i
    requires forall j :: idx <= j < i ==> !HasCloser(s, j)
    ensures FindPair(s, idx).None?
  {
    FindPairFacts(s, idx);
  }

  /** fullstr_sub_tagpair: repeatedly find the next pair from the scan
      position, resolve its interior recursively, splice it, and resume at
      the pair's end offset. */
  method FullStrSubTagPair(str: string) returns (r: string)
    ensures r == Resolve(str)
    decreases Markers(str), 1
  {
    var src := str;
    var startIdx := 0;
    while true
      invariant Markers(src) <= Markers(str)
      invariant ResolveFrom(src, startIdx, AtOldEnd) == Resolve(str)
      decreases Markers(src)
    {
      var pair := FindTagPair(src, startIdx);
      if pair == null {
        return src;
      }
      ghost var p := pair.View();
      PairFound(src, startIdx, p);
      ResolveStep(src, startIdx, p);
      src, startIdx := SubstitutePair(src, pair);
    }
  }

  /** The body of one fullstr_sub_tagpair iteration once a pair has been
      found: resolve the interior, write it back into the pair if it
      changed, splice, and report the pair's end as the next scan start. */
  method SubstitutePair(src: string, pair: TagPair) returns (tmp: string, nextIdx: nat)
    requires pair.str == src && pair.Valid() && |pair.syntax| > 0
    requires pair.tag == "em" || pair.tag == "strong"
    requires Markers(src) == Markers(src[..pair.start]) + 2 * |pair.syntax| + Markers(Inner(src, pair.View())) + Markers(src[pair.end..])
    modifies pair
    ensures var p := old(pair.View());
      var sub := Resolve(Inner(src, p));
      && tmp == Rewrap(src, p, sub)
      && nextIdx == p.start + |sub| + 2 * |p.syntax|
    ensures Markers(tmp) < Markers(src)
    decreases Markers(src), 0
  {
    ghost var p := pair.View();
    var n := |pair.syntax|;
    var child := src[pair.start + n..pair.end - n];
    assert child == Inner(src, p);
    var substituted := FullStrSubTagPair(child);
    SpliceMarkers(src, p, substituted);
    if substituted != child {
      pair.UpdateStr(Some(substituted));
      UpdateSplice(src, p, substituted);
    }
    assert Splice(pair.str, pair.View()) == Rewrap(src, p, substituted);
    var r := StrSubTagPair(pair);
    tmp := r.value;
    nextIdx := pair.end;
  }

  /** What the loop needs of a pair FindPair returned: a well-formed span
      with tag em or strong, whose delimiters account for 2 * |syntax|
      markers. */
  lemma PairFound(s: string, idx: nat, p: Span)
    requires FindPair(s, idx) == Some(p)
    ensures p.start + 2 * |p.syntax| <= p.end <= |s|
    ensures p.tag == "em" || p.tag == "strong"
    ensures Markers(s) == Markers(s[..p.start]) + 2 * |p.syntax| + Markers(Inner(s, p)) + Markers(s[p.end..])
    ensures |p.syntax| > 0
  {
    FindPairFacts(s, idx);
    PairAtFacts(s, p.start);
    SpanMarkers(s, p);
  }

  /** One iteration of fullstr_sub_tagpair on the value level: resolving
      from `idx` is resolving the spliced string from the pair's old end. */
  lemma ResolveStep(s: string, idx: nat, p: Span)
    requires FindPair(s, idx) == Some(p)
    requires p.start + 2 * |p.syntax| <= p.end <= |s|
    ensures var sub := Resolve(Inner(s, p));
      ResolveFrom(s, idx, AtOldEnd) == ResolveFrom(Rewrap(s, p, sub), p.start + |sub| + 2 * |p.syntax|, AtOldEnd)
  {
    ResolveUnfold(s, idx, AtOldEnd, p);
  }

  /** Splicing a resolved interior back lowers the marker count. */
  lemma SpliceMarkers(s: string, p: Span, sub: string)
    requires p.start + 2 * |p.syntax| <= p.end <= |s| && |p.syntax| > 0
    requires p.tag == "em" || p.tag == "strong"
    requires Markers(s) == Markers(s[..p.start]) + 2 * |p.syntax| + Markers(Inner(s, p)) + Markers(s[p.end..])
    requires Markers(sub) <= Markers(Inner(s, p))
    ensures Markers(Rewrap(s, p, sub)) < Markers(s)
  {
    WrapMarkers(s[..p.start], p.tag, sub, s[p.end..]);
  }

  /** Splicing after the interior was replaced by `sub` equals wrapping
      `sub` in the original string. */
  lemma UpdateSplice(s: string, p: Span, sub: string)
    requires p.start + 2 * |p.syntax| <= p.end <= |s|
    ensures Splice(Replaced(s, p, sub), Resized(p, sub)) == Rewrap(s, p, sub)
  {
    var n := |p.syntax|;
    var u := Replaced(s, p, sub);
    var q := Resized(p, sub);
    assert u[..p.start] == s[..p.start];
    assert Inner(u, q) == sub;
    assert u[q.end..] == s[p.end..];
  }

  /** A resolution with no pair left to find returns its argument: the
      identity return of fullstr_sub_tagpair. */
  lemma ResolveNoPair(s: string, idx: nat, mode: Resume)
    requires FindPair(s, idx).None?
    ensures ResolveFrom(s, idx, mode) == s
  {
  }

  /** Every substitution removes markers: when a pair is found the result
      holds strictly fewer `*`/`_` than the argument. */
  lemma ResolveLowersMarkers(s: string, idx: nat, mode: Resume)
    requires FindPair(s, idx).Some?
    ensures Markers(ResolveFrom(s, idx, mode)) < Markers(s)
  {
    var p := FindPair(s, idx).value;
    PairFound(s, idx, p);
    var sub := ResolveFrom(Inner(s, p), 0, mode);
    SpliceMarkers(s, p, sub);
  }

  /** A string without markers has no pair. */
  lemma NoMarkersNoPair(s: string, idx: nat)
    requires Markers(s) == 0
    ensures FindPair(s, idx).None?
  {
    FindPairFacts(s, idx);
    if FindPair(s, idx).Some? {
      var p := FindPair(s, idx).value;
      PairFound(s, idx, p);
    }
  }

  // Prefix invariance: scanning `a + t` from |a| + k sees only `t`.

  function ShiftSpan(p: Span, d: nat): Span {
    Span(p.syntax, p.tag, p.start + d, p.end + d)
  }

  lemma OccursShift(a: string, t: string, pat: string, j: nat)
    ensures OccursAt(a + t, pat, |a| + j) == OccursAt(t, pat, j)
  {
    if j + |pat| <= |t| {
      assert (a + t)[|a| + j..|a| + j + |pat|] == t[j..j + |pat|];
    }
  }

  lemma {:induction false} IndexOfShift(a: string, t: string, pat: string, f: nat)
    requires f <= |t|
    ensures IndexOf(a + t, pat, |a| + f) == match IndexOf(t, pat, f)
      case None => None
      case Some(v) => Some(|a| + v)
    decreases |t| - f
  {
    OccursShift(a, t, pat, f);
    if !OccursAt(t, pat, f) && f < |t| {
      IndexOfShift(a, t, pat, f + 1);
    }
  }

  lemma SyntaxShift(a: string, t: string, j: nat)
    requires j < |t| && IsMarker(t[j])
    ensures (a + t)[|a| + j] == t[j]
    ensures Syntax(a + t, |a| + j) == Syntax(t, j)
  {
    if j + 1 < |t| {
      assert (a + t)[|a| + j + 1] == t[j + 1];
    }
  }

  lemma CloserShift(a: string, t: string, j: nat)
    ensures HasCloser(a + t, |a| + j) == HasCloser(t, j)
  {
    if j < |t| && IsMarker(t[j]) {
      SyntaxShift(a, t, j);
      var syn := Syntax(t, j);
      IndexOfShift(a, t, syn, j + |syn|);
      assert CloserOf(a + t, |a| + j) == IndexOf(a + t, syn, |a| + (j + |syn|));
      assert CloserOf(a + t, |a| + j).Some? == CloserOf(t, j).Some?;
    } else if j < |t| {
      assert (a + t)[|a| + j] == t[j];
    }
  }

  lemma PairShift(a: string, t: string, j: nat)
    requires HasCloser(t, j)
    ensures HasCloser(a + t, |a| + j)
    ensures PairAt(a + t, |a| + j) == ShiftSpan(PairAt(t, j), |a|)
  {
    CloserShift(a, t, j);
    SyntaxShift(a, t, j);
    var syn := Syntax(t, j);
    IndexOfShift(a, t, syn, j + |syn|);
  }

  lemma {:induction false} FindPairShift(a: string, t: string, k: nat)
    ensures FindPair(a + t, |a| + k) == match FindPair(t, k)
      case None => None
      case Some(p) => Some(ShiftSpan(p, |a|))
    decreases |t| - k
  {
    if k < |t| {
      CloserShift(a, t, k);
      if HasCloser(t, k) {
        PairShift(a, t, k);
      } else {
        FindPairShift(a, t, k + 1);
      }
    }
  }

  /** Resolution from |a| + k of `a + t` leaves `a` alone and resolves `t`
      from `k`. */
  lemma {:induction false} ResolveShift(a: string, t: string, k: nat, mode: Resume)
    ensures ResolveFrom(a + t, |a| + k, mode) == a + ResolveFrom(t, k, mode)
    decreases Markers(t)
  {
    FindPairShift(a, t, k);
    match FindPair(t, k)
    case None =>
      ResolveNoPair(a + t, |a| + k, mode);
      ResolveNoPair(t, k, mode);
    case Some(p) =>
      var r, n := ShiftStep(a, t, k, mode, p);
      ResolveShift(a, r, n, mode);
  }

  /** One pair of ResolveShift: both resolutions continue on the same
      spliced string, from the same position relative to `a`. */
  lemma ShiftStep(a: string, t: string, k: nat, mode: Resume, p: Span) returns (r: string, n: nat)
    requires FindPair(t, k) == Some(p)
    ensures Markers(r) < Markers(t)
    ensures ResolveFrom(t, k, mode) == ResolveFrom(r, n, mode)
    ensures ResolveFrom(a + t, |a| + k, mode) == ResolveFrom(a + r, |a| + n, mode)
  {
    FindPairShift(a, t, k);
    PairFound(t, k, p);
    var sub := ResolveFrom(Inner(t, p), 0, mode);
    SpliceMarkers(t, p, sub);
    r, n := Rewrap(t, p, sub), NextScan(p, sub, mode);
    ResolveAt(t, k, mode, p, sub, r, n);
    OuterStep(a, t, k, mode, p, sub, r, n);
  }

  /** The `a + t` half of ShiftStep. */
  lemma OuterStep(a: string, t: string, k: nat, mode: Resume, p: Span, sub: string, r: string, n: nat)
    requires FindPair(a + t, |a| + k) == Some(ShiftSpan(p, |a|))
    requires p.start + 2 * |p.syntax| <= p.end <= |t|
    requires sub == ResolveFrom(Inner(t, p), 0, mode)
    requires r == Rewrap(t, p, sub) && n == NextScan(p, sub, mode)
    ensures ResolveFrom(a + t, |a| + k, mode) == ResolveFrom(a + r, |a| + n, mode)
  {
    var q := ShiftSpan(p, |a|);
    SpanShift(a, t, p, sub);
    assert NextScan(q, sub, mode) == |a| + n;
    ResolveAt(a + t, |a| + k, mode, q, sub, a + r, |a| + n);
  }

  /** A span of `t` moved past `a` has the same interior and splices into
      `a` followed by the splice in `t`. */
  lemma SpanShift(a: string, t: string, p: Span, sub: string)
    requires p.start + 2 * |p.syntax| <= p.end <= |t|
    ensures Inner(a + t, ShiftSpan(p, |a|)) == Inner(t, p)
    ensures Rewrap(a + t, ShiftSpan(p, |a|), sub) == a + Rewrap(t, p, sub)
  {
    var q := ShiftSpan(p, |a|);
    assert (a + t)[..q.start] == a + t[..p.start];
    assert (a + t)[q.end..] == t[p.end..];
  }

  /** ResolveUnfold with the resolved interior and the continuation named. */
  lemma ResolveAt(s: string, idx: nat, mode: Resume, p: Span, sub: string, r: string, n: nat)
    requires FindPair(s, idx) == Some(p)
    requires p.start + 2 * |p.syntax| <= p.end <= |s|
    requires sub == ResolveFrom(Inner(s, p), 0, mode)
    requires r == Rewrap(s, p, sub) && n == NextScan(p, sub, mode)
    ensures ResolveFrom(s, idx, mode) == ResolveFrom(r, n, mode)
  {
    ResolveUnfold(s, idx, mode, p);
  }

  /** One unfolding of ResolveFrom at a found pair. */
  lemma ResolveUnfold(s: string, idx: nat, mode: Resume, p: Span)
    requires FindPair(s, idx) == Some(p)
    ensures p.start + 2 * |p.syntax| <= p.end <= |s|
    ensures var sub := ResolveFrom(Inner(s, p), 0, mode);
      ResolveFrom(s, idx, mode) == ResolveFrom(Rewrap(s, p, sub), NextScan(p, sub, mode), mode)
  {
    PairFound(s, idx, p);
  }

  /** The corrected resolution is compositional: the first pair's interior
      is resolved on its own, the text after the pair is resolved on its
      own, and the inserted tags are never scanned again. */
  lemma ResolveIntendedSplits(s: string)
    ensures FindPair(s, 0).None? ==> ResolveIntended(s) == s
    ensures FindPair(s, 0).Some? ==>
      var p := FindPair(s, 0).value;
      p.start + 2 * |p.syntax| <= p.end <= |s| &&
      ResolveIntended(s) == s[..p.start] + Wrap(p.tag, ResolveIntended(Inner(s, p))) + ResolveIntended(s[p.end..])
  {
    if FindPair(s, 0).Some? {
      var p := FindPair(s, 0).value;
      PairFound(s, 0, p);
      var sub := ResolveIntended(Inner(s, p));
      var a := s[..p.start] + Wrap(p.tag, sub);
      assert Rewrap(s, p, sub) == a + s[p.end..];
      assert NextScan(p, sub, AfterReplacement) == |a| + 0;
      ResolveShift(a, s[p.end..], 0, AfterReplacement);
    }
  }

  /** fullstr_sub_tagpair as written on "*_*_": the first span is "*_*",
      whose interior "_" has no pair; the scan then resumes at the old end
      3, which now lies inside the inserted "<em>_</em>", so the stray `_`
      of the interior pairs with the `_` after the span. Resolving the
      interior and the rest separately would give "<em>_</em>_". (The
      strings are parameters so that the verifier does not evaluate the
      recursion on literals eagerly.) */
  lemma ResumeInsideReplacement(s: string, inner: string, rest: string)
    requires s == "*_*_" && inner == "_" && rest == "_"
    ensures Resolve(s) == "<em><em></em></em>"
    ensures Wrap("em", Resolve(inner)) + Resolve(rest) == "<em>_</em>_"
  {
    AsWrittenChain(s, "<em>_</em>_", "<em><em></em></em>");
    LoneOpener(inner);
    LoneOpener(rest);
  }

  lemma AsWrittenChain(s0: string, s1: string, s2: string)
    requires s0 == "*_*_" && s1 == "<em>_</em>_" && s2 == "<em><em></em></em>"
    ensures Resolve(s0) == s2
  {
    FirstSpanOfExample(s0, s1);
    ResumeStepOfExample(s1, s2);
    LastScanOfExample(s2);
  }

  lemma FirstSpanOfExample(s0: string, s1: string)
    requires s0 == "*_*_" && s1 == "<em>_</em>_"
    ensures Resolve(s0) == ResolveFrom(s1, 3, AtOldEnd)
    ensures ResolveIntended(s0) == ResolveFrom(s1, 10, AfterReplacement)
  {
    var p0 := Span("*", "em", 0, 3);
    FirstPairIs(s0, 0, p0, 2);
    var inner := Inner(s0, p0);
    assert inner == "_";
    LoneOpener(inner);
    assert Rewrap(s0, p0, inner) == s1;
    assert |Wrap("em", inner)| == 10;
    ResolveAt(s0, 0, AtOldEnd, p0, inner, s1, 3);
    ResolveAt(s0, 0, AfterReplacement, p0, inner, s1, 10);
  }

  lemma ResumeStepOfExample(s1: string, s2: string)
    requires s1 == "<em>_</em>_" && s2 == "<em><em></em></em>"
    ensures ResolveFrom(s1, 3, AtOldEnd) == ResolveFrom(s2, 11, AtOldEnd)
  {
    var p1 := Span("_", "em", 4, 11);
    FirstPairIs(s1, 3, p1, 10);
    var inner := Inner(s1, p1);
    assert inner == "</em>";
    MarkersNone(inner);
    NoMarkersNoPair(inner, 0);
    ResolveNoPair(inner, 0, AtOldEnd);
    assert Rewrap(s1, p1, inner) == s2;
    ResolveAt(s1, 3, AtOldEnd, p1, inner, s2, 11);
  }

  lemma LastScanOfExample(s2: string)
    requires s2 == "<em><em></em></em>"
    ensures ResolveFrom(s2, 11, AtOldEnd) == s2
  {
    var t := s2[11..];
    MarkersNone(t);
    NoMarkersNoPair(t, 0);
    assert s2[..11] + t == s2;
    FindPairShift(s2[..11], t, 0);
  }

  /** The corrected resolution on the same input closes the span and leaves
      the stray `_` as text. */
  lemma ResumeAfterReplacement(s: string)
    requires s == "*_*_"
    ensures ResolveIntended(s) == "<em>_</em>_"
  {
    var s1 := "<em>_</em>_";
    FirstSpanOfExample(s, s1);
    var t := s1[10..];
    assert s1[..10] + t == s1;
    LoneOpener(t);
    FindPairShift(s1[..10], t, 0);
  }

  /** A lone `_` has no closer. */
  lemma LoneOpener(s: string)
    requires s == "_"
    ensures FindPair(s, 0).None?
    ensures ResolveFrom(s, 0, AtOldEnd) == s && ResolveFrom(s, 0, AfterReplacement) == s
  {
    assert Syntax(s, 0) == "_";
    assert !OccursAt(s, "_", 1);
    assert !HasCloser(s, 0);
    FirstPairNone(s, 0, 1);
  }

  /** The first pair from `idx` is `p`, when `p.start` is the first
      marker at or after `idx` and its single-character closer is at `c`. */
  lemma FirstPairIs(s: string, idx: nat, p: Span, c: nat)
    requires idx <= p.start < c < |s| && p.end == c + 1
    requires p.syntax == [s[p.start]] && p.tag == "em" && IsMarker(s[p.start])
    requires s[p.start + 1] != s[p.start]
    requires forall j :: idx <= j < p.start ==> !IsMarker(s[j])
    requires s[c] == s[p.start]
    requires forall j :: p.start + 1 <= j < c ==> s[j] != s[p.start]
    ensures FindPair(s, idx) == Some(p)
  {
    var syn := p.syntax;
    assert Syntax(s, p.start) == syn;
    IndexOfFacts(s, syn, p.start + 1);
    forall j | p.start + 1 <= j < c
      ensures !OccursAt(s, syn, j)
    {
      assert s[j..j + 1][0] == s[j];
    }
    assert OccursAt(s, syn, c) by {
      assert s[c..c + 1] == [s[c]];
    }
    assert IndexOf(s, syn, p.start + 1) == Some(c);
    assert HasCloser(s, p.start);
    assert PairAt(s, p.start) == p;
    FirstPairAt(s, idx, p.start);
  }
}

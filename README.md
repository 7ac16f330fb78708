# mthc core, modelled in Dafny

mthc is a small Markdown-to-HTML converter written in C. This project models
its core and proves properties of the model:

- **line-at-a-time block parser.** Headings, paragraphs, blockquotes with
  recursively parsed children, and section breaks.
- **inline emphasis resolver.** Rewrites `*`, `**`, `_` and `__` pairs into
  `<em>` and `<strong>`.
- **link post-processing.** The backslash-escape parity test, ASCII
  lowering, the link-reference list and its lookup, the per-match filters
  and records of the link, tag, address and image passes, and the
  combine-and-sort of link matches.
- **small string utilities.** Splitting text into lines, two left-trims and
  newline escaping.
- **driver loop.** Builds the document's block list.

There is one Dafny module per C file:

| module | file | content |
|---|---|---|
| `Ctype` | ctype.dfy | shared helpers: `isspace`/`tolower` in the "C" locale, `strlen` on a NUL-terminated buffer, an `Option` type, counting |
| `FileReader` | file_reader.dfy | file_reader.c: `content_splitter`, `ltrim_space` |
| `Debug` | debug.dfy | debug.c: `literal_newline_substitution` |
| `StrUtils` | str_utils.dfy | str_utils.c: the `TagPair` class and the emphasis resolver |
| `MdRegex` | md_regex.dfy | md_regex.c: escapes, lowering, references, match loops, sorting |
| `MdParser` | md_parser.dfy | md_parser.c: the `MDBlock` class, the recognisers, `block_parsing`, `child_block_parsing` |
| `Driver` | driver.dfy | main.c: the in-place `ltrim_space` and the block-list loop |

How the model relates to the C:

- **Mutable records are classes.** `MDBlock`, `TagPair` and the
  `MDLinkReference` node (`RefNode`) are classes whose methods update their
  fields in place.
- **Linked chains are tracked by ghost node sequences.** A chain built
  through `next` (and `child`) is described by a ghost sequence of its nodes
  or a ghost tree of `Shape`s.
- **Pure functions are the specification.** Each state-changing method is
  proved against a pure function: the method's postcondition ties its
  result or new state to that function, and lemmas prove what the code
  promises about the function.
- **Block parsing.** `ParseLine` decides one line: `NoMatch`, `Merged` into
  the open block, or `Opened` as a new block. `Run` folds it over the
  lines. `Forest` is the block tree that `child_block_parsing` builds.
- **Emphasis.** `ResolveFrom` is the resolver of `fullstr_sub_tagpair`. Its
  `Resume` parameter says where the scan resumes after a substitution (see
  Findings).
- **Links.** The PCRE2 matches that drive every `parse_*` loop are an
  abstract input: a sequence of `Match` records (return code plus capture
  offsets). `Links(pass, s, ms)` is what one loop keeps. `SortByStart`
  models `qsort` with `cmp_md_link_start` as an insertion sort. Only its
  sortedness and the permutation are promised, never the order among equal
  starts.

## Model

| member | source | states |
|---|---|---|
| Ctype.ToLower | md_regex.c:829-837 | `tolower`: A-Z moves up by 32, every other character is unchanged, and no result is upper case |
| Ctype.SpaceRun | file_reader.c:129-136 | the maximal run of `isspace` characters starting at `i`: all whitespace, ended by a non-space or the end of the string |
| Ctype.CLen | main.c:19 | `strlen`: the index of the first NUL (or the buffer length), with no NUL before it |
| Ctype.CountAppend | file_reader.c:62-123 | the splitter count is additive over concatenation |
| FileReader.FindChar | file_reader.c:62 | `strchr`: the first index at or after `from` holding `c`; None exactly when `c` does not occur there |
| FileReader.ContentSplitter | file_reader.c:50-127 | the lines are exactly `Split(content, splitter)`: every segment before a splitter, empty ones included, then the tail only when non-empty; the count is their number; count <= capacity holds throughout, with capacity starting at MTHC_SPLITTER_CAP (10) and doubling |
| FileReader.SplitLinesHaveNoSeparator | file_reader.c:62-91 | no line returned contains the splitter character |
| FileReader.JoinSplit | file_reader.c:62-123 | joining the lines with the splitter gives back the content, with one trailing splitter restored when the content ended with one |
| FileReader.SplitCount | file_reader.c:76-122 | the number of lines equals the number of splitters, plus one when the last segment is non-empty |
| FileReader.SplitAt | file_reader.c:62-91 | at the first splitter `k`: the content is `content[..k] + [sep] + rest`, the line `content[..k]` holds no splitter, and the lines continue with the split of `rest` |
| FileReader.SplitNone | file_reader.c:109-122 | non-empty content without a splitter is one line |
| FileReader.SplitTail | file_reader.c:109-122 | after the last splitter, the remaining segment is a line only when non-empty |
| FileReader.SplitNonEmpty | file_reader.c:50-127 | non-empty content gives at least one line |
| FileReader.LTrimSpace | file_reader.c:129-144 | a fresh string that is the input's suffix after its leading whitespace run: everything removed was whitespace and the result is empty or starts with a non-space; the argument is a value, so it is left unchanged |
| Debug.LiteralNewlineSubstitution | debug.c:10-41 | NULL gives NULL; otherwise the result is `EscapeNewlines` of the input, built by the counting loop and the two-index copy loop into a buffer of length len + newline count |
| Debug.Put | debug.c:30-37 | writing a character's replacement at index `j` extends the buffer's prefix by exactly that replacement, and every cell after it is unchanged |
| Debug.EscapeStep | debug.c:30-37 | one copy step: the escaped prefix grows by the escape of one character and stays within the buffer of length len + newline count |
| Debug.EscapeLength | debug.c:15-24 | output length = input length + number of `\n` in the input |
| Debug.EscapePrefixLength | debug.c:30-37 | the escaped prefix is never longer than the whole escaped string |
| Debug.EscapeHasNoNewline | debug.c:30-37 | the output contains no `\n` (each becomes `\` and `n`) |
| Debug.EscapeIdentity | debug.c:30-37 | an input without newlines is copied unchanged |
| Debug.EscapeAppend | debug.c:30-37 | escaping works character by character, in order: it distributes over concatenation |
| StrUtils.MarkersAppend | str_utils.c:93-132 | the count of `*`/`_` characters, the resolver's termination measure, is additive |
| StrUtils.IndexOfFacts | str_utils.c:204-248 | `strstr`: the first occurrence at or after `from`; None when there is none |
| StrUtils.PairAtFacts | str_utils.c:204-253 | a found pair starts at the opener, has a syntax of one or two copies of the marker, tag "em" or "strong" by its length, the syntax at both ends, and no occurrence of the syntax strictly between them |
| StrUtils.FindPairFacts | str_utils.c:192-260 | the pair is at the first index at or after `start_idx` whose marker has a closer (earlier openers without a closer are skipped); None exactly when no such opener exists |
| StrUtils.TagPair.constructor | str_utils.c:8-26 | the pair holds the given string, syntax, tag and offsets |
| StrUtils.TagPair.UpdateStr | str_utils.c:28-61 | NULL leaves the pair alone; otherwise only the text strictly between the delimiters becomes `sub`, both delimiters and `start` stay, and end = start + \|sub\| + 2·\|syntax\| |
| StrUtils.NewTagPair | str_utils.c:8-26 | NULL when any string argument is NULL; otherwise a fresh pair whose string equals the input and whose offsets are the given ones |
| StrUtils.StrCopy | str_utils.c:72-87 | the copy equals the input; NULL gives NULL |
| StrUtils.CopyInto | str_utils.c:174-184 | `memcpy` at offset `at`: the prefix grows by exactly `src`, the rest of the buffer is untouched |
| StrUtils.Concat5 | str_utils.c:148-184 | a buffer of the computed length filled by consecutive copies holds the concatenation of the five parts |
| StrUtils.Concat3 | str_utils.c:33-53 | a buffer of the computed length filled by three copies holds their concatenation |
| StrUtils.StrSubTagPair | str_utils.c:135-190 | NULL gives NULL; otherwise `str[..start] + "<tag>" + inner + "</tag>" + str[end..]`, with the length formula of lines 148-150 |
| StrUtils.FindTagPair | str_utils.c:192-260 | NULL exactly when `FindPair` finds no pair; otherwise a fresh pair over the string whose span is that pair |
| StrUtils.FirstPairAt | str_utils.c:199-253 | the scan returns the pair of the first opener with a closer |
| StrUtils.FirstPairNone | str_utils.c:199-259 | reaching the end without an opener that has a closer gives NULL |
| StrUtils.FullStrSubTagPair | str_utils.c:89-133 | the result is `Resolve(str)`, the resolver as written; the recursion on the inner text and the loop both end because the `*`/`_` count strictly drops |
| StrUtils.SubstitutePair | str_utils.c:107-128 | one loop iteration: the inner text is resolved recursively, the pair is rewrapped around it, the scan resumes at start + \|sub\| + 2·\|syntax\|, and the marker count drops |
| StrUtils.PairFound | str_utils.c:107-122 | a found pair fits the string, its tag is "em" or "strong", its syntax is non-empty, and the marker count splits across its parts |
| StrUtils.SpliceMarkers | str_utils.c:93-132 | rewrapping a pair around text with no more markers than its inner text strictly lowers the marker count, since "em"/"strong" contain none |
| StrUtils.TagMarkers | str_utils.c:148-186 | the inserted `<tag>`…`</tag>` adds no markers |
| StrUtils.UpdateSplice | str_utils.c:107-122 | updating the pair with `sub` and then splicing equals replacing the span by `<tag>sub</tag>` |
| StrUtils.ResolveNoPair | str_utils.c:103-105 | when no pair is found the string is returned unchanged (identity) |
| StrUtils.ResolveLowersMarkers | str_utils.c:93-132 | when a pair is found, the result has strictly fewer markers than the input |
| StrUtils.NoMarkersNoPair | str_utils.c:192-260 | a string without `*`/`_` has no pair |
| StrUtils.ResolveStep | str_utils.c:107-129 | one iteration of the loop as written: resolving from `idx` equals resolving the rewrapped string from the old-coordinate end |
| StrUtils.FindPairShift | str_utils.c:192-260 | pair finding is unaffected by a prefix: searching `a + t` from \|a\|+k finds t's pair shifted by \|a\| |
| StrUtils.ResolveShift | str_utils.c:89-133 | resolving `a + t` from offset \|a\|+k leaves the prefix and resolves `t` from k |
| StrUtils.ResolveUnfold | str_utils.c:107-129 | unfolding: resolve the inner text, rewrap, resume at the next scan offset |
| StrUtils.ResolveIntendedSplits | str_utils.c:89-133 | with the corrected resume offset the resolver is compositional: text before the first pair is kept, the pair's inner text is resolved and wrapped, and the rest is resolved on its own |
| StrUtils.ResumeInsideReplacement | str_utils.c:120-131 | as written, `*_*_` resolves to `<em><em></em></em>`, not `<em>_</em>_` |
| StrUtils.AsWrittenChain | str_utils.c:89-133 | the as-written resolver's steps on `*_*_`, chained |
| StrUtils.FirstSpanOfExample | str_utils.c:107-129 | on `*_*_` the first pair is `*_*`; as written the scan resumes at 3, inside the new `<em>`, while the corrected resolver resumes at 10 |
| StrUtils.ResumeStepOfExample | str_utils.c:107-129 | the rescan at offset 3 pairs the `_` inside the replacement with the trailing `_` |
| StrUtils.LastScanOfExample | str_utils.c:103-105 | the final scan finds no pair and stops |
| StrUtils.ResumeAfterReplacement | str_utils.c:89-133 | with the scan resumed after the replacement, `*_*_` resolves to `<em>_</em>_` |
| StrUtils.LoneOpener | str_utils.c:239-253 | an opener without a closer is not a pair, and the string is kept |
| StrUtils.FirstPairIs | str_utils.c:199-253 | a single marker followed, after a stretch free of it, by the same marker is the first pair (an `em` span) |
| MdRegex.BackslashRun | md_regex.c:839-847 | the maximal run of backslashes ending just before `pos` |
| MdRegex.Escaped | md_regex.c:839-847 | never escaped at position 0 |
| MdRegex.IsEscapedAt | md_regex.c:839-847 | the counting loop's answer is `Escaped`: true exactly when the backslash run before `pos` has odd length |
| MdRegex.EscapeFlips | md_regex.c:839-847 | one more backslash flips the parity |
| MdRegex.IsEscaped | md_regex.c:849-870 | false for NULL or start >= end; otherwise true exactly when `str[start-1]` is the start target with an odd backslash run before it, or `str[end]` is the end target with an odd run before it |
| MdRegex.LowerStr | md_regex.c:829-837 | same length, each character lowered by `tolower` |
| MdRegex.LowerStrFacts | md_regex.c:829-837 | exactly the A-Z characters change, and lowering is idempotent |
| MdRegex.LowerCStr | md_regex.c:829-837 | the lowered buffer's string is the lowered string |
| MdRegex.StrToLower | md_regex.c:829-837 | in place: the characters before the first NUL are lowered, the NUL and everything after it are unchanged, NULL is left alone |
| MdRegex.NewCString | md_regex.c:286-289 | a fresh buffer holding the string followed by NUL, as malloc+memcpy+terminator build it |
| MdRegex.RefNode.constructor | md_regex.c:789-803 | `new_md_link_reference`: the node holds the three strings and a NULL `next` |
| MdRegex.FindRef | md_regex.c:732-738 | the first position whose label equals the key; None exactly when no label does |
| MdRegex.LastDefinitionWins | md_regex.c:700-741 | looking a label up in the head-inserted (reversed) list finds the last definition in line order, and finds one exactly when some line defines it |
| MdRegex.FindLinkReference | md_regex.c:726-741 | NULL when either argument is NULL; otherwise the caller's label buffer is lowered in place and the result is the first node whose label equals it, or NULL |
| MdRegex.Text | md_regex.c:408-417 | a capture's text has the capture's length |
| MdRegex.GroupEscapedIsEscaped | md_regex.c:109-133 | for a non-empty group, the inline test of its opening and closing delimiter (the same test recurs at md_regex.c:246-270, 488-499 and 608-632) equals `is_escaped` on that group |
| MdRegex.RefOfFacts | md_regex.c:314-433 | a line yields a reference exactly when it matched and no boundary is escaped (no retry); the label is stored lowered (no upper case left), the url is group 2, and a title is kept only from group 3 when rc >= 4, so any other title gives NULL |
| MdRegex.ParseLinkReference | md_regex.c:314-433 | NULL exactly when `RefOf` yields nothing; otherwise a fresh node holding that reference, with NULL `next` |
| MdRegex.YieldedCount | md_regex.c:700-724 | at most one reference per line, and none when no line yields one |
| MdRegex.GenLinkReferenceList | md_regex.c:700-724 | the list holds each line's reference, prepended, so in reverse line order; lines without one add nothing |
| MdRegex.Push | md_regex.c:714-719 | head insertion: `ref` becomes the head, its `next` is the old head, and the list's contents gain `ref`'s reference at the front |
| MdRegex.AddLine | md_regex.c:708-721 | one line: its reference, if any, is prepended; otherwise the list is unchanged |
| MdRegex.YieldedStep | md_regex.c:708-721 | one more line adds its reference (if any) at the end of the references in line order |
| MdRegex.ReverseYieldedStep | md_regex.c:708-721 | in the head-inserted list, one more line adds its reference (if any) at the front |
| MdRegex.LinksAppend | md_regex.c:101-190 | what a loop keeps over two consecutive stretches of matches is the concatenation |
| MdRegex.LinksStep | md_regex.c:101-190 | one more match adds its outcome, if any, at the end |
| MdRegex.LinksKept | md_regex.c:101-190 | every kept match's link is in the result |
| MdRegex.LinksFrom | md_regex.c:101-190 | every link in the result comes from some match, and there are at most as many links as matches |
| MdRegex.GeneralLinkFacts | md_regex.c:107-189 | a general link is kept exactly when no label, url or title delimiter is escaped; it takes text = group 1, url = group 2, a title only when rc >= 4 and group 3 is set, no src, and the full match's range |
| MdRegex.TagLinkFacts | md_regex.c:247-304 | a tag link is kept exactly when no delimiter is escaped and its lowered tag resolves; url and title come from the first node with that label, and the range is the full match's |
| MdRegex.SimpleLinkFacts | md_regex.c:489-533 | a kept address spans group 1 with its angle brackets (ov[2]-1 to ov[3]+1); the url is "mailto:" + the text for an e-mail (group 3 set), otherwise the text itself |
| MdRegex.ImageLinkFacts | md_regex.c:598-690 | an image is kept exactly when no delimiter is escaped; it takes text = group 1, src = group 2, no url, a title only when group 3 is set, and the full match's range |
| MdRegex.Store | md_regex.c:151-177 | one record step: the array grows by the link, if any, and the capacity doubles when the grow step runs on a full array |
| MdRegex.ParseMarkdownGeneralLinks | md_regex.c:58-197 | NULL gives no links; otherwise the array is `Links(General, …)` over the matches, with its count |
| MdRegex.GeneralRecord | md_regex.c:107-177 | one match's filters and record: the link is its `Outcome` |
| MdRegex.ParseMarkdownLinksTag | md_regex.c:199-312 | NULL gives no links; otherwise the array is `Links(Tag(refs), …)` over the matches, where `refs` is the reference list's contents |
| MdRegex.TagRecord | md_regex.c:247-299 | one match: escaped ones are dropped before the grow step; otherwise the array may grow, and the link is kept only when the tag resolves |
| MdRegex.ResolveTag | md_regex.c:286-292 | the tag is copied into a fresh buffer and looked up: NULL when no label equals its lowered form, otherwise the first node with it |
| MdRegex.TagLookup | md_regex.c:291-299 | the looked-up node decides the outcome: NULL drops the match, a node gives its url and title |
| MdRegex.ParseSimpleAddresses | md_regex.c:437-550 | NULL gives no links; otherwise the array is `Links(Simple, …)` over the matches |
| MdRegex.SimpleRecord | md_regex.c:489-533 | one match's filters and record: the link is its `Outcome` |
| MdRegex.ParseMarkdownImages | md_regex.c:552-698 | NULL gives no links; otherwise the array is `Links(Image, …)` over the matches |
| MdRegex.ImageRecord | md_regex.c:598-679 | one match's filters and record: the link is its `Outcome` |
| MdRegex.CmpLinkStart | md_regex.c:872-876 | negative, zero or positive exactly as the first link starts before, at or after the second |
| MdRegex.SortedCons | md_regex.c:51 | a link no later than the sorted rest makes a sorted sequence |
| MdRegex.InsertStartsFrom | md_regex.c:51 | insertion keeps a lower bound on the starts |
| MdRegex.InsertSorted | md_regex.c:51 | inserting into a sorted sequence keeps it sorted by start |
| MdRegex.InsertPerm | md_regex.c:51 | insertion adds exactly the one link |
| MdRegex.SortFacts | md_regex.c:51 | the sort's result is sorted by ascending start and a permutation of its input |
| MdRegex.ParseMarkdownLinks | md_regex.c:14-56 | NULL gives no links; otherwise the count is the sum of the general, tag and simple counts, and the result is sorted by start and a permutation of their concatenation |
| MdParser.MDBlock.constructor | md_parser.c:121-126 | a block holds the given content, tag, kind and tag type, with NULL `child` and `next` |
| MdParser.IsHeaderBlock | md_parser.c:240-242 | true exactly when the kind is a heading level 1..6 |
| MdParser.IsEmptyOrWhitespace | md_parser.c:245-261 | true exactly when the string is NULL or every character is whitespace |
| MdParser.CharRun | md_parser.c:87-90 | the maximal run of `c` starting at `i` |
| MdParser.HeadingLineFacts | md_parser.c:83-131 | a heading exactly when the line starts with 1-6 `#` immediately followed by whitespace; the block has level = number of hashes, tag "h" + level, type BLOCK, and as content the text after the hashes and the whole following whitespace run |
| MdParser.HeadingRefused | md_parser.c:87-101 | no heading for zero hashes, seven or more, or a `#` run followed by a non-space or the end of the line |
| MdParser.HeadingParser | md_parser.c:83-131 | NULL exactly when `HeadingLine` refuses the line; otherwise a fresh block with its value and NULL `child`/`next` |
| MdParser.ParagraphLineFacts | md_parser.c:133-174 | a whitespace-only line gives no match; with an open paragraph its content becomes old + " " + line (merged); otherwise a new paragraph with the line and tag "p" |
| MdParser.ParagraphParser | md_parser.c:133-174 | as `ParagraphLine`: a merge updates the passed block in place and returns it; a new block is fresh and the passed one is untouched; no match returns NULL |
| MdParser.UnquotedFacts | md_parser.c:192-195 | stripping removes exactly the first character and the whitespace run after it; the rest is empty or starts with a non-space |
| MdParser.NestedQuote | md_parser.c:183-195 | `>> x` opens a blockquote whose content is `> x` plus a newline |
| MdParser.IndentedLineIsQuote | md_parser.c:183-195 | an indented non-blank line with no `>` passes the check and opens a blockquote |
| MdParser.QuoteLineFacts | md_parser.c:176-238 | no match for a blank line, a failed `>` check, or an open block other than blockquote, section break or heading; merge into an open blockquote by appending the stripped text + "\n"; a new blockquote's content is the stripped text + "\n" |
| MdParser.QuoteAfterParagraph | md_parser.c:212-237 | after an open paragraph the blockquote parser returns NULL |
| MdParser.BlockquoteParser | md_parser.c:176-238 | as `QuoteLine`: a merge appends to the passed block in place and returns it; a new block is fresh; no match returns NULL |
| MdParser.ParseLineFacts | md_parser.c:11-46 | a heading wins first; no outcome exactly when there is no open block and the line is blank (NULL == NULL at line 31); a blank line after an open block opens a section break; a merge keeps the open block's kind, paragraph or blockquote |
| MdParser.BlockParsing | md_parser.c:11-46 | heading, then blockquote, then paragraph, then section break; NULL exactly when the line was merged into `curr` (or ignored); a new block is fresh |
| MdParser.RunLength | md_parser.c:11-46 | a document never has more blocks than lines |
| MdParser.RunBlankLine | md_parser.c:39-45 | a blank line appends a section break (content NULL, type INLINE, no tag) when a block is open, and nothing otherwise |
| MdParser.RunStep | md_parser.c:11-46 | one more line applies its outcome to the blocks so far |
| MdParser.GrowFacts | md_parser.c:61-78 | each block in the chain gets as children the parse of its own content exactly when it is a blockquote |
| MdParser.ForestFacts | md_parser.c:48-81 | the tree of a content: its blocks are the parse of its lines in order, and each blockquote, the last one included, has as children the tree of its own content |
| MdParser.TotalAppend | md_parser.c:55 | the total length of lines is additive |
| MdParser.TotalPrefix | md_parser.c:55 | a prefix of the lines is no longer in total |
| MdParser.JoinLength | md_parser.c:55 | joined lines are as long as their total plus one separator between each pair |
| MdParser.SplitTotal | md_parser.c:55 | the lines of a content are no longer in total than it, and strictly shorter when it ends with a newline |
| MdParser.ParseLineBounded | md_parser.c:197-235 | a blockquote's content ends in a newline and is no longer than the text it came from |
| MdParser.RunBounded | md_parser.c:61-75 | every blockquote of a parse ends in a newline and is no longer than the total of its lines |
| MdParser.ChildContentShrinks | md_parser.c:61-78 | a nested blockquote's content is strictly smaller than its parent's, which ends the recursion |
| MdParser.ChainSnoc | md_parser.c:67-72 | linking one more block after the tail extends the chain and its tree |
| MdParser.ObjsAllocated | md_parser.c:48-81 | every block of a chain is allocated |
| MdParser.ChildBlockParsing | md_parser.c:48-81 | the content is split into lines and parsed; the result is a NULL-terminated chain in line order whose tree is `Forest(content)`, every blockquote having its children, all blocks fresh |
| MdParser.AttachChildren | md_parser.c:64-66 | a blockquote gets the chain of its re-parsed content as `child`; other blocks are unchanged |
| MdParser.Finish | md_parser.c:64-72 | the finished tail gets its children and then `next` to the new block |
| MdParser.Link | md_parser.c:64-72 | the new block is linked after the finished tail and becomes the tail |
| MdParser.Absorb | md_parser.c:61-75 | one line of the loop keeps the chain equal to the parse of the lines so far |
| MdParser.Close | md_parser.c:76-78 | after the loop the last block also gets its children, and the chain is complete |
| MdParser.BuildingFirst | md_parser.c:67-69 | the first block is head and tail, without a self-loop |
| MdParser.BuildingExtend | md_parser.c:70-72 | appending a block keeps the chain invariant |
| Driver.LTrimSpaceInPlace | main.c:11-21 | the string becomes its input minus the leading whitespace run, moved in place with its NUL; the bytes after the terminator stay; the buffer is untouched when the string is empty or starts with a non-space |
| Driver.MemMove | main.c:19 | the first `count` characters become those from `from`, the rest are untouched |
| Driver.TrimMoved | main.c:18-20 | moving the rest of the string and its NUL to the front leaves the trimmed string |
| Driver.RestLength | main.c:19 | `strlen(p)` is the old length minus the run length |
| Driver.TrimLeftFacts | main.c:14-20 | the trimmed string is empty or starts with a non-space, and its length drops by exactly the run length |
| Driver.Push | main.c:44-45 | the old tail's `next` becomes the new block, which becomes the tail |
| Driver.Append | main.c:37-46 | one line: a NULL block leaves the list; a new block is appended after the tail; the first block becomes head and tail |
| Driver.ListedFirst | main.c:40-44 | after the first block, `head->next` is head itself |
| Driver.ChainFacts | main.c:40-45 | a chain links its nodes in order from head to its end |
| Driver.LeavesFacts | main.c:37-46 | the driver's blocks have no children |
| Driver.ListedNodes | main.c:37-46 | the list's nodes hold the blocks in order, linked by `next`, with a self-loop on a lone first block and NULL after the last of two or more |
| Driver.ParseDocument | main.c:31-48 | the list holds `Run(lines)` in line order, without children; a single block points to itself (line 44), and with two or more the last `next` is NULL |

## Left out

- PCRE2 matching (compilation, `pcre2_match`, the `(*SKIP)(*FAIL)` exclusion of code spans, UTF flags) is a foreign library. Each `parse_*` loop takes the sequence of match records the engine would produce. `Fits`/`AllFit` state the shape those records must have, and the model assumes the engine's offsets lie within the subject.
- `read_line` and all file I/O (`fopen`, `fgets`, `fclose`): the driver takes the document's lines as a sequence of strings.
- PeekReader is declared in file_reader.h but not implemented in these files: `gen_markdown_link_reference_list` takes the lines and their match records as sequences, and a NULL reader is not modelled.
- Output-only code: `printf` tracing in main.c and md_parser.c, `traverse_block` in debug.c, `print_md_links_reference`, and the logger.
- Memory management: `free_*`, and every malloc/realloc failure branch, including the `realloc` failure `break` of the match loops, are left out. Allocation never fails in the model.
- The intermediate strings that `fullstr_sub_tagpair` leaks are left out, along with most other memory management.
- `blocktag_to_string` and `tagtype_to_string` are left out as debug lookup tables.
- md_parser.h's regex macros and prototype are left out: nothing in these files implements them.
- str_utils.h's pair-type, code-span and UTF-8 declarations are left out for the same reason.
- The `tolower`/`isspace` locale: the "C" locale, ASCII, is assumed.
- C strings are NUL-free `seq<char>`. Where a buffer matters (`str_to_lower`, `find_link_reference`, the in-place `ltrim_space`), it is a `char` array read up to its first NUL.
- The `int` casts of offsets (`(int)ov[0]`, `int start_idx`) are not modelled. Offsets are unbounded naturals.
- MdRegex.SortFacts: the order among equal starts is not fixed, because `qsort` is not stable. The model's insertion sort is one admissible order, and only sortedness and the permutation are stated.
- MdParser.Kids: children are built only for a blockquote whose content is smaller than the content it came from. `ChildContentShrinks` proves that every blockquote the parser builds meets this, so the guard only carries the termination argument.
- MdParser.BlockquoteParser: the C check at md_parser.c:187 for a NUL right after the `>` run counts as "end of line". The model's strings contain no NUL, so this is the same as reaching the end.
- MdParser.BlockValue: a section break's tag, never set by the C code, is modelled as `None`.
- MdParser.Body reads a NULL content as "". Paragraph and blockquote blocks always have content (`Wellformed`), so this case never arises when merging.
- Driver.ParseDocument: the distinctness of the list's nodes and their freshness are not stated.
- main.c never calls `child_block_parsing` or its own `ltrim_space`. The driver model likewise builds blocks without children.
- MdParser.RunBlankLine: each blank line with an open block appends its own section break, so consecutive blank lines give several. The code does this, even though one break per run of blank lines might be expected.
- MdParser.IndentedLineIsQuote: an indented line with no `>` is admitted as a blockquote. The code does this, and the model reproduces it without correcting it.
- MdRegex.GroupEscapedIsEscaped: the link to `is_escaped` is stated only for non-empty groups. For an empty capture the inline delimiter test of the match loops and `is_escaped` disagree (`is_escaped` is false when start >= end). The loops' filters are modelled by the inline test (`GroupEscaped`), as the code has them; the reference-title test (md_regex.c:391-403) accepts any of three delimiters on each side (`TitleOpen`/`TitleClose`), so it is not an instance of `is_escaped` with single targets.
- `new_md_link` is modelled by the `Link` value and the `*Link` functions that build it. Its deep copies are plain values.

## Findings

| source | as written | input that shows it | evidently intended | confidence | as-written member | corrected member |
|---|---|---|---|---|---|---|
| str_utils.c:127-128 | after a substitution, the scan resumes at start + \|inner\| + 2·\|syntax\|. That offset is measured in the string before substitution, so it lands inside the inserted `<tag>…</tag>`, whose markers get paired again. | `*_*_` gives `<em><em></em></em>` | resume after the inserted replacement, giving `<em>_</em>_` | not executed | StrUtils.ResumeInsideReplacement | StrUtils.ResumeAfterReplacement |

The corrected resolver is `ResolveIntended` (`Resume.AfterReplacement`). `StrUtils.ResolveIntendedSplits` proves that it is compositional. `FullStrSubTagPair` keeps the code's behaviour, which is `Resolve`, the resolver as written.

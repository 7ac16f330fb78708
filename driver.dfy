/** main.c: the in-place left trim and the loop that builds the top-level
    block list from the document's lines. Reading the file is left
    abstract: the loop is given the lines read_line returns. */
module Driver {
  import opened Ctype
  import opened MdParser

  // ---------------------------------------------------------------------
  // ltrim_space (main.c), in place
  // ---------------------------------------------------------------------

  /** ltrim_space(char *str): skip the whitespace run, then, when there was
      one, memmove the rest of the string and its NUL to the front. The
      buffer holds a C string (a NUL somewhere in it). */
  method LTrimSpaceInPlace(buf: array<char>)
    requires CLen(buf[..]) < buf.Length
    modifies buf
    ensures CStr(buf[..]) == TrimLeft(old(CStr(buf[..])))
    ensures CLen(buf[..]) < buf.Length
    ensures forall k :: CLen(buf[..]) < k < buf.Length ==> buf[k] == old(buf[k])
    ensures old(CStr(buf[..])) == [] || !IsSpace(old(buf[0])) ==> buf[..] == old(buf[..])
  {
    ghost var b0, s := buf[..], CStr(buf[..]);
    var p := 0;
    while buf[p] != '\0' && IsSpace(buf[p])
      invariant p <= |s| && s == buf[..|s|]
      invariant forall k :: 0 <= k < p ==> IsSpace(s[k])
      decreases |s| - p
    {
      p := p + 1;
    }
    SpaceRunIs(s, 0, p);
    if p != 0 {
      // strlen(p): what is left of the string after the run
      var n := CLen(buf[p..]);
      RestLength(b0, p);
      MemMove(buf, p, n + 1);
      TrimMoved(b0, buf[..], p);
    }
  }

  /** strlen(str + p) inside the C string is its length less p. */
  lemma RestLength(b: seq<char>, p: nat)
    requires CLen(b) < |b| && p <= CLen(b)
    ensures CLen(b[p..]) == CLen(b) - p
  {
    var s := CStr(b);
    assert b[p..][..|s| - p] == s[p..];
    CLenIs(b[p..], |s| - p);
  }

  /** The buffer after the memmove of the string's tail and its NUL to the
      front holds the trimmed string. */
  lemma TrimMoved(b0: seq<char>, b1: seq<char>, p: nat)
    requires CLen(b0) < |b0| == |b1| && p == SpaceRun(CStr(b0), 0)
    requires forall j :: 0 <= j < CLen(b0) - p + 1 ==> b1[j] == b0[p + j]
    requires forall k :: CLen(b0) - p + 1 <= k < |b1| ==> b1[k] == b0[k]
    ensures CStr(b1) == TrimLeft(CStr(b0)) && CLen(b1) < |b1|
    ensures forall k :: CLen(b1) < k < |b1| ==> b1[k] == b0[k]
  {
    var s, n := CStr(b0), CLen(b0) - p;
    assert b1[..n] == s[p..];
    CLenIs(b1, n);
  }

  /** memmove(str, str + from, count) for a move towards the front: the
      `count` characters at `from` are copied to index 0, reading every
      one before any is overwritten; the rest of the buffer keeps its
      characters. */
  method MemMove(buf: array<char>, from: nat, count: nat)
    requires from + count <= buf.Length
    modifies buf
    ensures forall j :: 0 <= j < count ==> buf[j] == old(buf[from + j])
    ensures forall k :: count <= k < buf.Length ==> buf[k] == old(buf[k])
  {
    forall j | 0 <= j < count {
      buf[j] := buf[from + j];
    }
  }

  /** After the trim the string is empty or starts with a non-space, and
      it is shorter by exactly its leading whitespace run. */
  lemma TrimLeftFacts(s: string)
    ensures var t := TrimLeft(s);
      (t == [] || !IsSpace(t[0]))
      && |t| == |s| - SpaceRun(s, 0)
      && s == s[..SpaceRun(s, 0)] + t
      && AllSpace(s[..SpaceRun(s, 0)])
  {
  }

  // ---------------------------------------------------------------------
  // The block-list loop of main
  // ---------------------------------------------------------------------

  /** One childless tree per value. */
  function Leaves(vs: seq<BlockValue>): seq<Tree> {
    if vs == [] then [] else Leaves(vs[..|vs| - 1]) + [Tree(vs[|vs| - 1], [])]
  }

  /** The list main has built from blocks with the values `vs`: `head`
      starts the chain of the finished blocks `done`, which ends in the
      tail; the tail holds the last value, and its `next` is NULL, except
      that a lone first block points to itself (main.c:44 runs for it
      too). No block has children. */
  ghost predicate Listed(head: MDBlock?, done: seq<Shape>, tail: MDBlock?, vs: seq<BlockValue>)
    reads tail, Objs(done)
  {
    (tail == null <==> vs == [])
    && (tail == null ==> head == null && done == [])
    && (tail != null ==>
          tail !in Objs(done) && tail.child == null && Chain(head, done, tail)
          && |done| + 1 == |vs| && tail.View() == vs[|done|]
          && tail.next == (if done == [] then tail else null)
          && Trees(done) == Leaves(vs[..|done|]))
  }

  /** The tail took the line in (or ignored it). */
  lemma ListedKeep(head: MDBlock?, done: seq<Shape>, tail: MDBlock, vs: seq<BlockValue>)
    requires tail !in Objs(done) && tail.child == null && Chain(head, done, tail)
    requires |done| + 1 == |vs| && tail.View() == vs[|done|] && tail.next == (if done == [] then tail else null)
    requires Trees(done) == Leaves(vs[..|done|])
    ensures Listed(head, done, tail, vs)
  {
  }

  /** The first block is head and tail, and its own next. */
  lemma ListedFirst(b: MDBlock)
    requires b.child == null && b.next == b
    ensures Listed(b, [], b, [b.View()])
  {
  }

  /** A new block after the tail: the tail joins the chain. */
  lemma ListedExtend(head: MDBlock?, done: seq<Shape>, sh: Shape, b: MDBlock, vs: seq<BlockValue>)
    requires Chain(head, done + [sh], b) && b !in Objs(done + [sh]) && sh.kids == []
    requires Trees(done + [sh]) == Trees(done) + [Tree(sh.node.View(), [])]
    requires |done| + 1 == |vs| && Trees(done) == Leaves(vs[..|done|]) && sh.node.View() == vs[|done|]
    requires b.child == null && b.next == null
    ensures Listed(head, done + [sh], b, vs + [b.View()])
  {
    assert (vs + [b.View()])[..|done| + 1] == vs;
    assert vs == vs[..|done|] + [vs[|done|]];
  }

  /** main.c:44-45 with a head: the new block `b` is linked after the
      tail. */
  method Push(head: MDBlock?, tail: MDBlock, ghost done: seq<Shape>, ghost vs: seq<BlockValue>, b: MDBlock)
    returns (ghost newDone: seq<Shape>)
    requires Listed(head, done, tail, vs) && b != tail && b !in Objs(done) && b.child == null && b.next == null
    modifies tail
    ensures b.View() == old(b.View()) && newDone == done + [Shape(tail, [])]
    ensures Listed(head, newDone, b, vs + [b.View()])
  {
    ObjsAllocated(done);
    ghost var trees := Trees(done);
    tail.next := b;
    assert Chain(head, done, tail) && Trees(done) == trees;
    ghost var sh := Shape(tail, []);
    ChainSnoc(head, done, sh, b);
    newDone := done + [sh];
    ListedExtend(head, done, sh, b, vs);
  }

  /** One turn of the loop (main.c:37-46): block_parsing with the tail; a
      new block becomes the head if there is none, is linked after the
      tail, and becomes the tail; NULL leaves the list as it is. */
  method Append(head: MDBlock?, tail: MDBlock?, ghost done: seq<Shape>, ghost vs: seq<BlockValue>, line: string)
    returns (newHead: MDBlock?, newTail: MDBlock?, ghost newDone: seq<Shape>)
    requires Listed(head, done, tail, vs)
    requires tail != null ==> Wellformed(tail.View())
    modifies tail
    ensures Listed(newHead, newDone, newTail, Apply(vs, ParseLine(Tail(vs), line)))
    ensures newTail != null ==> newTail == tail || fresh(newTail)
    ensures newDone == done || newDone == done + [Shape(tail, [])]
  {
    ObjsAllocated(done);
    ghost var p := ParseLine(Tail(vs), line);
    var newBlock := BlockParsing(tail, line);
    newHead, newTail, newDone := head, tail, done;
    if newBlock != null {
      if head == null {
        newHead := newBlock;
        newTail := newHead;
        newTail.next := newBlock;
        ListedFirst(newBlock);
      } else {
        newDone := Push(head, tail, done, vs, newBlock);
        newTail := newBlock;
      }
    } else if tail != null {
      ghost var vs2 := Apply(vs, p);
      assert vs2 == vs[..|done|] + [tail.View()];
      assert vs2[..|done|] == vs[..|done|];
      ListedKeep(head, done, tail, vs2);
    }
  }

  /** The blocks of the shapes, in order. */
  function Nodes(shs: seq<Shape>): (ns: seq<MDBlock>)
    ensures |ns| == |shs| && forall k :: 0 <= k < |shs| ==> ns[k] == shs[k].node
  {
    if shs == [] then [] else [shs[0].node] + Nodes(shs[1..])
  }

  /** What a chain says link by link. */
  lemma {:induction false} ChainFacts(head: MDBlock?, shs: seq<Shape>, end: MDBlock?)
    requires Chain(head, shs, end)
    ensures shs == [] ==> head == end
    ensures shs != [] ==> head == shs[0].node && shs[|shs| - 1].node.next == end
    ensures forall k :: 0 <= k < |shs| - 1 ==> shs[k].node.next == shs[k + 1].node
    ensures forall k :: 0 <= k < |shs| ==> shs[k].kids == [] ==> shs[k].node.child == null
    decreases |shs|
  {
    if shs != [] {
      ChainFacts(shs[0].node.next, shs[1..], end);
      assert forall k :: 1 <= k < |shs| ==> shs[k] == shs[1..][k - 1];
    }
  }

  /** What Trees says node by node. */
  lemma {:induction false} TreesFacts(shs: seq<Shape>)
    ensures |Trees(shs)| == |shs|
    ensures forall k :: 0 <= k < |shs| ==> Trees(shs)[k] == Tree(shs[k].node.View(), Trees(shs[k].kids))
    decreases |shs|
  {
    if shs != [] {
      TreesFacts(shs[1..]);
      assert forall k :: 1 <= k < |shs| ==> shs[k] == shs[1..][k - 1];
    }
  }

  lemma {:induction false} LeavesFacts(vs: seq<BlockValue>)
    ensures |Leaves(vs)| == |vs|
    ensures forall k :: 0 <= k < |vs| ==> Leaves(vs)[k] == Tree(vs[k], [])
    decreases |vs|
  {
    if vs != [] {
      LeavesFacts(vs[..|vs| - 1]);
    }
  }

  /** The list in explicit terms: the blocks, head first, hold the values
      in order, have no children and each links to the next; a lone block
      links to itself and the last of two or more to NULL. */
  lemma ListedNodes(head: MDBlock?, done: seq<Shape>, tail: MDBlock?, vs: seq<BlockValue>)
    requires Listed(head, done, tail, vs)
    ensures var nodes := if tail == null then [] else Nodes(done) + [tail];
      |nodes| == |vs|
      && head == (if nodes == [] then null else nodes[0])
      && (forall k :: 0 <= k < |nodes| ==> nodes[k].View() == vs[k] && nodes[k].child == null)
      && (forall k :: 0 <= k < |nodes| - 1 ==> nodes[k].next == nodes[k + 1])
      && (|nodes| == 1 ==> nodes[0].next == nodes[0])
      && (|nodes| >= 2 ==> nodes[|nodes| - 1].next == null)
  {
    if tail != null {
      ChainFacts(head, done, tail);
      TreesFacts(done);
      LeavesFacts(vs[..|done|]);
      var nodes := Nodes(done) + [tail];
      forall k | 0 <= k < |done|
        ensures done[k].kids == [] && nodes[k].View() == vs[k]
      {
        assert Trees(done)[k] == Leaves(vs[..|done|])[k];
        TreesFacts(done[k].kids);
      }
    }
  }

  /** main's loop over the lines: the list holds, in order, the blocks
      block_parsing made from them (Run), each linked to the next; a lone
      block is linked to itself, and the last of two or more to NULL. A
      blockquote's content is not split into children here. */
  method ParseDocument(lines: seq<string>) returns (head: MDBlock?, ghost nodes: seq<MDBlock>)
    ensures |nodes| == |Run(lines)|
    ensures head == if nodes == [] then null else nodes[0]
    ensures forall k :: 0 <= k < |nodes| ==> nodes[k].View() == Run(lines)[k] && nodes[k].child == null
    ensures forall k :: 0 <= k < |nodes| - 1 ==> nodes[k].next == nodes[k + 1]
    ensures |nodes| == 1 ==> head.next == head
    ensures |nodes| >= 2 ==> nodes[|nodes| - 1].next == null
  {
    head := null;
    var tail: MDBlock? := head;
    ghost var done: seq<Shape> := [];
    for i := 0 to |lines|
      invariant Listed(head, done, tail, Run(lines[..i]))
      invariant tail != null ==> fresh(tail)
    {
      RunStep(lines, i);
      RunBounded(lines[..i]);
      head, tail, done := Append(head, tail, done, Run(lines[..i]), lines[i]);
    }
    assert lines[..|lines|] == lines;
    ListedNodes(head, done, tail, Run(lines));
    nodes := if tail == null then [] else Nodes(done) + [tail];
  }
}

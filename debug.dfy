/** literal_newline_substitution (debug.c): a copy of a string in which
    every newline is spelled out as the two characters `\` and `n`. */
module Debug {
  import opened Ctype

  /** The substituted text, one input character at a time. */
  function EscapeNewlines(s: string): string {
    if s == [] then []
    else EscapeNewlines(s[..|s| - 1]) + EscapeChar(s[|s| - 1])
  }

  /** What one input character becomes. */
  function EscapeChar(c: char): string {
    if c == '\n' then ['\\', 'n'] else [c]
  }

  /** The counting loop, then the two-index copy loop into a buffer of
      length len + newline_count. NULL in, NULL out. */
  method LiteralNewlineSubstitution(str: Option<string>) returns (r: Option<string>)
    ensures str.None? ==> r.None?
    ensures str.Some? ==> r == Some(EscapeNewlines(str.value))
  {
    if str.None? {
      return None;
    }
    var s := str.value;
    var newlineCount := 0;
    var i := 0;
    while i < |s|
      invariant i <= |s|
      invariant newlineCount == Count(s[..i], '\n')
    {
      assert s[..i + 1][..i] == s[..i];
      if s[i] == '\n' {
        newlineCount := newlineCount + 1;
      }
      i := i + 1;
    }
    assert s[..|s|] == s;
    EscapeLength(s);
    var buf := new char[|s| + newlineCount];
    var j := 0;
    i := 0;
    while i < |s|
      invariant i <= |s|
      invariant j == |EscapeNewlines(s[..i])| && j <= buf.Length
      invariant buf[..j] == EscapeNewlines(s[..i])
    {
      EscapeStep(s, i);
      Put(buf, j, EscapeChar(s[i]));
      j := j + |EscapeChar(s[i])|;
      i := i + 1;
    }
    assert s[..i] == s;
    assert buf[..] == buf[..j];
    r := Some(buf[..]);
  }

  /** One step of the copy loop: the escaped prefix grows by one
      character's worth and still fits in the output. */
  lemma EscapeStep(s: string, i: nat)
    requires i < |s|
    ensures EscapeNewlines(s[..i + 1]) == EscapeNewlines(s[..i]) + EscapeChar(s[i])
    ensures |EscapeNewlines(s[..i + 1])| <= |s| + Count(s, '\n')
  {
    assert s[..i + 1][..i] == s[..i];
    EscapePrefixLength(s, i + 1);
    EscapeLength(s);
  }

  /** Writes w into buf at position j. */
  method Put(buf: array<char>, j: nat, w: string)
    requires j + |w| <= buf.Length
    modifies buf
    ensures buf[..j + |w|] == old(buf[..j]) + w
    ensures forall k :: j + |w| <= k < buf.Length ==> buf[k] == old(buf[k])
  {
    ghost var before := buf[..j];
    var k := 0;
    while k < |w|
      invariant k <= |w|
      invariant buf[..j + k] == before + w[..k]
      invariant forall i :: j + k <= i < buf.Length ==> buf[i] == old(buf[i])
    {
      buf[j + k] := w[k];
      assert w[..k + 1] == w[..k] + [w[k]];
      k := k + 1;
    }
    assert w[..k] == w;
  }

  /** Output length = input length + number of newlines. */
  lemma {:induction false} EscapeLength(s: string)
    ensures |EscapeNewlines(s)| == |s| + Count(s, '\n')
    decreases |s|
  {
    if s != [] {
      EscapeLength(s[..|s| - 1]);
    }
  }

  lemma EscapePrefixLength(s: string, n: nat)
    requires n <= |s|
    ensures |EscapeNewlines(s[..n])| <= |EscapeNewlines(s)|
    decreases |s| - n
  {
    if n < |s| {
      EscapePrefixLength(s, n + 1);
      assert s[..n + 1][..n] == s[..n];
    } else {
      assert s[..n] == s;
    }
  }

  /** The output holds no newline. */
  lemma {:induction false} EscapeHasNoNewline(s: string)
    ensures '\n' !in EscapeNewlines(s)
    decreases |s|
  {
    if s != [] {
      EscapeHasNoNewline(s[..|s| - 1]);
    }
  }

  /** A string without newlines is copied unchanged. */
  lemma {:induction false} EscapeIdentity(s: string)
    requires '\n' !in s
    ensures EscapeNewlines(s) == s
    decreases |s|
  {
    if s != [] {
      var init, last := s[..|s| - 1], s[|s| - 1];
      assert s == init + [last];
      assert '\n' !in init && last != '\n' by {
        assert forall k :: 0 <= k < |init| ==> init[k] == s[k];
      }
      EscapeIdentity(init);
    }
  }

  /** Substitution works character by character, so it distributes over
      concatenation. */
  lemma {:induction false} EscapeAppend(a: string, b: string)
    ensures EscapeNewlines(a + b) == EscapeNewlines(a) + EscapeNewlines(b)
    decreases |b|
  {
    if b == [] {
      assert a + b == a;
    } else {
      assert (a + b)[..|a + b| - 1] == a + b[..|b| - 1];
      EscapeAppend(a, b[..|b| - 1]);
    }
  }
}

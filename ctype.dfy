/** Character classification and small sequence helpers shared by every
    module: the C library's `isspace`/`tolower` in the "C" locale, reading a
    NUL-terminated string one past its end, and an Option type standing for a
    pointer that may be NULL. */
module Ctype {

  /** A pointer that may be NULL: `None` is NULL. */
  datatype Option<+T> = None | Some(value: T)

  /** `isspace` in the "C" locale: space, \t, \n, \v, \f, \r. */
  predicate IsSpace(c: char) {
    c == ' ' || c == '\t' || c == '\n' || c == '\r' || c as int == 11 || c as int == 12
  }

  predicate IsUpper(c: char) {
    'A' <= c <= 'Z'
  }

  /** `tolower` in the "C" locale: only A-Z change. */
  function ToLower(c: char): (r: char)
    ensures IsUpper(c) ==> r as int == c as int + 32
    ensures !IsUpper(c) ==> r == c
    ensures !IsUpper(r)
  {
    if IsUpper(c) then (c as int + 32) as char else c
  }

  /** `s[i]` for a C string: the terminating NUL is read at index |s|. */
  function At(s: string, i: nat): char {
    if i < |s| then s[i] else '\0'
  }

  /** Number of occurrences of `c` in `s`. */
  function Count(s: string, c: char): nat {
    if s == [] then 0 else Count(s[..|s| - 1], c) + (if s[|s| - 1] == c then 1 else 0)
  }

  lemma {:induction false} CountAppend(a: string, b: string, c: char)
    ensures Count(a + b, c) == Count(a, c) + Count(b, c)
    decreases |b|
  {
    if b == [] {
      assert a + b == a;
    } else {
      assert (a + b)[..|a + b| - 1] == a + b[..|b| - 1];
      CountAppend(a, b[..|b| - 1], c);
    }
  }

  lemma CountNone(s: string, c: char)
    requires c !in s
    ensures Count(s, c) == 0
  {
    if s != [] {
      assert s[..|s| - 1] <= s;
      CountNone(s[..|s| - 1], c);
    }
  }

  /** Length of the run of whitespace that starts at index `i` of `s`. */
  function SpaceRun(s: string, i: nat): (n: nat)
    requires i <= |s|
    ensures i + n <= |s|
    ensures forall k :: i <= k < i + n ==> IsSpace(s[k])
    ensures i + n == |s| || !IsSpace(s[i + n])
    decreases |s| - i
  {
    if i < |s| && IsSpace(s[i]) then 1 + SpaceRun(s, i + 1) else 0
  }

  lemma SpaceRunIs(s: string, i: nat, j: nat)
    requires i <= j <= |s|
    requires forall k :: i <= k < j ==> IsSpace(s[k])
    requires j == |s| || !IsSpace(s[j])
    ensures SpaceRun(s, i) == j - i
    decreases j - i
  {
    if i < j {
      SpaceRunIs(s, i + 1, j);
    }
  }

  /** Every character is whitespace (an empty string qualifies). */
  predicate AllSpace(s: string) {
    forall k :: 0 <= k < |s| ==> IsSpace(s[k])
  }

  /** The string with its leading whitespace run removed. */
  function TrimLeft(s: string): string {
    s[SpaceRun(s, 0)..]
  }

  /** `strlen` of a buffer: the index of its first NUL, or its length. */
  function CLen(buf: seq<char>): (n: nat)
    ensures n <= |buf|
    ensures '\0' !in buf[..n]
    ensures n < |buf| ==> buf[n] == '\0'
  {
    if buf == [] || buf[0] == '\0' then 0 else 1 + CLen(buf[1..])
  }

  /** The C string a buffer holds. */
  function CStr(buf: seq<char>): string {
    buf[..CLen(buf)]
  }

  lemma CLenIs(buf: seq<char>, n: nat)
    requires n <= |buf| && '\0' !in buf[..n]
    requires n < |buf| ==> buf[n] == '\0'
    ensures CLen(buf) == n
  {
  }

  /** A string copied into a buffer with a terminating NUL reads back as
      itself. */
  lemma CStrTerminated(s: string)
    requires '\0' !in s
    ensures CStr(s + ['\0']) == s
  {
    assert (s + ['\0'])[..|s|] == s;
    CLenIs(s + ['\0'], |s|);
  }
}

/** The parts of Go's strings package the program uses. */
module Strings {

  /** The index of the first c, or the length: where strings.Cut cuts. */
  function IndexOf(s: string, c: char): (i: nat)
    ensures i <= |s|
  {
    if s == "" || s[0] == c then 0 else 1 + IndexOf(s[1..], c)
  }

  /** The index of the last c, or -1. */
  function LastIndexOf(s: string, c: char): (i: int)
    ensures -1 <= i < |s|
  {
    if s == "" then -1
    else if s[|s| - 1] == c then |s| - 1
    else LastIndexOf(s[..|s| - 1], c)
  }

  lemma {:induction false} IndexOfIs(s: string, c: char)
    ensures var i := IndexOf(s, c); (i < |s| ==> s[i] == c) && forall k :: 0 <= k < i ==> s[k] != c
    decreases s
  {
    if s != "" && s[0] != c {
      IndexOfIs(s[1..], c);
      assert forall k :: 1 <= k < |s| ==> s[k] == s[1..][k - 1];
    }
  }

  lemma {:induction false} LastIndexOfIs(s: string, c: char)
    ensures var i := LastIndexOf(s, c); (i >= 0 ==> s[i] == c) && forall k :: i < k < |s| ==> s[k] != c
    decreases s
  {
    if s != "" && s[|s| - 1] != c {
      LastIndexOfIs(s[..|s| - 1], c);
    }
  }

  /** unicode.IsSpace on the decoded header. */
  predicate IsSpace(c: char) {
    || '\t' <= c <= '\r' || c == ' ' || c == '\U{85}' || c == '\U{A0}' || c == '\U{1680}'
    || '\U{2000}' <= c <= '\U{200A}' || c == '\U{2028}' || c == '\U{2029}' || c == '\U{202F}'
    || c == '\U{205F}' || c == '\U{3000}'
  }

  function TrimLeft(s: string): string {
    if s != "" && IsSpace(s[0]) then TrimLeft(s[1..]) else s
  }

  function TrimRight(s: string): string {
    if s != "" && IsSpace(s[|s| - 1]) then TrimRight(s[..|s| - 1]) else s
  }

  function TrimSpace(s: string): string {
    TrimRight(TrimLeft(s))
  }

  lemma IndexOfSeparator(front: string, c: char, back: string)
    requires c !in front
    ensures IndexOf(front + [c] + back, c) == |front|
  {
    var s := front + [c] + back;
    IndexOfIs(s, c);
    assert s[|front|] == c;
    assert forall k :: 0 <= k < |front| ==> s[k] == front[k] && front[k] in front;
  }
}

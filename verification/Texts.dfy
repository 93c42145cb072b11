/** Cutting text at a character. */
module Texts {
  /** The text before the first occurrence of `mark`, or all of it. */
  function Before(s: string, mark: char): (r: string)
    ensures |r| <= |s| && r == s[..|r|] && mark !in r
    ensures |r| < |s| ==> s[|r|] == mark
  {
    if s == [] || s[0] == mark then []
    else [s[0]] + Before(s[1..], mark)
  }

  lemma {:induction false} BeforeAppend(first: string, rest: string, mark: char)
    requires mark !in first
    ensures Before(first + [mark] + rest, mark) == first
  {
    var s := first + [mark] + rest;
    var r := Before(s, mark);
    assert s[|first|] == mark;
    assert |r| <= |first|;
    assert r == first[..|r|];
  }

  lemma BeforeAll(s: string, mark: char)
    requires mark !in s
    ensures Before(s, mark) == s
  {
    var r := Before(s, mark);
    assert forall i :: 0 <= i < |s| ==> s[i] != mark;
  }
}

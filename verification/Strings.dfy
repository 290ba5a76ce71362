/** String helpers of the language, used by several components. */
module Strings {

  predicate Contains(s: string, sub: string) {
    exists i | 0 <= i <= |s| - |sub| :: s[i..][..|sub|] == sub
  }

  /** White space and line terminators. */
  predicate Blank(c: char) {
    var u := c as int;
    || 9 <= u <= 13 || u == 32 || u == 0xa0 || u == 0x1680 || 0x2000 <= u <= 0x200a
    || u == 0x2028 || u == 0x2029 || u == 0x202f || u == 0x205f || u == 0x3000 || u == 0xfeff
  }

  function TrimStart(s: string): string {
    if s != "" && Blank(s[0]) then TrimStart(s[1..]) else s
  }

  function TrimEnd(s: string): string {
    if s != "" && Blank(s[|s| - 1]) then TrimEnd(s[..|s| - 1]) else s
  }

  function Trim(s: string): string {
    TrimEnd(TrimStart(s))
  }

  // ----- What trimming does -----

  predicate Blanks(s: string) {
    forall i | 0 <= i < |s| :: Blank(s[i])
  }

  predicate Trimmed(s: string) {
    s == "" || (!Blank(s[0]) && !Blank(s[|s| - 1]))
  }

  lemma {:induction false} TrimFront(before: string, s: string)
    requires Blanks(before) && (s == "" || !Blank(s[0]))
    ensures TrimStart(before + s) == s
    decreases |before|
  {
    if before == "" {
      assert before + s == s;
    } else {
      assert (before + s)[1..] == before[1..] + s;
      TrimFront(before[1..], s);
    }
  }

  lemma {:induction false} TrimBack(s: string, after: string)
    requires Blanks(after) && (s == "" || !Blank(s[|s| - 1]))
    ensures TrimEnd(s + after) == s
    decreases |after|
  {
    if after == "" {
      assert s + after == s;
    } else {
      var n := |after| - 1;
      assert (s + after)[..|s + after| - 1] == s + after[..n];
      TrimBack(s, after[..n]);
    }
  }

  /** Trimming takes away the blanks around a text, whatever they are, and nothing else. */
  lemma TrimAround(before: string, s: string, after: string)
    requires Blanks(before) && Blanks(after) && Trimmed(s)
    ensures Trim(before + s + after) == s
  {
    if s == "" {
      assert Blanks(before + after) && before + s + after == (before + after) + "";
      TrimFront(before + after, "");
      assert TrimEnd("") == "";
    } else {
      assert before + s + after == before + (s + after);
      TrimFront(before, s + after);
      TrimBack(s, after);
    }
  }
}

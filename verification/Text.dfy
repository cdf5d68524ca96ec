/** The string helpers of the Go standard library that the service relies on. */
module Text {

  /** White space as `strings.TrimSpace` sees it. */
  predicate IsSpace(c: char) {
    var n := c as int;
    || 9 <= n <= 13 || n == 32 || n == 133 || n == 160 || n == 5760 || 8192 <= n <= 8202
    || n == 8232 || n == 8233 || n == 8239 || n == 8287 || n == 12288
  }

  predicate AllSpace(s: string) {
    forall i :: 0 <= i < |s| ==> IsSpace(s[i])
  }

  function TrimLeft(s: string): string {
    if s != [] && IsSpace(s[0]) then TrimLeft(s[1..]) else s
  }

  function TrimRight(s: string): string {
    if s != [] && IsSpace(s[|s| - 1]) then TrimRight(s[..|s| - 1]) else s
  }

  function TrimSpace(s: string): string {
    TrimRight(TrimLeft(s))
  }

  // ---------------------------------------------------------------- what trimming leaves

  /** The characters with the White_Space property of Unicode. */
  lemma SpacesAre(c: char)
    ensures IsSpace(c)
            <==> || c in "\t\n\U{0B}\U{0C}\r \U{85}\U{A0}\U{1680}\U{2028}\U{2029}\U{202F}\U{205F}\U{3000}"
                 || '\U{2000}' <= c <= '\U{200A}'
  {
  }

  predicate NoOuterSpace(s: string) {
    s != "" ==> !IsSpace(s[0]) && !IsSpace(s[|s| - 1])
  }

  lemma {:induction false} TrimLeftDrops(left: string, s: string)
    requires AllSpace(left) && (s != "" ==> !IsSpace(s[0]))
    ensures TrimLeft(left + s) == s
  {
    if left == "" {
      assert left + s == s;
    } else {
      assert (left + s)[1..] == left[1..] + s;
      TrimLeftDrops(left[1..], s);
    }
  }

  lemma {:induction false} TrimRightDrops(s: string, right: string)
    requires AllSpace(right) && (s != "" ==> !IsSpace(s[|s| - 1]))
    ensures TrimRight(s + right) == s
  {
    if right == "" {
      assert s + right == s;
    } else {
      var front := right[..|right| - 1];
      assert (s + right)[..|s + right| - 1] == s + front;
      TrimRightDrops(s, front);
    }
  }

  /** Trimming drops white space on both sides, and nothing else. */
  lemma TrimSpaceDrops(left: string, s: string, right: string)
    requires AllSpace(left) && AllSpace(right) && NoOuterSpace(s)
    ensures TrimSpace(left + s + right) == s
  {
    if s == "" {
      assert left + s + right == left + right;
      assert left + right + "" == left + right;
      TrimLeftDrops(left + right, "");
    } else {
      assert left + s + right == left + (s + right);
      TrimLeftDrops(left, s + right);
      TrimRightDrops(s, right);
    }
  }

  /** What is left when white space is dropped from the left. */
  ghost predicate LeftOf(s: string, t: string) {
    |t| <= |s| && AllSpace(s[..|s| - |t|]) && t == s[|s| - |t|..] && (t != "" ==> !IsSpace(t[0]))
  }

  lemma LeftOfNext(s: string, t: string)
    requires s != "" && IsSpace(s[0]) && LeftOf(s[1..], t)
    ensures LeftOf(s, t)
  {
    assert s[..|s| - |t|] == [s[0]] + s[1..][..|s| - 1 - |t|];
  }

  lemma {:induction false} TrimLeftIs(s: string)
    ensures LeftOf(s, TrimLeft(s))
  {
    if s != "" && IsSpace(s[0]) {
      TrimLeftIs(s[1..]);
      LeftOfNext(s, TrimLeft(s[1..]));
    }
  }

  ghost predicate RightOf(s: string, t: string) {
    t <= s && AllSpace(s[|t|..]) && (t != "" ==> !IsSpace(t[|t| - 1]))
  }

  lemma RightOfNext(s: string, t: string)
    requires s != "" && IsSpace(s[|s| - 1]) && RightOf(s[..|s| - 1], t)
    ensures RightOf(s, t)
  {
    assert s[|t|..] == s[..|s| - 1][|t|..] + [s[|s| - 1]];
  }

  lemma {:induction false} TrimRightIs(s: string)
    ensures RightOf(s, TrimRight(s))
  {
    if s != "" && IsSpace(s[|s| - 1]) {
      TrimRightIs(s[..|s| - 1]);
      RightOfNext(s, TrimRight(s[..|s| - 1]));
    }
  }

  /** Every text is what trimming leaves, between white space. */
  lemma TrimSpaceSplits(s: string) returns (left: string, right: string)
    ensures AllSpace(left) && AllSpace(right) && NoOuterSpace(TrimSpace(s)) && s == left + TrimSpace(s) + right
  {
    TrimLeftIs(s);
    TrimRightIs(TrimLeft(s));
    left, right := Split(s, TrimLeft(s), TrimSpace(s));
  }

  lemma Split(s: string, u: string, t: string) returns (left: string, right: string)
    requires LeftOf(s, u) && RightOf(u, t)
    ensures AllSpace(left) && AllSpace(right) && NoOuterSpace(t) && s == left + t + right
  {
    left, right := s[..|s| - |u|], u[|t|..];
    assert s == left + u && u == t + right;
    assert t != "" ==> t[0] == u[0];
  }
}

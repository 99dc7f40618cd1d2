/** The string operations the services bill and validate with: `strip` and whitespace `split`. */
module Text {
  import opened Common

  /** The characters Python's `str.strip` and `str.split` treat as whitespace. */
  predicate IsSpace(c: char) {
    c == ' ' || '\t' <= c <= '\r' || '\U{001c}' <= c <= '\U{001f}' || c == '\U{0085}' || c == '\U{00a0}' || c == '\U{1680}' ||
    '\U{2000}' <= c <= '\U{200a}' || c == '\U{2028}' || c == '\U{2029}' || c == '\U{202f}' || c == '\U{205f}' || c == '\U{3000}'
  }

  function StripLeft(s: string): string {
    if s != "" && IsSpace(s[0]) then StripLeft(s[1..]) else s
  }

  function StripRight(s: string): string {
    if s != "" && IsSpace(s[|s| - 1]) then StripRight(s[..|s| - 1]) else s
  }

  function Strip(s: string): string {
    StripRight(StripLeft(s))
  }

  /** One more character either ends nothing, lengthens the last word, or starts a word. */
  function Lengthen(words: seq<string>, afterText: bool, c: char): seq<string> {
    if IsSpace(c) then words
    else if afterText && words != [] then words[..|words| - 1] + [words[|words| - 1] + [c]]
    else words + [[c]]
  }

  /** `split()`: the maximal runs of non-whitespace, in order. */
  function Split(s: string): seq<string> {
    if s == "" then []
    else
      var n := |s| - 1;
      Lengthen(Split(s[..n]), n > 0 && !IsSpace(s[n - 1]), s[n])
  }

  /** The unit of billing. */
  function WordCount(body: string): nat {
    |Split(body)|
  }

  function Squeeze(s: string): string {
    if s == "" then ""
    else if IsSpace(s[|s| - 1]) then Squeeze(s[..|s| - 1])
    else Squeeze(s[..|s| - 1]) + [s[|s| - 1]]
  }

  function Join(words: seq<string>): string {
    if words == [] then "" else Join(words[..|words| - 1]) + words[|words| - 1]
  }

  ghost predicate Solid(word: string) {
    word != "" && forall i | 0 <= i < |word| :: !IsSpace(word[i])
  }

  ghost predicate AllSolid(words: seq<string>) {
    forall k | 0 <= k < |words| :: Solid(words[k])
  }

  lemma JoinSnoc(words: seq<string>, w: string)
    ensures Join(words + [w]) == Join(words) + w
  {
    assert (words + [w])[..|words + [w]| - 1] == words;
  }

  lemma LastWordGrows(words: seq<string>, c: char)
    requires words != []
    ensures Join(words[..|words| - 1] + [words[|words| - 1] + [c]]) == Join(words) + [c]
  {
    var init, last := words[..|words| - 1], words[|words| - 1];
    assert words == init + [last];
    JoinSnoc(init, last);
    JoinSnoc(init, last + [c]);
    Regroup(Join(init), last, [c]);
  }

  lemma LengthenKeepsText(words: seq<string>, afterText: bool, c: char)
    requires AllSolid(words)
    ensures AllSolid(Lengthen(words, afterText, c))
    ensures Join(Lengthen(words, afterText, c)) == Join(words) + if IsSpace(c) then "" else [c]
    ensures !IsSpace(c) ==> Lengthen(words, afterText, c) != []
  {
    if !IsSpace(c) {
      if afterText && words != [] {
        LastWordGrows(words, c);
      } else {
        JoinSnoc(words, [c]);
      }
    }
  }

  /** Splitting loses and adds nothing but whitespace, and its words are non-empty and free of whitespace. */
  lemma {:induction false} SplitKeepsText(s: string)
    ensures AllSolid(Split(s))
    ensures Join(Split(s)) == Squeeze(s)
    ensures s != "" && !IsSpace(s[|s| - 1]) ==> Split(s) != []
  {
    if s != "" {
      var n := |s| - 1;
      SplitKeepsText(s[..n]);
      LengthenKeepsText(Split(s[..n]), n > 0 && !IsSpace(s[n - 1]), s[n]);
    }
  }

  ghost predicate AllSpace(s: string) {
    forall i | 0 <= i < |s| :: IsSpace(s[i])
  }

  /** A body has billable words exactly when it is not all whitespace. */
  lemma {:induction false} NoWordsIffBlank(s: string)
    ensures WordCount(s) == 0 <==> AllSpace(s)
  {
    if s != "" {
      NoWordsIffBlank(s[..|s| - 1]);
      SplitKeepsText(s);
      assert AllSpace(s) ==> AllSpace(s[..|s| - 1]);
    }
  }

  lemma {:induction false} StripLeftSolid(s: string)
    ensures StripLeft(s) == "" || !IsSpace(StripLeft(s)[0])
    ensures StripLeft(s) == "" <==> AllSpace(s)
  {
    if s != "" && IsSpace(s[0]) {
      StripLeftSolid(s[1..]);
      assert AllSpace(s[1..]) ==> AllSpace(s);
    }
  }

  lemma {:induction false} StripRightKeepsHead(s: string)
    requires s != "" && !IsSpace(s[0])
    ensures StripRight(s) != "" && StripRight(s)[0] == s[0] && !IsSpace(StripRight(s)[|StripRight(s)| - 1])
  {
    if IsSpace(s[|s| - 1]) {
      StripRightKeepsHead(s[..|s| - 1]);
    }
  }

  /** What survives stripping begins and ends with text, so a body accepted as non-empty has a billable word. */
  lemma StrippedBodyHasWords(s: string)
    ensures Strip(s) == "" <==> AllSpace(s)
    ensures Strip(s) != "" ==> WordCount(Strip(s)) >= 1 && !IsSpace(Strip(s)[0]) && !IsSpace(Strip(s)[|Strip(s)| - 1])
  {
    StripLeftSolid(s);
    if StripLeft(s) != "" {
      StripRightKeepsHead(StripLeft(s));
      NoWordsIffBlank(Strip(s));
    }
  }

  lemma {:induction false} StripLeftCuts(s: string) returns (left: string)
    ensures s == left + StripLeft(s) && AllSpace(left)
  {
    left := "";
    if s != "" && IsSpace(s[0]) {
      var rest := StripLeftCuts(s[1..]);
      left := [s[0]] + rest;
    }
  }

  lemma {:induction false} StripRightCuts(s: string) returns (right: string)
    ensures s == StripRight(s) + right && AllSpace(right)
  {
    right := "";
    if s != "" && IsSpace(s[|s| - 1]) {
      var rest := StripRightCuts(s[..|s| - 1]);
      right := rest + [s[|s| - 1]];
    }
  }

  /** Stripping takes whitespace off the two ends and nothing else. */
  lemma StripCuts(s: string) returns (left: string, right: string)
    ensures s == left + Strip(s) + right && AllSpace(left) && AllSpace(right)
  {
    left := StripLeftCuts(s);
    right := StripRightCuts(StripLeft(s));
  }

  /** A text without whitespace is one word. With the rule for the two sides of whitespace this settles every split. */
  lemma {:induction false} OneWord(s: string)
    requires Solid(s)
    ensures Split(s) == [s]
  {
    var init, last := s[..|s| - 1], s[|s| - 1];
    assert s == init + [last] && forall i | 0 <= i < |init| :: init[i] == s[i];
    if init != "" {
      OneWord(init);
      assert [init][..0] == [];
    }
  }

  lemma LengthenRight(left: seq<string>, right: seq<string>, afterText: bool, c: char)
    requires afterText ==> right != []
    ensures Lengthen(left + right, afterText, c) == left + Lengthen(right, afterText, c)
  {
  }

  /** Whether the next character would continue a word. */
  predicate EndsInText(s: string) {
    s != "" && !IsSpace(s[|s| - 1])
  }

  /** Words on the two sides of whitespace are counted separately. */
  lemma {:induction false} SplitAtSpace(a: string, c: char, b: string)
    requires IsSpace(c)
    ensures Split(a + [c] + b) == Split(a) + Split(b)
  {
    if b == "" {
      assert a + [c] + b == a + [c];
    } else {
      var init, last := b[..|b| - 1], b[|b| - 1];
      var left := a + [c] + init;
      SplitAtSpace(a, c, init);
      assert b == init + [last] && a + [c] + b == left + [last];
      assert EndsInText(left) == EndsInText(init) by {
        assert left[|left| - 1] == if init == "" then c else init[|init| - 1];
      }
      SplitKeepsText(init);
      LengthenRight(Split(a), Split(init), EndsInText(init), last);
    }
  }
}

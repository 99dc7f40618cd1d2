/** Nickname slugs: the validator, and the generator whose output must always pass it. */
module Slugs {
  import opened Common
  import opened Text

  predicate IsLower(c: char) { 'a' <= c <= 'z' }

  predicate IsDigit(c: char) { '0' <= c <= '9' }

  predicate IsAlnum(c: char) { IsLower(c) || IsDigit(c) }

  predicate IsSlugChar(c: char) { IsAlnum(c) || c == '_' || c == '-' }

  const RESERVED: set<string> := {"admin", "api", "me", "null", "root", "support", "system", "vbwd"}

  datatype Invalid = Reserved | BadLength | BadPattern | DoubleDash

  /** One lower-case letter, then 2 to 31 slug characters, ending at `end`. */
  predicate CoreMatches(s: string, end: nat) {
    end <= |s| && 3 <= end <= 32 && IsLower(s[0]) && forall i | 1 <= i < end :: IsSlugChar(s[i])
  }

  /** The pattern's `$` matches at the end of the text and also just before a final newline. */
  predicate PatternMatches(s: string) {
    CoreMatches(s, |s|) || (s != "" && s[|s| - 1] == '\n' && CoreMatches(s, |s| - 1))
  }

  predicate HasDoubleDash(s: string) {
    exists i :: 0 <= i < |s| - 1 && s[i] == '-' && s[i + 1] == '-'
  }

  /** `validate_nickname`: nothing, or why not. */
  function ValidateNickname(s: string): Option<Invalid> {
    if s in RESERVED then Some(Reserved)
    else if |s| < 3 || |s| > 32 then Some(BadLength)
    else if !PatternMatches(s) then Some(BadPattern)
    else if HasDoubleDash(s) then Some(DoubleDash)
    else None
  }

  /** What is accepted, character by character: 3 to 32 of them, a lower-case letter first, then letters, digits, `_`
      and `-`, but a newline may stand last after at least three others; no two dashes together and no reserved word. */
  lemma ValidatorIsExact(s: string)
    ensures ValidateNickname(s) == None <==>
              && 3 <= |s| <= 32 && 'a' <= s[0] <= 'z'
              && (forall i | 0 <= i < |s| - 1 :: 'a' <= s[i] <= 'z' || '0' <= s[i] <= '9' || s[i] == '_' || s[i] == '-')
              && (var c := s[|s| - 1];
                  'a' <= c <= 'z' || '0' <= c <= '9' || c == '_' || c == '-' || (c == '\n' && |s| >= 4))
              && (forall i | 0 <= i < |s| - 1 :: s[i] != '-' || s[i + 1] != '-')
              && s !in ["admin", "api", "me", "null", "root", "support", "system", "vbwd"]
    ensures ValidateNickname(s) == Some(Reserved) <==> s in RESERVED
    ensures ValidateNickname(s) == Some(BadLength) <==> s !in RESERVED && !(3 <= |s| <= 32)
    ensures ValidateNickname(s) == Some(DoubleDash) ==> HasDoubleDash(s)
  {
    if 3 <= |s| <= 32 {
      PatternIsExact(s);
    }
  }

  lemma PatternIsExact(s: string)
    requires 3 <= |s| <= 32
    ensures PatternMatches(s) <==>
              && IsLower(s[0]) && (forall i | 0 <= i < |s| - 1 :: IsSlugChar(s[i]))
              && (IsSlugChar(s[|s| - 1]) || (s[|s| - 1] == '\n' && |s| >= 4))
  {
    if CoreMatches(s, |s|) {
      assert IsSlugChar(s[|s| - 1]);
    }
  }

  /** Every accepted nickname consists of slug characters exactly when it does not end in a newline: that one
      character slips past the pattern. */
  lemma AcceptedIsCleanUnlessNewline(s: string)
    requires ValidateNickname(s) == None
    ensures (forall i | 0 <= i < |s| :: IsSlugChar(s[i])) <==> s[|s| - 1] != '\n'
    ensures IsLower(s[0]) && 3 <= |s| <= 32
  {
  }

  lemma NewlineIsAccepted()
    ensures ValidateNickname("abc\n") == None
  {
    var s := "abc\n";
    assert s[0] == 'a' && s[1] == 'b' && s[2] == 'c' && s[3] == '\n';
    assert CoreMatches(s, 3);
    assert |"admin"| == 5 && |"api"| == 3 && |"me"| == 2 && "null"[0] == 'n' && "root"[0] == 'r' && |"support"| == 7 &&
           |"system"| == 6 && "vbwd"[0] == 'v';
  }

  // ---- The generator -------------------------------------------------------------------------------------

  /** `re.sub(r"[^a-z0-9]+", "-", s)`: every maximal run of other characters becomes one dash. */
  function DashRuns(s: string): string {
    if s == "" then ""
    else
      var n := |s| - 1;
      if IsAlnum(s[n]) then DashRuns(s[..n]) + [s[n]]
      else if n > 0 && !IsAlnum(s[n - 1]) then DashRuns(s[..n])
      else DashRuns(s[..n]) + "-"
  }

  /** `strip("-")` */
  function TrimLeft(s: string): string {
    if s != "" && s[0] == '-' then TrimLeft(s[1..]) else s
  }

  function TrimRight(s: string): string {
    if s != "" && s[|s| - 1] == '-' then TrimRight(s[..|s| - 1]) else s
  }

  function Trim(s: string): string {
    TrimRight(TrimLeft(s))
  }

  /** `re.sub(r"-{2,}", "-", s)`: every run of dashes becomes one. */
  function SingleDashes(s: string): string {
    if s == "" then ""
    else
      var n := |s| - 1;
      if s[n] == '-' && n > 0 && s[n - 1] == '-' then SingleDashes(s[..n]) else SingleDashes(s[..n]) + [s[n]]
  }

  const BASE_MAX_LEN := 16

  function Cut(s: string): string {
    if |s| <= BASE_MAX_LEN then s else s[..BASE_MAX_LEN]
  }

  /** `_slugify_nickname_base`, for any lower-casing function. */
  function SlugifyBase(displayName: string, lower: string -> string): string {
    var cleaned := SingleDashes(Trim(DashRuns(lower(Strip(displayName)))));
    var lettered := if cleaned == "" || !IsLower(cleaned[0]) then Trim("guest-" + cleaned) else cleaned;
    Trim(Cut(lettered))
  }

  /** Alphanumerics and dashes, no two dashes together. */
  ghost predicate Dashed(s: string) {
    (forall i | 0 <= i < |s| :: IsAlnum(s[i]) || s[i] == '-') &&
    (forall i | 0 <= i < |s| - 1 :: s[i] == '-' ==> s[i + 1] != '-')
  }

  ghost predicate Trimmed(s: string) {
    s != "" ==> s[0] != '-' && s[|s| - 1] != '-'
  }

  lemma {:induction false} DashRunsIsDashed(s: string)
    ensures Dashed(DashRuns(s))
    ensures s != "" ==> DashRuns(s) != "" && (DashRuns(s)[|DashRuns(s)| - 1] == '-' <==> !IsAlnum(s[|s| - 1]))
  {
    if s != "" {
      DashRunsIsDashed(s[..|s| - 1]);
    }
  }

  lemma {:induction false} TrimLeftKeeps(s: string)
    requires Dashed(s)
    ensures Dashed(TrimLeft(s)) && |TrimLeft(s)| <= |s|
    ensures TrimLeft(s) != "" ==> TrimLeft(s)[0] != '-' && TrimLeft(s)[|TrimLeft(s)| - 1] == s[|s| - 1]
    ensures s != "" && s[0] != '-' ==> TrimLeft(s) == s
  {
    if s != "" && s[0] == '-' {
      TrimLeftKeeps(s[1..]);
    }
  }

  lemma {:induction false} TrimRightKeeps(s: string)
    requires Dashed(s)
    ensures Dashed(TrimRight(s)) && |TrimRight(s)| <= |s|
    ensures TrimRight(s) != "" ==> TrimRight(s)[|TrimRight(s)| - 1] != '-' && TrimRight(s)[0] == s[0]
    ensures s != "" && s[0] != '-' ==> TrimRight(s) != ""
    ensures s != "" && s[|s| - 1] != '-' ==> TrimRight(s) == s
  {
    if s != "" && s[|s| - 1] == '-' {
      TrimRightKeeps(s[..|s| - 1]);
    }
  }

  lemma TrimKeeps(s: string)
    requires Dashed(s)
    ensures Dashed(Trim(s)) && Trimmed(Trim(s)) && |Trim(s)| <= |s|
    ensures s != "" && s[0] != '-' ==> Trim(s) != "" && Trim(s)[0] == s[0]
    ensures Trimmed(s) ==> Trim(s) == s
  {
    TrimLeftKeeps(s);
    TrimRightKeeps(TrimLeft(s));
  }

  /** After the first substitution and the trim there is nothing left for the second one to do. */
  lemma {:induction false} SecondSubstitutionIsIdle(s: string)
    requires Dashed(s)
    ensures SingleDashes(s) == s
  {
    if s != "" {
      SecondSubstitutionIsIdle(s[..|s| - 1]);
    }
  }

  ghost predicate GoodStem(s: string) {
    1 <= |s| <= BASE_MAX_LEN && IsLower(s[0]) && Dashed(s) && Trimmed(s)
  }

  lemma CutKeeps(s: string)
    requires Dashed(s) && s != "" && IsLower(s[0])
    ensures GoodStem(Trim(Cut(s)))
  {
    assert Dashed(Cut(s));
    TrimKeeps(Cut(s));
  }

  /** For every display name and every lower-casing: the stem is 1 to 16 lower-case letters, digits and single
      inner dashes, starting with a letter; and the second substitution never changes anything. */
  lemma StemIsGood(displayName: string, lower: string -> string)
    ensures GoodStem(SlugifyBase(displayName, lower))
    ensures var once := Trim(DashRuns(lower(Strip(displayName)))); SingleDashes(once) == once
  {
    var dashed := DashRuns(lower(Strip(displayName)));
    DashRunsIsDashed(lower(Strip(displayName)));
    TrimKeeps(dashed);
    var cleaned := Trim(dashed);
    SecondSubstitutionIsIdle(cleaned);
    if cleaned == "" || !IsLower(cleaned[0]) {
      TrimKeeps("guest-" + cleaned);
      assert ("guest-" + cleaned)[0] == 'g';
      CutKeeps(Trim("guest-" + cleaned));
    } else {
      CutKeeps(cleaned);
    }
  }

  // ---- What the stem keeps ---------------------------------------------------------------------------------

  /** The letters and digits of a text, in order. */
  function Alnums(s: string): string {
    if s == "" then ""
    else if IsAlnum(s[|s| - 1]) then Alnums(s[..|s| - 1]) + [s[|s| - 1]]
    else Alnums(s[..|s| - 1])
  }

  lemma {:induction false} AlnumsAppend(a: string, b: string)
    ensures Alnums(a + b) == Alnums(a) + Alnums(b)
  {
    if b == "" {
      assert a + b == a;
    } else {
      var init := b[..|b| - 1];
      assert (a + b)[..|a + b| - 1] == a + init;
      AlnumsAppend(a, init);
    }
  }

  lemma {:induction false} DashRunsKeepsAlnums(s: string)
    ensures Alnums(DashRuns(s)) == Alnums(s)
  {
    if s != "" {
      DashRunsKeepsAlnums(s[..|s| - 1]);
      AlnumsAppend(DashRuns(s[..|s| - 1]), if IsAlnum(s[|s| - 1]) then [s[|s| - 1]] else "-");
      assert Alnums("-") == "";
    }
  }

  lemma {:induction false} TrimLeftKeepsAlnums(s: string)
    ensures Alnums(TrimLeft(s)) == Alnums(s)
  {
    if s != "" && s[0] == '-' {
      TrimLeftKeepsAlnums(s[1..]);
      AlnumsAppend("-", s[1..]);
      assert s == "-" + s[1..] && Alnums("-") == "";
    }
  }

  lemma {:induction false} TrimRightKeepsAlnums(s: string)
    ensures Alnums(TrimRight(s)) == Alnums(s)
  {
    if s != "" && s[|s| - 1] == '-' {
      TrimRightKeepsAlnums(s[..|s| - 1]);
    }
  }

  lemma TrimKeepsAlnums(s: string)
    ensures Alnums(Trim(s)) == Alnums(s)
  {
    TrimLeftKeepsAlnums(s);
    TrimRightKeepsAlnums(TrimLeft(s));
  }

  /** "guest" in front of what does not start with a letter. */
  function Lettered(name: string): string {
    if name == "" || !IsLower(name[0]) then "guest" + name else name
  }

  lemma LetteringKeepsAlnums(cleaned: string)
    requires Dashed(cleaned) && Trimmed(cleaned)
    ensures var lettered := if cleaned == "" || !IsLower(cleaned[0]) then Trim("guest-" + cleaned) else cleaned;
            Alnums(lettered) == Lettered(Alnums(cleaned)) && |lettered| <= |cleaned| + 6
  {
    FirstIsAlnum(cleaned);
    if cleaned == "" || !IsLower(cleaned[0]) {
      TrimKeepsAlnums("guest-" + cleaned);
      AlnumsAppend("guest-", cleaned);
      AlnumsAppend("guest", "-");
      AllAlnums("guest");
      assert "guest-" == "guest" + "-" && Alnums("-") == "";
      TrimKeeps("guest-" + cleaned);
    }
  }

  lemma CuttingKeepsAPrefix(s: string)
    ensures Alnums(Trim(Cut(s))) <= Alnums(s)
    ensures |s| <= BASE_MAX_LEN ==> Alnums(Trim(Cut(s))) == Alnums(s)
  {
    TrimKeepsAlnums(Cut(s));
    AlnumsAppend(Cut(s), s[|Cut(s)|..]);
    assert s == Cut(s) + s[|Cut(s)|..];
  }

  /** The stem is made of the name: its letters and digits are the first of the lower-cased name's, in order, behind
      "guest" where the name does not start with a letter. None is left out of a name of up to ten characters. */
  lemma StemKeepsTheName(displayName: string, lower: string -> string)
    ensures var text, stem := lower(Strip(displayName)), SlugifyBase(displayName, lower);
            && Alnums(stem) <= Lettered(Alnums(text))
            && (|text| <= 10 ==> Alnums(stem) == Lettered(Alnums(text)))
  {
    var text := lower(Strip(displayName));
    DashRunsIsDashed(text);
    DashRunsIsShorter(text);
    DashRunsKeepsAlnums(text);
    TrimKeeps(DashRuns(text));
    TrimKeepsAlnums(DashRuns(text));
    var cleaned := Trim(DashRuns(text));
    SecondSubstitutionIsIdle(cleaned);
    LetteringKeepsAlnums(cleaned);
    CuttingKeepsAPrefix(if cleaned == "" || !IsLower(cleaned[0]) then Trim("guest-" + cleaned) else cleaned);
  }

  lemma {:induction false} AllAlnums(s: string)
    requires forall i | 0 <= i < |s| :: IsAlnum(s[i])
    ensures Alnums(s) == s
  {
    if s != "" {
      AllAlnums(s[..|s| - 1]);
    }
  }

  lemma {:induction false} DashRunsIsShorter(s: string)
    ensures |DashRuns(s)| <= |s|
  {
    if s != "" {
      DashRunsIsShorter(s[..|s| - 1]);
    }
  }

  lemma FirstIsAlnum(s: string)
    requires Dashed(s) && Trimmed(s)
    ensures s == "" <==> Alnums(s) == ""
    ensures s != "" ==> Alnums(s)[0] == s[0]
  {
    if s != "" {
      AlnumsAppend([s[0]], s[1..]);
      assert s == [s[0]] + s[1..] && [s[0]][..0] == "" && Alnums([s[0]]) == [s[0]];
    }
  }

  predicate IsHex(c: char) { IsDigit(c) || 'a' <= c <= 'f' }

  /** A candidate nickname: the stem, a dash and `token_hex(4)`. */
  function Candidate(stem: string, suffix: string): string {
    stem + "-" + suffix
  }

  /** Every generated nickname passes the validator, for every display name, every lower-casing function and every
      random suffix. */
  lemma GeneratedNicknameIsValid(displayName: string, lower: string -> string, suffix: string)
    requires |suffix| == 8 && forall i | 0 <= i < 8 :: IsHex(suffix[i])
    ensures ValidateNickname(Candidate(SlugifyBase(displayName, lower), suffix)) == None
  {
    StemIsGood(displayName, lower);
    var c := Candidate(SlugifyBase(displayName, lower), suffix);
    if c in RESERVED {
      assert false;
    }
    assert CoreMatches(c, |c|);
  }

  /** Different random suffixes give different candidates, and every candidate shows the stem. */
  lemma CandidatesDiffer(stem: string, x: string, y: string)
    ensures Candidate(stem, x) == Candidate(stem, y) <==> x == y
    ensures stem + "-" <= Candidate(stem, x)
  {
    var p := stem + "-";
    assert Candidate(stem, x)[|p|..] == x && Candidate(stem, y)[|p|..] == y;
  }

  // ---- Idempotence -----------------------------------------------------------------------------------------

  lemma {:induction false} DashRunsFixesDashed(s: string)
    requires Dashed(s)
    ensures DashRuns(s) == s
  {
    if s != "" {
      DashRunsFixesDashed(s[..|s| - 1]);
    }
  }

  lemma NoSpaceInDashed(s: string)
    requires Dashed(s)
    ensures Strip(s) == s
  {
    assert forall i | 0 <= i < |s| :: !IsSpace(s[i]);
    assert StripLeft(s) == s;
  }

  /** Slugging a stem again gives the same stem, as soon as lower-casing leaves ASCII lower-case text alone. */
  lemma SlugifyIsIdempotent(displayName: string, lower: string -> string)
    requires forall t :: (forall i | 0 <= i < |t| :: IsAlnum(t[i]) || t[i] == '-') ==> lower(t) == t
    ensures SlugifyBase(SlugifyBase(displayName, lower), lower) == SlugifyBase(displayName, lower)
  {
    var stem := SlugifyBase(displayName, lower);
    StemIsGood(displayName, lower);
    NoSpaceInDashed(stem);
    assert lower(stem) == stem;
    DashRunsFixesDashed(stem);
    TrimKeeps(stem);
    SecondSubstitutionIsIdle(stem);
  }
}

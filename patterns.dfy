/**
  The two placeholder patterns of expressions.go and FindAllExpressions.

  The generic pattern `\$\{[\w-.\"()]+}` is `${`, one or more body
  characters (ASCII letters and digits, `_`, `-`, `.`, `"`, `(`, `)`), then
  `}`. The secret-call pattern `\$\{secrets.getValue\([^{}]+\)}` is
  `${secrets`, any one character but a newline (the `.` is unescaped), then
  `getValue(`, one or more characters that are not braces, then `)}`.

  Neither needs a regular-expression engine: at a given start position each
  pattern has at most one match, found by taking the longest run of class
  characters after the fixed head, so a scanner that tries each position in
  turn and jumps past every match gives Go's leftmost, non-overlapping
  FindAllString.
 */
module Patterns {
  import opened Wrappers
  import opened GoStrings

  datatype Pattern = Generic | Secret

  /** `\w` in Go's regexp syntax. */
  predicate IsWordChar(c: char) {
    IsAsciiLetter(c) || IsAsciiDigit(c) || c == '_'
  }

  /** The class `[\w-.\"()]` of the generic pattern. */
  predicate IsBodyChar(c: char) {
    IsWordChar(c) || c == '-' || c == '.' || c == '"' || c == '(' || c == ')'
  }

  predicate IsBrace(c: char) {
    c == '{' || c == '}'
  }

  /** The repeated class of each pattern. */
  predicate InClass(p: Pattern, c: char) {
    match p
    case Generic => IsBodyChar(c)
    case Secret => !IsBrace(c)
  }

  /** A whole match of the generic pattern. */
  predicate IsGenericToken(t: string) {
    && |t| >= 4 && t[..2] == "${" && t[|t| - 1] == '}'
    && forall j :: 2 <= j < |t| - 1 ==> IsBodyChar(t[j])
  }

  /** A whole match of the secret-call pattern. */
  predicate IsSecretToken(t: string) {
    && |t| >= 22 && t[..9] == "${secrets" && t[9] != '\n' && t[10..19] == "getValue("
    && t[|t| - 2] == ')' && t[|t| - 1] == '}'
    && forall j :: 19 <= j < |t| - 2 ==> !IsBrace(t[j])
  }

  predicate IsToken(p: Pattern, t: string) {
    match p
    case Generic => IsGenericToken(t)
    case Secret => IsSecretToken(t)
  }

  /** The fixed part of the pattern before the repeated class starts at `i`. */
  predicate HeadAt(p: Pattern, s: string, i: nat) {
    match p
    case Generic => OccursAt(s, "${", i)
    case Secret =>
      OccursAt(s, "${secrets", i) && i + 19 <= |s| && s[i + 9] != '\n' && OccursAt(s, "getValue(", i + 10)
  }

  /** Where the repeated class starts, relative to the match. */
  function BodyStart(p: Pattern): nat {
    match p
    case Generic => 2
    case Secret => 19
  }

  /** The length of the longest run of class characters of `p` from `k`. */
  function RunFrom(p: Pattern, s: string, k: nat): (n: nat)
    requires k <= |s|
    ensures k + n <= |s|
    ensures forall j :: k <= j < k + n ==> InClass(p, s[j])
    ensures k + n == |s| || !InClass(p, s[k + n])
    decreases |s| - k
  {
    if k < |s| && InClass(p, s[k]) then 1 + RunFrom(p, s, k + 1) else 0
  }

  /** The end (exclusive) of the match of `p` that starts at `i`, if any. */
  function MatchAt(p: Pattern, s: string, i: nat): (r: Option<nat>)
    requires i <= |s|
    ensures r.Some? ==> i < r.value <= |s| && IsToken(p, s[i..r.value])
  {
    if !HeadAt(p, s, i) then None
    else
      var b := i + BodyStart(p);
      var n := RunFrom(p, s, b);
      var e := b + n;
      match p
      case Generic =>
        if n >= 1 && e < |s| && s[e] == '}' then GenericTokenFrom(s, i, e); Some(e + 1) else None
      case Secret =>
        if n >= 2 && s[e - 1] == ')' && e < |s| && s[e] == '}' then SecretTokenFrom(s, i, e); Some(e + 1) else None
  }

  lemma GenericTokenFrom(s: string, i: nat, e: nat)
    requires HeadAt(Generic, s, i) && i + 3 <= e < |s| && s[e] == '}'
    requires forall j :: i + 2 <= j < e ==> IsBodyChar(s[j])
    ensures IsGenericToken(s[i..e + 1])
  {
    var t := s[i..e + 1];
    assert t[..2] == s[i..i + 2];
    forall j | 2 <= j < |t| - 1 ensures IsBodyChar(t[j]) {
      assert t[j] == s[i + j];
    }
  }

  lemma SecretTokenFrom(s: string, i: nat, e: nat)
    requires HeadAt(Secret, s, i) && i + 21 <= e < |s| && s[e - 1] == ')' && s[e] == '}'
    requires forall j :: i + 19 <= j < e ==> !IsBrace(s[j])
    ensures IsSecretToken(s[i..e + 1])
  {
    var t := s[i..e + 1];
    assert t[..9] == s[i..i + 9];
    assert t[9] == s[i + 9];
    assert t[10..19] == s[i + 10..i + 19] by {
      forall k | 0 <= k < 9 ensures t[10..19][k] == s[i + 10..i + 19][k] {
        assert t[10 + k] == s[i + 10 + k];
      }
    }
    forall j | 19 <= j < |t| - 2 ensures !IsBrace(t[j]) {
      assert t[j] == s[i + j];
    }
  }

  /** Both heads start with `${`. */
  lemma HeadOpens(p: Pattern, s: string, i: nat)
    ensures HeadAt(p, s, i) ==> OccursAt(s, "${", i)
  {
    if OccursAt(s, "${secrets", i) {
      assert s[i..i + 2] == s[i..i + 9][..2];
    }
  }

  /** A token starting at `i` begins with the fixed head of its pattern. */
  lemma TokenHead(p: Pattern, s: string, i: nat, e: nat)
    requires i <= e <= |s|
    requires IsToken(p, s[i..e])
    ensures HeadAt(p, s, i)
  {
    var t := s[i..e];
    assert s[i..i + 2] == t[..2];
    if p == Secret {
      assert s[i..i + 9] == t[..9];
      assert s[i + 9] == t[9];
      assert s[i + 10..i + 19] == t[10..19] by {
        forall k | 0 <= k < 9 ensures s[i + 10..i + 19][k] == t[10..19][k] {
          assert t[10 + k] == s[i + 10 + k];
        }
      }
    }
  }

  /** A token of `p` starting at `i` is exactly the match found there: the
      greedy run cannot be followed by a shorter alternative. */
  lemma MatchAtComplete(p: Pattern, s: string, i: nat, e: nat)
    requires i <= e <= |s|
    requires IsToken(p, s[i..e])
    ensures MatchAt(p, s, i) == Some(e)
  {
    TokenHead(p, s, i, e);
    var t := s[i..e];
    var b := i + BodyStart(p);
    var n := RunFrom(p, s, b);
    assert forall j :: b <= j < e - 1 ==> InClass(p, s[j]) by {
      forall j | b <= j < e - 1 ensures InClass(p, s[j]) {
        assert s[j] == t[j - i];
      }
    }
    assert s[e - 1] == '}' by { assert s[e - 1] == t[|t| - 1]; }
    assert n == e - 1 - b;
    match p
    case Generic =>
      assert n >= 1;
    case Secret =>
      assert n >= 2 && s[e - 2] == ')' by { assert s[e - 2] == t[|t| - 2]; }
  }

  /** No match of either pattern starts strictly inside a token: a token
      holds no `${` after its first character. */
  lemma NoOpenInside(p: Pattern, s: string, i: nat, e: nat, j: nat)
    requires i < j < e <= |s|
    requires IsToken(p, s[i..e])
    ensures !OccursAt(s, "${", j)
  {
    var t := s[i..e];
    var m := j - i;
    assert s[j] == t[m];
    if j + 2 <= |s| {
      assert s[j..j + 2][0] == s[j] && s[j..j + 2][1] == s[j + 1];
      if m + 1 < |t| {
        assert s[j + 1] == t[m + 1];
        TokenHasNoOpen(p, t, m);
      }
    }
  }

  /** Inside a token, a `$` is never followed by `{`. */
  lemma TokenHasNoOpen(p: Pattern, t: string, m: nat)
    requires IsToken(p, t)
    requires 1 <= m && m + 1 < |t|
    ensures !(t[m] == '$' && t[m + 1] == '{')
  {
    match p
    case Generic =>
      if m == 1 {
        assert IsBodyChar(t[2]);
      } else {
        assert IsBodyChar(t[m]);
      }
    case Secret =>
      if m < 9 {
        assert t[m] == t[..9][m];
      } else if m == 9 {
        assert t[10] == t[10..19][0];
      } else if m < 19 {
        assert t[m] == t[10..19][m - 10];
      } else if m + 1 < |t| - 2 {
        assert !IsBrace(t[m + 1]);
      }
  }

  /** Every position where `p` matches, in order, overlaps allowed: the
      reference the scanner is compared with. */
  function AllMatches(p: Pattern, s: string, i: nat): (r: seq<string>)
    requires i <= |s|
    decreases |s| - i
  {
    if i == |s| then [] else Here(p, s, i) + AllMatches(p, s, i + 1)
  }

  /** The match of `p` starting at `i`, as a list of at most one token. */
  function Here(p: Pattern, s: string, i: nat): seq<string>
    requires i <= |s|
  {
    match MatchAt(p, s, i) case Some(e) => [s[i..e]] case None => []
  }

  /** Go's FindAllString for pattern `p` from position `i`: the leftmost
      match, then the search resumes after it. */
  function Scan(p: Pattern, s: string, i: nat): (r: seq<string>)
    requires i <= |s|
    ensures forall t :: t in r ==> IsToken(p, t)
    decreases |s| - i
  {
    if i == |s| then []
    else match MatchAt(p, s, i)
      case Some(e) => [s[i..e]] + Scan(p, s, e)
      case None => Scan(p, s, i + 1)
  }

  lemma AllMatchesStep(p: Pattern, s: string, k: nat)
    requires k < |s| && Here(p, s, k) == []
    ensures AllMatches(p, s, k) == AllMatches(p, s, k + 1)
  {
  }

  lemma NoHeadNoMatch(p: Pattern, s: string, k: nat)
    requires k <= |s| && !OccursAt(s, "${", k)
    ensures Here(p, s, k) == []
  {
    HeadOpens(p, s, k);
  }

  /** No match starts strictly inside a token. */
  lemma NoMatchesInside(p: Pattern, s: string, i: nat, e: nat)
    requires i < e <= |s|
    requires IsToken(p, s[i..e])
    ensures forall j :: i < j < e ==> Here(p, s, j) == []
  {
    forall j | i < j < e ensures Here(p, s, j) == [] {
      NoOpenInside(p, s, i, e, j);
      NoHeadNoMatch(p, s, j);
    }
  }

  /** Positions without a match add nothing to AllMatches. */
  lemma {:induction false} NoMatchesBetween(p: Pattern, s: string, k: nat, e: nat)
    requires k <= e <= |s|
    requires forall j :: k <= j < e ==> Here(p, s, j) == []
    ensures AllMatches(p, s, k) == AllMatches(p, s, e)
    decreases e - k
  {
    if k < e {
      NoMatchesBetween(p, s, k + 1, e);
      AllMatchesStep(p, s, k);
    }
  }

  /** Jumping past each match loses nothing: the scan is exactly the list
      of matches at every position. */
  lemma {:induction false} ScanIsAllMatches(p: Pattern, s: string, i: nat)
    requires i <= |s|
    ensures Scan(p, s, i) == AllMatches(p, s, i)
    decreases |s| - i
  {
    if i < |s| {
      match MatchAt(p, s, i)
      case Some(e) =>
        ScanIsAllMatches(p, s, e);
        NoMatchesInside(p, s, i, e);
        NoMatchesBetween(p, s, i + 1, e);
      case None =>
        ScanIsAllMatches(p, s, i + 1);
    }
  }

  /** `t` occurs in `s` at or after `i`. */
  predicate OccursFrom(s: string, t: string, i: nat) {
    exists j :: i <= j <= |s| && OccursAt(s, t, j)
  }

  lemma OccursFromStep(s: string, t: string, i: nat)
    requires i < |s|
    ensures OccursFrom(s, t, i) <==> OccursAt(s, t, i) || OccursFrom(s, t, i + 1)
  {
    if OccursFrom(s, t, i) && !OccursAt(s, t, i) {
      var j :| i <= j <= |s| && OccursAt(s, t, j);
      assert i + 1 <= j;
    }
  }

  /** The match at `i` is the token of `p` that occurs at `i`, if any. */
  lemma HereMembers(p: Pattern, s: string, i: nat, t: string)
    requires i <= |s|
    ensures t in Here(p, s, i) <==> IsToken(p, t) && OccursAt(s, t, i)
  {
    if IsToken(p, t) && OccursAt(s, t, i) {
      MatchAtComplete(p, s, i, i + |t|);
    }
  }

  /** The matches from `i` are exactly the tokens occurring from `i`. */
  lemma {:induction false} AllMatchesMembers(p: Pattern, s: string, i: nat, t: string)
    requires i <= |s|
    ensures t in AllMatches(p, s, i) <==> IsToken(p, t) && OccursFrom(s, t, i)
    decreases |s| - i
  {
    if i == |s| {
      if OccursFrom(s, t, i) {
        var j :| i <= j <= |s| && OccursAt(s, t, j);
        assert t == [];
      }
    } else {
      AllMatchesMembers(p, s, i + 1, t);
      OccursFromStep(s, t, i);
      HereMembers(p, s, i, t);
    }
  }

  /** FindAllExpressions: every generic match, then every secret-call match.
      A token of both kinds is listed twice; nothing is de-duplicated here. */
  function FindAllExpressions(s: string): (r: seq<string>)
    ensures forall t :: t in r ==> |t| >= 4 && t[..2] == "${" && t[|t| - 1] == '}'
  {
    Scan(Generic, s, 0) + Scan(Secret, s, 0)
  }

  /** The extracted tokens are exactly the substrings of the input that match
      either pattern. */
  lemma FindAllExpressionsMembers(s: string, t: string)
    ensures t in FindAllExpressions(s) <==> (IsGenericToken(t) || IsSecretToken(t)) && Contains(s, t)
  {
    ScanIsAllMatches(Generic, s, 0);
    ScanIsAllMatches(Secret, s, 0);
    AllMatchesMembers(Generic, s, 0, t);
    AllMatchesMembers(Secret, s, 0, t);
  }

  /** A token of both kinds, such as a secret call whose argument uses only
      generic body characters, is listed once per pattern. */
  lemma BothKindsListedTwice(s: string, t: string)
    requires IsGenericToken(t) && IsSecretToken(t) && Contains(s, t)
    ensures multiset(FindAllExpressions(s))[t] >= 2
  {
    ScanIsAllMatches(Generic, s, 0);
    ScanIsAllMatches(Secret, s, 0);
    var j :| 0 <= j <= |s| && OccursAt(s, t, j);
    AllMatchesMembers(Generic, s, 0, t);
    AllMatchesMembers(Secret, s, 0, t);
    var g, c := Scan(Generic, s, 0), Scan(Secret, s, 0);
    assert t in g && t in c;
    assert multiset(g + c) == multiset(g) + multiset(c);
  }

  /** `${secrets.getValue(x)}` is such a token. */
  lemma SecretCallOfBothKinds()
    ensures IsGenericToken("${secrets.getValue(x)}") && IsSecretToken("${secrets.getValue(x)}")
  {
    var t := "${secrets.getValue(x)}";
    assert |t| == 22;
    assert t[..2] == "${" && t[..9] == "${secrets" && t[10..19] == "getValue(";
    assert forall j :: 2 <= j < 21 ==> IsBodyChar(t[j]) && !IsBrace(t[j]);
  }
}

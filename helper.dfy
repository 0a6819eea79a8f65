/**
  The string and lookup helpers of helper.go that the expression engine and
  the entity migration rely on: camel-casing of secret keys, splitting of
  comma-separated options, de-duplication, suffix and membership tests, the
  base-URL table and the ids-or-names rule.
 */
module Helper {
  import opened Wrappers
  import opened GoStrings

  // ---------------------------------------------------------------------
  // ToCamelCase
  // ---------------------------------------------------------------------

  /** The four separators that make the next letter upper case. */
  predicate IsSeparator(c: char) {
    c == '_' || c == ' ' || c == '-' || c == '.'
  }

  predicate IsAlnum(c: char) {
    IsAsciiLetter(c) || IsAsciiDigit(c)
  }

  /** The value of the `capNext` flag when the loop reaches position `i` of `t`:
      set exactly when the byte before is a digit or a separator. */
  predicate CapNextAt(t: string, i: nat)
    requires i <= |t|
  {
    i > 0 && (IsAsciiDigit(t[i - 1]) || IsSeparator(t[i - 1]))
  }

  /** What the loop writes for position `i` of the lower-cased input (after
      the leading underscore, if any). */
  function EmitAt(t: string, i: nat): string
    requires i < |t|
  {
    var v := t[i];
    var w := if CapNextAt(t, i) then UpperChar(v) else if i == 0 then LowerChar(v) else v;
    if IsAsciiLetter(v) then [w] else if IsAsciiDigit(v) then [v] else []
  }

  /** Everything written for the first `n` positions of `t`, underscore excluded. */
  function CamelBody(t: string, n: nat): string
    requires n <= |t|
  {
    if n == 0 then "" else CamelBody(t, n - 1) + EmitAt(t, n - 1)
  }

  /** The underscore written before a leading digit. */
  function Lead(t: string): string {
    if t != [] && IsAsciiDigit(t[0]) then "_" else ""
  }

  /** The lower-cased, trimmed input the camel-casing loop walks over. */
  function Folded(s: string): string {
    ToLower(TrimSpace(s))
  }

  /** The result of ToCamelCase(s). */
  function CamelCase(s: string): string {
    var t := Folded(s);
    Lead(t) + CamelBody(t, |t|)
  }

  /** The letters and digits among the first `n` positions of `t`, in order. */
  function AlnumOf(t: string, n: nat): (r: string)
    requires n <= |t|
    ensures |r| <= n
  {
    if n == 0 then ""
    else AlnumOf(t, n - 1) + (if IsAlnum(t[n - 1]) then [t[n - 1]] else [])
  }

  /** ToCamelCase: trim, lower-case, then walk the bytes with a `capNext` flag. */
  method ToCamelCase(s: string) returns (r: string)
    ensures r == CamelCase(s)
  {
    var t := ToLower(TrimSpace(s));
    if t == "" {
      return t;
    }
    r := CamelWalk(t);
  }

  /** The byte loop of ToCamelCase over the trimmed, lower-cased input. */
  method CamelWalk(t: string) returns (r: string)
    requires t != ""
    ensures r == Lead(t) + CamelBody(t, |t|)
  {
    r := "";
    var capNext := false;
    var i := 0;
    while i < |t|
      invariant 0 <= i <= |t|
      invariant capNext == CapNextAt(t, i)
      invariant i == 0 ==> r == ""
      invariant i > 0 ==> r == Lead(t) + CamelBody(t, i)
    {
      if IsAsciiDigit(t[i]) && i == 0 {
        r := r + "_";
      }
      var emit;
      emit, capNext := CamelTurn(t, i, capNext);
      CamelStep(t, i, r);
      r := r + emit;
      i := i + 1;
    }
  }

  /** The body of the loop for byte `i`, after the leading underscore: what
      it writes, and the new value of `capNext`. */
  method CamelTurn(t: string, i: nat, capNext: bool) returns (emit: string, next: bool)
    requires i < |t| && capNext == CapNextAt(t, i)
    ensures emit == EmitAt(t, i)
    ensures next == CapNextAt(t, i + 1)
  {
    var v := t[i];
    var vIsCap := IsAsciiUpper(v);
    var vIsLow := IsAsciiLower(v);
    var vIsNum := IsAsciiDigit(v);
    if capNext {
      if vIsLow {
        v := UpperChar(v);
      }
    } else if i == 0 {
      if vIsCap {
        v := LowerChar(v);
      }
    }
    if vIsCap || vIsLow {
      emit, next := [v], false;
    } else if vIsNum {
      emit, next := [v], true;
    } else {
      emit, next := [], v == '_' || v == ' ' || v == '-' || v == '.';
    }
  }

  /** One turn of the loop: what position `i` emits extends the output so far. */
  lemma CamelStep(t: string, i: nat, soFar: string)
    requires i < |t|
    requires i == 0 ==> soFar == Lead(t)
    requires i > 0 ==> soFar == Lead(t) + CamelBody(t, i)
    ensures soFar + EmitAt(t, i) == Lead(t) + CamelBody(t, i + 1)
  {
    assert CamelBody(t, i + 1) == CamelBody(t, i) + EmitAt(t, i);
  }

  /** Each position of the folded input contributes, once lower-cased, itself
      when it is a letter or a digit and nothing otherwise. */
  lemma CamelBodyFolds(t: string, n: nat)
    requires n <= |t|
    requires forall i :: 0 <= i < |t| ==> !IsAsciiUpper(t[i])
    ensures ToLower(CamelBody(t, n)) == AlnumOf(t, n)
    ensures forall j :: 0 <= j < |CamelBody(t, n)| ==> IsAlnum(CamelBody(t, n)[j])
  {
    CamelBodyLower(t, n);
    CamelBodyAlnum(t, n);
  }

  lemma {:induction false} CamelBodyLower(t: string, n: nat)
    requires n <= |t|
    requires forall i :: 0 <= i < |t| ==> !IsAsciiUpper(t[i])
    ensures ToLower(CamelBody(t, n)) == AlnumOf(t, n)
  {
    if n > 0 {
      CamelBodyLower(t, n - 1);
      EmitFolds(t, n - 1);
      LowerBodyStep(t, n);
      AlnumOfStep(t, n);
      if IsAlnum(t[n - 1]) {
        JoinEqual(ToLower(CamelBody(t, n)), ToLower(CamelBody(t, n - 1)), ToLower(EmitAt(t, n - 1)),
                  AlnumOf(t, n), AlnumOf(t, n - 1), [t[n - 1]]);
      } else {
        JoinEqual(ToLower(CamelBody(t, n)), ToLower(CamelBody(t, n - 1)), ToLower(EmitAt(t, n - 1)),
                  AlnumOf(t, n), AlnumOf(t, n - 1), []);
      }
    }
  }

  /** Equal halves make equal wholes. */
  lemma JoinEqual(x: string, x1: string, x2: string, y: string, y1: string, y2: string)
    requires x == x1 + x2 && y == y1 + y2
    requires x1 == y1 && x2 == y2
    ensures x == y
  {
  }

  /** The letters and digits of a prefix split at its last position. */
  lemma AlnumOfStep(t: string, n: nat)
    requires 0 < n <= |t|
    ensures IsAlnum(t[n - 1]) ==> AlnumOf(t, n) == AlnumOf(t, n - 1) + [t[n - 1]]
    ensures !IsAlnum(t[n - 1]) ==> AlnumOf(t, n) == AlnumOf(t, n - 1) + []
  {
  }

  /** Lower-casing the output so far splits at the last position. */
  lemma LowerBodyStep(t: string, n: nat)
    requires 0 < n <= |t|
    ensures ToLower(CamelBody(t, n)) == ToLower(CamelBody(t, n - 1)) + ToLower(EmitAt(t, n - 1))
  {
    ToLowerAppend(CamelBody(t, n - 1), EmitAt(t, n - 1));
  }

  lemma {:induction false} CamelBodyAlnum(t: string, n: nat)
    requires n <= |t|
    requires forall i :: 0 <= i < |t| ==> !IsAsciiUpper(t[i])
    ensures forall j :: 0 <= j < |CamelBody(t, n)| ==> IsAlnum(CamelBody(t, n)[j])
  {
    if n > 0 {
      var b, e := CamelBody(t, n - 1), EmitAt(t, n - 1);
      CamelBodyAlnum(t, n - 1);
      EmitFolds(t, n - 1);
      assert CamelBody(t, n) == b + e;
      forall j | 0 <= j < |b + e|
        ensures IsAlnum((b + e)[j])
      {
        if j >= |b| {
          assert (b + e)[j] == e[j - |b|];
        }
      }
    }
  }

  /** What one lower-case position emits, once lower-cased, is the position
      itself when it is a letter or a digit, and nothing otherwise. */
  lemma EmitFolds(t: string, i: nat)
    requires i < |t| && !IsAsciiUpper(t[i])
    ensures IsAlnum(t[i]) ==> ToLower(EmitAt(t, i)) == [t[i]]
    ensures !IsAlnum(t[i]) ==> ToLower(EmitAt(t, i)) == []
    ensures forall j :: 0 <= j < |EmitAt(t, i)| ==> IsAlnum(EmitAt(t, i)[j])
  {
  }

  /** CamelBody only grows: the first `n` positions' output is a prefix. */
  lemma {:induction false} CamelBodyPrefix(t: string, n: nat, m: nat)
    requires n <= m <= |t|
    ensures CamelBody(t, n) <= CamelBody(t, m)
    decreases m - n
  {
    if n < m {
      CamelBodyPrefix(t, n, m - 1);
    }
  }

  /** The output of ToCamelCase is at most one longer than the trimmed input. */
  lemma CamelCaseLength(s: string)
    ensures |CamelCase(s)| <= |TrimSpace(s)| + 1
  {
    var t := Folded(s);
    ToLowerChars(TrimSpace(s));
    CamelBodyFolds(t, |t|);
  }

  /** The output starts with `_` exactly when the trimmed input starts with a digit. */
  lemma CamelCaseUnderscore(s: string)
    ensures var u, r := TrimSpace(s), CamelCase(s);
            r != [] && r[0] == '_' <==> u != [] && IsAsciiDigit(u[0])
  {
    var t := Folded(s);
    ToLowerChars(TrimSpace(s));
    CamelBodyFolds(t, |t|);
    var r := CamelCase(s);
    if !(t != [] && IsAsciiDigit(t[0])) && r != [] {
      assert r == CamelBody(t, |t|);
      assert IsAlnum(r[0]);
    }
  }

  /** Apart from that underscore the output holds only letters and digits. */
  lemma CamelCaseAlnum(s: string)
    ensures var r := CamelCase(s);
            forall j :: 0 <= j < |r| ==> IsAlnum(r[j]) || (j == 0 && r[j] == '_')
  {
    var t := Folded(s);
    ToLowerChars(TrimSpace(s));
    CamelBodyFolds(t, |t|);
    var r := CamelCase(s);
    forall j | 0 <= j < |r| ensures IsAlnum(r[j]) || (j == 0 && r[j] == '_') {
      if j >= |Lead(t)| {
        assert r[j] == CamelBody(t, |t|)[j - |Lead(t)|];
      }
    }
  }

  /** After the underscore come the input's letters and digits in order,
      compared after lower-casing, and nothing else. */
  lemma CamelCaseLetters(s: string)
    ensures ToLower(CamelCase(s)[|Lead(Folded(s))|..]) == AlnumOf(Folded(s), |Folded(s)|)
  {
    var t := Folded(s);
    ToLowerChars(TrimSpace(s));
    CamelBodyFolds(t, |t|);
    assert CamelCase(s)[|Lead(t)|..] == CamelBody(t, |t|);
  }

  /** A camel-cased key holds no dot, so nothing after a dotted qualifier can
      be mistaken for it. */
  lemma CamelCaseHasNoDot(s: string)
    ensures forall j :: 0 <= j < |CamelCase(s)| ==> CamelCase(s)[j] != '.'
  {
    CamelCaseAlnum(s);
  }

  /** The case rule: the letter written for position `i` of the folded input
      (it lands after the underscore and after the letters and digits before
      it) is upper case exactly when the byte before `i` is a digit or one of
      `_`, space, `-`, `.`; otherwise it keeps the input's lower case. In
      particular the first letter of the output is never upper case. */
  lemma CamelCaseCapitals(s: string, i: nat)
    requires i < |Folded(s)| && IsAsciiLetter(Folded(s)[i])
    ensures var t, r := Folded(s), CamelCase(s);
            var p := |Lead(t)| + |AlnumOf(t, i)|;
            && p < |r| && LowerChar(r[p]) == t[i]
            && (IsAsciiUpper(r[p]) <==> CapNextAt(t, i))
  {
    ToLowerChars(TrimSpace(s));
    CapitalAt(Folded(s), i);
  }

  /** The case rule on the folded input itself. */
  lemma CapitalAt(t: string, i: nat)
    requires forall j :: 0 <= j < |t| ==> !IsAsciiUpper(t[j])
    requires i < |t| && IsAsciiLetter(t[i])
    ensures var r, p := Lead(t) + CamelBody(t, |t|), |Lead(t)| + |AlnumOf(t, i)|;
            && p < |r| && LowerChar(r[p]) == t[i]
            && (IsAsciiUpper(r[p]) <==> CapNextAt(t, i))
  {
    CamelBodyLower(t, i);
    EmitInBody(t, i);
    EmitLetter(t, i);
  }

  /** The letter at position `i` is written right after everything written
      for the positions before it. */
  lemma EmitInBody(t: string, i: nat)
    requires i < |t| && IsAsciiLetter(t[i])
    ensures |CamelBody(t, i)| < |CamelBody(t, |t|)|
    ensures CamelBody(t, |t|)[|CamelBody(t, i)|] == EmitAt(t, i)[0]
  {
    CamelBodyPrefix(t, i + 1, |t|);
    assert CamelBody(t, i + 1) == CamelBody(t, i) + EmitAt(t, i);
  }

  /** A lower-case letter is written upper case exactly when `capNext` is set. */
  lemma EmitLetter(t: string, i: nat)
    requires i < |t| && IsAsciiLetter(t[i]) && !IsAsciiUpper(t[i])
    ensures |EmitAt(t, i)| == 1 && LowerChar(EmitAt(t, i)[0]) == t[i]
    ensures IsAsciiUpper(EmitAt(t, i)[0]) <==> CapNextAt(t, i)
  {
  }

  /** Blank input gives an empty key. */
  lemma CamelCaseOfBlank(s: string)
    requires IsBlank(s)
    ensures CamelCase(s) == ""
  {
  }

  /** An input that is already trimmed and in lower case is walked as it is. */
  lemma {:induction false} FoldedOfFolded(s: string)
    requires s == [] || (!IsSpace(s[0]) && !IsSpace(s[|s| - 1]))
    requires forall i :: 0 <= i < |s| ==> !IsAsciiUpper(s[i])
    ensures Folded(s) == s
  {
    assert SpacesFrom(s, 0) == 0 && SpacesBefore(s, |s|) == 0;
    assert TrimSpace(s) == s;
    ToLowerChars(s);
    assert ToLower(s) == s;
  }

  /** Worked examples: a separator, a leading digit. */
  lemma CamelExampleWords()
    ensures CamelCase("a-b") == "aB"
  {
    FoldedOfFolded("a-b");
    WordsBody();
  }

  /** The body written for `a-b`: the `-` is dropped and raises the `b`. */
  lemma WordsBody()
    ensures CamelBody("a-b", 3) == "aB"
  {
    var t := "a-b";
    assert EmitAt(t, 0) == "a" && EmitAt(t, 1) == "";
    assert CapNextAt(t, 2) && EmitAt(t, 2) == "B";
    assert CamelBody(t, 1) == "a";
    assert CamelBody(t, 2) == "a";
    assert CamelBody(t, 3) == "a" + "B";
  }

  lemma CamelExampleDigit()
    ensures CamelCase("1a") == "_1A"
  {
    FoldedOfFolded("1a");
    DigitBody();
  }

  /** The body written for `1a`: the digit is kept and raises the `a`. */
  lemma DigitBody()
    ensures CamelBody("1a", 2) == "1A"
  {
    var t := "1a";
    assert EmitAt(t, 0) == "1";
    assert CapNextAt(t, 1) && EmitAt(t, 1) == "A";
    assert CamelBody(t, 1) == "1";
    assert CamelBody(t, 2) == "1" + "A";
  }

  // ---------------------------------------------------------------------
  // Split, Set, EndsWith, ContainsAny, getOrDefault
  // ---------------------------------------------------------------------

  /** The pieces Split returns: none for blank input, otherwise the trimmed
      pieces of strings.Split. */
  function SplitTrimmed(str: string, sep: string): seq<string> {
    if TrimSpace(str) == [] then [] else TrimEach(GoSplit(str, sep))
  }

  /** Each piece, trimmed. */
  function TrimEach(parts: seq<string>): (r: seq<string>)
    ensures |r| == |parts|
    ensures forall i :: 0 <= i < |parts| ==> r[i] == TrimSpace(parts[i])
  {
    seq(|parts|, i requires 0 <= i < |parts| => TrimSpace(parts[i]))
  }

  /** Split: strings.Split, then each piece is trimmed in place. */
  method Split(str: string, sep: string) returns (result: seq<string>)
    ensures result == SplitTrimmed(str, sep)
  {
    if |TrimSpace(str)| == 0 {
      return [];
    }
    result := TrimPieces(GoSplit(str, sep));
  }

  /** The loop of Split: each piece is replaced by its trimmed self. */
  method TrimPieces(parts: seq<string>) returns (result: seq<string>)
    ensures result == TrimEach(parts)
  {
    result := parts;
    var i := 0;
    while i < |result|
      invariant 0 <= i <= |result| == |parts|
      invariant forall k :: 0 <= k < i ==> result[k] == TrimSpace(parts[k])
      invariant forall k :: i <= k < |result| ==> result[k] == parts[k]
    {
      result := result[i := TrimSpace(result[i])];
      i := i + 1;
    }
  }

  /** Split on a non-empty separator gives nothing for blank input and
      otherwise one trimmed piece per separator-delimited segment: the
      untrimmed segments join back to the input and none contains the
      separator. */
  lemma SplitTrimmedPieces(str: string, sep: string)
    requires sep != []
    ensures IsBlank(str) <==> SplitTrimmed(str, sep) == []
    ensures !IsBlank(str) ==>
              var segs := SplitOn(str, sep);
              && |SplitTrimmed(str, sep)| == |segs| >= 1
              && Join(segs, sep) == str
              && forall i :: 0 <= i < |segs| ==>
                   && !Contains(segs[i], sep)
                   && SplitTrimmed(str, sep)[i] == TrimSpace(segs[i])
  {
    SplitJoin(str, sep);
  }

  predicate NoDuplicates<T(==)>(s: seq<T>) {
    forall i, j :: 0 <= i < j < |s| ==> s[i] != s[j]
  }

  /** Set: de-duplicate through a map; the order of the result is that of Go's
      map iteration, so any order is allowed. */
  method Set(str: seq<string>) returns (result: seq<string>)
    ensures NoDuplicates(result)
    ensures forall x :: x in result <==> x in str
  {
    var dict: set<string> := {};
    for i := 0 to |str|
      invariant forall x :: x in dict <==> x in str[..i]
    {
      dict := dict + {str[i]};
    }
    assert str[..|str|] == str;
    result := [];
    var rest := dict;
    while rest != {}
      invariant rest <= dict
      invariant NoDuplicates(result)
      invariant forall x :: x in result <==> x in dict && x !in rest
      decreases rest
    {
      var k :| k in rest;
      result := result + [k];
      rest := rest - {k};
    }
  }

  /** EndsWith: does `str` end with one of `suffixes`? */
  method EndsWith(str: string, suffixes: seq<string>) returns (b: bool)
    ensures b <==> exists k :: 0 <= k < |suffixes| && HasSuffix(str, suffixes[k])
  {
    for i := 0 to |suffixes|
      invariant forall k :: 0 <= k < i ==> !HasSuffix(str, suffixes[k])
    {
      if HasSuffix(str, suffixes[i]) {
        return true;
      }
    }
    return false;
  }

  /** ContainsAny: does some element of `values` occur in `source`? */
  method ContainsAny<E(==)>(source: seq<E>, values: seq<E>) returns (b: bool)
    ensures b <==> exists k :: 0 <= k < |values| && values[k] in source
  {
    for i := 0 to |values|
      invariant forall k :: 0 <= k < i ==> values[k] !in source
    {
      if values[i] in source {
        return true;
      }
    }
    return false;
  }

  /** getOrDefault: the value, unless it is empty. */
  function GetOrDefault(value: string, defaultValue: string): (r: string)
    ensures value == [] ==> r == defaultValue
    ensures value != [] ==> r == value
  {
    if |value| == 0 then defaultValue else value
  }

  // ---------------------------------------------------------------------
  // Endpoints and URLs
  // ---------------------------------------------------------------------

  /** GetEndpointFromType. `userGroups` is the value of the UserGroups entity
      type constant, which is declared in a file that is not part of this model. */
  function GetEndpointFromType(entityType: string, userGroups: string): (r: string)
    ensures entityType == userGroups ==> r == "usergroups"
    ensures entityType != userGroups ==> r == ToLower(entityType + "s")
  {
    if entityType == userGroups then "usergroups" else ToLower(entityType + "s")
  }

  /** Every endpoint ends in `s`. */
  lemma EndpointIsPlural(entityType: string, userGroups: string)
    ensures HasSuffix(GetEndpointFromType(entityType, userGroups), "s")
  {
    var r := GetEndpointFromType(entityType, userGroups);
    if entityType != userGroups {
      var u := entityType + "s";
      ToLowerChars(u);
      assert r[|r| - 1] == LowerChar(u[|u| - 1]);
    }
    assert r[|r| - 1..] == [r[|r| - 1]];
  }

  /** Every endpoint is in lower case. */
  lemma EndpointIsLower(entityType: string, userGroups: string)
    ensures var r := GetEndpointFromType(entityType, userGroups);
            forall i :: 0 <= i < |r| ==> !IsAsciiUpper(r[i])
  {
    ToLowerChars(entityType + "s");
  }

  const Prod := "Prod"
  const QA := "QA"
  const Dev := "Dev"
  const Prod3 := "Prod3"
  const SelfManaged := "SelfManaged"

  const MigratorService := "Migrator"
  const NextGenService := "NextGen"
  const TemplateService := "Template"
  const PipelineService := "Pipeline"

  /** The base URL of every service in every hosted environment. */
  const UrlMap: map<string, map<string, string>> := map[
    Prod := map[
      PipelineService := "https://app.harness.io/gateway/pipeline",
      TemplateService := "https://app.harness.io/gateway/template",
      MigratorService := "https://app.harness.io/gateway/ng-migration/api/ng-migration",
      NextGenService := "https://app.harness.io/gateway/ng"],
    QA := map[
      PipelineService := "https://qa.harness.io/gateway/pipeline",
      TemplateService := "https://qa.harness.io/gateway/template",
      MigratorService := "https://qa.harness.io/gateway/ng-migration/api/ng-migration",
      NextGenService := "https://qa.harness.io/gateway/ng"],
    Dev := map[
      PipelineService := "https://localhost:8181/pipeline",
      TemplateService := "https://localhost:8181/template",
      MigratorService := "https://localhost:9080/api/ng-migration",
      NextGenService := "https://localhost:8181/ng"],
    Prod3 := map[
      PipelineService := "https://app3.harness.io/gateway/pipeline",
      TemplateService := "https://app3.harness.io/gateway/template",
      MigratorService := "https://app3.harness.io/gateway/ng-migration/api/ng-migration",
      NextGenService := "https://app3.harness.io/gateway/ng"]
  ]

  /** Why GetBaseUrl stops the program (log.Fatalf and panic in the source). */
  datatype UrlError = InvalidEnvironment(environment: string) | UnknownService(service: string)

  /** GetBaseUrl. `baseUrl` is the configured base URL of a self-managed installation. */
  function GetBaseUrl(environment: string, service: string, baseUrl: string): (r: Result<string, UrlError>)
    ensures r.Ok? <==> IsKnownEnvironment(environment) && IsKnownService(service)
    ensures r.Err? ==> (r.error.UnknownService? <==> environment == SelfManaged)
  {
    var env := if environment == "Prod1" || environment == "Prod2" then Prod else environment;
    UrlMapKeys();
    HostedServices(env, service);
    if env != SelfManaged then
      var url := if env in UrlMap && service in UrlMap[env] then UrlMap[env][service] else "";
      if |url| == 0 then Err(InvalidEnvironment(env)) else Ok(url)
    else if service == PipelineService then Ok(baseUrl + "/pipeline")
    else if service == TemplateService then Ok(baseUrl + "/template")
    else if service == NextGenService then Ok(baseUrl + "/ng")
    else if service == MigratorService then Ok(baseUrl + "/ng-migration/api/ng-migration")
    else Err(UnknownService(service))
  }

  predicate IsKnownService(service: string) {
    service == PipelineService || service == TemplateService
    || service == NextGenService || service == MigratorService
  }

  predicate IsKnownEnvironment(environment: string) {
    environment == Prod || environment == "Prod1" || environment == "Prod2"
    || environment == QA || environment == Dev || environment == Prod3
    || environment == SelfManaged
  }

  /** The path a self-managed installation serves each service under. */
  function ServicePath(service: string): string
    requires IsKnownService(service)
  {
    if service == PipelineService then "/pipeline"
    else if service == TemplateService then "/template"
    else if service == NextGenService then "/ng"
    else "/ng-migration/api/ng-migration"
  }

  /** The hosted environments. */
  lemma UrlMapKeys()
    ensures UrlMap.Keys == {Prod, QA, Dev, Prod3}
  {
  }

  /** Every hosted environment serves exactly the known services, each under
      a non-empty URL. */
  lemma HostedServices(env: string, service: string)
    ensures env in UrlMap ==> (service in UrlMap[env] <==> IsKnownService(service))
    ensures env in UrlMap && service in UrlMap[env] ==> UrlMap[env][service] != ""
  {
    UrlMapKeys();
    if env in UrlMap {
      UrlMapTables(env);
      ServesKnown(UrlMap[env], service);
    }
  }

  /** A service table of UrlMap lists exactly the four services. */
  predicate ServiceTable(m: map<string, string>) {
    && m.Keys == {PipelineService, TemplateService, MigratorService, NextGenService}
    && m[PipelineService] != "" && m[TemplateService] != ""
    && m[MigratorService] != "" && m[NextGenService] != ""
  }

  /** Every environment of UrlMap has a full service table. */
  lemma UrlMapTables(env: string)
    requires env in UrlMap
    ensures ServiceTable(UrlMap[env])
  {
    UrlMapKeys();
    if env == Prod {
      ProdTable();
    } else if env == QA {
      QATable();
    } else if env == Dev {
      DevTable();
    } else {
      Prod3Table();
    }
  }

  lemma ProdTable() ensures ServiceTable(UrlMap[Prod]) {}
  lemma QATable() ensures ServiceTable(UrlMap[QA]) {}
  lemma DevTable() ensures ServiceTable(UrlMap[Dev]) {}
  lemma Prod3Table() ensures ServiceTable(UrlMap[Prod3]) {}

  /** A full service table serves exactly the known services, under non-empty URLs. */
  lemma ServesKnown(m: map<string, string>, service: string)
    requires ServiceTable(m)
    ensures service in m <==> IsKnownService(service)
    ensures service in m ==> m[service] != ""
  {
  }

  /** Prod1 and Prod2 are aliases of Prod. */
  lemma BaseUrlProdAliases(environment: string, service: string, baseUrl: string)
    requires environment == "Prod1" || environment == "Prod2"
    ensures GetBaseUrl(environment, service, baseUrl) == GetBaseUrl(Prod, service, baseUrl)
  {
  }

  /** A self-managed installation serves each known service under its path
      below the configured base URL; an unknown service is the panic. */
  lemma BaseUrlSelfManaged(service: string, baseUrl: string)
    ensures !IsKnownService(service) ==>
              GetBaseUrl(SelfManaged, service, baseUrl) == Err(UnknownService(service))
    ensures IsKnownService(service) ==>
              GetBaseUrl(SelfManaged, service, baseUrl) == Ok(baseUrl + ServicePath(service))
  {
  }

  /** GetUrl: the base URL, the path and the account identifier query. */
  function GetUrl(environment: string, service: string, path: string, accountId: string, baseUrl: string)
    : (r: Result<string, UrlError>)
    ensures GetBaseUrl(environment, service, baseUrl).Err? ==> r == GetBaseUrl(environment, service, baseUrl)
    ensures GetBaseUrl(environment, service, baseUrl).Ok? ==>
              r.Ok? && GetBaseUrl(environment, service, baseUrl).value <= r.value
              && HasSuffix(r.value, "/" + path + "?accountIdentifier=" + accountId)
              && |r.value| == |GetBaseUrl(environment, service, baseUrl).value|
                              + |"/" + path + "?accountIdentifier=" + accountId|
  {
    match GetBaseUrl(environment, service, baseUrl)
    case Err(e) => Err(e)
    case Ok(base) =>
      var tail := "/" + path + "?accountIdentifier=" + accountId;
      AppendEnds(base, tail);
      Ok(base + tail)
  }

  /** The query string built from `params` taking its keys in `order`. */
  function QueryString(params: map<string, string>, order: seq<string>): string
    requires forall k :: k in order ==> k in params
  {
    if order == [] then ""
    else QueryString(params, order[..|order| - 1])
         + order[|order| - 1] + "=" + params[order[|order| - 1]] + "&"
  }

  /** GetUrlWithQueryParams: every parameter as `key=value&`, in Go's map
      iteration order, which the ghost `order` records. */
  method GetUrlWithQueryParams(environment: string, service: string, endpoint: string,
                               queryParams: map<string, string>, baseUrl: string)
    returns (r: Result<string, UrlError>, ghost order: seq<string>)
    ensures NoDuplicates(order) && forall k :: k in order <==> k in queryParams
    ensures GetBaseUrl(environment, service, baseUrl).Err? ==> r == GetBaseUrl(environment, service, baseUrl)
    ensures GetBaseUrl(environment, service, baseUrl).Ok? ==>
              r == Ok(GetBaseUrl(environment, service, baseUrl).value + "/" + endpoint + "?"
                      + QueryString(queryParams, order))
  {
    var params := "";
    order := [];
    var rest := queryParams.Keys;
    while rest != {}
      invariant rest <= queryParams.Keys
      invariant NoDuplicates(order)
      invariant forall k :: k in order <==> k in queryParams && k !in rest
      invariant params == QueryString(queryParams, order)
      decreases rest
    {
      var k :| k in rest;
      params := params + k + "=" + queryParams[k] + "&";
      order := order + [k];
      rest := rest - {k};
    }
    match GetBaseUrl(environment, service, baseUrl)
    case Err(e) => r := Err(e);
    case Ok(base) => r := Ok(base + "/" + endpoint + "?" + params);
  }

  // ---------------------------------------------------------------------
  // GetEntityIds
  // ---------------------------------------------------------------------

  /** The ids of the names the map knows, in the names' order. */
  function KnownIds(names: seq<string>, nameToId: map<string, string>): seq<string>
  {
    if names == [] then []
    else
      var last := names[|names| - 1];
      KnownIds(names[..|names| - 1], nameToId) + (if last in nameToId then [nameToId[last]] else [])
  }

  /** GetEntityIds with the name-to-id map of the remote listing as a
      parameter: the given ids win; otherwise the names are looked up. */
  method GetEntityIds(idsString: string, namesString: string, nameToId: map<string, string>)
    returns (result: seq<string>)
    ensures SplitTrimmed(idsString, ",") != [] ==> result == SplitTrimmed(idsString, ",")
    ensures SplitTrimmed(idsString, ",") == [] ==>
              result == KnownIds(SplitTrimmed(namesString, ","), nameToId)
  {
    var ids := Split(idsString, ",");
    if |ids| > 0 {
      return ids;
    }
    var names := Split(namesString, ",");
    if |names| == 0 {
      return [];
    }
    result := LookupIds(names, nameToId);
  }

  /** The loop of GetEntityIds: the id of each known name, in order. */
  method LookupIds(names: seq<string>, nameToId: map<string, string>) returns (result: seq<string>)
    ensures result == KnownIds(names, nameToId)
  {
    result := [];
    for i := 0 to |names|
      invariant result == KnownIds(names[..i], nameToId)
    {
      assert names[..i + 1][..i] == names[..i];
      var item := names[i];
      if item !in nameToId {
        continue;
      }
      result := result + [nameToId[item]];
    }
    assert names[..|names|] == names;
  }

  /** The names rule keeps the order of the names, drops the unknown ones and
      translates each known one: an id is listed exactly when some known name
      maps to it, there are never more ids than names, and when every name is
      known the ids are the names' ids position by position. */
  lemma {:induction false} KnownIdsSpec(names: seq<string>, nameToId: map<string, string>)
    ensures |KnownIds(names, nameToId)| <= |names|
    ensures forall x :: x in KnownIds(names, nameToId) <==>
              exists n :: n in names && n in nameToId && nameToId[n] == x
    ensures (forall n :: n in names ==> n in nameToId) ==>
              |KnownIds(names, nameToId)| == |names|
              && forall i :: 0 <= i < |names| ==> KnownIds(names, nameToId)[i] == nameToId[names[i]]
  {
    if names != [] {
      var init := names[..|names| - 1];
      KnownIdsSpec(init, nameToId);
      assert names == init + [names[|names| - 1]];
    }
  }
}

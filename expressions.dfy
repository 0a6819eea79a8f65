/**
  The expression-translation engine of expressions.go: the static table of
  built-in translations, the registry of prefix resolvers, the choice of a
  resolver and the cutting of its argument, the scope qualification of
  secret keys, and the engine that merges overrides into its table, rewrites
  a text and reports the tokens it cannot translate.
 */
module Expressions {
  import opened Wrappers
  import opened GoStrings
  import opened Helper
  import opened Patterns

  /** The built-in translations, keyed by the text between `${` and `}`. */
  const BuiltinExpressions: map<string, string> := map[
    "infra.kubernetes.namespace" := "<+infra.namespace>",
    "infra.kubernetes.infraId" := "<+INFRA_KEY>",
    "infra.helm.releaseName" := "<+infra.releaseName>",
    "infra.name" := "<+infra.name>",
    "env.name" := "<+env.name>",
    "env.description" := "<+env.description>",
    "env.environmentType" := "<+env.type>",
    "env.uuid" := "<+env.identifier>",
    "service.name" := "<+service.name>",
    "service.Name" := "<+service.name>",
    "Service.name" := "<+service.name>",
    "service.tag" := "<+service.tags>",
    "service.uuid" := "<+service.identifier>",
    "service.description" := "<+service.description>",
    "artifact.metadata.image" := "<+artifact.image>",
    "artifact.metadata.tag" := "<+artifact.tag>",
    "artifact.source.dockerconfig" := "<+artifact.imagePullSecret>",
    "artifact.metadata.fileName" := "<+artifact.fileName>",
    "artifact.metadata.format" := "<+artifact.repositoryFormat>",
    "artifact.metadata.getSHA()" := "<+artifact.metadata.SHA>",
    "artifact.metadata.groupId" := "<+artifact.groupId>",
    "artifact.metadata.package" := "<+artifact.metadata.package>",
    "artifact.metadata.region" := "<+artifact.metadata.region>",
    "artifact.metadata.repository" := "<+artifact.repository>",
    "artifact.metadata.repositoryName" := "<+artifact.repositoryName>",
    "artifact.metadata.url" := "<+artifact.url>",
    "artifact.buildNo" := "<+artifact.tag>",
    "rollbackArtifact.metadata.image" := "<+rollbackArtifact.image>",
    "rollbackArtifact.metadata.tag" := "<+rollbackArtifact.tag>",
    "rollbackArtifact.source.dockerconfig" := "<+rollbackArtifact.imagePullSecret>",
    "rollbackArtifact.metadata.fileName" := "<+rollbackArtifact.fileName>",
    "rollbackArtifact.metadata.format" := "<+rollbackArtifact.repositoryFormat>",
    "rollbackArtifact.metadata.getSHA()" := "<+rollbackArtifact.metadata.SHA>",
    "rollbackArtifact.metadata.groupId" := "<+rollbackArtifact.groupId>",
    "rollbackArtifact.metadata.package" := "<+rollbackArtifact.metadata.package>",
    "rollbackArtifact.metadata.region" := "<+rollbackArtifact.metadata.region>",
    "rollbackArtifact.metadata.repository" := "<+rollbackArtifact.repository>",
    "rollbackArtifact.metadata.repositoryName" := "<+rollbackArtifact.repositoryName>",
    "rollbackArtifact.metadata.url" := "<+rollbackArtifact.url>",
    "rollbackArtifact.buildNo" := "<+rollbackArtifact.tag>",
    "app.name" := "<+project.name>",
    "app.description" := "<+project.description>",
    "httpResponseCode" := "<+httpResponseCode>",
    "httpResponseBody" := "<+httpResponseBody>",
    "httpMethod" := "<+httpMethod>",
    "httpUrl" := "<+httpUrl>"
  ]

  // ---------------------------------------------------------------------
  // The resolver registry
  // ---------------------------------------------------------------------

  /** The six distinct resolver bodies of the registry. */
  datatype Resolver =
    | StageVariable
    | PipelineVariable
    | ServiceVariable
    | EnvironmentVariable
    | SecretValue
    | ApplicationDefault

  /** The registry: the resolver behind each prefix. Go iterates over it in
      an unspecified order. */
  const Registry: map<string, Resolver> := map[
    "workflow.variables" := StageVariable,
    "pipeline.variables" := PipelineVariable,
    "serviceVariable" := ServiceVariable,
    "serviceVariables" := ServiceVariable,
    "service.variables" := ServiceVariable,
    "environmentVariable" := EnvironmentVariable,
    "environmentVariables" := EnvironmentVariable,
    "secrets.getValue(" := SecretValue,
    "app.defaults" := ApplicationDefault
  ]

  /** The two secret scopes that qualify a key; any other scope leaves it bare. */
  const Account := "Account"
  const Org := "Org"

  /** What getSecretKeyWithScope puts before the camel-cased key. */
  function ScopePrefix(scope: string): string {
    if scope == Account then Account + "."
    else if scope == Org then Org + "."
    else ""
  }

  /** getSecretKeyWithScope: the camel-cased key, qualified by the scope. */
  function SecretKeyWithScope(key: string, scope: string): (r: string)
    ensures |ScopePrefix(scope)| <= |r|
    ensures r[..|ScopePrefix(scope)|] == ScopePrefix(scope)
    ensures r[|ScopePrefix(scope)|..] == CamelCase(key)
  {
    ScopePrefix(scope) + CamelCase(key)
  }

  /** After the scope qualifier a secret key holds no dot. */
  lemma SecretKeyDotOnlyInQualifier(key: string, scope: string)
    ensures var r, n := SecretKeyWithScope(key, scope), |ScopePrefix(scope)|;
            forall j :: n <= j < |r| ==> r[j] != '.'
  {
    var r, c := SecretKeyWithScope(key, scope), CamelCase(key);
    var n := |ScopePrefix(scope)|;
    CamelCaseHasNoDot(key);
    forall j | n <= j < |r| ensures r[j] != '.' {
      assert r[j] == r[n..][j - n];
    }
  }

  /** The qualification can be read back: the key holds a `.` exactly when
      the scope is Account or Org, since a camel-cased key never does. */
  lemma SecretScopeRecoverable(key: string, scope: string)
    ensures Contains(SecretKeyWithScope(key, scope), ".") <==> scope == Account || scope == Org
  {
    var r, pre := SecretKeyWithScope(key, scope), ScopePrefix(scope);
    SecretKeyDotOnlyInQualifier(key, scope);
    if Contains(r, ".") {
      var j :| 0 <= j <= |r| && OccursAt(r, ".", j);
      assert r[j] == r[j..j + 1][0];
    }
    if pre != [] {
      assert r[|pre| - 1] == pre[|pre| - 1] == '.';
      assert OccursAt(r, ".", |pre| - 1) by { assert r[|pre| - 1..|pre|] == [r[|pre| - 1]]; }
    }
  }

  /** The resolver functions of the registry applied to their argument: the
      secret resolver wraps the scoped key in a `getValue` call, every other
      one puts the argument after its own head. */
  function Apply(r: Resolver, arg: string, scope: string): string {
    if r == SecretValue then "<+secrets.getValue(\"" + SecretKeyWithScope(arg, scope) + "\")>"
    else Head(r) + arg + ">"
  }

  /** What a resolver other than the secret one writes before the argument. */
  function Head(r: Resolver): string
    requires r != SecretValue
  {
    match r
    case StageVariable => "<+stage.variables.."
    case PipelineVariable => "<+pipeline.variables."
    case ServiceVariable => "<+serviceVariables."
    case EnvironmentVariable => "<+env.variables."
    case ApplicationDefault => "<+variable."
  }

  /** Every head opens a next-generation expression. */
  lemma ResolverHeadOpens(r: Resolver)
    requires r != SecretValue
    ensures "<+" <= Head(r)
  {
  }

  /** Every resolver gives a next-generation expression `<+...>` that ends
      with its argument (for secrets, with the scoped key and the call's
      closing `")`). */
  lemma ResolverOutputs(r: Resolver, arg: string, scope: string)
    ensures "<+" <= Apply(r, arg, scope) && HasSuffix(Apply(r, arg, scope), ">")
    ensures r != SecretValue ==> HasSuffix(Apply(r, arg, scope), arg + ">")
    ensures r == SecretValue ==>
              HasSuffix(Apply(r, arg, scope), SecretKeyWithScope(arg, scope) + "\")>")
  {
    if r == SecretValue {
      Framed("<+secrets.getValue(\"", SecretKeyWithScope(arg, scope), "\")>");
    } else {
      ResolverHeadOpens(r);
      Framed(Head(r), arg, ">");
    }
  }

  /** An expression opened by `head` and closed by `tail` around `body`. */
  lemma Framed(head: string, body: string, tail: string)
    requires "<+" <= head && tail != [] && tail[|tail| - 1] == '>'
    ensures "<+" <= head + body + tail
    ensures HasSuffix(head + body + tail, body + tail)
    ensures HasSuffix(head + body + tail, ">")
  {
    var v := head + body + tail;
    assert v[|head|..] == body + tail;
    assert v[|v| - 1..] == [tail[|tail| - 1]];
  }

  /** Some registered prefix starts `key`. */
  predicate HasDynamicPrefix(key: string) {
    exists p :: p in Registry && p <= key
  }

  /** The argument getDynamicExpressionValue cuts out of `key` for `prefix`:
      after a call prefix (one ending in `(`) the first occurrence of the
      prefix is removed and then at most one trailing `)`; after any other
      prefix the first occurrence of the prefix and a dot is removed. */
  function DynamicArgument(prefix: string, key: string): (d: string)
    ensures |d| <= |key|
    ensures !HasSuffix(prefix, "(") && !Contains(key, prefix + ".") ==> d == key
  {
    if HasSuffix(prefix, "(") then
      var d := ReplaceFirst(key, prefix, "");
      if HasSuffix(d, ")") then d[..|d| - 1] else d
    else
      ReplaceFirst(key, prefix + ".", "")
  }

  /** After a dotted prefix the argument is the rest of the key. */
  lemma DottedArgument(prefix: string, rest: string)
    requires !HasSuffix(prefix, "(")
    ensures DynamicArgument(prefix, prefix + "." + rest) == rest
  {
    var key := prefix + "." + rest;
    assert OccursAt(key, prefix + ".", 0);
    assert Index(key, prefix + ".") == 0;
  }

  /** After a call prefix the argument is the rest of the key without one
      closing parenthesis, if it has one. */
  lemma CallArgument(prefix: string, rest: string)
    requires HasSuffix(prefix, "(")
    ensures DynamicArgument(prefix, prefix + rest)
            == if HasSuffix(rest, ")") then rest[..|rest| - 1] else rest
  {
    var key := prefix + rest;
    assert OccursAt(key, prefix, 0);
    assert Index(key, prefix) == 0;
    assert ReplaceFirst(key, prefix, "") == rest;
  }

  /** The value the resolver registered under `prefix` gives for `key`. */
  function DynamicValue(prefix: string, key: string, scope: string): string
    requires prefix in Registry
  {
    Apply(Registry[prefix], DynamicArgument(prefix, key), scope)
  }

  /** Every value getDynamicExpressionValue may return for `key`, one per
      registered prefix that starts it. */
  function AdmissibleValues(key: string, scope: string): (r: set<string>)
    ensures r != {} <==> HasDynamicPrefix(key)
  {
    var r := set p | p in Registry && p <= key :: DynamicValue(p, key, scope);
    assert HasDynamicPrefix(key) ==> r != {} by {
      if HasDynamicPrefix(key) {
        var p :| p in Registry && p <= key;
        assert DynamicValue(p, key, scope) in r;
      }
    }
    r
  }

  /** getDynamicExpressionKey: a registered prefix of `key`, or "" when there
      is none. Go's map iteration order decides which prefix is met first, so
      any matching prefix may be returned. */
  method DynamicExpressionKey(key: string) returns (k: string)
    ensures k == "" <==> !HasDynamicPrefix(key)
    ensures k != "" ==> k in Registry && k <= key
  {
    var rest := Registry.Keys;
    ghost var seen: set<string> := {};
    while rest != {}
      invariant seen + rest == Registry.Keys
      invariant forall p :: p in seen ==> !(p <= key)
      decreases |rest|
    {
      var p :| p in rest;
      if p <= key {
        RegistryPrefixesNonEmpty(p);
        return p;
      }
      rest := rest - {p};
      seen := seen + {p};
    }
    return "";
  }

  /** The nine registered prefixes. */
  lemma RegistryKeys()
    ensures Registry.Keys == {
              "workflow.variables", "pipeline.variables", "serviceVariable", "serviceVariables",
              "service.variables", "environmentVariable", "environmentVariables",
              "secrets.getValue(", "app.defaults"}
  {
  }

  lemma OnlyPipelinePrefixStartsWithP(p: string)
    requires p in Registry && p != [] && p[0] == 'p'
    ensures p == "pipeline.variables"
  {
    RegistryKeys();
  }

  lemma RegistryPrefixesNonEmpty(p: string)
    requires p in Registry
    ensures p != ""
  {
  }

  /** getDynamicExpressionValue: the resolver of a matching prefix applied to
      the argument cut out for that prefix. */
  method DynamicExpressionValue(key: string, scope: string) returns (v: string)
    requires HasDynamicPrefix(key)
    ensures v in AdmissibleValues(key, scope)
  {
    var k := DynamicExpressionKey(key);
    var dynamic := DynamicArgument(k, key);
    v := Apply(Registry[k], dynamic, scope);
    assert v == DynamicValue(k, key, scope);
  }

  /** `pipeline.variables.foo` becomes `<+pipeline.variables.foo>`: the
      registry has no other prefix of such a key. */
  lemma PipelineVariablesResolve(name: string, scope: string)
    ensures AdmissibleValues("pipeline.variables." + name, scope)
            == {"<+pipeline.variables." + name + ">"}
  {
    var key := "pipeline.variables." + name;
    var q := "pipeline.variables";
    var v := "<+pipeline.variables." + name + ">";
    DottedArgument(q, name);
    assert q + "." + name == key;
    assert q <= key;
    assert DynamicValue(q, key, scope) == v;
    assert v in AdmissibleValues(key, scope);
    forall x | x in AdmissibleValues(key, scope) ensures x == v {
      var p :| p in Registry && p <= key && x == DynamicValue(p, key, scope);
      RegistryPrefixesNonEmpty(p);
      assert p[0] == key[0] == 'p';
      OnlyPipelinePrefixStartsWithP(p);
    }
  }

  /** A secret call resolves to the scope-qualified, camel-cased argument. */
  lemma SecretCallResolves(arg: string, scope: string)
    ensures var call := "secrets.getValue(";
            DynamicValue(call, call + arg + ")", scope)
            == "<+secrets.getValue(\"" + SecretKeyWithScope(arg, scope) + "\")>"
  {
    var call := "secrets.getValue(";
    var rest := arg + ")";
    CallArgument(call, rest);
    assert call + rest == call + arg + ")";
    assert rest[..|rest| - 1] == arg;
  }

  // ---------------------------------------------------------------------
  // Overlapping prefixes
  // ---------------------------------------------------------------------

  /** As written, the winner between `serviceVariable` and `serviceVariables`
      depends on map iteration order, and the two give different values for
      `serviceVariables.foo`: the shorter prefix finds no `serviceVariable.`
      to cut, so the whole key becomes the argument. */
  lemma OverlappingPrefixesDiverge(scope: string)
    ensures "<+serviceVariables.foo>" in AdmissibleValues("serviceVariables.foo", scope)
    ensures var key := "serviceVariables.foo";
            "<+serviceVariables." + key + ">" in AdmissibleValues(key, scope)
  {
    var key := "serviceVariables.foo";
    ServiceVariablesValue(scope);
    ServiceVariableValue(scope);
    ServicePrefixesStart();
    Admissible("serviceVariables", key, scope);
    Admissible("serviceVariable", key, scope);
  }

  /** Both service-variable prefixes are registered and start the example key. */
  lemma ServicePrefixesStart()
    ensures "serviceVariables" in Registry && "serviceVariable" in Registry
    ensures "serviceVariables" <= "serviceVariables.foo"
    ensures "serviceVariable" <= "serviceVariables.foo"
  {
  }

  /** The value of any registered prefix that starts the key is admissible. */
  lemma Admissible(p: string, key: string, scope: string)
    requires p in Registry && p <= key
    ensures DynamicValue(p, key, scope) in AdmissibleValues(key, scope)
  {
  }

  /** The longer prefix cuts `serviceVariables.` off. */
  lemma ServiceVariablesValue(scope: string)
    ensures DynamicValue("serviceVariables", "serviceVariables.foo", scope) == "<+serviceVariables.foo>"
  {
    DottedArgument("serviceVariables", "foo");
    assert "serviceVariables" + "." + "foo" == "serviceVariables.foo";
    assert Registry["serviceVariables"] == ServiceVariable;
    assert Head(ServiceVariable) == "<+serviceVariables.";
    assert Apply(ServiceVariable, "foo", scope) == "<+serviceVariables." + "foo" + ">";
  }

  /** The shorter prefix finds no `serviceVariable.` and cuts nothing. */
  lemma ServiceVariableValue(scope: string)
    ensures var key := "serviceVariables.foo";
            DynamicValue("serviceVariable", key, scope) == "<+serviceVariables." + key + ">"
  {
    var key, pat := "serviceVariables.foo", "serviceVariable.";
    NoServiceVariableDot();
    assert !HasSuffix("serviceVariable", "(");
    assert "serviceVariable" + "." == pat;
    assert DynamicArgument("serviceVariable", key) == key;
    assert Registry["serviceVariable"] == ServiceVariable;
  }

  lemma NoServiceVariableDot()
    ensures !Contains("serviceVariables.foo", "serviceVariable.")
  {
    var key, pat := "serviceVariables.foo", "serviceVariable.";
    forall j | 0 <= j <= |key| ensures !OccursAt(key, pat, j) {
      if j + |pat| > |key| {
      } else if j == 0 {
        assert key[..16][15] != pat[15];
      } else {
        assert key[j..j + |pat|][0] != pat[0];
      }
    }
  }

  /** The registered prefixes in the order the registry lists them. */
  const RegistryOrder: seq<string> := [
    "workflow.variables", "pipeline.variables", "serviceVariable", "serviceVariables",
    "service.variables", "environmentVariable", "environmentVariables",
    "secrets.getValue(", "app.defaults"]

  /** The longest element of `ps` that starts `key`, or "" if none does. */
  function LongestPrefixIn(ps: seq<string>, key: string): (r: string)
    ensures r == "" || (r in ps && r <= key)
    ensures forall q :: q in ps && q <= key ==> |q| <= |r|
  {
    if ps == [] then ""
    else
      var rest := LongestPrefixIn(ps[1..], key);
      if ps[0] <= key && |ps[0]| > |rest| then ps[0] else rest
  }

  /** The corrected choice: the longest registered prefix of the key. Two
      prefixes of one key with the same length are equal, so the choice no
      longer depends on iteration order. */
  function LongestDynamicPrefix(key: string): (p: string)
    requires HasDynamicPrefix(key)
    ensures p in Registry && p <= key
    ensures forall q :: q in Registry && q <= key ==> |q| <= |p|
    ensures forall q :: q in Registry && q <= key && |q| == |p| ==> q == p
  {
    RegistryOrderLists();
    var r := LongestPrefixIn(RegistryOrder, key);
    var q :| q in Registry && q <= key;
    RegistryPrefixesNonEmpty(q);
    assert forall q :: q in Registry && q <= key && |q| == |r| ==> q == r by {
      forall q | q in Registry && q <= key && |q| == |r| ensures q == r {
        SameLengthPrefixes(q, r, key);
      }
    }
    r
  }

  lemma RegistryOrderLists()
    ensures forall q :: q in Registry <==> q in RegistryOrder
  {
    RegistryKeys();
  }

  /** Two prefixes of one string with the same length are the same. */
  lemma SameLengthPrefixes(p: string, q: string, key: string)
    requires p <= key && q <= key && |p| == |q|
    ensures p == q
  {
    assert p == key[..|p|] && q == key[..|q|];
  }

  /** The value of the corrected choice, one of the values Go may produce. */
  function CorrectedDynamicValue(key: string, scope: string): (v: string)
    requires HasDynamicPrefix(key)
    ensures v in AdmissibleValues(key, scope)
  {
    DynamicValue(LongestDynamicPrefix(key), key, scope)
  }

  /** Corrected, `serviceVariables.foo` always becomes `<+serviceVariables.foo>`. */
  lemma CorrectedServiceVariables(scope: string)
    ensures HasDynamicPrefix("serviceVariables.foo")
    ensures CorrectedDynamicValue("serviceVariables.foo", scope) == "<+serviceVariables.foo>"
  {
    LongestServicePrefix();
    ServiceVariablesValue(scope);
  }

  /** The longest registered prefix of `serviceVariables.foo` is `serviceVariables`. */
  lemma LongestServicePrefix()
    ensures HasDynamicPrefix("serviceVariables.foo")
    ensures LongestDynamicPrefix("serviceVariables.foo") == "serviceVariables"
  {
    var key := "serviceVariables.foo";
    ServicePrefixesStart();
    var p := LongestDynamicPrefix(key);
    NoLongerServicePrefix(p);
    SameLengthPrefixes(p, "serviceVariables", key);
  }

  /** No registered prefix of `serviceVariables.foo` is longer than
      `serviceVariables`: none has the `.` at index 16. */
  lemma NoLongerServicePrefix(p: string)
    requires p in Registry && p <= "serviceVariables.foo"
    ensures |p| <= 16
  {
    if |p| > 16 {
      PrefixChar(p, "serviceVariables.foo", 16);
      RegistryKeys();
    }
  }

  /** A prefix agrees with the string at each of its positions. */
  lemma PrefixChar(p: string, s: string, k: nat)
    requires p <= s && k < |p|
    ensures p[k] == s[k]
  {
  }

  /** The corrected choice never takes a registered prefix that a longer
      registered prefix of the key extends: `serviceVariables.foo` is cut
      after `serviceVariables`, `environmentVariables.x` after
      `environmentVariables`. */
  lemma CorrectedSkipsShorterPrefix(key: string, short: string, long: string)
    requires short in Registry && long in Registry
    requires short <= long && long <= key && short != long
    ensures HasDynamicPrefix(key)
    ensures LongestDynamicPrefix(key) != short
  {
  }

  // ---------------------------------------------------------------------
  // The engine
  // ---------------------------------------------------------------------

  /** The lookup key of a token: the text between `${` and `}`. Go slices
      `exp[2 : len(exp)-1]`, which panics on fewer than three bytes. */
  function Key(exp: string): (k: string)
    requires |exp| >= 3
    ensures |k| == |exp| - 3
    ensures exp[..2] + k + [exp[|exp| - 1]] == exp
  {
    exp[2..|exp| - 1]
  }

  predicate AllSliceable(exps: seq<string>) {
    forall i :: 0 <= i < |exps| ==> |exps[i]| >= 3
  }

  /** A key the table or a resolver can translate. */
  predicate Resolvable(table: map<string, string>, key: string) {
    key in table || HasDynamicPrefix(key)
  }

  /** The tokens neither the table nor a resolver can translate, in order. */
  function Unresolved(table: map<string, string>, exps: seq<string>): seq<string>
    requires AllSliceable(exps)
  {
    if exps == [] then []
    else
      var n := |exps| - 1;
      Unresolved(table, exps[..n]) + (if Resolvable(table, Key(exps[n])) then [] else [exps[n]])
  }

  /** Static precedence: a key in the table gets the table's value and no
      resolver is asked; otherwise a matching resolver's value. */
  predicate ReplacementFor(table: map<string, string>, scope: string, key: string, v: string) {
    if key in table then v == table[key]
    else HasDynamicPrefix(key) ==> v in AdmissibleValues(key, scope)
  }

  /** The text after replacing, in turn, every occurrence of each resolvable
      token by the value chosen for it. */
  function Rewritten(table: map<string, string>, str: string, exps: seq<string>, values: seq<string>): string
    requires AllSliceable(exps) && |values| == |exps|
  {
    if exps == [] then str
    else
      var n := |exps| - 1;
      var s := Rewritten(table, str, exps[..n], values[..n]);
      if Resolvable(table, Key(exps[n])) then ReplaceAll(s, exps[n], values[n]) else s
  }

  lemma UnresolvedStep(table: map<string, string>, exps: seq<string>, i: nat)
    requires AllSliceable(exps) && i < |exps|
    ensures Unresolved(table, exps[..i + 1])
         == Unresolved(table, exps[..i]) + (if Resolvable(table, Key(exps[i])) then [] else [exps[i]])
  {
    assert exps[..i + 1][..i] == exps[..i];
  }

  lemma RewrittenStep(table: map<string, string>, str: string, exps: seq<string>,
                      values: seq<string>, i: nat, v: string)
    requires AllSliceable(exps) && i < |exps| && |values| == i
    ensures var s := Rewritten(table, str, exps[..i], values);
            Rewritten(table, str, exps[..i + 1], values + [v])
            == if Resolvable(table, Key(exps[i])) then ReplaceAll(s, exps[i], v) else s
  {
    assert exps[..i + 1][..i] == exps[..i];
    assert (values + [v])[..i] == values;
  }

  lemma ReplacementsExtend(table: map<string, string>, scope: string, exps: seq<string>,
                           values: seq<string>, v: string)
    requires AllSliceable(exps) && |values| < |exps|
    requires forall j :: 0 <= j < |values| ==> ReplacementFor(table, scope, Key(exps[j]), values[j])
    requires ReplacementFor(table, scope, Key(exps[|values|]), v)
    ensures forall j :: 0 <= j <= |values| ==> ReplacementFor(table, scope, Key(exps[j]), (values + [v])[j])
  {
  }

  /** The entries of `m` whose keys are in `keys`. */
  function Restrict(m: map<string, string>, keys: set<string>): (r: map<string, string>)
    ensures r.Keys == m.Keys * keys
    ensures forall k :: k in r ==> r[k] == m[k]
  {
    map k | k in m && k in keys :: m[k]
  }

  lemma RestrictGrows(base: map<string, string>, m: map<string, string>, keys: set<string>, k: string)
    requires k in m
    ensures (base + Restrict(m, keys))[k := m[k]] == base + Restrict(m, keys + {k})
  {
  }

  lemma RestrictAll(m: map<string, string>, keys: set<string>)
    requires m.Keys <= keys
    ensures Restrict(m, keys) == m
  {
  }

  /** The `for k, v := range data { m[k] = v }` loop: `base` updated with
      every entry of `data`, whatever order the keys are visited in. */
  method Merge(base: map<string, string>, data: map<string, string>) returns (merged: map<string, string>)
    ensures merged == base + data
  {
    var rest := data.Keys;
    merged := base;
    while rest != {}
      invariant rest <= data.Keys
      invariant merged == base + Restrict(data, data.Keys - rest)
      decreases |rest|
    {
      var k :| k in rest;
      RestrictGrows(base, data, data.Keys - rest, k);
      assert data.Keys - (rest - {k}) == (data.Keys - rest) + {k};
      merged := merged[k := data[k]];
      rest := rest - {k};
    }
    RestrictAll(data, data.Keys - rest);
  }

  /** Merging overrides: the keys are the union, a loaded key takes the loaded
      value and every other key keeps its value. */
  lemma OverridesMerge(table: map<string, string>, data: map<string, string>)
    ensures (table + data).Keys == table.Keys + data.Keys
    ensures forall k :: k in data ==> (table + data)[k] == data[k]
    ensures forall k :: k in table && k !in data ==> (table + data)[k] == table[k]
  {
  }

  /** A row of the "Equivalent Expressions" table. */
  datatype SupportRow = SupportRow(expression: string, supported: bool, value: string)

  class ExpressionEngine {
    /** ExpressionsMap: the built-in translations plus loaded overrides. */
    var table: map<string, string>
    /** The configured secret scope. */
    const secretScope: string

    constructor(secretScope: string)
      ensures table == BuiltinExpressions && this.secretScope == secretScope
    {
      table := BuiltinExpressions;
      this.secretScope := secretScope;
    }

    /** The merge loop of loadYamlFromFile, given the decoded file: a blank
        path loads nothing; otherwise the loaded entries are merged into the
        table, loaded values winning (see OverridesMerge). */
    method LoadOverrides(filePath: string, data: map<string, string>)
      modifies this
      ensures IsBlank(filePath) ==> table == old(table)
      ensures !IsBlank(filePath) ==> table == old(table) + data
    {
      var path := TrimSpace(filePath);
      if |path| == 0 {
        return;
      }
      table := Merge(table, data);
    }

    /** The lookup both loops make for a key: the table first, then a
        resolver whose prefix starts the key; `resolved` is false, with an
        empty value, when neither applies. */
    method Translate(key: string) returns (v: string, resolved: bool)
      ensures resolved <==> Resolvable(table, key)
      ensures ReplacementFor(table, secretScope, key, v)
      ensures !resolved ==> v == ""
    {
      v, resolved := "", true;
      if key in table {
        v := table[key];
      } else {
        var k := DynamicExpressionKey(key);
        if |k| > 0 {
          v := DynamicExpressionValue(key, secretScope);
        } else {
          resolved := false;
        }
      }
    }

    /** ReplaceAllExpressions: rewrite `str` token by token and collect, in
        order, the tokens nothing can translate. `values` records the value
        used for each token. */
    method ReplaceAllExpressions(str: string, expressions: seq<string>)
      returns (out: string, notReplaced: seq<string>, ghost values: seq<string>)
      requires AllSliceable(expressions)
      ensures notReplaced == Unresolved(table, expressions)
      ensures |values| == |expressions|
      ensures forall i :: 0 <= i < |expressions| ==>
                ReplacementFor(table, secretScope, Key(expressions[i]), values[i])
      ensures out == Rewritten(table, str, expressions, values)
    {
      out, notReplaced, values := str, [], [];
      var i := 0;
      while i < |expressions|
        invariant 0 <= i <= |expressions| && |values| == i
        invariant notReplaced == Unresolved(table, expressions[..i])
        invariant forall j :: 0 <= j < i ==>
                    ReplacementFor(table, secretScope, Key(expressions[j]), values[j])
        invariant out == Rewritten(table, str, expressions[..i], values)
      {
        var exp := expressions[i];
        var v, resolved := Translate(exp[2..|exp| - 1]);
        ReplacementsExtend(table, secretScope, expressions, values, v);
        UnresolvedStep(table, expressions, i);
        RewrittenStep(table, str, expressions, values, i, v);
        if resolved {
          out := ReplaceAll(out, exp, v);
        } else {
          notReplaced := notReplaced + [exp];
        }
        values := values + [v];
        i := i + 1;
      }
      assert expressions[..i] == expressions;
    }

    /** The "Supported?" column of renderSupportedExpressionsTable: `Yes`
        exactly when the table or a resolver can translate the token, with
        the value it would be replaced by; an unsupported token shows an
        empty value. */
    method SupportRows(data: seq<string>) returns (rows: seq<SupportRow>)
      requires AllSliceable(data)
      ensures |rows| == |data|
      ensures forall i :: 0 <= i < |data| ==> rows[i].expression == data[i]
      ensures forall i :: 0 <= i < |data| ==>
                (rows[i].supported <==> Resolvable(table, Key(data[i])))
      ensures forall i :: 0 <= i < |data| ==>
                ReplacementFor(table, secretScope, Key(data[i]), rows[i].value)
      ensures forall i :: 0 <= i < |data| && !rows[i].supported ==> rows[i].value == ""
    {
      rows := [];
      for i := 0 to |data|
        invariant |rows| == i
        invariant forall j :: 0 <= j < i ==> rows[j].expression == data[j]
        invariant forall j :: 0 <= j < i ==>
                    (rows[j].supported <==> Resolvable(table, Key(data[j])))
        invariant forall j :: 0 <= j < i ==>
                    ReplacementFor(table, secretScope, Key(data[j]), rows[j].value)
        invariant forall j :: 0 <= j < i && !rows[j].supported ==> rows[j].value == ""
      {
        var exp := data[i];
        var val, check := Translate(exp[2..|exp| - 1]);
        rows := rows + [SupportRow(exp, check, val)];
      }
    }

    /** One file of ReplaceCurrentGenExpressionsWithNextGen: the distinct
        tokens of the content, then the rewrite. A content without tokens is
        left as it is. */
    method RewriteContent(content: string)
      returns (found: seq<string>, out: string, notReplaced: seq<string>, ghost values: seq<string>)
      ensures forall t :: t in found <==> t in FindAllExpressions(content)
      ensures NoDuplicates(found) && AllSliceable(found)
      ensures found == [] ==> out == content && notReplaced == []
      ensures forall t :: t in notReplaced <==> t in found && !Resolvable(table, Key(t))
      ensures |values| == |found|
      ensures forall i :: 0 <= i < |found| ==>
                ReplacementFor(table, secretScope, Key(found[i]), values[i])
      ensures out == Rewritten(table, content, found, values)
    {
      found := DistinctExpressions(content);
      if |found| == 0 {
        return found, content, [], [];
      }
      out, notReplaced, values := ReplaceAllExpressions(content, found);
      UnresolvedMembers(table, found);
    }
  }

  /** The tokens of one file, each listed once (Set of FindAllExpressions). */
  method DistinctExpressions(content: string) returns (found: seq<string>)
    ensures forall t :: t in found <==> t in FindAllExpressions(content)
    ensures NoDuplicates(found) && AllSliceable(found)
  {
    found := Set(FindAllExpressions(content));
  }

  /** A token is reported as not replaced exactly when it is listed and
      nothing translates it. */
  lemma {:induction false} UnresolvedMembers(table: map<string, string>, exps: seq<string>)
    requires AllSliceable(exps)
    ensures forall t :: t in Unresolved(table, exps) <==> t in exps && !Resolvable(table, Key(t))
  {
    if exps != [] {
      var n := |exps| - 1;
      UnresolvedMembers(table, exps[..n]);
      assert exps == exps[..n] + [exps[n]];
    }
  }

  /** Replacing leaves the text as it was when every token that would be
      replaced is replaced by itself, in particular when nothing resolves. */
  lemma {:induction false} RewrittenUnchanged(table: map<string, string>, str: string,
                                              exps: seq<string>, values: seq<string>)
    requires AllSliceable(exps) && |values| == |exps|
    requires forall i :: 0 <= i < |exps| && Resolvable(table, Key(exps[i])) ==> values[i] == exps[i]
    ensures Rewritten(table, str, exps, values) == str
  {
    if exps != [] {
      var n := |exps| - 1;
      RewrittenUnchanged(table, str, exps[..n], values[..n]);
      if Resolvable(table, Key(exps[n])) {
        ReplaceAllUnchanged(str, exps[n], values[n]);
      }
    }
  }

  /** A loaded override decides its key: once merged, the key is replaced by
      the loaded value, whatever the built-in table or a resolver would give. */
  lemma OverrideDecides(table: map<string, string>, data: map<string, string>,
                        scope: string, key: string, v: string)
    requires key in data
    ensures Resolvable(table + data, key)
    ensures ReplacementFor(table + data, scope, key, v) <==> v == data[key]
  {
  }

  // ---------------------------------------------------------------------
  // A second run over a rewritten file
  // ---------------------------------------------------------------------

  /** The pieces of the example: a secret call whose argument holds the
      placeholder `${pipeline.variables.x}`. */
  const CallHead := "secrets.getValue("
  const Opening := "${" + CallHead + "q"
  const Closing := ")}"
  const InnerKey := "pipeline.variables." + "x"
  const InnerToken := "${" + InnerKey + "}"
  const InnerValue := "<+pipeline.variables." + "x" + ">"

  /** No pattern matches the call as a whole, since `$` and `{` stop both
      runs; only the placeholder is a token. */
  const CallAround := Opening + InnerToken + Closing
  /** The same text once the placeholder is replaced: now a secret call. */
  const AfterOneRun := Opening + InnerValue + Closing

  /** What one run of RewriteContent on `content` promises about the tokens
      it found and the values it chose for them. */
  ghost predicate RunOf(table: map<string, string>, scope: string, content: string,
                        found: seq<string>, values: seq<string>)
  {
    && (forall t :: t in found <==> t in FindAllExpressions(content))
    && NoDuplicates(found) && AllSliceable(found) && |values| == |found|
    && (forall i :: 0 <= i < |found| ==> ReplacementFor(table, scope, Key(found[i]), values[i]))
  }

  /** Rewriting is not idempotent. When no override covers the two keys
      involved, the first run on CallAround gives AfterOneRun, and a second
      run on that text changes it again (to a `<+secrets.getValue(...)>`
      expression). */
  lemma RerunRewritesAgain(table: map<string, string>, scope: string,
                           found1: seq<string>, values1: seq<string>,
                           found2: seq<string>, values2: seq<string>)
    requires InnerKey !in table && Key(AfterOneRun) !in table
    requires RunOf(table, scope, CallAround, found1, values1)
    requires RunOf(table, scope, Rewritten(table, CallAround, found1, values1), found2, values2)
    ensures Rewritten(table, CallAround, found1, values1) == AfterOneRun
    ensures Rewritten(table, AfterOneRun, found2, values2) != AfterOneRun
  {
    forall t ensures t in FindAllExpressions(CallAround) <==> t == InnerToken {
      CallAroundTokens(t);
    }
    OnlyElement(found1, InnerToken);
    FirstRun(table, scope, values1[0]);
    assert Rewritten(table, CallAround, found1, values1) == AfterOneRun by {
      assert found1[..0] == [] && values1[..0] == [];
    }
    forall t ensures t in FindAllExpressions(AfterOneRun) <==> t == AfterOneRun {
      AfterOneRunTokens(t);
    }
    OnlyElement(found2, AfterOneRun);
    SecondRun(table, scope, values2[0]);
    assert found2[..0] == [] && values2[..0] == [];
  }

  /** A list without duplicates whose only member is `e` is `[e]`. */
  lemma OnlyElement(s: seq<string>, e: string)
    requires NoDuplicates(s) && (forall t :: t in s <==> t == e)
    ensures s == [e]
  {
    assert e in s && s[0] in s;
    if |s| > 1 {
      ElementIn(s, 1);
    }
  }

  lemma ElementIn(s: seq<string>, i: nat)
    requires i < |s|
    ensures s[i] in s
  {
  }

  /** The key of `${body}` is `body`. */
  lemma KeyOf(body: string)
    ensures Key("${" + body + "}") == body
  {
    var t := "${" + body + "}";
    assert t[2..|t| - 1] == body;
  }

  /** The first run: the placeholder resolves through `pipeline.variables`
      and its replacement gives AfterOneRun. */
  lemma FirstRun(table: map<string, string>, scope: string, v: string)
    requires InnerKey !in table
    requires ReplacementFor(table, scope, Key(InnerToken), v)
    ensures Resolvable(table, Key(InnerToken))
    ensures ReplaceAll(CallAround, InnerToken, v) == AfterOneRun
  {
    KeyOf(InnerKey);
    PipelineVariablesResolve("x", scope);
    assert "pipeline.variables" in Registry;
    assert "pipeline.variables" <= InnerKey;
    assert v == InnerValue;
    InnerFirstAt();
    var c := CallAround;
    var n := |Opening| + |InnerToken|;
    assert c[..|Opening|] == Opening && c[n..] == Closing;
    ReplaceAllUnchanged(Closing, InnerToken, v);
  }

  /** The placeholder occurs in CallAround first right after Opening. */
  lemma InnerFirstAt()
    ensures Index(CallAround, InnerToken) == |Opening|
  {
    var c := CallAround;
    assert c[|Opening|..|Opening| + |InnerToken|] == InnerToken;
    assert OccursAt(c, InnerToken, |Opening|);
    forall j | 0 <= j < |Opening| ensures !OccursAt(c, InnerToken, j) {
      if OccursAt(c, InnerToken, j) {
        TokenAt(c, InnerToken, j);
        CallAroundOpens(j);
        assert false;
      }
    }
  }

  /** A token of either pattern opens with `${` and closes with `}`. */
  lemma TokenEdges(t: string)
    requires IsGenericToken(t) || IsSecretToken(t)
    ensures |t| >= 4 && t[0] == '$' && t[1] == '{' && t[|t| - 1] == '}'
  {
    if IsSecretToken(t) {
      assert t[..2] == t[..9][..2];
    }
  }

  /** The character of the text under position `k` of a string occurring at `j`. */
  lemma CharAt(s: string, t: string, j: nat, k: nat)
    requires OccursAt(s, t, j) && k < |t|
    ensures s[j + k] == t[k]
  {
    assert s[j..j + |t|][k] == t[k];
  }

  /** The characters a string occurring at `j` fixes in the text. */
  lemma TokenAt(s: string, t: string, j: nat)
    requires |t| >= 3 && OccursAt(s, t, j)
    ensures s[j] == t[0] && s[j + 1] == t[1] && s[j + 2] == t[2]
    ensures s[j + |t| - 1] == t[|t| - 1]
  {
    assert s[j..j + |t|] == t;
  }

  /** The second run: the whole text is a secret call with a registered
      prefix, and whatever a resolver gives for it starts with `<+`. */
  lemma SecondRun(table: map<string, string>, scope: string, w: string)
    requires Key(AfterOneRun) !in table
    requires ReplacementFor(table, scope, Key(AfterOneRun), w)
    ensures Resolvable(table, Key(AfterOneRun))
    ensures ReplaceAll(AfterOneRun, AfterOneRun, w) == w != AfterOneRun
  {
    var d := AfterOneRun;
    var key := Key(d);
    assert CallHead <= key by {
      assert key[..17] == d[2..19] == Opening[2..19] == CallHead;
    }
    assert CallHead in Registry;
    var p :| p in Registry && p <= key && w == DynamicValue(p, key, scope);
    ResolverOutputs(Registry[p], DynamicArgument(p, key), scope);
    assert w == Apply(Registry[p], DynamicArgument(p, key), scope);
    assert w[1] == '+';
    assert d[1] == Opening[1] == '{';
    ReplaceWhole(d, w);
  }

  /** Replacing a whole string gives the replacement. */
  lemma ReplaceWhole(s: string, w: string)
    requires s != []
    ensures ReplaceAll(s, s, w) == w
  {
    assert OccursAt(s, s, 0);
    assert Index(s, s) == 0;
    assert s[|s|..] == [];
  }

  /** The only token FindAllExpressions finds in CallAround is the inner
      placeholder. */
  lemma CallAroundTokens(t: string)
    ensures t in FindAllExpressions(CallAround) <==> t == InnerToken
  {
    FindAllExpressionsMembers(CallAround, t);
    CallAroundSubstrings(t);
  }

  /** The only substring of CallAround that matches a pattern is the inner
      placeholder. */
  lemma CallAroundSubstrings(t: string)
    ensures (IsGenericToken(t) || IsSecretToken(t)) && Contains(CallAround, t) <==> t == InnerToken
  {
    var c := CallAround;
    if t == InnerToken {
      assert c[|Opening|..|Opening| + |InnerToken|] == InnerToken;
      assert OccursAt(c, t, |Opening|);
      InnerIsGeneric();
    } else if (IsGenericToken(t) || IsSecretToken(t)) && Contains(c, t) {
      var j :| 0 <= j <= |c| && OccursAt(c, t, j);
      TokenEdges(t);
      TokenAt(c, t, j);
      CallAroundOpens(j);
      if j == 0 {
        NoTokenAtStart(t);
      } else {
        TokenAfterOpening(t);
      }
    }
  }

  /** No token starts CallAround: the `$` at 20 stops the generic run and
      the `{` at 21 the secret-call run. */
  lemma NoTokenAtStart(t: string)
    ensures !((IsGenericToken(t) || IsSecretToken(t)) && OccursAt(CallAround, t, 0))
  {
    var c := CallAround;
    if (IsGenericToken(t) || IsSecretToken(t)) && OccursAt(c, t, 0) {
      TokenEdges(t);
      TokenAt(c, t, 0);
      CallAroundCloses(|t| - 1);
      CharAt(c, t, 0, if IsGenericToken(t) then 20 else 21);
    }
  }

  /** The token starting after Opening is the inner placeholder: the first
      `}` after it closes it. */
  lemma TokenAfterOpening(t: string)
    requires (IsGenericToken(t) || IsSecretToken(t)) && OccursAt(CallAround, t, 20)
    ensures t == InnerToken
  {
    var c := CallAround;
    TokenEdges(t);
    TokenAt(c, t, 20);
    CallAroundCloses(20 + |t| - 1);
    if !IsSecretToken(t) && |t| == 25 {
      CharAt(c, t, 20, 22);
    }
  }

  lemma InnerIsGeneric()
    ensures IsGenericToken(InnerToken)
  {
  }

  /** `${` opens CallAround only at 0 and at 20. */
  lemma CallAroundOpens(j: nat)
    requires j + 1 < |CallAround| && CallAround[j] == '$' && CallAround[j + 1] == '{'
    ensures j == 0 || j == 20
  {
  }

  /** `}` occurs in CallAround only at 42 and 44. */
  lemma CallAroundCloses(e: nat)
    requires e < |CallAround| && CallAround[e] == '}'
    ensures e == 42 || e == 44
  {
  }

  /** The only token FindAllExpressions finds in AfterOneRun is the whole
      text. */
  lemma AfterOneRunTokens(t: string)
    ensures t in FindAllExpressions(AfterOneRun) <==> t == AfterOneRun
  {
    FindAllExpressionsMembers(AfterOneRun, t);
    AfterOneRunSubstrings(t);
  }

  /** The only substring of AfterOneRun that matches a pattern is the whole
      text. */
  lemma AfterOneRunSubstrings(t: string)
    ensures (IsGenericToken(t) || IsSecretToken(t)) && Contains(AfterOneRun, t) <==> t == AfterOneRun
  {
    var d := AfterOneRun;
    if t == d {
      assert OccursAt(d, t, 0);
      AfterOneRunIsSecret();
    } else if (IsGenericToken(t) || IsSecretToken(t)) && Contains(d, t) {
      var j :| 0 <= j <= |d| && OccursAt(d, t, j);
      TokenEdges(t);
      TokenAt(d, t, j);
      AfterOneRunOpens(j);
      var e := j + |t| - 1;
      AfterOneRunCloses(e);
    }
  }

  /** AfterOneRun matches the secret-call pattern. */
  lemma AfterOneRunIsSecret()
    ensures IsSecretToken(AfterOneRun)
  {
    AfterOneRunHead();
    AfterOneRunArgument();
  }

  lemma AfterOneRunHead()
    ensures AfterOneRun[..9] == "${secrets" && AfterOneRun[10..19] == "getValue("
    ensures |AfterOneRun| == 45 && AfterOneRun[9] == '.'
    ensures AfterOneRun[43] == ')' && AfterOneRun[44] == '}'
  {
    var d := AfterOneRun;
    assert d[..9] == Opening[..9] && d[10..19] == Opening[10..19];
  }

  /** The argument of the call in AfterOneRun holds no brace. */
  lemma AfterOneRunArgument()
    ensures forall j :: 19 <= j < |AfterOneRun| - 2 ==> !IsBrace(AfterOneRun[j])
  {
    var d := AfterOneRun;
    forall j | 19 <= j < |d| - 2 ensures !IsBrace(d[j]) {
      if j == 19 {
        assert d[j] == 'q';
      } else {
        assert d[j] == InnerValue[j - 20];
      }
    }
  }

  /** `${` opens AfterOneRun only at 0. */
  lemma AfterOneRunOpens(j: nat)
    requires j + 1 < |AfterOneRun| && AfterOneRun[j] == '$' && AfterOneRun[j + 1] == '{'
    ensures j == 0
  {
  }

  /** `}` occurs in AfterOneRun only at its end. */
  lemma AfterOneRunCloses(e: nat)
    requires e < |AfterOneRun| && AfterOneRun[e] == '}'
    ensures e == 44
  {
  }
}

/** The plain-data part of the `BuildPipeline` constructor in
    src/build-pipeline.ts: the environment-to-parameter encoding that runs
    before `super(...)`, and the defaults of the secret parameters. */
module BuildPipeline {
  import opened Wrappers
  import Configuration

  /** One decimal digit, as `${n}` prints it. */
  function DigitChar(d: nat): (c: char)
    requires d < 10
  {
    (48 + d) as char
  }

  /** `${n}` for a natural number: decimal, no leading zeros. */
  function NatToString(n: nat): (s: string)
    ensures |s| >= 1
    ensures n < 10 <==> |s| == 1
    decreases n
  {
    if n < 10 then [DigitChar(n)] else NatToString(n / 10) + [DigitChar(n % 10)]
  }

  /** Different numbers print differently. */
  lemma {:induction false} NatToStringInjective(a: nat, b: nat)
    requires NatToString(a) == NatToString(b)
    ensures a == b
    decreases a
  {
    if a >= 10 && b >= 10 {
      var sa := NatToString(a);
      var sb := NatToString(b);
      assert sa[|sa| - 1] == sb[|sb| - 1];
      assert DigitChar(a % 10) == DigitChar(b % 10);
      assert sa[..|sa| - 1] == NatToString(a / 10);
      assert sb[..|sb| - 1] == NatToString(b / 10);
      NatToStringInjective(a / 10, b / 10);
    }
  }

  /** `Environment${index + 1}Key` */
  function KeyParameter(index: nat): string {
    "Environment" + NatToString(index + 1) + "Key"
  }

  /** `Environment${index + 1}Value` */
  function ValueParameter(index: nat): string {
    "Environment" + NatToString(index + 1) + "Value"
  }

  /** A fixed prefix and suffix around two middles: equal wholes mean equal middles. */
  lemma MiddleInjective(prefix: string, a: string, b: string, suffix: string)
    requires prefix + a + suffix == prefix + b + suffix
    ensures a == b
  {
    var w := prefix + a + suffix;
    assert |a| == |b|;
    assert a == w[|prefix|..|prefix| + |a|];
    assert b == (prefix + b + suffix)[|prefix|..|prefix| + |b|];
  }

  /** No two positions share a parameter name, and a key name is never a value name. */
  lemma ParameterNamesDistinct(i: nat, j: nat)
    ensures KeyParameter(i) != ValueParameter(j)
    ensures KeyParameter(i) == KeyParameter(j) ==> i == j
    ensures ValueParameter(i) == ValueParameter(j) ==> i == j
  {
    var ki := KeyParameter(i);
    var vj := ValueParameter(j);
    assert ki[|ki| - 1] == 'y';
    assert vj[|vj| - 1] == 'e';
    if KeyParameter(i) == KeyParameter(j) {
      MiddleInjective("Environment", NatToString(i + 1), NatToString(j + 1), "Key");
      NatToStringInjective(i + 1, j + 1);
    }
    if ValueParameter(i) == ValueParameter(j) {
      MiddleInjective("Environment", NatToString(i + 1), NatToString(j + 1), "Value");
      NatToStringInjective(i + 1, j + 1);
    }
  }

  /** The names the encoding writes for `n` environment entries. */
  function ParameterNames(n: nat): set<string> {
    if n == 0 then {} else ParameterNames(n - 1) + {KeyParameter(n - 1), ValueParameter(n - 1)}
  }

  /** The names of earlier positions are among the names written so far. */
  lemma {:induction false} EarlierNamesWritten(j: nat, n: nat)
    requires j < n
    ensures KeyParameter(j) in ParameterNames(n) && ValueParameter(j) in ParameterNames(n)
  {
    if j < n - 1 {
      EarlierNamesWritten(j, n - 1);
    }
  }

  /** Position `n`'s names are new: they were not written for positions below `n`. */
  lemma {:induction false} NextNamesFresh(n: nat)
    ensures KeyParameter(n) !in ParameterNames(n) && ValueParameter(n) !in ParameterNames(n)
    ensures KeyParameter(n) != ValueParameter(n)
  {
    ParameterNamesDistinct(n, n);
    FreshAgainstPrefix(n, n);
  }

  /** Position `n`'s names differ from every name of positions below `m <= n`. */
  lemma {:induction false} FreshAgainstPrefix(n: nat, m: nat)
    requires m <= n
    ensures KeyParameter(n) !in ParameterNames(m) && ValueParameter(n) !in ParameterNames(m)
  {
    if m > 0 {
      FreshAgainstPrefix(n, m - 1);
      ParameterNamesDistinct(n, m - 1);
      ParameterNamesDistinct(m - 1, n);
    }
  }

  /** Reads the environment back out of the parameters. */
  function DecodeEnvironment(parameters: map<string, string>, n: nat): Option<seq<(string, string)>> {
    if forall i :: 0 <= i < n ==> KeyParameter(i) in parameters && ValueParameter(i) in parameters
    then Some(seq(n, i =>
                    if 0 <= i < n && KeyParameter(i) in parameters && ValueParameter(i) in parameters
                    then (parameters[KeyParameter(i)], parameters[ValueParameter(i)])
                    else ("", "")))
    else None
  }

  /** The state of the encoding loop after its first `i` entries. */
  predicate EncodedUpTo(out: map<string, string>, base: map<string, string>, environment: seq<(string, string)>, i: nat)
    requires i <= |environment|
  {
    && out.Keys == base.Keys + ParameterNames(i)
    && (forall j :: 0 <= j < i ==>
          && KeyParameter(j) in out && out[KeyParameter(j)] == environment[j].0
          && ValueParameter(j) in out && out[ValueParameter(j)] == environment[j].1)
    && (forall k :: k in base && k !in ParameterNames(i) ==> k in out && out[k] == base[k])
  }

  /** One iteration of the loop writes entry `i` without disturbing earlier ones. */
  lemma EncodeStep(out: map<string, string>, base: map<string, string>, environment: seq<(string, string)>, i: nat)
    requires i < |environment|
    requires EncodedUpTo(out, base, environment, i)
    ensures EncodedUpTo(out[KeyParameter(i) := environment[i].0][ValueParameter(i) := environment[i].1],
                        base, environment, i + 1)
  {
    NextNamesFresh(i);
    forall j | 0 <= j < i
      ensures KeyParameter(j) in ParameterNames(i) && ValueParameter(j) in ParameterNames(i)
    {
      EarlierNamesWritten(j, i);
    }
  }

  /** `{ ...props.parameters }`: spreading an absent object gives `{}`. */
  function CopyParameters(parameters: Option<map<string, string>>): map<string, string> {
    match parameters
    case None => map[]
    case Some(m) => m
  }

  /** `newProps.parameters`: a fresh copy of the caller's parameters with the
      `environmentKeys.forEach` loop's two parameters per entry written over it.
      `environment` lists the entries in `Object.keys` order. */
  method EncodeEnvironment(parameters: Option<map<string, string>>, environment: seq<(string, string)>)
    returns (encoded: map<string, string>)
    ensures encoded.Keys == CopyParameters(parameters).Keys + ParameterNames(|environment|)
    ensures forall i :: 0 <= i < |environment| ==>
              && KeyParameter(i) in encoded && encoded[KeyParameter(i)] == environment[i].0
              && ValueParameter(i) in encoded && encoded[ValueParameter(i)] == environment[i].1
    ensures forall k :: k in CopyParameters(parameters) && k !in ParameterNames(|environment|) ==>
              k in encoded && encoded[k] == CopyParameters(parameters)[k]
    ensures DecodeEnvironment(encoded, |environment|) == Some(environment)
  {
    var base := CopyParameters(parameters);
    encoded := base;
    var i := 0;
    while i < |environment|
      invariant 0 <= i <= |environment|
      invariant EncodedUpTo(encoded, base, environment, i)
    {
      EncodeStep(encoded, base, environment, i);
      encoded := encoded[KeyParameter(i) := environment[i].0][ValueParameter(i) := environment[i].1];
      i := i + 1;
    }
    DecodeRecoversEnvironment(encoded, environment);
  }

  /** Parameters that hold every entry's key and value decode to the entries. */
  lemma DecodeRecoversEnvironment(parameters: map<string, string>, environment: seq<(string, string)>)
    requires forall i :: 0 <= i < |environment| ==>
               && KeyParameter(i) in parameters && parameters[KeyParameter(i)] == environment[i].0
               && ValueParameter(i) in parameters && parameters[ValueParameter(i)] == environment[i].1
    ensures DecodeEnvironment(parameters, |environment|) == Some(environment)
  {
    var decoded := DecodeEnvironment(parameters, |environment|);
    assert decoded.Some?;
    assert decoded.value == environment;
  }

  /** `n` entries add exactly `2n` parameter names, numbered 1 to n. */
  lemma {:induction false} ParameterNamesCount(n: nat)
    ensures |ParameterNames(n)| == 2 * n
  {
    if n > 0 {
      ParameterNamesCount(n - 1);
      NextNamesFresh(n - 1);
    }
  }

  /** All elements differ: construct ids within one scope must be unique, or
      the construct library refuses the second one. */
  predicate AllDistinct(ids: seq<string>) {
    forall i, j :: 0 <= i < j < |ids| ==> ids[i] != ids[j]
  }

  /** The `CfnParameter` ids of the second `environmentKeys.forEach`: key and
      value id of entry 0, then of entry 1, and so on. */
  function EnvironmentIds(n: nat): (ids: seq<string>)
    ensures |ids| == 2 * n
    ensures forall i :: 0 <= i < n ==> ids[2 * i] == KeyParameter(i) && ids[2 * i + 1] == ValueParameter(i)
  {
    seq(2 * n, (k: nat) => if k % 2 == 0 then KeyParameter(k / 2) else ValueParameter(k / 2))
  }

  /** Ids registered after the environment parameters, in constructor order, as
      src/build-pipeline.ts writes them: both secret imports use
      `WebhookAccessTokenSecret`. */
  const FixedIdsAsWritten: seq<string> := [
    "githubRepositoryOwner", "githubRepositoryName", "githubBranchName", "buildProjectImage",
    "webhookSecretName", "webhookSecretKey", "githubAccessTokenSecretName", "githubAccessTokenSecretKey",
    "WebhookAccessTokenSecret", "WebhookAccessTokenSecret",
    "Pipeline", "BuildProject", "MyCfnWebhook", "PipelineArn"]

  /** The same ids with the GitHub token import named `GithubAccessTokenSecret`,
      as the compiled constructor names it. */
  const FixedIds: seq<string> := [
    "githubRepositoryOwner", "githubRepositoryName", "githubBranchName", "buildProjectImage",
    "webhookSecretName", "webhookSecretKey", "githubAccessTokenSecretName", "githubAccessTokenSecretKey",
    "GithubAccessTokenSecret", "WebhookAccessTokenSecret",
    "Pipeline", "BuildProject", "MyCfnWebhook", "PipelineArn"]

  /** Every construct id the constructor registers in its own scope, as written. */
  function ScopeIdsAsWritten(n: nat): seq<string> {
    EnvironmentIds(n) + FixedIdsAsWritten
  }

  /** Every construct id the constructor registers in its own scope, corrected. */
  function ScopeIds(n: nat): seq<string> {
    EnvironmentIds(n) + FixedIds
  }

  /** As written, the two secret imports collide whatever the environment. */
  lemma ScopeIdsAsWrittenCollide(n: nat)
    ensures !AllDistinct(ScopeIdsAsWritten(n))
  {
    var ids := ScopeIdsAsWritten(n);
    assert ids[2 * n + 8] == FixedIdsAsWritten[8];
    assert ids[2 * n + 9] == FixedIdsAsWritten[9];
  }

  /** The environment ids are pairwise distinct. */
  lemma EnvironmentIdsDistinct(n: nat)
    ensures AllDistinct(EnvironmentIds(n))
  {
    var ids := EnvironmentIds(n);
    forall i, j | 0 <= i < j < |ids| ensures ids[i] != ids[j] {
      ParameterNamesDistinct(i / 2, j / 2);
      ParameterNamesDistinct(j / 2, i / 2);
      assert ids[i] == if i % 2 == 0 then KeyParameter(i / 2) else ValueParameter(i / 2);
      assert ids[j] == if j % 2 == 0 then KeyParameter(j / 2) else ValueParameter(j / 2);
    }
  }

  /** The corrected fixed ids are pairwise distinct and none starts with `E`. */
  lemma FixedIdsDistinct()
    ensures AllDistinct(FixedIds)
    ensures forall k :: 0 <= k < |FixedIds| ==> FixedIds[k][0] != 'E'
  {
  }

  /** Every environment id starts with `E`. */
  lemma EnvironmentIdsStartWithE(n: nat)
    ensures forall i :: 0 <= i < |EnvironmentIds(n)| ==> EnvironmentIds(n)[i][0] == 'E'
  {
    var env := EnvironmentIds(n);
    forall i | 0 <= i < |env| ensures env[i][0] == 'E' {
      assert env[i] == if i % 2 == 0 then KeyParameter(i / 2) else ValueParameter(i / 2);
    }
  }

  /** With the corrected name every id in the scope is unique, for any number of
      environment entries: environment ids start with `E`, no fixed id does. */
  lemma ScopeIdsDistinct(n: nat)
    ensures AllDistinct(ScopeIds(n))
  {
    var env := EnvironmentIds(n);
    var ids := ScopeIds(n);
    EnvironmentIdsDistinct(n);
    EnvironmentIdsStartWithE(n);
    FixedIdsDistinct();
    forall i, j | 0 <= i < j < |ids| ensures ids[i] != ids[j] {
      if j >= |env| {
        assert ids[j] == FixedIds[j - |env|];
        if i >= |env| {
          assert ids[i] == FixedIds[i - |env|];
        } else {
          assert ids[i] == env[i];
        }
      }
    }
  }

  /** The defaults of the four secret parameters. */
  datatype SecretParameterDefaults = SecretParameterDefaults(
    webhookSecretName: string,
    webhookSecretKey: string,
    githubAccessTokenSecretName: string,
    githubAccessTokenSecretKey: string)

  const DefaultSecretKey: string := "secret"

  /** Defaults of `webhookSecretName`, `webhookSecretKey`,
      `githubAccessTokenSecretName` and `githubAccessTokenSecretKey`. */
  function SecretDefaults(v: Configuration.Variant, c: Configuration.StackConfig): (r: Result<SecretParameterDefaults, Configuration.ConfigError>)
    ensures r.Success? <==> Configuration.Slug(v, c).Success?
    ensures r.Failure? ==> r.error == Configuration.Slug(v, c).error
    ensures r.Success? ==>
              && r.value.webhookSecretName == Configuration.SecretName(v, c, "Pipeline").value
              && r.value.githubAccessTokenSecretName == Configuration.SecretName(v, c, "GithubToken").value
              && r.value.webhookSecretKey == DefaultSecretKey
              && r.value.githubAccessTokenSecretKey == DefaultSecretKey
  {
    var webhook :- Configuration.SecretName(v, c, "Pipeline");
    var github := Configuration.SecretName(v, c, "GithubToken").value;
    Success(SecretParameterDefaults(webhook, DefaultSecretKey, github, DefaultSecretKey))
  }

  /** The two default secret names are distinct secrets under the stack's slug. */
  lemma DefaultSecretNamesDiffer(v: Configuration.Variant, c: Configuration.StackConfig)
    requires SecretDefaults(v, c).Success?
    ensures SecretDefaults(v, c).value.webhookSecretName != SecretDefaults(v, c).value.githubAccessTokenSecretName
  {
    var slug := Configuration.Slug(v, c).value;
    var w := SecretDefaults(v, c).value.webhookSecretName;
    var g := SecretDefaults(v, c).value.githubAccessTokenSecretName;
    assert |w| == |slug| + 9;
    assert |g| == |slug| + 12;
  }
}

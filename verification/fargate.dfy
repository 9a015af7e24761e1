/** The pure decisions of the `FargateService` constructor in src/fargate.ts:
    secret-reference parsing, image precedence, falsy defaulting of counts and
    sizes, autoscaling bounds, and the secret access policy resource. */
module Fargate {
  import opened Wrappers
  import opened Js
  import Configuration

  /** Image used when neither an image nor a repository is supplied. */
  const DefaultImage: string := "nginxdemos/hello:latest"
  const DefaultImageVersion: string := "latest"
  const DefaultHealthCheckPath: string := "/health-check"
  const DefaultMemoryLimitMiB: int := 512
  const DefaultCpu: int := 256
  const DefaultDesiredCount: int := 1
  const DefaultGracePeriodSeconds: nat := 60

  /** A `cdk.Duration`; as an object it is always truthy. */
  datatype Duration = Seconds(n: nat)

  /** `TaskConfiguration`: every number is optional and may be 0. */
  datatype TaskConfiguration = TaskConfiguration(
    memoryLimitMiB: Option<int>,
    healthCheckGracePeriod: Option<Duration>,
    cpu: Option<int>,
    desiredCount: Option<int>,
    autoScalingCpuTarget: Option<int>,
    maxCount: Option<int>,
    minCount: Option<int>,
    environment: Option<map<string, string>>,
    secrets: Option<map<string, string>>)

  /** The plain-data part of `FargateServiceProps`; constructs are named by id. */
  datatype ServiceProps = ServiceProps(
    subDomainIncludingDot: Option<string>,
    healthCheckPath: Option<string>,
    imageVersion: Option<string>,
    repository: Option<string>,
    image: Option<string>,
    securityGroup: Option<string>,
    task: TaskConfiguration)

  datatype ContainerImage =
    | Supplied(image: string)                          // props.image
    | FromEcrRepository(repository: string, tag: string)
    | FromRegistry(name: string)

  datatype SecurityGroupChoice = UseSupplied(group: string) | CreateNew(constructId: string)

  /** `ssm.Secret.fromSecretNameV2(name)` + `ecs.Secret.fromSecretsManager(secret, field)`;
      no field means the whole secret. */
  datatype SecretRef = SecretRef(secretName: string, fieldName: Option<string>)

  datatype Scaling = Scaling(minCapacity: int, maxCapacity: int, targetUtilizationPercent: int)

  /** What the constructor hands to the load-balanced service and its scaling. */
  datatype ServiceSettings = ServiceSettings(
    healthCheckPath: string,
    subDomainIncludingDot: string,
    image: ContainerImage,
    securityGroup: SecurityGroupChoice,
    desiredCount: int,
    memoryLimitMiB: int,
    cpu: int,
    healthCheckGracePeriod: Duration,
    environment: map<string, string>,
    secrets: map<string, SecretRef>,
    scaling: Option<Scaling>)

  /** `x || d` on an optional number. */
  function NumberOr(x: Option<int>, d: int): int {
    if NumTruthy(x) then x.value else d
  }

  /** `NumberOr` is the one-level `||` chain of the JavaScript reference. */
  lemma NumberOrIsJsOr(x: Option<int>, d: int)
    ensures NumberOr(x, d) == FirstTruthyNumber([x], d)
  {
    assert [x][1..] == [];
  }

  /** `s.split(sep)`: the text between separators, always at least one piece. */
  function Split(s: string, sep: char): (parts: seq<string>)
    ensures |parts| >= 1
    ensures forall i :: 0 <= i < |parts| ==> sep !in parts[i]
  {
    if |s| == 0 then [""]
    else
      var rest := Split(s[1..], sep);
      if s[0] == sep then [""] + rest
      else [[s[0]] + rest[0]] + rest[1..]
  }

  /** `parts.join(sep)`, the inverse of `Split`. */
  function Join(parts: seq<string>, sep: char): string
    requires |parts| >= 1
  {
    if |parts| == 1 then parts[0] else parts[0] + [sep] + Join(parts[1..], sep)
  }

  /** Joining the pieces of a split gives back the original text. */
  lemma {:induction false} JoinSplit(s: string, sep: char)
    ensures Join(Split(s, sep), sep) == s
  {
    if |s| > 0 {
      var rest := Split(s[1..], sep);
      JoinSplit(s[1..], sep);
      if s[0] == sep {
        assert Split(s, sep) == [""] + rest;
        assert ([""] + rest)[1..] == rest;
      } else {
        var parts := [[s[0]] + rest[0]] + rest[1..];
        assert Split(s, sep) == parts;
        if |rest| == 1 {
          assert Join(parts, sep) == [s[0]] + rest[0];
        } else {
          assert parts[1..] == rest[1..];
          assert Join(rest, sep) == rest[0] + [sep] + Join(rest[1..], sep);
          assert Join(parts, sep) == ([s[0]] + rest[0]) + [sep] + Join(rest[1..], sep);
        }
      }
    }
  }

  /** `const [secretName, fieldName] = value.split(':').slice(0, 2)` */
  function ParseSecretRef(value: string): (r: SecretRef)
    ensures ':' !in r.secretName
    ensures r.fieldName.Some? ==> ':' !in r.fieldName.value
    ensures r.fieldName.None? <==> ':' !in value
    ensures r.fieldName.None? ==> r.secretName == value
    ensures r.fieldName.Some? ==>
              var head := r.secretName + ":" + r.fieldName.value;
              head <= value && (|head| == |value| || value[|head|] == ':')
  {
    var parts := Split(value, ':');
    JoinSplit(value, ':');
    SecretRefShape(parts);
    SplitCountsSeparators(value, ':');
    if |parts| >= 2 then SecretRef(parts[0], Some(parts[1])) else SecretRef(parts[0], None)
  }

  /** How the first two pieces sit at the start of the joined text. */
  lemma SecretRefShape(parts: seq<string>)
    requires |parts| >= 1
    ensures |parts| == 1 ==> Join(parts, ':') == parts[0]
    ensures |parts| >= 2 ==>
              var head := parts[0] + ":" + parts[1];
              var joined := Join(parts, ':');
              head <= joined && (|head| == |joined| || joined[|head|] == ':')
  {
    if |parts| >= 2 {
      var rest := parts[1..];
      assert Join(parts, ':') == parts[0] + [':'] + Join(rest, ':');
      if |rest| == 1 {
        assert Join(rest, ':') == parts[1];
      } else {
        assert Join(rest, ':') == parts[1] + [':'] + Join(rest[1..], ':');
      }
    }
  }

  /** A text splits into several pieces exactly when it contains the separator. */
  lemma {:induction false} SplitCountsSeparators(s: string, sep: char)
    ensures |Split(s, sep)| >= 2 <==> sep in s
  {
    if |s| > 0 {
      SplitCountsSeparators(s[1..], sep);
      assert sep in s <==> s[0] == sep || sep in s[1..] by {
        if sep in s {
          var i :| 0 <= i < |s| && s[i] == sep;
          if i > 0 { assert s[1..][i - 1] == sep; }
        }
      }
    }
  }

  /** The secrets loop: every entry with a non-empty reference becomes a parsed
      `SecretRef` under the same key; empty references are skipped. */
  function ParseSecrets(secrets: Option<map<string, string>>): (r: map<string, SecretRef>)
    ensures secrets.None? ==> r == map[]
    ensures secrets.Some? ==> forall k :: k in r <==> k in secrets.value && secrets.value[k] != ""
    ensures forall k :: k in r ==> r[k] == ParseSecretRef(secrets.value[k])
  {
    match secrets
    case None => map[]
    case Some(m) => map k | k in m && m[k] != "" :: ParseSecretRef(m[k])
  }

  /** `props.image || (repository && fromEcrRepository(repository, imageVersion)) || fromRegistry(DEFAULT_IMAGE)`,
      with `imageVersion` defaulting to `latest` only when it is not given. */
  function PickImage(image: Option<string>, repository: Option<string>, imageVersion: Option<string>): (r: ContainerImage)
    ensures image.Some? ==> r == Supplied(image.value)
    ensures image.None? && repository.Some? ==>
              r == FromEcrRepository(repository.value, imageVersion.GetOr(DefaultImageVersion))
    ensures r.FromRegistry? <==> image.None? && repository.None?
    ensures r.FromRegistry? ==> r.name == DefaultImage
  {
    if image.Some? then Supplied(image.value)
    else if repository.Some? then FromEcrRepository(repository.value, imageVersion.GetOr(DefaultImageVersion))
    else FromRegistry(DefaultImage)
  }

  /** The image choice is the `||` chain over the two optional objects (both
      always truthy when present) ending in the registry default. */
  lemma PickImageIsJsOr(image: Option<string>, repository: Option<string>, imageVersion: Option<string>)
    ensures var supplied := if image.Some? then Some(Supplied(image.value)) else None;
            var fromRepository :=
              if repository.Some? then Some(FromEcrRepository(repository.value, imageVersion.GetOr(DefaultImageVersion)))
              else None;
            PickImage(image, repository, imageVersion) == FirstPresent([supplied, fromRepository], FromRegistry(DefaultImage))
  {
    var supplied := if image.Some? then Some(Supplied(image.value)) else None;
    var fromRepository :=
      if repository.Some? then Some(FromEcrRepository(repository.value, imageVersion.GetOr(DefaultImageVersion)))
      else None;
    var levels := [supplied, fromRepository];
    assert levels[1..] == [fromRepository];
    assert levels[1..][1..] == [];
  }

  /** Autoscaling is configured only for a truthy CPU target; the bounds default
      to twice the desired count and to the desired count. */
  function AutoScaling(task: TaskConfiguration, desiredCount: int): (r: Option<Scaling>)
    ensures r.Some? <==> NumTruthy(task.autoScalingCpuTarget)
    ensures r.Some? ==> r.value.targetUtilizationPercent == task.autoScalingCpuTarget.value
    ensures r.Some? && !NumTruthy(task.maxCount) ==> r.value.maxCapacity == 2 * desiredCount
    ensures r.Some? && NumTruthy(task.maxCount) ==> r.value.maxCapacity == task.maxCount.value
    ensures r.Some? && !NumTruthy(task.minCount) ==> r.value.minCapacity == desiredCount
    ensures r.Some? && NumTruthy(task.minCount) ==> r.value.minCapacity == task.minCount.value
  {
    if NumTruthy(task.autoScalingCpuTarget) then
      Some(Scaling(NumberOr(task.minCount, desiredCount), NumberOr(task.maxCount, desiredCount * 2),
                   task.autoScalingCpuTarget.value))
    else None
  }

  /** `stack.getResourceID('SecurityGroup')` leaves the name as it is. */
  lemma SecurityGroupIdIsClean()
    ensures Configuration.ResourceId("SecurityGroup") == "SecurityGroup"
  {
    var name := "SecurityGroup";
    assert forall i :: 0 <= i < |name| ==> Configuration.IsIdChar(name[i]);
    Configuration.ResourceIdFixesExactlyCleanNames(name);
  }

  /** The settings the `FargateService` constructor derives from its props. */
  function ResolveSettings(p: ServiceProps): (s: ServiceSettings)
    ensures s.desiredCount != 0 && s.memoryLimitMiB != 0 && s.cpu != 0
    ensures NumTruthy(p.task.desiredCount) ==> s.desiredCount == p.task.desiredCount.value
    ensures !NumTruthy(p.task.desiredCount) ==> s.desiredCount == DefaultDesiredCount
    ensures NumTruthy(p.task.memoryLimitMiB) ==> s.memoryLimitMiB == p.task.memoryLimitMiB.value
    ensures !NumTruthy(p.task.memoryLimitMiB) ==> s.memoryLimitMiB == DefaultMemoryLimitMiB
    ensures NumTruthy(p.task.cpu) ==> s.cpu == p.task.cpu.value
    ensures !NumTruthy(p.task.cpu) ==> s.cpu == DefaultCpu
    ensures s.healthCheckGracePeriod == p.task.healthCheckGracePeriod.GetOr(Seconds(DefaultGracePeriodSeconds))
    ensures s.healthCheckPath == p.healthCheckPath.GetOr(DefaultHealthCheckPath)
    ensures s.subDomainIncludingDot == p.subDomainIncludingDot.GetOr("")
    ensures s.securityGroup.CreateNew? <==> p.securityGroup.None?
    ensures s.securityGroup.CreateNew? ==> s.securityGroup.constructId == "SecurityGroup"
    ensures s.scaling == AutoScaling(p.task, s.desiredCount)
    ensures s.image == PickImage(p.image, p.repository, p.imageVersion)
    ensures s.secrets == ParseSecrets(p.task.secrets)
  {
    var desired := NumberOr(p.task.desiredCount, DefaultDesiredCount);
    var group :=
      if p.securityGroup.Some? then UseSupplied(p.securityGroup.value)
      else CreateNew(Configuration.ResourceId("SecurityGroup"));
    SecurityGroupIdIsClean();
    ServiceSettings(
      p.healthCheckPath.GetOr(DefaultHealthCheckPath),
      p.subDomainIncludingDot.GetOr(""),
      PickImage(p.image, p.repository, p.imageVersion),
      group,
      desired,
      NumberOr(p.task.memoryLimitMiB, DefaultMemoryLimitMiB),
      NumberOr(p.task.cpu, DefaultCpu),
      p.task.healthCheckGracePeriod.GetOr(Seconds(DefaultGracePeriodSeconds)),
      p.task.environment.GetOr(map[]),
      ParseSecrets(p.task.secrets),
      AutoScaling(p.task, desired))
  }

  /** Every defaulted number and object of the constructor is the JavaScript
      `x || d` of its option, including the scaling bounds, which default from
      the resolved desired count. */
  lemma ResolveSettingsFollowsJsOr(p: ServiceProps)
    ensures var s := ResolveSettings(p);
            && s.desiredCount == FirstTruthyNumber([p.task.desiredCount], DefaultDesiredCount)
            && s.memoryLimitMiB == FirstTruthyNumber([p.task.memoryLimitMiB], DefaultMemoryLimitMiB)
            && s.cpu == FirstTruthyNumber([p.task.cpu], DefaultCpu)
            && s.healthCheckGracePeriod == FirstPresent([p.task.healthCheckGracePeriod], Seconds(DefaultGracePeriodSeconds))
            && s.environment == FirstPresent([p.task.environment], map[])
            && (s.scaling.Some? ==>
                  && s.scaling.value.minCapacity == FirstTruthyNumber([p.task.minCount], s.desiredCount)
                  && s.scaling.value.maxCapacity == FirstTruthyNumber([p.task.maxCount], 2 * s.desiredCount))
  {
    var s := ResolveSettings(p);
    NumberOrIsJsOr(p.task.desiredCount, DefaultDesiredCount);
    NumberOrIsJsOr(p.task.memoryLimitMiB, DefaultMemoryLimitMiB);
    NumberOrIsJsOr(p.task.cpu, DefaultCpu);
    NumberOrIsJsOr(p.task.minCount, s.desiredCount);
    NumberOrIsJsOr(p.task.maxCount, 2 * s.desiredCount);
    assert [p.task.healthCheckGracePeriod][1..] == [];
    assert [p.task.environment][1..] == [];
  }

  /** With a positive desired count and no explicit bounds, the default bounds
      bracket the desired count: min = desired <= max = 2 * desired. */
  lemma DefaultScalingBracketsDesired(p: ServiceProps)
    requires NumTruthy(p.task.autoScalingCpuTarget)
    requires !NumTruthy(p.task.minCount) && !NumTruthy(p.task.maxCount)
    requires !NumTruthy(p.task.desiredCount) || p.task.desiredCount.value > 0
    ensures var s := ResolveSettings(p);
            s.scaling.Some?
            && s.scaling.value.minCapacity == s.desiredCount
            && s.desiredCount < s.scaling.value.maxCapacity
  {
  }

  /** The resource of the secret read policy: every secret under the stack's slug. */
  function SecretAccessResource(v: Configuration.Variant, c: Configuration.StackConfig): Result<string, Configuration.ConfigError> {
    var base :- Configuration.SecretBaseArn(v, c);
    Success(base + "/*")
  }

  /** Every secret ARN of the stack falls under the policy's wildcard: it starts
      with the resource minus its final `*`. */
  lemma SecretAccessCoversStackSecrets(v: Configuration.Variant, c: Configuration.StackConfig, name: string, key: string)
    ensures SecretAccessResource(v, c).Success? <==> Configuration.SecretArn(v, c, name, key).Success?
    ensures SecretAccessResource(v, c).Success? ==>
              var resource := SecretAccessResource(v, c).value;
              resource[..|resource| - 1] <= Configuration.SecretArn(v, c, name, key).value
  {
    if SecretAccessResource(v, c).Success? {
      var base := Configuration.SecretBaseArn(v, c).value;
      var resource := SecretAccessResource(v, c).value;
      assert resource[..|resource| - 1] == base + "/";
    }
  }
}

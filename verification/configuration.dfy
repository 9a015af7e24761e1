/** The stage/stack configuration resolver of src/configuration.ts and
    dist/configuration.js.

    The two files differ in one operator: the TypeScript source falls back from
    stack to stage to default with `||`, the compiled file with `??`. The model
    keeps both behind `Variant` so that every naming function exists in both
    flavours and the difference is a theorem rather than a footnote. */
module Configuration {
  import opened Wrappers
  import opened Js

  /** Which of the two shipped implementations is meant. */
  datatype Variant =
    | Src   // src/configuration.ts: `stack[name] || stage[name] || default`
    | Dist  // dist/configuration.js: `stack[name] ?? stage[name] ?? default`

  /** `cdk.RemovalPolicy`. */
  datatype RemovalPolicy = Destroy | Retain | Snapshot | RetainOnUpdateOrDelete

  /** The string each `cdk.RemovalPolicy` member stands for. */
  function PolicyName(p: RemovalPolicy): string {
    match p
    case Destroy => "destroy"
    case Retain => "retain"
    case Snapshot => "snapshot"
    case RetainOnUpdateOrDelete => "retain-on-update-or-delete"
  }

  /** A `removal_policy?: RemovalPolicy | null` field. */
  datatype PolicySetting = PolicyUndefined | PolicyNull | PolicySet(policy: RemovalPolicy)

  /** The properties one level (stack or stage) declares: `name`, `slug`,
      `account_id`, `region` and any other key, plus the `removal_policy` key
      read through its declared type. */
  datatype Props = Props(values: map<string, JsValue>, removalPolicy: PolicySetting)

  /** The untyped value of a policy setting. */
  function PolicyValue(p: PolicySetting): JsValue {
    match p
    case PolicyUndefined => Undefined
    case PolicyNull => Null
    case PolicySet(d) => Str(PolicyName(d))
  }

  /** Both views of one level hold the same `removal_policy`: the typed field is
      the untyped key read as a `cdk.RemovalPolicy`. */
  predicate PolicyLinked(p: Props) {
    Lookup(p.values, "removal_policy") == PolicyValue(p.removalPolicy)
  }

  /** A deployment stage: its id, its own properties, and the stacks it declares. */
  datatype Stage = Stage(id: string, props: Props, stacks: map<string, Props>)

  /** One stack of a stage. `stage` is `None` only when a caller constructed the
      config by hand without a stage, which the TypeScript source tolerates. */
  datatype StackConfig = StackConfig(id: string, stage: Option<Stage>, stack: Props)

  datatype ConfigError =
    | MissingValue(name: string)  // `Missing value ${name} for stack`
    | InvalidStack(id: string)    // `Invalid stack ${id}`
    | InvalidStage(id: string)    // `Invalid stage ${id}`
    | StageUndefined              // TypeError: reading through an undefined stage

  /** `Stage.getProperty(name)` */
  function StageProperty(st: Stage, name: string): JsValue {
    Lookup(st.props.values, name)
  }

  /** The variant's fallback operator. */
  function Fallback(v: Variant, a: JsValue, b: JsValue): JsValue {
    match v
    case Src => Or(a, b)
    case Dist => Coalesce(a, b)
  }

  /** True when the variant's operator moves past `a` to its right operand. */
  predicate FallsThrough(v: Variant, a: JsValue) {
    match v
    case Src => !Truthy(a)
    case Dist => Nullish(a)
  }

  /** The final `if (value) return value; throw ...` check. */
  function Accept(value: JsValue, name: string): (r: Result<string, ConfigError>)
    ensures r.Success? <==> Truthy(value)
    ensures r.Success? ==> Str(r.value) == value
    ensures r.Failure? ==> r.error == MissingValue(name)
  {
    if Truthy(value) then Success(value.s) else Failure(MissingValue(name))
  }

  /** `StackConfig.getProperty(name, default_value)`. The stage is only read when
      the stack's own value falls through, so a missing stage only matters then. */
  function GetProperty(v: Variant, c: StackConfig, name: string, default: JsValue): (r: Result<string, ConfigError>)
    ensures r.Success? ==> r.value != ""
    ensures r.Success? ==>
              Str(r.value) == Lookup(c.stack.values, name)
              || (c.stage.Some? && Str(r.value) == StageProperty(c.stage.value, name))
              || Str(r.value) == default
    ensures r.Failure? ==> r.error == MissingValue(name) || (r.error == StageUndefined && c.stage.None?)
    ensures c.stage.None? && !FallsThrough(v, Lookup(c.stack.values, name)) ==>
              r == Accept(Lookup(c.stack.values, name), name)
  {
    var own := Lookup(c.stack.values, name);
    if !FallsThrough(v, own) then Accept(own, name)
    else
      match c.stage
      case None => Failure(StageUndefined)
      case Some(st) => Accept(Fallback(v, Fallback(v, own, StageProperty(st, name)), default), name)
  }

  /** The `||` variant resolves to the first truthy level among stack, stage and
      default, and fails with `MissingValue` when there is none. */
  lemma SrcGetPropertyIsFirstTruthy(c: StackConfig, name: string, default: JsValue)
    requires c.stage.Some?
    ensures var first := FirstTruthy([Lookup(c.stack.values, name), StageProperty(c.stage.value, name), default]);
            GetProperty(Src, c, name, default)
              == if first.Some? then Success(first.value) else Failure(MissingValue(name))
  {
    var own := Lookup(c.stack.values, name);
    var sv := StageProperty(c.stage.value, name);
    var levels := [own, sv, default];
    assert levels[1..] == [sv, default];
    assert levels[1..][1..] == [default];
    assert levels[1..][1..][1..] == [];
    assert FirstTruthy([default]) == if Truthy(default) then Some(default.s) else FirstTruthy([]);
    assert FirstTruthy([sv, default]) == if Truthy(sv) then Some(sv.s) else FirstTruthy([default]);
    assert FirstTruthy(levels) == if Truthy(own) then Some(own.s) else FirstTruthy([sv, default]);
  }

  /** The `??` variant selects the first level that is not null/undefined, and
      that value must then be a non-empty string. */
  lemma DistGetPropertyIsFirstDefined(c: StackConfig, name: string, default: JsValue)
    requires c.stage.Some?
    ensures var first := FirstDefined([Lookup(c.stack.values, name), StageProperty(c.stage.value, name), default]);
            GetProperty(Dist, c, name, default)
              == if first.Some? && Truthy(first.value) then Success(first.value.s) else Failure(MissingValue(name))
  {
    var own := Lookup(c.stack.values, name);
    var sv := StageProperty(c.stage.value, name);
    var levels := [own, sv, default];
    assert levels[1..] == [sv, default];
    assert levels[1..][1..] == [default];
    assert levels[1..][1..][1..] == [];
    assert FirstDefined([default]) == if !Nullish(default) then Some(default) else FirstDefined([]);
    assert FirstDefined([sv, default]) == if !Nullish(sv) then Some(sv) else FirstDefined([default]);
    assert FirstDefined(levels) == if !Nullish(own) then Some(own) else FirstDefined([sv, default]);
  }

  /** Where no level is the empty string the two operators agree. */
  lemma VariantsAgreeWithoutEmptyStrings(c: StackConfig, name: string, default: JsValue)
    requires Lookup(c.stack.values, name) != Str("")
    requires c.stage.Some? ==> StageProperty(c.stage.value, name) != Str("")
    ensures GetProperty(Src, c, name, default) == GetProperty(Dist, c, name, default)
  {
  }

  /** An explicit empty string at stack level: `||` falls through to the stage,
      `??` selects the empty string and then rejects it. */
  lemma EmptyStackValueSplitsVariants(c: StackConfig, name: string, default: JsValue)
    requires Lookup(c.stack.values, name) == Str("")
    requires c.stage.Some? && Truthy(StageProperty(c.stage.value, name))
    ensures GetProperty(Src, c, name, default) == Success(StageProperty(c.stage.value, name).s)
    ensures GetProperty(Dist, c, name, default) == Failure(MissingValue(name))
  {
  }

  /** `getSlug`, `getAccountId`, `getRegion`: mandatory properties. */
  function Slug(v: Variant, c: StackConfig): Result<string, ConfigError> {
    GetProperty(v, c, "slug", Undefined)
  }

  function AccountId(v: Variant, c: StackConfig): Result<string, ConfigError> {
    GetProperty(v, c, "account_id", Undefined)
  }

  function Region(v: Variant, c: StackConfig): Result<string, ConfigError> {
    GetProperty(v, c, "region", Undefined)
  }

  /** `getStageId`: reads through the stage reference. */
  function StageId(c: StackConfig): Result<string, ConfigError> {
    match c.stage
    case None => Failure(StageUndefined)
    case Some(st) => Success(st.id)
  }

  /** The CDK environment of a stack. */
  datatype Environment = Environment(account: string, region: string)

  /** `getEnvironment`: account first, then region, both mandatory. */
  function GetEnvironment(v: Variant, c: StackConfig): (r: Result<Environment, ConfigError>)
    ensures r.Success? <==> AccountId(v, c).Success? && Region(v, c).Success?
    ensures r.Success? ==> r.value.account == AccountId(v, c).value && r.value.region == Region(v, c).value
    ensures AccountId(v, c).Failure? ==> r == Failure(AccountId(v, c).error)
  {
    var account :- AccountId(v, c);
    var region :- Region(v, c);
    Success(Environment(account, region))
  }

  /** `getBaseResourceId`: slug-stageId-stackId */
  function BaseResourceId(v: Variant, c: StackConfig): Result<string, ConfigError> {
    var slug :- Slug(v, c);
    var stageId :- StageId(c);
    Success(slug + "-" + stageId + "-" + c.id)
  }

  /** `getFullResourceId(name)`: base id, a dash, then the name. */
  function FullResourceId(v: Variant, c: StackConfig, name: string): Result<string, ConfigError> {
    var base :- BaseResourceId(v, c);
    Success(base + "-" + name)
  }

  /** `getStackExportId(name)`: slug-stageId-name, without the stack id. */
  function StackExportId(v: Variant, c: StackConfig, name: string): Result<string, ConfigError> {
    var slug :- Slug(v, c);
    var stageId :- StageId(c);
    Success(slug + "-" + stageId + "-" + name)
  }

  /** `getBaseArn(service)`: region is resolved before the account. */
  function BaseArn(v: Variant, c: StackConfig, service: string): Result<string, ConfigError> {
    var region :- Region(v, c);
    var account :- AccountId(v, c);
    Success("arn:aws:" + service + ":" + region + ":" + account)
  }

  /** A base ARN is `arn:aws:`, the service, the region and the account; when
      both are missing it reports the region. */
  lemma BaseArnLayout(v: Variant, c: StackConfig, service: string)
    ensures BaseArn(v, c, service).Success? <==> Region(v, c).Success? && AccountId(v, c).Success?
    ensures BaseArn(v, c, service).Success? ==>
              BaseArn(v, c, service).value
                == "arn:aws:" + service + ":" + Region(v, c).value + ":" + AccountId(v, c).value
    ensures Region(v, c).Failure? ==> BaseArn(v, c, service) == Failure(Region(v, c).error)
    ensures Region(v, c).Success? && AccountId(v, c).Failure? ==>
              BaseArn(v, c, service) == Failure(AccountId(v, c).error)
  {
  }

  /** `getEnvironment` and `getBaseArn` read account and region in opposite
      orders: on a stack whose stage declares neither, one reports the missing
      account and the other the missing region. */
  lemma EnvironmentAndBaseArnReportDifferentValues(v: Variant, c: StackConfig, service: string)
    requires c.stage.Some?
    requires Lookup(c.stack.values, "account_id").Undefined? && StageProperty(c.stage.value, "account_id").Undefined?
    requires Lookup(c.stack.values, "region").Undefined? && StageProperty(c.stage.value, "region").Undefined?
    ensures GetEnvironment(v, c) == Failure(MissingValue("account_id"))
    ensures BaseArn(v, c, service) == Failure(MissingValue("region"))
  {
  }

  /** `getSecretBaseArn()` */
  function SecretBaseArn(v: Variant, c: StackConfig): Result<string, ConfigError> {
    var base :- BaseArn(v, c, "secretsmanager");
    var slug :- Slug(v, c);
    Success(base + ":secret:" + slug)
  }

  /** `getSecretArn(name, key)` */
  function SecretArn(v: Variant, c: StackConfig, name: string, key: string): Result<string, ConfigError> {
    var base :- SecretBaseArn(v, c);
    Success(base + "/" + name + ":" + key + "::")
  }

  /** `getSecretName(name)` */
  function SecretName(v: Variant, c: StackConfig, name: string): Result<string, ConfigError> {
    var slug :- Slug(v, c);
    Success(slug + "/" + name)
  }

  /** Every full resource id extends the base id: the base id, a dash, and the
      name can be read back from the end. */
  lemma FullResourceIdExtendsBase(v: Variant, c: StackConfig, name: string)
    ensures FullResourceId(v, c, name).Success? <==> BaseResourceId(v, c).Success?
    ensures FullResourceId(v, c, name).Success? ==>
              var full := FullResourceId(v, c, name).value;
              var base := BaseResourceId(v, c).value;
              base <= full && full[|base|..] == "-" + name
  {
  }

  /** The base id is made of the resolved slug, the stage id and the stack id. */
  lemma BaseResourceIdLayout(v: Variant, c: StackConfig)
    ensures BaseResourceId(v, c).Success? <==> Slug(v, c).Success? && c.stage.Some?
    ensures BaseResourceId(v, c).Success? ==>
              BaseResourceId(v, c).value == Slug(v, c).value + "-" + c.stage.value.id + "-" + c.id
  {
  }

  /** The export id and the base id share the `slug-stageId-` prefix; only the
      base id continues with the stack id. */
  lemma ExportIdSharesBasePrefix(v: Variant, c: StackConfig, name: string)
    ensures StackExportId(v, c, name).Success? <==> BaseResourceId(v, c).Success?
    ensures StackExportId(v, c, name).Success? ==>
              var prefix := Slug(v, c).value + "-" + c.stage.value.id + "-";
              && prefix <= StackExportId(v, c, name).value
              && prefix <= BaseResourceId(v, c).value
              && StackExportId(v, c, name).value[|prefix|..] == name
              && BaseResourceId(v, c).value[|prefix|..] == c.id
  {
  }

  /** Export ids do not depend on the stack: two stacks of one stage whose slugs
      resolve alike export under identical ids. */
  lemma ExportIdIgnoresStack(v: Variant, c1: StackConfig, c2: StackConfig, name: string)
    requires c1.stage == c2.stage
    requires Slug(v, c1) == Slug(v, c2)
    ensures StackExportId(v, c1, name) == StackExportId(v, c2, name)
  {
  }

  /** A secret ARN is its secret base ARN followed by `/name:key::`, and the base
      ARN is built from region, account and slug. */
  lemma SecretArnExtendsBaseArn(v: Variant, c: StackConfig, name: string, key: string)
    ensures SecretArn(v, c, name, key).Success? <==> SecretBaseArn(v, c).Success?
    ensures SecretBaseArn(v, c).Success? <==>
              Region(v, c).Success? && AccountId(v, c).Success? && Slug(v, c).Success?
    ensures SecretArn(v, c, name, key).Success? ==>
              var arn := SecretArn(v, c, name, key).value;
              var base := SecretBaseArn(v, c).value;
              && base == "arn:aws:secretsmanager:" + Region(v, c).value + ":" + AccountId(v, c).value
                         + ":secret:" + Slug(v, c).value
              && base <= arn
              && arn[|base|..] == "/" + name + ":" + key + "::"
  {
  }

  /** A secret name lives under the slug namespace: `slug/` then the name. */
  lemma SecretNameUnderSlug(v: Variant, c: StackConfig, name: string)
    ensures SecretName(v, c, name).Success? <==> Slug(v, c).Success?
    ensures SecretName(v, c, name).Success? ==>
              var prefix := Slug(v, c).value + "/";
              prefix <= SecretName(v, c, name).value && SecretName(v, c, name).value[|prefix|..] == name
  {
  }

  /** The secret ARN's resource part ends with the secret name of the same stack. */
  lemma SecretArnNamesSecret(v: Variant, c: StackConfig, name: string, key: string)
    requires SecretArn(v, c, name, key).Success?
    ensures SecretName(v, c, name).Success?
    ensures var arn := SecretArn(v, c, name, key).value;
            var secret := SecretName(v, c, name).value;
            var suffix := secret + ":" + key + "::";
            |suffix| <= |arn| && arn[|arn| - |suffix|..] == suffix
  {
    var arn := SecretArn(v, c, name, key).value;
    var base := BaseArn(v, c, "secretsmanager").value;
    var slug := Slug(v, c).value;
    var secret := SecretName(v, c, name).value;
    var suffix := secret + ":" + key + "::";
    assert arn == (base + ":secret:") + suffix;
  }

  /** A character `getResourceID` keeps: `[A-Za-z0-9-]`. */
  predicate IsIdChar(ch: char) {
    ('A' <= ch <= 'Z') || ('a' <= ch <= 'z') || ('0' <= ch <= '9') || ch == '-'
  }

  /** `getResourceID(name)`: every character outside `[A-Za-z0-9-]` becomes a dash. */
  function ResourceId(name: string): (r: string)
    ensures |r| == |name|
    ensures forall i :: 0 <= i < |name| ==> r[i] == (if IsIdChar(name[i]) then name[i] else '-')
  {
    if |name| == 0 then ""
    else [if IsIdChar(name[0]) then name[0] else '-'] + ResourceId(name[1..])
  }

  /** The output alphabet is `[A-Za-z0-9-]`. */
  lemma ResourceIdAlphabet(name: string)
    ensures forall i :: 0 <= i < |ResourceId(name)| ==> IsIdChar(ResourceId(name)[i])
  {
  }

  /** A name is left unchanged exactly when it is already in the alphabet. */
  lemma ResourceIdFixesExactlyCleanNames(name: string)
    ensures ResourceId(name) == name <==> forall i :: 0 <= i < |name| ==> IsIdChar(name[i])
  {
    if ResourceId(name) == name {
      forall i | 0 <= i < |name| ensures IsIdChar(name[i]) {
        assert ResourceId(name)[i] == name[i];
      }
    }
  }

  /** Sanitising twice is sanitising once. */
  lemma ResourceIdIdempotent(name: string)
    ensures ResourceId(ResourceId(name)) == ResourceId(name)
  {
    ResourceIdAlphabet(name);
    ResourceIdFixesExactlyCleanNames(ResourceId(name));
  }

  /** `new StackConfig(id, stage, stack)`. Only the compiled variant rejects a
      missing stage up front. */
  function NewStackConfig(v: Variant, id: string, stage: Option<Stage>, stack: Props): (r: Result<StackConfig, ConfigError>)
    ensures r.Failure? <==> v == Dist && stage.None?
    ensures r.Failure? ==> r.error == InvalidStage(id)
    ensures r.Success? ==> r.value.id == id && r.value.stage == stage && r.value.stack == stack
  {
    if v == Dist && stage.None? then Failure(InvalidStage(id))
    else Success(StackConfig(id, stage, stack))
  }

  /** `Stage.getStack(id)` (identical in both variants). */
  function GetStack(st: Stage, id: string): (r: Result<StackConfig, ConfigError>)
    ensures r.Success? <==> id in st.stacks
    ensures r.Failure? ==> r.error == InvalidStack(id)
    ensures r.Success? ==> r.value.id == id && r.value.stage == Some(st) && r.value.stack == st.stacks[id]
  {
    if id !in st.stacks then Failure(InvalidStack(id))
    else NewStackConfig(Dist, id, Some(st), st.stacks[id])
  }

  /** A config obtained through the compiled constructor always has its stage,
      so no lookup on it ever trips over an undefined stage. */
  lemma DistConfigsNeverLoseStage(id: string, stage: Option<Stage>, stack: Props, name: string, default: JsValue)
    requires NewStackConfig(Dist, id, stage, stack).Success?
    ensures GetProperty(Dist, NewStackConfig(Dist, id, stage, stack).value, name, default).Failure? ==>
              GetProperty(Dist, NewStackConfig(Dist, id, stage, stack).value, name, default).error == MissingValue(name)
  {
  }

  /** Looking up a property on a stack obtained from a stage consults that
      stack's declared props first and the stage's props second. */
  lemma GetStackThenGetProperty(st: Stage, id: string, name: string, default: JsValue)
    requires id in st.stacks
    requires Truthy(Lookup(st.stacks[id].values, name)) || Truthy(StageProperty(st, name)) || Truthy(default)
    ensures GetProperty(Src, GetStack(st, id).value, name, default).Success?
    ensures Truthy(Lookup(st.stacks[id].values, name)) ==>
              GetProperty(Src, GetStack(st, id).value, name, default).value == Lookup(st.stacks[id].values, name).s
    ensures !Truthy(Lookup(st.stacks[id].values, name)) && Truthy(StageProperty(st, name)) ==>
              GetProperty(Src, GetStack(st, id).value, name, default).value == StageProperty(st, name).s
  {
  }

  /** The `??` override chain behind `getRemovalPolicy`. */
  function FirstPolicy(settings: seq<PolicySetting>, default: RemovalPolicy): RemovalPolicy
  {
    if |settings| == 0 then default
    else if settings[0].PolicySet? then settings[0].policy
    else FirstPolicy(settings[1..], default)
  }

  /** `getRemovalPolicy(default_value)` of the compiled variant: stack setting,
      then stage setting, then the caller's default. */
  function RemovalPolicyOr(c: StackConfig, default: RemovalPolicy): (r: Result<RemovalPolicy, ConfigError>)
    ensures c.stage.Some? ==> r.Success?
    ensures r.Failure? ==> r.error == StageUndefined
    ensures c.stack.removalPolicy.PolicySet? ==> r == Success(c.stack.removalPolicy.policy)
  {
    if c.stack.removalPolicy.PolicySet? then Success(c.stack.removalPolicy.policy)
    else
      match c.stage
      case None => Failure(StageUndefined)
      case Some(st) =>
        if st.props.removalPolicy.PolicySet? then Success(st.props.removalPolicy.policy)
        else Success(default)
  }

  /** `getRemovalPolicy()` with its default of RETAIN. */
  function DefaultRemovalPolicy(c: StackConfig): Result<RemovalPolicy, ConfigError> {
    RemovalPolicyOr(c, Retain)
  }

  /** On any stack obtained from a stage the removal policy never fails and is
      the first level that sets one. */
  lemma RemovalPolicyIsFirstSet(st: Stage, id: string, default: RemovalPolicy)
    requires id in st.stacks
    ensures RemovalPolicyOr(GetStack(st, id).value, default)
              == Success(FirstPolicy([st.stacks[id].removalPolicy, st.props.removalPolicy], default))
  {
    var s := [st.stacks[id].removalPolicy, st.props.removalPolicy];
    assert s[1..] == [st.props.removalPolicy];
    assert s[1..][1..] == [];
    assert FirstPolicy(s[1..], default) == if s[1].PolicySet? then s[1].policy else FirstPolicy([], default);
  }

  /** With no level setting a policy, the default is RETAIN. */
  lemma UnsetRemovalPolicyIsRetain(st: Stage, id: string)
    requires id in st.stacks
    requires !st.stacks[id].removalPolicy.PolicySet? && !st.props.removalPolicy.PolicySet?
    ensures DefaultRemovalPolicy(GetStack(st, id).value) == Success(Retain)
  {
  }

  /** Read as an untyped property, `removal_policy` resolves through the same
      `??` chain as `getRemovalPolicy`, so on linked levels both readings name
      the same policy. */
  lemma RemovalPolicyMatchesProperty(c: StackConfig, default: RemovalPolicy)
    requires c.stage.Some? && PolicyLinked(c.stack) && PolicyLinked(c.stage.value.props)
    ensures RemovalPolicyOr(c, default).Success?
    ensures GetProperty(Dist, c, "removal_policy", Str(PolicyName(default)))
              == Success(PolicyName(RemovalPolicyOr(c, default).value))
  {
    assert forall d: RemovalPolicy :: PolicyName(d) != "";
  }

  /** Stage "prod" with slug "acme", a stack "api" without overrides, and the
      region and account declared at stage level. */
  function AcmeApi(): StackConfig {
    var st := Stage("prod",
                    Props(map["slug" := Str("acme"), "region" := Str("ap-southeast-2"),
                              "account_id" := Str("123456789012")], PolicyUndefined),
                    map["api" := Props(map[], PolicyUndefined)]);
    StackConfig("api", Some(st), Props(map[], PolicyUndefined))
  }

  /** The worked example: every mandatory property of the "api" stack comes from the stage. */
  lemma AcmeLookups(v: Variant)
    ensures Slug(v, AcmeApi()) == Success("acme")
    ensures Region(v, AcmeApi()) == Success("ap-southeast-2")
    ensures AccountId(v, AcmeApi()) == Success("123456789012")
    ensures StageId(AcmeApi()) == Success("prod")
  {
    var st := AcmeApi().stage.value;
    assert StageProperty(st, "slug") == Str("acme");
    assert StageProperty(st, "region") == Str("ap-southeast-2");
    assert StageProperty(st, "account_id") == Str("123456789012");
  }

  /** The worked example: the base ARN of the "api" stack. */
  lemma AcmeBaseArnScenario()
    ensures BaseArn(Src, AcmeApi(), "secretsmanager") == Success("arn:aws:secretsmanager:ap-southeast-2:123456789012")
  {
    AcmeLookups(Src);
    BaseArnLayout(Src, AcmeApi(), "secretsmanager");
    var s1 := "arn:aws:" + "secretsmanager";
    assert s1 == "arn:aws:secretsmanager";
    var s2 := s1 + ":" + "ap-southeast-2";
    assert s2 == "arn:aws:secretsmanager:ap-southeast-2";
    assert s2 + ":" + "123456789012" == "arn:aws:secretsmanager:ap-southeast-2:123456789012";
  }

  /** The worked example: a secret ARN of the "api" stack. */
  lemma AcmeSecretArnScenario()
    ensures SecretArn(Src, AcmeApi(), "rds", "password")
              == Success("arn:aws:secretsmanager:ap-southeast-2:123456789012:secret:acme/rds:password::")
  {
    AcmeLookups(Src);
    AcmeBaseArnScenario();
    var secretBase := "arn:aws:secretsmanager:ap-southeast-2:123456789012:secret:acme";
    assert "arn:aws:secretsmanager:ap-southeast-2:123456789012" + ":secret:" + "acme" == secretBase;
    assert SecretBaseArn(Src, AcmeApi()) == Success(secretBase);
    assert secretBase + "/" + "rds" + ":" + "password" + "::"
             == "arn:aws:secretsmanager:ap-southeast-2:123456789012:secret:acme/rds:password::";
  }

  /** The worked example: the base resource id and the default removal policy. */
  lemma AcmeResourceScenario()
    ensures BaseResourceId(Dist, AcmeApi()) == Success("acme-prod-api")
    ensures DefaultRemovalPolicy(AcmeApi()) == Success(Retain)
  {
    AcmeLookups(Dist);
    assert "acme" + "-" + "prod" + "-" + "api" == "acme-prod-api";
  }
}

# aws-scripts core, modelled in Dafny

A model of the pure rule sets inside the `aws-scripts` AWS CDK helpers:

- **Configuration** covers the stage/stack configuration resolver of `StackConfig` and `Stage`. It includes:
  - the property fallback from stack to stage to default;
  - resource, export and secret naming;
  - the `getResourceID` sanitiser;
  - the removal-policy chain;
  - construction of stack configs.

  The TypeScript source (src/configuration.ts) falls back with `||`. The compiled file (dist/configuration.js) falls back with `??`, rejects a missing stage in its constructor and adds `getRemovalPolicy`. Both are modelled behind `Configuration.Variant`, and the lemmas state where the two agree and where they differ. Where the two shipped files disagree, each variant follows its own file's code.
- **Ipv6Vpc** models the `Ipv6vpc` constructor. The subnets, ordered public, then private, then isolated, receive /64 block indices out of the VPC's /56 (section 2.3 of RFC 4291). The constructor then decides the `::/0` default routes and whether an egress-only internet gateway is created.
- **SecretHydration** models the decisions of `hydrateSecret` and `hydrateRawSecret`:
  - whether the `ResourceNotFoundException` test holds;
  - the merge that never overwrites stored keys;
  - the choice between create, update, leaving the secret in place, and rethrowing.

  The Secrets Manager read is an input (`ReadOutcome`), and the first write the function would issue is the output (`Command`). The retry through the `catch` when that write itself fails is not modelled.
- **Fargate** models the plain-data decisions of the `FargateService` constructor:
  - secret-reference parsing (`name:field[:...]`);
  - image precedence;
  - falsy defaulting of counts and sizes;
  - autoscaling bounds;
  - the secret access resource.
- **BuildPipeline** models:
  - the encoding of a build environment into `Environment{i+1}Key` / `Environment{i+1}Value` parameters, with its decoding as the inverse;
  - the default secret parameter names;
  - the construct ids the `BuildPipeline` constructor registers.
- **Js** holds JavaScript's truthiness and nullishness, `||`, `??`, the members every object inherits, and the reference chains. `FirstTruthy` and `FirstDefined` work over configuration values, `FirstTruthyNumber` over optional numbers, and `FirstPresent` over optional objects. **Wrappers** holds `Option` and `Result`.

A thrown error is a `Failure` carrying a `ConfigError`. `MissingValue`, `InvalidStack` and `InvalidStage` stand for the `Error` messages `Missing value {name} for stack`, `Invalid stack {id}` and `Invalid stage {id}`. `StageUndefined` stands for the `TypeError` JavaScript raises when it reads through an undefined stage; its message comes from the runtime and is not modelled.

## Model

| member | source | states |
|---|---|---|
| Js.FirstTruthy | src/configuration.ts:134-135 | A `||` chain yields a value exactly when some level is truthy. The value is then a non-empty string taken from one of the levels. |
| Js.FirstDefined | dist/configuration.js:112 | A `??` chain yields nothing exactly when every level is null or undefined. Otherwise it yields a non-nullish value taken from one of the levels. |
| Js.FirstTruthyNumber | src/fargate.ts:121 | A `||` chain over optional numbers yields the first level that is present and non-zero, with every earlier level falsy. When no level is truthy it yields the default. |
| Js.FirstPresent | src/fargate.ts:103-108 | A `||` chain over optional objects yields the first present level, with every earlier level absent. When every level is absent it yields the default. |
| Configuration.Accept | src/configuration.ts:136-139 | The final check succeeds exactly on a truthy value and returns that value. Otherwise it fails with `MissingValue(name)`. |
| Configuration.GetProperty | src/configuration.ts:129-140 | A resolved property is never empty and comes from the stack, the stage or the default. Failure is `Missing value {name}`, or a crash on an undefined stage, which is only possible when the stage is absent. `StageProperty` models `Stage.getProperty`. |
| Configuration.SrcGetPropertyIsFirstTruthy | src/configuration.ts:134-139 | With `||`, `getProperty` returns the first truthy level among stack, stage and default, and fails when none is truthy. |
| Configuration.DistGetPropertyIsFirstDefined | dist/configuration.js:110-117 | With `??`, `getProperty` selects the first non-nullish level. It succeeds exactly when that level is a non-empty string. |
| Configuration.VariantsAgreeWithoutEmptyStrings | dist/configuration.js:112 | When neither the stack nor the stage holds an empty string, the `||` and `??` variants give the same result. |
| Configuration.EmptyStackValueSplitsVariants | dist/configuration.js:112-116 | An empty stack value falls through to the stage under `||`. Under `??` it is selected and then rejected with `MissingValue`. |
| Configuration.GetEnvironment | dist/configuration.js:132-137 | The environment exists exactly when both the account and the region resolve, and it carries those resolved values. An unresolved account is the error reported. |
| Configuration.BaseArnLayout | src/configuration.ts:244-246 | For any service the base ARN is `arn:aws:`, the service, `:`, the region, `:` and the account. It exists exactly when both resolve. When the region is unresolved its error is reported, and otherwise the account's error. Models `BaseArn`. |
| Configuration.EnvironmentAndBaseArnReportDifferentValues | dist/configuration.js:132-137 | On a stack whose levels declare neither account nor region, `getEnvironment` reports the missing `account_id`. `getBaseArn` reports the missing `region`, because it reads the region first. |
| Configuration.BaseResourceIdLayout | src/configuration.ts:192-194 | The base id is slug, `-`, stage id, `-`, stack id. It exists exactly when the slug resolves and the stage is present. Models `BaseResourceId`. |
| Configuration.FullResourceIdExtendsBase | src/configuration.ts:172-174 | The base id is a prefix of every full id, and the rest of the full id is `-` followed by the name. Models `FullResourceId`. |
| Configuration.ExportIdSharesBasePrefix | dist/configuration.js:165-175 | The export id and the base id share the prefix `slug-stageId-`. After it the export id holds the name and the base id holds the stack id. Models `StackExportId`. |
| Configuration.ExportIdIgnoresStack | src/configuration.ts:183-185 | Two stacks of one stage whose slugs resolve alike get identical export ids. |
| Configuration.SecretArnExtendsBaseArn | src/configuration.ts:206-221 | The secret base ARN is `arn:aws:secretsmanager:` + region + `:` + account + `:secret:` + slug. It is a prefix of every secret ARN, and the rest of the ARN is `/name:key::`. Models `SecretBaseArn` and `SecretArn`. |
| Configuration.SecretNameUnderSlug | src/configuration.ts:231-233 | A secret name is the slug, `/`, then the name. Models `SecretName`. |
| Configuration.SecretArnNamesSecret | src/configuration.ts:206-208 | Every secret ARN ends with the matching secret name followed by `:key::`. |
| Configuration.ResourceId | src/configuration.ts:255-257 | The sanitiser preserves length. It keeps every character in `[A-Za-z0-9-]` and turns every other character into `-`. |
| Configuration.ResourceIdAlphabet | src/configuration.ts:255-257 | The output uses only `[A-Za-z0-9-]`. |
| Configuration.ResourceIdFixesExactlyCleanNames | src/configuration.ts:255-257 | A name is unchanged exactly when it is already within the alphabet. |
| Configuration.ResourceIdIdempotent | src/configuration.ts:255-257 | Sanitising twice is the same as sanitising once. |
| Configuration.NewStackConfig | dist/configuration.js:234-239 | The compiled constructor fails with `Invalid stage {id}` exactly when the stage is missing. Otherwise the config holds the given id, stage and stack. |
| Configuration.GetStack | src/configuration.ts:325-331 | `getStack` fails with `Invalid stack {id}` exactly when the id is not declared. Otherwise the config carries that id, the stage and the declared props. |
| Configuration.DistConfigsNeverLoseStage | dist/configuration.js:234-236 | A config built by the compiled constructor can only fail a lookup with `MissingValue`. |
| Configuration.GetStackThenGetProperty | src/configuration.ts:134-135 | For a stack taken from a stage with at least one truthy level, the lookup succeeds. It yields the stack value when that is truthy, and otherwise the stage value. |
| Configuration.RemovalPolicyOr | dist/configuration.js:122-126 | When the stage is present, `getRemovalPolicy` never fails. A stack-level setting always wins. |
| Configuration.RemovalPolicyIsFirstSet | dist/configuration.js:122-126 | For a stack taken from a stage, the policy is the first level that sets one, among stack, stage and the default. `FirstPolicy` is the reference chain. |
| Configuration.UnsetRemovalPolicyIsRetain | dist/configuration.js:122 | When no level sets a policy, the result is RETAIN. Models `DefaultRemovalPolicy`. |
| Configuration.RemovalPolicyMatchesProperty | dist/configuration.js:110-126 | When each level's typed policy and untyped `removal_policy` key agree, the removal policy never fails. Reading `removal_policy` through `getProperty` with the default policy's name then yields the name of the policy `getRemovalPolicy` returns. `PolicyName` gives the `cdk.RemovalPolicy` strings, and `PolicyLinked` ties the two views. |
| Configuration.AcmeLookups | src/configuration.ts:63-83 | In a worked example the stack declares nothing and every mandatory property resolves from the stage. `Slug`, `AccountId`, `Region` and `StageId` model `getSlug`, `getAccountId`, `getRegion` and `getStageId`. |
| Configuration.AcmeBaseArnScenario | src/configuration.ts:244-246 | In the worked example the secrets manager base ARN puts the region before the account: `arn:aws:secretsmanager:ap-southeast-2:123456789012`. |
| Configuration.AcmeSecretArnScenario | src/configuration.ts:206-221 | The worked example gives the secret ARN `arn:aws:secretsmanager:ap-southeast-2:123456789012:secret:acme/rds:password::`. |
| Configuration.AcmeResourceScenario | dist/configuration.js:173-175 | The worked example gives the base id `acme-prod-api` and the default removal policy RETAIN. |
| Ipv6Vpc.AssignBlocks | src/ipv6vpc.ts:31-39 | Subnets are numbered public, then private, then isolated, each group in its own order. Position i gets block i, and blocks are injective. With at most 256 subnets every block is below 256. Every subnet auto-assigns IPv6 addresses. |
| Ipv6Vpc.Ipv6Routes | src/ipv6vpc.ts:42-64 | An egress-only gateway exists exactly when there are private subnets. Every route goes to `::/0` and enables internet connectivity. Public subnets route to the internet gateway only when one exists, and every gateway route leads from a public subnet to that internet gateway. Every private subnet routes to the egress gateway, and only private subnets do. The routes of each subnet group are built by `DefaultRoutes`. `HasInternetGateway` models the `if (this.internetGatewayId)` test. |
| Ipv6Vpc.IsolatedSubnetsHaveNoRoute | src/ipv6vpc.ts:42-64 | A subnet declared only as isolated receives no default route. |
| Ipv6Vpc.NoPrivateSubnetsNoEgressGateway | src/ipv6vpc.ts:59-64 | Without private subnets there is no egress-only gateway, and every route goes to the internet gateway. |
| SecretHydration.IsResourceNotFoundError | dist/helper.js:63-68 | The test holds exactly for an object whose `name` is `ResourceNotFoundException`. |
| SecretHydration.OnError | dist/helper.js:149-163 | On NotFound the function creates the secret under its name with the given value. Any other error is rethrown. |
| SecretHydration.PrototypeNamedDefaultIsDropped | dist/helper.js:131 | A default key named `toString` is never written into an empty secret, and no change is reported. Models `MergeAsWritten`, the merge loop as written. |
| SecretHydration.Merge | dist/helper.js:129-135 | The merged keys are the stored keys plus the default keys. Stored values are kept and missing keys get their defaults. A change is reported exactly when a default key was missing. |
| SecretHydration.MergeIsUnion | dist/helper.js:130-135 | The merge equals the union of defaults and stored values, with stored values winning. |
| SecretHydration.MergeChangesIffKeyMissing | dist/helper.js:129-137 | `anyChanged` holds exactly when the default keys are not all stored. |
| SecretHydration.MergeAgreesOffPrototype | dist/helper.js:131 | The merge as written and the corrected merge agree whenever no default key names an inherited member. |
| SecretHydration.HydrateSecret | dist/helper.js:117-164 | A failed read goes to the shared error handler. An update targets the ARN that was read. A create carries exactly the defaults. A successful read ends in an update, in leaving the secret in place, or in rethrowing a JSON syntax error. |
| SecretHydration.HydrateSecretUpdatesOnlyMissingKeys | dist/helper.js:124-147 | For a stored JSON secret, an update is issued exactly when some default key is missing. It writes the union, with stored values winning. Otherwise the secret is left in place. |
| SecretHydration.HydrateSecretFillsEmptySecret | dist/helper.js:125-127 | An absent or empty `SecretString` is treated as `{}`. The secret is updated to exactly the defaults, or left in place when there are none. |
| SecretHydration.HydrateSecretAsWritten | dist/helper.js:117-164 | The hydration with the merge loop as written, which sees inherited members. `JSON.parse`, the update error and the entries order are abstracted as for `HydrateSecret`. A failed read goes to the shared error handler, and an update targets the ARN that was read. |
| SecretHydration.HydrateSecretAsWrittenAgrees | dist/helper.js:131 | When no default key names an inherited member, the hydration as written and as corrected issue the same command. |
| SecretHydration.HydrateSecretAsWrittenSkipsToString | dist/helper.js:125-143 | A secret without a value and a default named `toString`: as written the secret is left in place, empty. As corrected it is updated to `{toString: x}`. |
| SecretHydration.HydrateSecretSettles | dist/helper.js:124-147 | Once the secret holds what a run created or updated, the next run leaves it in place. |
| SecretHydration.HydrateRawSecret | dist/helper.js:166-203 | A stored secret is updated to the value exactly when it is absent or empty, and left in place otherwise. A failed read creates the secret on NotFound and rethrows on any other error. |
| SecretHydration.HydrateRawSecretSettles | dist/helper.js:174-186 | Once the secret holds what a run created or updated, the next run leaves it in place, unless the value is empty. An empty value reads back as missing and is written again on every run. |
| Fargate.Split | src/fargate.ts:92 | `split` always gives at least one piece, and no piece contains the separator. |
| Fargate.JoinSplit | src/fargate.ts:92 | Joining the pieces with the separator gives back the original text. `Join` models `parts.join(sep)`. |
| Fargate.SplitCountsSeparators | src/fargate.ts:92 | Text splits into two or more pieces exactly when it contains the separator. |
| Fargate.ParseSecretRef | src/fargate.ts:92 | The secret name and field contain no `:`. There is no field exactly when the reference contains no `:`, and then the name is the whole reference. Otherwise `name:field` is a prefix of the reference that ends at a `:` or at the end. |
| Fargate.ParseSecrets | src/fargate.ts:85-101 | The parsed keys are exactly the entries with a non-empty reference, each parsed from its own reference. No secrets means no entries. |
| Fargate.PickImage | src/fargate.ts:103-108 | An explicit image wins, then the repository image at `imageVersion` (default `latest`). The default registry image `nginxdemos/hello:latest` is used exactly when neither is given. |
| Fargate.PickImageIsJsOr | src/fargate.ts:103-108 | The image is the `||` chain of the supplied image, then the repository image, then the registry default. |
| Fargate.AutoScaling | src/fargate.ts:148-162 | Scaling is configured exactly for a truthy CPU target. Max is `maxCount` or twice the desired count, and min is `minCount` or the desired count. |
| Fargate.SecurityGroupIdIsClean | src/fargate.ts:115 | The construct id of the new security group is `SecurityGroup`, unchanged by the sanitiser. |
| Fargate.ResolveSettings | src/fargate.ts:72-146 | A falsy desired count, memory or cpu becomes 1, 512 or 256, and truthy values pass through. The grace period defaults to 60 s, the health check path to `/health-check` and the sub-domain to the empty string. A security group is created exactly when none is supplied. |
| Fargate.NumberOrIsJsOr | src/fargate.ts:121 | Defaulting an optional number is the one-level `||` chain. Models `NumberOr`. |
| Fargate.ResolveSettingsFollowsJsOr | src/fargate.ts:121-151 | The desired count, memory, cpu, grace period, environment and both scaling bounds are each the `||` chain of their option and default. The scaling bounds default from the resolved desired count. |
| Fargate.DefaultScalingBracketsDesired | src/fargate.ts:149-153 | With a positive or default desired count and no explicit bounds, min equals the desired count and max exceeds it. |
| Fargate.SecretAccessCoversStackSecrets | src/fargate.ts:189-195 | The secret read policy resource `base/*` covers every secret ARN of the stack. Models `SecretAccessResource`. |
| BuildPipeline.NatToString | src/build-pipeline.ts:50 | The decimal rendering of `index + 1` is never empty, and is one character exactly for numbers below 10. |
| BuildPipeline.NatToStringInjective | src/build-pipeline.ts:50-51 | Different numbers render differently. |
| BuildPipeline.ParameterNamesDistinct | src/build-pipeline.ts:50-51 | Key and value parameter names never clash, and different positions get different names. `KeyParameter` and `ValueParameter` build the names. |
| BuildPipeline.EncodeEnvironment | src/build-pipeline.ts:45-54 | Entry i becomes `Environment{i+1}Key` = key and `Environment{i+1}Value` = value. The result's names are the caller's names plus these. Caller parameters with other names are kept. Decoding the result gives back the environment. `CopyParameters` models the copy of the caller's parameters. |
| BuildPipeline.DecodeRecoversEnvironment | src/build-pipeline.ts:49-54 | Parameters that hold every entry's key and value decode to exactly the environment. `DecodeEnvironment` is the decoding. |
| BuildPipeline.ParameterNamesCount | src/build-pipeline.ts:49-54 | n entries add exactly 2n parameter names. `ParameterNames` is the set of names written. |
| BuildPipeline.SecretDefaults | src/build-pipeline.ts:106-136 | The defaults exist exactly when the slug resolves. They are `getSecretName('Pipeline')` and `getSecretName('GithubToken')`, and both keys are `secret`. |
| BuildPipeline.DefaultSecretNamesDiffer | src/build-pipeline.ts:106-126 | The webhook and GitHub token defaults name different secrets. |
| BuildPipeline.EnvironmentIds | src/build-pipeline.ts:61-69 | The parameter ids of entry i sit at positions 2i and 2i+1, key first. |
| BuildPipeline.EnvironmentIdsDistinct | src/build-pipeline.ts:61-69 | The environment parameter ids are pairwise distinct. |
| BuildPipeline.ScopeIdsAsWrittenCollide | src/build-pipeline.ts:139-149 | As written, the two secret imports share a construct id, whatever the environment. `FixedIdsAsWritten` and `ScopeIdsAsWritten` list the ids as written. |
| BuildPipeline.ScopeIdsDistinct | src/build-pipeline.ts:61-230 | With the GitHub token import renamed, every construct id in the scope is unique for any number of environment entries. `FixedIds` and `ScopeIds` list the corrected ids. |

## Left out

- CDK construct creation and every call into aws-cdk-lib are not modelled, apart from the ids and values named in "## Model". The construct ids `FargateService`, `CpuScaling` and `Record` and the per-secret `fromSecretNameV2` ids of src/fargate.ts, and `Ipv6Cidr`, `EgressOnlyIGW` and `Default6Route` of src/ipv6vpc.ts, are not modelled. This covers nested stacks, `CfnVPCCidrBlock`, `Fn.cidr`/`Fn.select`, IAM policies, the load balancer, the subnet fix-up, health check wiring and the Route53 alias. The library is not part of this model.
- Ipv6Vpc.AssignBlocks: blocks are indices into the abstract 256-entry /64 list, and CIDR arithmetic is not modelled. More than 256 subnets would make `Fn.select` fail at deploy time. The contract only promises in-range blocks for at most 256 subnets.
- Configuration values are `undefined`, `null` or strings. Numbers, booleans and objects under arbitrary keys are not modelled.
- Configuration.GetProperty: the stack props are always present. The `this.stack?.` guard for an undefined stack is not modelled.
- Configuration.GetProperty: a name inherited from `Object.prototype`, such as `toString`, reads as undefined when a level does not declare it. In JavaScript `stack[name]` finds the inherited function, which is truthy and would be returned. Values are undefined, null or strings, and functions are not modelled.
- Configuration.GetStack: likewise an undeclared stack id such as `constructor` fails here with `Invalid stack`. In JavaScript `stacks[id]` finds the inherited member, and a config is built from it.
- `getStackName`, `getStageName`, `getStage`, `getId`, `getStackProps` and `Stage.getSlug` (the stage's own slug; `StackConfig.getSlug` is `Configuration.Slug`) are plain field reads or wrappers that carry nothing to prove. `getProps` is visible through `RemovalPolicyOr`.
- Configuration.RemovalPolicyOr: it follows the compiled file. src/configuration.ts has no `getRemovalPolicy`. The policy is read through its declared `cdk.RemovalPolicy` type. A `removal_policy` holding some other string is not modelled. `Configuration.PolicyLinked` ties the typed field to the untyped key.
- Configuration.ResourceId: works on `char`s. JavaScript's regular expression sees UTF-16 code units, so a character outside the Basic Multilingual Plane becomes two dashes there but one here.
- The Secrets Manager client, credentials, the MFA prompt, `console.log` and `async`/`await` are not modelled. The read outcome is an input and the issued write is the output.
- SecretHydration.HydrateSecret: it uses the corrected merge, so it adds a missing default key even when the key names an inherited member. The code as written is SecretHydration.HydrateSecretAsWritten, which agrees with it on every other input (SecretHydration.HydrateSecretAsWrittenAgrees).
- SecretHydration.HydrateSecretUpdatesOnlyMissingKeys: it is stated for the corrected merge. As written, a missing default named after an inherited member does not count as missing.
- SecretHydration.HydrateSecretFillsEmptySecret: it is stated for the corrected merge. As written, defaults named after inherited members are not written into the empty secret.
- SecretHydration.HydrateRawSecret: an error thrown by the update call goes back through the same `catch` in the source, which creates the secret on NotFound and rethrows anything else. The model stops at the `Update` command.
- SecretHydration.HydrateSecretAsWritten: `JSON.parse` is a parameter that returns a string map or fails with a `SyntaxError`. Stored JSON such as `null` or `42` parses to a non-object in JavaScript, and `name in existingValue` then throws a `TypeError` that the `catch` rethrows. That case is not modelled.
- SecretHydration.HydrateSecretAsWritten: an error thrown by the update call goes back through the same `catch` in the source, where NotFound would create the secret. The model stops at the `Update` command.
- SecretHydration.HydrateSecretAsWritten: `Object.entries` order is taken as the order of the `defaults` sequence.
- SecretHydration.HydrateSecret: `JSON.parse` is a parameter that returns a string map or fails with a `SyntaxError`. Stored JSON that parses to a non-object, and `JSON.stringify`, are not modelled.
- SecretHydration.HydrateSecret: an error thrown by the update call itself goes through the same `catch` in the source. That second pass is not modelled.
- SecretHydration.HydrateSecret: `Object.entries` order is taken as the order of the `defaults` sequence.
- Fargate.ResolveSettings: numbers are integers, so NaN is not modelled. The image, repository and security group are named by id.
- Fargate.ParseSecrets: the `ecs.Secret` objects are the parsed `(name, field)` pairs.
- BuildPipeline.EncodeEnvironment: the environment is given in `Object.keys` order. The copy of the caller's props and parameters shows only in that the input value is not changed, since values are immutable.
- `loadJsonFile`, the `dist` copies of the Fargate, VPC and pipeline constructs, the type stubs and the example applications are not part of this model.

## Findings

| source | as written | input that shows it | evidently intended | confidence | as-written member | corrected member |
|---|---|---|---|---|---|---|
| dist/helper.js:131 | `!(name in existingValue)` also sees members inherited from `Object.prototype` | a default key `toString` for a secret that does not store it: nothing is written and no update is issued | add every default key that the stored secret does not itself hold, as the comment at dist/helper.js:128 says | high; not executed | SecretHydration.MergeAsWritten, SecretHydration.PrototypeNamedDefaultIsDropped, SecretHydration.HydrateSecretAsWritten, SecretHydration.HydrateSecretAsWrittenSkipsToString | SecretHydration.Merge, SecretHydration.MergeIsUnion, SecretHydration.HydrateSecret, SecretHydration.HydrateSecretUpdatesOnlyMissingKeys |
| src/build-pipeline.ts:139-149 | both `fromSecretNameV2` imports use the construct id `WebhookAccessTokenSecret` in the same scope | any environment, including the empty one: the second import repeats the id, which the construct library refuses | distinct ids, as the compiled file dist/build-pipeline.js:66 names the first import `GithubAccessTokenSecret` | high; not executed | BuildPipeline.ScopeIdsAsWritten, BuildPipeline.ScopeIdsAsWrittenCollide | BuildPipeline.ScopeIds, BuildPipeline.ScopeIdsDistinct |

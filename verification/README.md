# MembershipProviderOverride in Dafny

A model of the integration-test helper `MembershipProviderOverride` of
RavenDBMembership. The helper swaps ASP.NET's process-wide membership provider
for a test double and later puts the original back. It has three parts:

- **Override-key validation** (`ValidateConfigurationValue`). A key that spells
  `name` or `type` in any letter case is reserved. Any other key must equal one
  of ten whitelist entries exactly. The entry for the attempt window is written
  `passwordAttemptWindow=`, trailing `=` included. So the bare
  `passwordAttemptWindow` is refused. The model keeps this as written.
- **Effective configuration** (`InitializeMembershipProviderFromConfigEntry`).
  It copies the parameters of the first provider entry that carries the
  configured name, or fails. It forces `connectionStringName` to
  `StubConnectionString`. It then validates and applies the override pairs in
  order, so the last pair for a key wins. The result goes to the provider's
  `Initialize`.
- **Inject / Restore.** These are transitions over an explicit record of
  Membership's private statics `s_Initialized`, `s_Provider` and `s_Providers`,
  plus the controller's fields `_originalProvider` and `_injectedProvider`.
  Dispose calls are recorded in a log inside the same record.

Files:

- `results.dfy`: Option, Result and Outcome.
- `text.dfy`: ASCII lower-casing, and its link to case-insensitive spelling.
- `name_values.dfy`: NameValueCollection as an ordered list of entries.
- `provider_config.dfy`: validation and the effective configuration.
- `provider_override.dfy`: the world record, Inject, Restore and the protocol lemmas.

Three behaviours of the code that a reader might not expect are kept as written:

- Restore clears `_originalProvider` but not `_injectedProvider`.
- The Restore guard compares references, and null equals null. So Restore on a
  fresh controller with no provider installed is not a no-op: it sets
  `initialized` to false.
- The whitelist keeps `passwordAttemptWindow=`. It does not correct it to
  `passwordAttemptWindow`.

Assumptions about framework code outside MembershipProviderOverride.cs:

- A collection copied from `ProviderSettings.Parameters` compares names
  ordinally. The parameters collection is built with an ordinal comparer, and
  the copy constructor inherits it. So the model's `Get` and `Set` match names
  exactly.
- Each name holds a single value.

## Model

| member | source | states |
|---|---|---|
| ProviderConfig.ValidationPolicy | src/RavenDBMembership.IntegrationTests/ProviderFixtures/MembershipProviderOverride.cs:123-141 | A key is accepted exactly when it is one of the ten whitelist entries (case-sensitive). It is refused as reserved exactly when it spells `name` or `type` in some mix of upper and lower case. Every other key is refused as unknown. The value never matters. |
| ProviderConfig.ReservedKeyExamples | src/RavenDBMembership.IntegrationTests/ProviderFixtures/MembershipProviderOverride.cs:125-126 | `Name` and `TYPE` are refused as reserved. |
| ProviderConfig.BarePasswordAttemptWindowIsUnknown | src/RavenDBMembership.IntegrationTests/ProviderFixtures/MembershipProviderOverride.cs:129-141 | `passwordAttemptWindow` is refused as unknown, because the whitelist holds only `passwordAttemptWindow=`. |
| ProviderConfig.BogusSettingIsUnknown | src/RavenDBMembership.IntegrationTests/ProviderFixtures/MembershipProviderOverride.cs:136-141 | A key outside the whitelist, such as `bogusSetting`, is refused as unknown. |
| ProviderConfig.AcceptedKeyExamples | src/RavenDBMembership.IntegrationTests/ProviderFixtures/MembershipProviderOverride.cs:129-136 | `minRequiredPasswordLength` is accepted, and so is the malformed entry `passwordAttemptWindow=`. |
| Text.LowerEqualsIffCaseVariant | src/RavenDBMembership.IntegrationTests/ProviderFixtures/MembershipProviderOverride.cs:125 | Comparing `ToLower(s)` with a lower-case word holds exactly when `s` spells that word letter by letter, each letter in either case. |
| NameValues.Set | src/RavenDBMembership.IntegrationTests/ProviderFixtures/MembershipProviderOverride.cs:112-117 | After setting `k` to `v`, reading `k` yields `v` and every other key reads as before. An existing key keeps its position. A new key is appended after all the others. |
| ProviderConfig.FindProviderParameters | src/RavenDBMembership.IntegrationTests/ProviderFixtures/MembershipProviderOverride.cs:98-105 | There is no result exactly when no entry carries the provider name. Otherwise the result is the parameters of the first entry that carries it. |
| ProviderConfig.MissingEntryIsConfigMissing | src/RavenDBMembership.IntegrationTests/ProviderFixtures/MembershipProviderOverride.cs:107-110 | With no matching entry, building the configuration fails with ConfigMissing whatever the overrides are, invalid ones included. |
| ProviderConfig.ApplyOverrides | src/RavenDBMembership.IntegrationTests/ProviderFixtures/MembershipProviderOverride.cs:114-118 | The override loop succeeds exactly when every pair passes the key check. On failure, the error is the check's error for the first failing pair, and every pair before it passed. The loop takes the check as a parameter, and the effective configuration always passes ValidateConfigurationValue. |
| ProviderConfig.ApplyOverridesGet | src/RavenDBMembership.IntegrationTests/ProviderFixtures/MembershipProviderOverride.cs:114-118 | After a successful loop, each key holds the value of the last pair naming it. A key that no pair names keeps its previous value. |
| ProviderConfig.ApplyOverridesKeys | src/RavenDBMembership.IntegrationTests/ProviderFixtures/MembershipProviderOverride.cs:114-118 | The loop keeps every existing key, in its order. The only keys it adds are keys that some pair names. |
| ProviderConfig.EffectiveConfigurationContents | src/RavenDBMembership.IntegrationTests/ProviderFixtures/MembershipProviderOverride.cs:94-118 | Take the first entry carrying the provider name. The configuration exists exactly when every override key is a whitelist entry. `connectionStringName` is the stub unless an override sets it. Each overridden key holds its last override. Every other key keeps the entry's value, and the entry's keys keep their order. |
| ProviderConfig.InitializeFromConfigEntry | src/RavenDBMembership.IntegrationTests/ProviderFixtures/MembershipProviderOverride.cs:91-121 | Succeeds exactly when the effective configuration (stub connection string, then the validated overrides) can be built and the provider's Initialize accepts it under the provider name; the returned configuration is then that effective configuration. InitFailed means the configuration was built and Initialize rejected it. Any other error is the error from building the configuration. |
| ProviderOverride.InjectMembershipImplementation | src/RavenDBMembership.IntegrationTests/ProviderFixtures/MembershipProviderOverride.cs:25-44 | The controller records the installed provider as the original only if membership was initialized. It always records the new provider as injected, even when the injection fails. A failure leaves the process-wide state unchanged. A success installs the new provider, marks membership initialized, and sets a read-only collection holding exactly that provider. |
| ProviderOverride.RestoreMembershipImplementation | src/RavenDBMembership.IntegrationTests/ProviderFixtures/MembershipProviderOverride.cs:46-59 | If the installed provider is not the recorded injected one (null counts as a value), nothing changes. Otherwise the installed provider is disposed once if it is disposable, and the original goes back. `initialized` becomes whether the original is non-null. The recorded original is cleared. The injected field and the provider collection are untouched. |
| ProviderOverride.InjectConfigMissingIff | src/RavenDBMembership.IntegrationTests/ProviderFixtures/MembershipProviderOverride.cs:98-110 | Inject fails with ConfigMissing exactly when no entry of the section carries the provider name. |
| ProviderOverride.InjectKeyErrorCause | src/RavenDBMembership.IntegrationTests/ProviderFixtures/MembershipProviderOverride.cs:114-141 | A reserved-key or unknown-key failure means the provider entry was found. The error names the first override key that is not a whitelist entry, and every earlier key is one. |
| ProviderOverride.InjectInitFailedCause | src/RavenDBMembership.IntegrationTests/ProviderFixtures/MembershipProviderOverride.cs:120 | InitFailed means the effective configuration was built and the provider's Initialize rejected it. |
| ProviderOverride.InjectUsesEffectiveConfiguration | src/RavenDBMembership.IntegrationTests/ProviderFixtures/MembershipProviderOverride.cs:32-34 | Inject succeeds exactly when the effective configuration exists and the provider accepts it. That configuration is the one the provider is initialized with. |
| ProviderOverride.ProtocolPreservesCoherence | src/RavenDBMembership.IntegrationTests/ProviderFixtures/MembershipProviderOverride.cs:38-56 | Suppose membership is initialized exactly when a provider is installed. Then this still holds after Inject and after Restore. |
| ProviderOverride.InjectRestoreRoundTrip | src/RavenDBMembership.IntegrationTests/ProviderFixtures/MembershipProviderOverride.cs:27-57 | Start either initialized with a provider, or uninitialized with none. A successful Inject followed by Restore brings back `initialized` and the installed provider. The collection still holds the injected provider. A disposable injected provider has been disposed once more. |
| ProviderOverride.RoundTripNeedsCoherentStart | src/RavenDBMembership.IntegrationTests/ProviderFixtures/MembershipProviderOverride.cs:27-30 | Suppose a provider is installed while `initialized` is false. It is not recorded as the original, so after Inject and Restore no provider is installed. |
| ProviderOverride.RestoreTwiceIsRestoreOnce | src/RavenDBMembership.IntegrationTests/ProviderFixtures/MembershipProviderOverride.cs:48-57 | When the recorded original differs from the recorded injected provider, a second Restore changes nothing. |
| ProviderOverride.DisposedExactlyOnce | src/RavenDBMembership.IntegrationTests/ProviderFixtures/MembershipProviderOverride.cs:48-57 | Run Inject, Restore, Restore, where the injected provider is not the installed original. A disposable injected provider is disposed exactly once. No other provider is disposed. |
| ProviderOverride.RestoreOnFreshController | src/RavenDBMembership.IntegrationTests/ProviderFixtures/MembershipProviderOverride.cs:48-57 | Restore on a fresh controller with no provider installed passes the guard. It clears `initialized` and changes nothing else. |
| ProviderOverride.NestedInjectLosesOriginal | src/RavenDBMembership.IntegrationTests/ProviderFixtures/MembershipProviderOverride.cs:27-30 | After two injections with no Restore between them, Restore installs the first injected provider, so the provider that was installed before the first injection is lost: the final current provider differs from the starting one. |
| ProviderOverride.MinimumPasswordLengthConfiguration | src/RavenDBMembership.IntegrationTests/ProviderFixtures/MembershipProviderOverride.cs:112-118 | Overriding `minRequiredPasswordLength` with `8` gives a configuration with the stub connection string and that length. |
| ProviderOverride.MinimumPasswordLengthScenario | src/RavenDBMembership.IntegrationTests/ProviderFixtures/MembershipProviderOverride.cs:25-57 | Start uninitialized and inject that override with an accepting provider. The injection succeeds, membership is initialized, and the configuration holds the stub and the length. A Restore makes membership uninitialized again. |

## Left out

- Reflection access to `s_Initialized`, `s_Provider` and `s_Providers` is replaced by a plain record. The `Membership.Provider` getter is left out. It reads `s_Initialized` and may lazily initialize membership from the real configuration, or throw.
- `ConfigurationManager.GetSection` and the parsing of the membership section are left out. The section is an input list of entries. A missing section, which dereferences null in the source, is not modelled.
- `FixtureConstants` is not part of this model. The configured provider name is a parameter.
- `GetProvider` is a parameter that yields a non-null provider. A factory that throws or returns null is not modelled.
- `PostInitializeUpdate` is assumed not to throw and not to touch the modelled state. Its default does nothing.
- `IsSqlMembershipProvider` is left out. The protocol never reads it.
- `MembershipProvider.Initialize` is an opaque predicate that accepts or rejects a configuration. Its effect on the provider's own state is not modelled.
- Exceptions and their messages become the error values `ConfigMissing`, `ReservedKey`, `UnknownKey` and `InitFailed`.
- `String.ToLower` is culture-sensitive. The model lower-cases ASCII letters only. `name` and `type` contain only ASCII letters, and the model assumes no other character lower-cases to one of them. A null key, which throws in the source, is not modelled.
- NameValueCollection keys that hold several values, and its hashing, are left out. Names are compared ordinally, as explained above.
- `MembershipProviderCollection.Add` can reject a null provider or a duplicate name. Neither happens on a fresh collection with one non-null provider, so those checks are left out.
- Concurrent tests sharing the process-wide state, and NUnit itself, are left out. The protocol is sequential.
- ProviderOverride.DisposedExactlyOnce: assumes the injected provider is not the installed original. When it is, the second Restore disposes it again, so the exactly-once promise holds only under that assumption.

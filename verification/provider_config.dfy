/** The configuration side of the override controller: the key policy applied
    to every test override, and the construction of the effective
    configuration handed to the injected provider's Initialize. */
module ProviderConfig {
  import opened Results
  import opened Text
  import opened NameValues

  /** Why an injection was aborted. The source throws; the model returns. */
  datatype Error =
    | ConfigMissing             // no provider entry carries the configured provider name
    | ReservedKey(key: string)  // an override tried to set `name` or `type`
    | UnknownKey(key: string)   // an override named a setting outside the whitelist
    | InitFailed                // the provider's Initialize rejected the configuration

  /** One `<add name=... />` element of the membership section's provider list. */
  datatype ProviderSettings = ProviderSettings(name: string, parameters: Collection)

  /** The providers of the `system.web/membership` section, in document order. */
  type MembershipSection = seq<ProviderSettings>

  /** The settings an override may target, as written in the source: the ninth
      entry carries a trailing `=`, so the bare `passwordAttemptWindow` is not
      among them. */
  const ExpectedConfigurationValues: seq<string> := [
    "connectionStringName", "enablePasswordRetrieval", "enablePasswordReset",
    "requiresQuestionAndAnswer", "requiresUniqueEmail", "maxInvalidPasswordAttempts",
    "minRequiredPasswordLength", "minRequiredNonalphanumericCharacters",
    "passwordAttemptWindow=", "applicationName"
  ]

  const ConnectionStringNameKey := "connectionStringName"
  const StubConnectionString := "StubConnectionString"

  /** The reserved-name test: the key lower-cased is `name` or `type`. */
  predicate IsReservedName(name: string) {
    ToLower(name) == "name" || ToLower(name) == "type"
  }

  /** Rejects reserved keys in any letter case, then every key that is not,
      character for character, one of the whitelist entries. The value is
      not inspected. */
  function ValidateConfigurationValue(name: string, value: string): Outcome<Error> {
    if IsReservedName(name) then Fail(ReservedKey(name))
    else if name !in ExpectedConfigurationValues then Fail(UnknownKey(name))
    else Pass
  }

  /** The validation policy in terms independent of the lower-casing: a key is
      accepted exactly when it is a whitelist entry, it is rejected as reserved
      exactly when it spells `name` or `type` in some mix of cases, and every
      other key is rejected as unknown, whatever the value. */
  lemma ValidationPolicy(name: string, value: string)
    ensures ValidateConfigurationValue(name, value).Pass? <==> name in ExpectedConfigurationValues
    ensures ValidateConfigurationValue(name, value) == Fail(ReservedKey(name)) <==>
              IsCaseVariantOf(name, "name") || IsCaseVariantOf(name, "type")
    ensures ValidateConfigurationValue(name, value) == Fail(UnknownKey(name)) <==>
              !IsCaseVariantOf(name, "name") && !IsCaseVariantOf(name, "type") && name !in ExpectedConfigurationValues
  {
    LowerEqualsIffCaseVariant(name, "name");
    LowerEqualsIffCaseVariant(name, "type");
  }

  /** The loop over the section's providers that stops at the first entry
      whose name equals the configured provider name (ordinal comparison). */
  function FindProviderParameters(section: MembershipSection, providerName: string): (r: Option<Collection>)
    ensures r.None? <==> forall i :: 0 <= i < |section| ==> section[i].name != providerName
    ensures r.Some? ==>
      exists i :: && 0 <= i < |section|
                  && section[i] == ProviderSettings(providerName, r.value)
                  && forall j :: 0 <= j < i ==> section[j].name != providerName
  {
    if |section| == 0 then None
    else if section[0].name == providerName then Some(section[0].parameters)
    else
      var r := FindProviderParameters(section[1..], providerName);
      assert r.Some? ==> exists i :: && 0 <= i < |section[1..]|
                                     && section[1..][i] == ProviderSettings(providerName, r.value)
                                     && forall j :: 0 <= j < i ==> section[1..][j].name != providerName;
      r
  }

  /** A key check applied to each override pair before it is written. */
  type Validator = (string, string) -> Outcome<Error>

  /** The override loop: each pair is checked with `validate`, then written
      with `Set`; the first pair that fails the check aborts the whole loop.
      The source's loop always checks with ValidateConfigurationValue. */
  function ApplyOverrides(c: Collection, overrides: seq<(string, string)>, validate: Validator): (r: Result<Collection, Error>)
    ensures r.Success? <==> forall i :: 0 <= i < |overrides| ==> validate(overrides[i].0, overrides[i].1).Pass?
    ensures r.Failure? ==>
      exists i :: && 0 <= i < |overrides|
                  && validate(overrides[i].0, overrides[i].1) == Fail(r.error)
                  && forall j :: 0 <= j < i ==> validate(overrides[j].0, overrides[j].1).Pass?
    decreases overrides
  {
    if |overrides| == 0 then Success(c)
    else
      match validate(overrides[0].0, overrides[0].1)
      case Fail(e) => Failure(e)
      case Pass =>
        var rest := overrides[1..];
        var r := ApplyOverrides(Set(c, overrides[0].0, overrides[0].1), rest, validate);
        assert forall i :: 0 <= i < |rest| ==> rest[i] == overrides[i + 1];
        assert r.Failure? ==> exists i :: && 0 <= i < |rest|
                                         && validate(rest[i].0, rest[i].1) == Fail(r.error)
                                         && validate(overrides[i + 1].0, overrides[i + 1].1) == Fail(r.error)
                                         && forall j :: 0 <= j < i ==> validate(rest[j].0, rest[j].1).Pass?;
        r
  }

  /** The value the last pair named `k` carries, if any pair is named `k`. */
  function LastValue(overrides: seq<(string, string)>, k: string): Option<string> {
    if |overrides| == 0 then None
    else if overrides[|overrides| - 1].0 == k then Some(overrides[|overrides| - 1].1)
    else LastValue(overrides[..|overrides| - 1], k)
  }

  /** Finds the configured provider's parameters, copies them, stubs the
      connection string name, then applies the overrides. */
  function EffectiveConfiguration(section: MembershipSection, providerName: string,
                                  overrides: seq<(string, string)>): Result<Collection, Error>
  {
    match FindProviderParameters(section, providerName)
    case None => Failure(ConfigMissing)
    case Some(parameters) =>
      ApplyOverrides(Set(parameters, ConnectionStringNameKey, StubConnectionString), overrides,
                     ValidateConfigurationValue)
  }

  /** InitializeMembershipProviderFromConfigEntry: builds the effective
      configuration and hands it, with the provider name, to the provider's
      Initialize (an opaque predicate that may reject it). On success the
      result is the configuration the provider was initialized with. */
  function InitializeFromConfigEntry<P>(provider: P, section: MembershipSection, providerName: string,
                                        overrides: seq<(string, string)>,
                                        initialize: (P, string, Collection) -> bool): (r: Result<Collection, Error>)
    ensures r.Success? <==>
      && EffectiveConfiguration(section, providerName, overrides).Success?
      && initialize(provider, providerName, EffectiveConfiguration(section, providerName, overrides).value)
    ensures r.Success? ==> r.value == EffectiveConfiguration(section, providerName, overrides).value
    ensures r.Success? ==> initialize(provider, providerName, r.value)
    ensures r == Failure(InitFailed) ==>
      && EffectiveConfiguration(section, providerName, overrides).Success?
      && !initialize(provider, providerName, EffectiveConfiguration(section, providerName, overrides).value)
    ensures r.Failure? && r.error != InitFailed ==> r == EffectiveConfiguration(section, providerName, overrides)
  {
    match EffectiveConfiguration(section, providerName, overrides)
    case Failure(e) => Failure(e)
    case Success(config) =>
      if initialize(provider, providerName, config) then Success(config) else Failure(InitFailed)
  }

  /** `Name` and `TYPE` are refused as reserved. */
  lemma ReservedKeyExamples()
    ensures ValidateConfigurationValue("Name", "x") == Fail(ReservedKey("Name"))
    ensures ValidateConfigurationValue("TYPE", "x") == Fail(ReservedKey("TYPE"))
  {
    assert ToLower("Name") == "name";
    assert ToLower("TYPE") == "type";
  }

  /** The bare `passwordAttemptWindow` is refused as unknown, because the
      whitelist entry carries a trailing `=`. */
  lemma BarePasswordAttemptWindowIsUnknown()
    ensures ValidateConfigurationValue("passwordAttemptWindow", "10") == Fail(UnknownKey("passwordAttemptWindow"))
  {
    var name := "passwordAttemptWindow";
    assert |name| == 21;
    assert name !in ExpectedConfigurationValues by {
      WhitelistLengths();
    }
    ReservedNamesHaveFourCharacters(name);
  }

  /** A made-up key is refused as unknown. */
  lemma BogusSettingIsUnknown()
    ensures ValidateConfigurationValue("bogusSetting", "x") == Fail(UnknownKey("bogusSetting"))
  {
    var name := "bogusSetting";
    assert |name| == 12;
    assert name !in ExpectedConfigurationValues by {
      WhitelistLengths();
    }
    ReservedNamesHaveFourCharacters(name);
  }

  lemma ReservedNamesHaveFourCharacters(name: string)
    ensures IsReservedName(name) ==> |name| == 4
  {
    assert |ToLower(name)| == |name|;
  }

  /** No whitelist entry is 12 or 21 characters long. */
  lemma WhitelistLengths()
    ensures forall w :: w in ExpectedConfigurationValues ==> |w| != 12 && |w| != 21
  {
    forall i | 0 <= i < |ExpectedConfigurationValues|
      ensures |ExpectedConfigurationValues[i]| != 12 && |ExpectedConfigurationValues[i]| != 21
    {
    }
  }

  /** A whitelist entry is accepted, including the one with the stray `=`. */
  lemma AcceptedKeyExamples()
    ensures ValidateConfigurationValue("minRequiredPasswordLength", "8") == Pass
    ensures ValidateConfigurationValue("passwordAttemptWindow=", "10") == Pass
  {
    ValidationPolicy("minRequiredPasswordLength", "8");
    ValidationPolicy("passwordAttemptWindow=", "10");
  }

  /** The value `v` after the override pairs `overrides` were written over a
      collection in which the key had value `v`. */
  function Overridden(overrides: seq<(string, string)>, k: string, v: Option<string>): Option<string> {
    if LastValue(overrides, k).Some? then LastValue(overrides, k) else v
  }

  lemma {:induction false} LastValueCons(pair: (string, string), overrides: seq<(string, string)>, k: string)
    ensures LastValue([pair] + overrides, k) ==
              Overridden(overrides, k, if pair.0 == k then Some(pair.1) else None)
    decreases |overrides|
  {
    if |overrides| > 0 {
      var init := overrides[..|overrides| - 1];
      assert ([pair] + overrides)[..|overrides|] == [pair] + init;
      LastValueCons(pair, init, k);
    }
  }

  /** Applying the overrides in order: every key ends with the value of the
      last pair that names it, and a key no pair names keeps its value. */
  lemma {:induction false} ApplyOverridesGet(c: Collection, overrides: seq<(string, string)>, validate: Validator, k: string)
    requires ApplyOverrides(c, overrides, validate).Success?
    ensures Get(ApplyOverrides(c, overrides, validate).value, k) == Overridden(overrides, k, Get(c, k))
    decreases overrides
  {
    if |overrides| > 0 {
      var c' := Set(c, overrides[0].0, overrides[0].1);
      assert validate(overrides[0].0, overrides[0].1).Pass?;
      assert ApplyOverrides(c, overrides, validate) == ApplyOverrides(c', overrides[1..], validate);
      ApplyOverridesGet(c', overrides[1..], validate, k);
      assert [overrides[0]] + overrides[1..] == overrides;
      LastValueCons(overrides[0], overrides[1..], k);
    }
  }

  /** Applying the overrides keeps every existing key in its place and adds
      only keys that some pair names. */
  lemma {:induction false} ApplyOverridesKeys(c: Collection, overrides: seq<(string, string)>, validate: Validator)
    requires ApplyOverrides(c, overrides, validate).Success?
    ensures Keys(c) <= Keys(ApplyOverrides(c, overrides, validate).value)
    ensures forall k :: k in Keys(ApplyOverrides(c, overrides, validate).value) ==>
              k in Keys(c) || exists i :: 0 <= i < |overrides| && overrides[i].0 == k
    decreases overrides
  {
    if |overrides| > 0 {
      var c' := Set(c, overrides[0].0, overrides[0].1);
      var r := ApplyOverrides(c', overrides[1..], validate);
      assert validate(overrides[0].0, overrides[0].1).Pass?;
      assert ApplyOverrides(c, overrides, validate) == r;
      ApplyOverridesKeys(c', overrides[1..], validate);
      forall k | k in Keys(r.value)
        ensures k in Keys(c) || exists i :: 0 <= i < |overrides| && overrides[i].0 == k
      {
        if k !in Keys(c') {
          var i :| 0 <= i < |overrides[1..]| && overrides[1..][i].0 == k;
          assert overrides[i + 1].0 == k;
        } else if k !in Keys(c) {
          assert overrides[0].0 == k;
        }
      }
    }
  }

  /** A missing provider entry aborts the construction before any override is
      looked at, whatever the overrides are. */
  lemma MissingEntryIsConfigMissing(section: MembershipSection, providerName: string,
                                    overrides: seq<(string, string)>)
    requires forall i :: 0 <= i < |section| ==> section[i].name != providerName
    ensures EffectiveConfiguration(section, providerName, overrides) == Failure(ConfigMissing)
  {
  }

  /** The effective configuration, given the first entry carrying the provider
      name: it exists exactly when every override key is accepted, and then the
      connection string name is the stub unless an override sets it, every
      overridden key holds its last override, and every other key keeps the
      value it has in that entry; the entry's keys keep their order. */
  lemma EffectiveConfigurationContents(section: MembershipSection, providerName: string,
                                       overrides: seq<(string, string)>, i: nat)
    requires i < |section| && section[i].name == providerName
    requires forall j :: 0 <= j < i ==> section[j].name != providerName
    ensures var r := EffectiveConfiguration(section, providerName, overrides);
      && (r.Success? <==> forall n :: 0 <= n < |overrides| ==> overrides[n].0 in ExpectedConfigurationValues)
      && (r.Success? ==>
            && Keys(section[i].parameters) <= Keys(r.value)
            && forall k :: Get(r.value, k) ==
                 Overridden(overrides, k,
                            if k == ConnectionStringNameKey then Some(StubConnectionString)
                            else Get(section[i].parameters, k)))
  {
    var p := section[i].parameters;
    var found := FindProviderParameters(section, providerName);
    var j :| 0 <= j < |section| && section[j] == ProviderSettings(providerName, found.value)
             && forall j' :: 0 <= j' < j ==> section[j'].name != providerName;
    assert j == i;
    var base := Set(p, ConnectionStringNameKey, StubConnectionString);
    forall n | 0 <= n < |overrides|
      ensures ValidateConfigurationValue(overrides[n].0, overrides[n].1).Pass? <==> overrides[n].0 in ExpectedConfigurationValues
    {
      ValidationPolicy(overrides[n].0, overrides[n].1);
    }
    var r := ApplyOverrides(base, overrides, ValidateConfigurationValue);
    if r.Success? {
      ApplyOverridesKeys(base, overrides, ValidateConfigurationValue);
      forall k
        ensures Get(r.value, k) ==
                Overridden(overrides, k, if k == ConnectionStringNameKey then Some(StubConnectionString) else Get(p, k))
      {
        ApplyOverridesGet(base, overrides, ValidateConfigurationValue, k);
      }
    }
  }
}

/** The Inject/Restore protocol of MembershipProviderOverride over an explicit
    record of the process-wide membership state, which the source reaches by
    reflection into Membership's private statics. */
module ProviderOverride {
  import opened Results
  import opened NameValues
  import opened ProviderConfig

  /** A provider object: its identity, and whether it implements IDisposable. */
  datatype Provider = Provider(id: nat, disposable: bool)

  /** A MembershipProviderCollection: its members and its read-only flag. */
  datatype ProviderCollection = ProviderCollection(members: seq<Provider>, readOnly: bool)

  /** The process-wide state: `s_Initialized`, `s_Provider` and `s_Providers`
      of Membership, plus the log of every Dispose call made on a provider. */
  datatype World = World(initialized: bool, current: Option<Provider>,
                         providers: Option<ProviderCollection>, disposeLog: seq<Provider>)

  /** The controller's two fields, `_originalProvider` and `_injectedProvider`. */
  datatype Controller = Controller(original: Option<Provider>, injected: Option<Provider>)

  /** A newly constructed controller: both fields null. */
  const FreshController := Controller(None, None)

  datatype State = State(world: World, ctl: Controller)

  /** What the controller cannot see: the membership configuration section, the
      configured provider name, the provider the fixture's GetProvider returns,
      and the provider's Initialize, which accepts or rejects a configuration. */
  datatype Environment = Environment(section: MembershipSection, providerName: string, newProvider: Provider,
                                     initialize: (Provider, string, Collection) -> bool)

  /** An injection's resulting state, and either the configuration the injected
      provider was initialized with or the error that aborted the injection. */
  datatype Step = Step(state: State, outcome: Result<Collection, Error>)

  /** The consistent states of the membership statics: initialized exactly when
      a provider is installed. */
  predicate Coherent(w: World) {
    w.initialized <==> w.current.Some?
  }

  /** How many times `p` has been disposed. */
  function DisposeCount(w: World, p: Provider): nat {
    multiset(w.disposeLog)[p]
  }

  /** InjectMembershipImplementation. The controller fields are written first, so
      they change even when the injection then fails; the process-wide state
      changes only once the provider is initialized, and then it holds exactly
      the injected provider in a read-only collection. */
  function InjectMembershipImplementation(s: State, env: Environment, overrides: seq<(string, string)>): (r: Step)
    ensures r.state.ctl.original == (if s.world.initialized then s.world.current else None)
    ensures r.state.ctl.injected == Some(env.newProvider)
    ensures r.outcome.Failure? ==> r.state.world == s.world
    ensures r.outcome.Success? ==>
      && r.state.world.initialized
      && r.state.world.current == Some(env.newProvider)
      && r.state.world.providers == Some(ProviderCollection([env.newProvider], true))
      && r.state.world.disposeLog == s.world.disposeLog
      && InitializeAccepts(env, r.outcome.value)
  {
    var original := if s.world.initialized then s.world.current else None;
    var ctl := Controller(original, Some(env.newProvider));
    match InitializeFromConfigEntry(env.newProvider, env.section, env.providerName, overrides, env.initialize)
    case Failure(e) => Step(State(s.world, ctl), Failure(e))
    case Success(config) =>
      var world := s.world.(current := Some(env.newProvider), initialized := true,
                            providers := Some(ProviderCollection([env.newProvider], true)));
      Step(State(world, ctl), Success(config))
  }

  /** The injected provider's Initialize accepts `config`. */
  predicate InitializeAccepts(env: Environment, config: Collection) {
    env.initialize(env.newProvider, env.providerName, config)
  }

  /** RestoreMembershipImplementation. Nothing happens unless the installed
      provider is the one recorded as injected, null included. Otherwise the
      installed provider is disposed if it is disposable, the original provider
      goes back with `initialized` set to whether it is non-null, and the
      recorded original is cleared; the recorded injected provider and the
      provider collection stay as they are. */
  function RestoreMembershipImplementation(s: State): (r: State)
    ensures s.world.current != s.ctl.injected ==> r == s
    ensures s.world.current == s.ctl.injected ==>
      && r.world.current == s.ctl.original
      && r.world.initialized == s.ctl.original.Some?
      && r.world.providers == s.world.providers
      && r.ctl == Controller(None, s.ctl.injected)
      && forall p :: DisposeCount(r.world, p) ==
           DisposeCount(s.world, p) + (if s.world.current == Some(p) && p.disposable then 1 else 0)
  {
    if s.world.current == s.ctl.injected then
      var log := match s.world.current
        case Some(p) => if p.disposable then s.world.disposeLog + [p] else s.world.disposeLog
        case None => s.world.disposeLog;
      var world := s.world.(initialized := s.ctl.original.Some?, current := s.ctl.original, disposeLog := log);
      State(world, s.ctl.(original := None))
    else s
  }

  /** Running Inject and then Restore. */
  function InjectThenRestore(s: State, env: Environment, overrides: seq<(string, string)>): State {
    RestoreMembershipImplementation(InjectMembershipImplementation(s, env, overrides).state)
  }

  /** An injection fails with ConfigMissing exactly when no entry of the
      section carries the provider name. */
  lemma InjectConfigMissingIff(s: State, env: Environment, overrides: seq<(string, string)>)
    ensures InjectMembershipImplementation(s, env, overrides).outcome == Failure(ConfigMissing) <==>
              forall i :: 0 <= i < |env.section| ==> env.section[i].name != env.providerName
  {
  }

  /** A key error names the first override whose key is not a whitelist entry,
      and the provider entry was found. */
  lemma InjectKeyErrorCause(s: State, env: Environment, overrides: seq<(string, string)>)
    requires InjectMembershipImplementation(s, env, overrides).outcome.Failure?
    requires InjectMembershipImplementation(s, env, overrides).outcome.error.ReservedKey? ||
             InjectMembershipImplementation(s, env, overrides).outcome.error.UnknownKey?
    ensures FindProviderParameters(env.section, env.providerName).Some?
    ensures exists n :: && 0 <= n < |overrides|
                        && overrides[n].0 == InjectMembershipImplementation(s, env, overrides).outcome.error.key
                        && overrides[n].0 !in ExpectedConfigurationValues
                        && forall m :: 0 <= m < n ==> overrides[m].0 in ExpectedConfigurationValues
  {
    var e := InjectMembershipImplementation(s, env, overrides).outcome.error;
    var found := FindProviderParameters(env.section, env.providerName);
    var base := Set(found.value, ConnectionStringNameKey, StubConnectionString);
    assert ApplyOverrides(base, overrides, ValidateConfigurationValue) == Failure(e);
    var n :| && 0 <= n < |overrides|
             && ValidateConfigurationValue(overrides[n].0, overrides[n].1) == Fail(e)
             && forall m :: 0 <= m < n ==> ValidateConfigurationValue(overrides[m].0, overrides[m].1).Pass?;
    ValidationPolicy(overrides[n].0, overrides[n].1);
    forall m | 0 <= m < n
      ensures overrides[m].0 in ExpectedConfigurationValues
    {
      ValidationPolicy(overrides[m].0, overrides[m].1);
    }
  }

  /** InitFailed means the effective configuration was built and the provider's
      Initialize rejected it. */
  lemma InjectInitFailedCause(s: State, env: Environment, overrides: seq<(string, string)>)
    requires InjectMembershipImplementation(s, env, overrides).outcome == Failure(InitFailed)
    ensures EffectiveConfiguration(env.section, env.providerName, overrides).Success?
    ensures !InitializeAccepts(env, EffectiveConfiguration(env.section, env.providerName, overrides).value)
  {
  }

  /** A successful injection hands the provider the effective configuration. */
  lemma InjectUsesEffectiveConfiguration(s: State, env: Environment, overrides: seq<(string, string)>)
    ensures var r := InjectMembershipImplementation(s, env, overrides);
      r.outcome.Success? <==>
        && EffectiveConfiguration(env.section, env.providerName, overrides).Success?
        && InitializeAccepts(env, EffectiveConfiguration(env.section, env.providerName, overrides).value)
    ensures var r := InjectMembershipImplementation(s, env, overrides);
      r.outcome.Success? ==> r.outcome.value == EffectiveConfiguration(env.section, env.providerName, overrides).value
  {
  }

  /** Inject and Restore keep the membership statics coherent. */
  lemma ProtocolPreservesCoherence(s: State, env: Environment, overrides: seq<(string, string)>)
    requires Coherent(s.world)
    ensures Coherent(InjectMembershipImplementation(s, env, overrides).state.world)
    ensures Coherent(RestoreMembershipImplementation(s).world)
  {
  }

  /** The round trip: from a coherent state (initialized with some provider, or
      not initialized with none), a successful Inject followed by Restore puts
      back `initialized` and the installed provider; the provider collection
      keeps the injected provider, and a disposable injected provider has been
      disposed once. */
  lemma InjectRestoreRoundTrip(s: State, env: Environment, overrides: seq<(string, string)>)
    requires Coherent(s.world)
    requires InjectMembershipImplementation(s, env, overrides).outcome.Success?
    ensures var t := InjectThenRestore(s, env, overrides);
      && t.world.initialized == s.world.initialized
      && t.world.current == s.world.current
      && t.world.providers == Some(ProviderCollection([env.newProvider], true))
      && t.ctl == Controller(None, Some(env.newProvider))
      && DisposeCount(t.world, env.newProvider) ==
           DisposeCount(s.world, env.newProvider) + (if env.newProvider.disposable then 1 else 0)
  {
  }

  /** Without coherence the round trip fails: a provider installed while
      `initialized` is false is not recorded as the original, so Restore
      leaves no provider installed. */
  lemma RoundTripNeedsCoherentStart(p: Provider, env: Environment, overrides: seq<(string, string)>)
    requires InjectMembershipImplementation(State(World(false, Some(p), None, []), FreshController), env, overrides)
               .outcome.Success?
    ensures InjectThenRestore(State(World(false, Some(p), None, []), FreshController), env, overrides)
              .world.current == None
  {
  }

  /** A second Restore changes nothing, as long as the recorded original is not
      the recorded injected provider. */
  lemma RestoreTwiceIsRestoreOnce(s: State)
    requires s.ctl.original != s.ctl.injected
    ensures RestoreMembershipImplementation(RestoreMembershipImplementation(s)) == RestoreMembershipImplementation(s)
  {
  }

  /** Inject, Restore, Restore: a disposable injected provider that was not the
      installed original is disposed exactly once, and every other provider is
      disposed no more than before. */
  lemma DisposedExactlyOnce(s: State, env: Environment, overrides: seq<(string, string)>)
    requires !(s.world.initialized && s.world.current == Some(env.newProvider))
    requires InjectMembershipImplementation(s, env, overrides).outcome.Success?
    ensures var t := RestoreMembershipImplementation(InjectThenRestore(s, env, overrides));
      forall p :: DisposeCount(t.world, p) ==
        DisposeCount(s.world, p) + (if p == env.newProvider && p.disposable then 1 else 0)
  {
  }

  /** Restore on a fresh controller when no provider is installed passes the
      null-equals-null guard and clears `initialized`. */
  lemma RestoreOnFreshController(w: World)
    requires w.current == None
    ensures RestoreMembershipImplementation(State(w, FreshController)) ==
              State(w.(initialized := false), FreshController)
  {
  }

  /** Two injections without a Restore in between: the second records the first
      injected provider as the original, so Restore installs it rather than the
      provider that was there before. */
  lemma NestedInjectLosesOriginal(s: State, env1: Environment, env2: Environment,
                                  o1: seq<(string, string)>, o2: seq<(string, string)>)
    requires InjectMembershipImplementation(s, env1, o1).outcome.Success?
    requires InjectMembershipImplementation(InjectMembershipImplementation(s, env1, o1).state, env2, o2).outcome.Success?
    requires s.world.initialized && s.world.current.Some? && s.world.current != Some(env1.newProvider)
    ensures var t := InjectThenRestore(InjectMembershipImplementation(s, env1, o1).state, env2, o2);
      && t.world.current == Some(env1.newProvider)
      && t.world.initialized
      && t.world.current != s.world.current
  {
  }

  /** The configuration built for a minimum password length of 8 carries the
      stub connection string and that length. */
  lemma MinimumPasswordLengthConfiguration(section: MembershipSection, providerName: string, parameters: Collection)
    requires section == [ProviderSettings(providerName, parameters)]
    ensures var config := EffectiveConfiguration(section, providerName, [("minRequiredPasswordLength", "8")]);
      && config.Success?
      && Get(config.value, ConnectionStringNameKey) == Some(StubConnectionString)
      && Get(config.value, "minRequiredPasswordLength") == Some("8")
  {
    var key := "minRequiredPasswordLength";
    var overrides := [(key, "8")];
    assert ExpectedConfigurationValues[6] == key;
    EffectiveConfigurationContents(section, providerName, overrides, 0);
    assert |key| != |ConnectionStringNameKey|;
    assert LastValue(overrides, ConnectionStringNameKey) == None;
    assert LastValue(overrides, key) == Some("8");
  }

  /** Starting uninitialized, injecting with a minimum password length of 8
      installs a provider configured with the stub connection string and that
      length; Restore then leaves membership uninitialized again. */
  lemma MinimumPasswordLengthScenario(env: Environment, parameters: Collection)
    requires env.section == [ProviderSettings(env.providerName, parameters)]
    requires forall c :: env.initialize(env.newProvider, env.providerName, c)
    ensures var r := InjectMembershipImplementation(State(World(false, None, None, []), FreshController),
                                                    env, [("minRequiredPasswordLength", "8")]);
      && r.outcome.Success?
      && r.state.world.initialized
      && Get(r.outcome.value, ConnectionStringNameKey) == Some(StubConnectionString)
      && Get(r.outcome.value, "minRequiredPasswordLength") == Some("8")
      && !RestoreMembershipImplementation(r.state).world.initialized
  {
    var s := State(World(false, None, None, []), FreshController);
    var overrides := [("minRequiredPasswordLength", "8")];
    MinimumPasswordLengthConfiguration(env.section, env.providerName, parameters);
    var config := EffectiveConfiguration(env.section, env.providerName, overrides);
    assert InitializeAccepts(env, config.value);
    InjectUsesEffectiveConfiguration(s, env, overrides);
    var r := InjectMembershipImplementation(s, env, overrides);
    assert r.outcome == config;
    assert r.state.ctl == Controller(None, Some(env.newProvider));
  }
}

/**
 The registry of support-library plugins (stream_executor/plugin_registry.cc):
 factories per platform and for all platforms, and a default per platform and kind.
 */
module PluginRegistry {
  import opened Options

  type PlatformId = nat
  type PluginId = nat
  type Factory = nat

  /** The plugin id of no plugin. */
  const NULL_PLUGIN: PluginId := 0

  /** The id that asks for the platform's default. */
  const DEFAULT_PLUGIN: PluginId := 1

  datatype Kind = Invalid | Blas | Dnn | Fft | Rng

  type FactoryMap = map<PluginId, Factory>

  datatype Factories = Factories(blas: FactoryMap, dnn: FactoryMap, fft: FactoryMap, rng: FactoryMap) {
    function Of(kind: Kind): map<PluginId, Factory> {
      match kind
      case Blas => blas
      case Dnn => dnn
      case Fft => fft
      case Rng => rng
      case Invalid => map[]
    }

    function With(kind: Kind, m: map<PluginId, Factory>): Factories {
      match kind
      case Blas => this.(blas := m)
      case Dnn => this.(dnn := m)
      case Fft => this.(fft := m)
      case Rng => this.(rng := m)
      case Invalid => this
    }
  }

  datatype Defaults = Defaults(blas: PluginId, dnn: PluginId, fft: PluginId, rng: PluginId) {
    function Of(kind: Kind): PluginId {
      match kind
      case Blas => blas
      case Dnn => dnn
      case Fft => fft
      case Rng => rng
      case Invalid => NULL_PLUGIN
    }

    function With(kind: Kind, id: PluginId): Defaults {
      match kind
      case Blas => this.(blas := id)
      case Dnn => this.(dnn := id)
      case Fft => this.(fft := id)
      case Rng => this.(rng := id)
      case Invalid => this
    }
  }

  const NO_FACTORIES: Factories := Factories(map[], map[], map[], map[])
  const NO_DEFAULTS: Defaults := Defaults(NULL_PLUGIN, NULL_PLUGIN, NULL_PLUGIN, NULL_PLUGIN)

  /** What a lookup through `operator[]` of the maps finds, inserted or not. */
  datatype State = State(
    factories: map<PlatformId, Factories>,
    generic: Factories,
    defaults: map<PlatformId, Defaults>) {

    function FactoriesOf(p: PlatformId): Factories {
      if p in factories then factories[p] else NO_FACTORIES
    }

    function DefaultsOf(p: PlatformId): Defaults {
      if p in defaults then defaults[p] else NO_DEFAULTS
    }

    /** The factory registered under an id: the platform's own before the generic one. */
    function Lookup(p: PlatformId, kind: Kind, id: PluginId): Option<Factory> {
      if id in FactoriesOf(p).Of(kind) then Some(FactoriesOf(p).Of(kind)[id])
      else if id in generic.Of(kind) then Some(generic.Of(kind)[id])
      else None
    }

    predicate HasFactory(p: PlatformId, kind: Kind, id: PluginId) {
      id in FactoriesOf(p).Of(kind) || id in generic.Of(kind)
    }

    /** The id a request resolves to. */
    function Resolved(p: PlatformId, kind: Kind, id: PluginId): PluginId {
      if id == DEFAULT_PLUGIN then DefaultsOf(p).Of(kind) else id
    }

    function GetFactory(p: PlatformId, kind: Kind, id: PluginId): Option<Factory> {
      if id == DEFAULT_PLUGIN && DefaultsOf(p).Of(kind) == NULL_PLUGIN then None
      else Lookup(p, kind, Resolved(p, kind, id))
    }

    /** Every default that is set names a registered factory. */
    ghost predicate Valid() {
      forall p, kind {:trigger DefaultsOf(p).Of(kind)} ::
        DefaultsOf(p).Of(kind) != NULL_PLUGIN ==> HasFactory(p, kind, DefaultsOf(p).Of(kind))
    }
  }

  /** Every call on the registry. A lookup inserts empty entries for its platform. */
  datatype Call =
    | Register(p: PlatformId, kind: Kind, id: PluginId, factory: Factory)
    | RegisterForAll(kind: Kind, id: PluginId, factory: Factory)
    | SetDefault(p: PlatformId, kind: Kind, id: PluginId)
    | Get(p: PlatformId, kind: Kind, id: PluginId)

  function Apply(s: State, c: Call): State {
    match c
    case Register(p, kind, id, f) =>
      var own := s.FactoriesOf(p);
      s.(factories := s.factories[p := if id in own.Of(kind) then own else own.With(kind, own.Of(kind)[id := f])])
    case RegisterForAll(kind, id, f) =>
      if id in s.generic.Of(kind) then s else s.(generic := s.generic.With(kind, s.generic.Of(kind)[id := f]))
    case SetDefault(p, kind, id) =>
      if s.HasFactory(p, kind, id) then s.(defaults := s.defaults[p := s.DefaultsOf(p).With(kind, id)]) else s
    case Get(p, kind, id) =>
      if id != DEFAULT_PLUGIN then s.(factories := s.factories[p := s.FactoriesOf(p)])
      else if s.DefaultsOf(p).Of(kind) == NULL_PLUGIN then s.(defaults := s.defaults[p := s.DefaultsOf(p)])
      else State(s.factories[p := s.FactoriesOf(p)], s.generic, s.defaults[p := s.DefaultsOf(p)])
  }

  /** Each kind of plugin has its own field. */
  lemma FieldsOfKinds(f: Factories, d: Defaults, kind: Kind, other: Kind, m: FactoryMap, id: PluginId)
    ensures f.Of(Blas) == f.blas && f.Of(Dnn) == f.dnn && f.Of(Fft) == f.fft && f.Of(Rng) == f.rng
    ensures f.Of(Invalid) == map[]
    ensures d.Of(Blas) == d.blas && d.Of(Dnn) == d.dnn && d.Of(Fft) == d.fft && d.Of(Rng) == d.rng
    ensures d.Of(Invalid) == NULL_PLUGIN
    ensures kind != Invalid ==> f.With(kind, m).Of(other) == if other == kind then m else f.Of(other)
    ensures kind != Invalid ==> d.With(kind, id).Of(other) == if other == kind then id else d.Of(other)
  {
  }

  /** What each call does to the platforms' own factories, entry by entry. */
  lemma OwnAfter(s: State, c: Call, p: PlatformId, kind: Kind)
    requires WellKinded(c)
    ensures var own := s.FactoriesOf(p).Of(kind);
            Apply(s, c).FactoriesOf(p).Of(kind) ==
              if c.Register? && c.p == p && c.kind == kind && c.id !in own then own[c.id := c.factory] else own
  {
    if c.Register? && c.p == p {
      WithOf(s.FactoriesOf(p), c.kind, kind, s.FactoriesOf(p).Of(c.kind)[c.id := c.factory]);
    }
  }

  /** What it does to the generic factories. */
  lemma GenericAfter(s: State, c: Call, kind: Kind)
    requires WellKinded(c)
    ensures var generic := s.generic.Of(kind);
            Apply(s, c).generic.Of(kind) ==
              if c.RegisterForAll? && c.kind == kind && c.id !in generic then generic[c.id := c.factory] else generic
  {
    if c.RegisterForAll? {
      WithOf(s.generic, c.kind, kind, s.generic.Of(c.kind)[c.id := c.factory]);
    }
  }

  /** What it does to the defaults. */
  lemma DefaultAfter(s: State, c: Call, p: PlatformId, kind: Kind)
    ensures Apply(s, c).DefaultsOf(p).Of(kind) ==
              if c.SetDefault? && c.p == p && c.kind == kind && kind != Invalid
                 && (c.id in s.FactoriesOf(p).Of(kind) || c.id in s.generic.Of(kind))
              then c.id else s.DefaultsOf(p).Of(kind)
  {
  }

  lemma WithOf(f: Factories, kind: Kind, other: Kind, m: FactoryMap)
    requires kind != Invalid
    ensures f.With(kind, m).Of(other) == if other == kind then m else f.Of(other)
  {
  }

  /** What a request is served, in terms of what is registered: the platform's own factory, then the generic one. */
  lemma GetFactoryMeaning(s: State, p: PlatformId, kind: Kind, id: PluginId)
    ensures var own, generic, def := s.FactoriesOf(p).Of(kind), s.generic.Of(kind), s.DefaultsOf(p).Of(kind);
            var asked := if id == DEFAULT_PLUGIN then def else id;
            s.GetFactory(p, kind, id) ==
              if id == DEFAULT_PLUGIN && def == NULL_PLUGIN then None
              else if asked in own then Some(own[asked])
              else if asked in generic then Some(generic[asked])
              else None
    ensures s.HasFactory(p, kind, id) <==> id in s.FactoriesOf(p).Of(kind) || id in s.generic.Of(kind)
    ensures p !in s.factories ==> s.FactoriesOf(p).Of(kind) == map[]
    ensures p !in s.defaults ==> s.DefaultsOf(p).Of(kind) == NULL_PLUGIN
  {
  }

  predicate WellKinded(c: Call) {
    (c.Register? || c.RegisterForAll?) ==> c.kind != Invalid
  }

  // --- the registry object --------------------------------------------------

  class Registry {
    var factories: map<PlatformId, Factories>
    var generic: Factories
    var defaults: map<PlatformId, Defaults>

    ghost function Value(): State
      reads this
    {
      State(factories, generic, defaults)
    }

    constructor ()
      ensures Value() == State(map[], NO_FACTORIES, map[]) && Value().Valid()
    {
      factories, generic, defaults := map[], NO_FACTORIES, map[];
    }

    /** `RegisterFactory`; the entry of the platform is made before the id is looked up. */
    method RegisterFactory(p: PlatformId, kind: Kind, id: PluginId, factory: Factory) returns (ok: bool)
      requires kind != Invalid
      modifies this`factories
      ensures Value() == Apply(old(Value()), Register(p, kind, id, factory))
      ensures ok <==> id !in old(Value()).FactoriesOf(p).Of(kind)
      ensures ok ==> Value().Lookup(p, kind, id) == Some(factory)
    {
      if p !in factories {
        factories := factories[p := NO_FACTORIES];
      }
      var own := factories[p].Of(kind);
      if id in own {
        return false;
      }
      factories := factories[p := factories[p].With(kind, own[id := factory])];
      return true;
    }

    method RegisterFactoryForAllPlatforms(kind: Kind, id: PluginId, factory: Factory) returns (ok: bool)
      requires kind != Invalid
      modifies this`generic
      ensures Value() == Apply(old(Value()), RegisterForAll(kind, id, factory))
      ensures ok <==> id !in old(Value()).generic.Of(kind)
      ensures ok ==> id in generic.Of(kind) && generic.Of(kind)[id] == factory
      ensures ok ==> forall p :: id !in Value().FactoriesOf(p).Of(kind) ==> Value().Lookup(p, kind, id) == Some(factory)
    {
      if id in generic.Of(kind) {
        return false;
      }
      generic := generic.With(kind, generic.Of(kind)[id := factory]);
      return true;
    }

    method HasFactory(p: PlatformId, kind: Kind, id: PluginId) returns (has: bool)
      ensures has == Value().HasFactory(p, kind, id)
    {
      if p in factories && id in factories[p].Of(kind) {
        return true;
      }
      return id in generic.Of(kind);
    }

    method SetDefaultFactory(p: PlatformId, kind: Kind, id: PluginId) returns (ok: bool)
      modifies this`defaults
      ensures Value() == Apply(old(Value()), SetDefault(p, kind, id))
      ensures ok <==> old(Value()).HasFactory(p, kind, id)
      ensures ok ==> Value().DefaultsOf(p).Of(kind) == id
    {
      var has := HasFactory(p, kind, id);
      if !has {
        return false;
      }
      var before := if p in defaults then defaults[p] else NO_DEFAULTS;
      defaults := defaults[p := before.With(kind, id)];
      return true;
    }

    method GetFactory(p: PlatformId, kind: Kind, id: PluginId) returns (f: Option<Factory>)
      modifies this`factories, this`defaults
      ensures f == old(Value()).GetFactory(p, kind, id)
      ensures Value() == Apply(old(Value()), Get(p, kind, id))
    {
      var resolved := id;
      if id == DEFAULT_PLUGIN {
        if p !in defaults {
          defaults := defaults[p := NO_DEFAULTS];
        }
        resolved := defaults[p].Of(kind);
        if resolved == NULL_PLUGIN {
          return None;
        }
      }
      if p !in factories {
        factories := factories[p := NO_FACTORIES];
      }
      if resolved in factories[p].Of(kind) {
        return Some(factories[p].Of(kind)[resolved]);
      }
      if resolved in generic.Of(kind) {
        return Some(generic.Of(kind)[resolved]);
      }
      return None;
    }
  }

  // --- over every run -------------------------------------------------------

  function Run(s: State, calls: seq<Call>): State
    decreases |calls|
  {
    if calls == [] then s else Run(Apply(s, calls[0]), calls[1..])
  }

  /** No registration is lost or replaced, on a platform or for all platforms. */
  ghost predicate Extends(s: State, t: State) {
    && (forall p, kind, id {:trigger id in s.FactoriesOf(p).Of(kind)} ::
          id in s.FactoriesOf(p).Of(kind) ==>
            id in t.FactoriesOf(p).Of(kind) && t.FactoriesOf(p).Of(kind)[id] == s.FactoriesOf(p).Of(kind)[id])
    && (forall kind, id {:trigger id in s.generic.Of(kind)} ::
          id in s.generic.Of(kind) ==> id in t.generic.Of(kind) && t.generic.Of(kind)[id] == s.generic.Of(kind)[id])
  }

  lemma RegisterExtends(s: State, c: Call)
    requires WellKinded(c) && c.Register?
    ensures Extends(s, Apply(s, c))
  {
  }

  lemma RegisterForAllExtends(s: State, c: Call)
    requires WellKinded(c) && c.RegisterForAll?
    ensures Extends(s, Apply(s, c))
  {
  }

  lemma StepExtends(s: State, c: Call)
    requires WellKinded(c)
    ensures Extends(s, Apply(s, c))
  {
    if c.Register? {
      RegisterExtends(s, c);
    } else if c.RegisterForAll? {
      RegisterForAllExtends(s, c);
    }
  }

  lemma StepKeepsValid(s: State, c: Call)
    requires s.Valid() && WellKinded(c)
    ensures Apply(s, c).Valid()
  {
    var t := Apply(s, c);
    StepExtends(s, c);
    forall p, kind | t.DefaultsOf(p).Of(kind) != NULL_PLUGIN ensures t.HasFactory(p, kind, t.DefaultsOf(p).Of(kind)) {
      if c.SetDefault? && c.p == p && c.kind == kind && t != s {
        assert t.DefaultsOf(p).Of(kind) == c.id || kind == Invalid;
      } else {
        assert t.DefaultsOf(p).Of(kind) == s.DefaultsOf(p).Of(kind);
      }
    }
  }

  lemma {:induction false} RunFacts(s: State, calls: seq<Call>)
    requires s.Valid() && forall i :: 0 <= i < |calls| ==> WellKinded(calls[i])
    ensures Run(s, calls).Valid() && Extends(s, Run(s, calls))
    decreases |calls|
  {
    if calls != [] {
      var next, rest := Apply(s, calls[0]), calls[1..];
      assert forall i :: 0 <= i < |rest| ==> rest[i] == calls[i + 1];
      StepExtends(s, calls[0]);
      StepKeepsValid(s, calls[0]);
      RunFacts(next, rest);
    }
  }

  /**
   Over every run: an explicit id is served exactly when it is registered and is
   served for ever after; what the platform has of its own stays what is served,
   whatever is registered for all platforms.
   */
  lemma ExplicitLookup(s: State, calls: seq<Call>, p: PlatformId, kind: Kind, id: PluginId)
    requires s.Valid() && (forall i :: 0 <= i < |calls| ==> WellKinded(calls[i])) && id != DEFAULT_PLUGIN
    ensures s.GetFactory(p, kind, id).Some? <==> s.HasFactory(p, kind, id)
    ensures s.GetFactory(p, kind, id).Some? ==> Run(s, calls).GetFactory(p, kind, id).Some?
    ensures id in s.FactoriesOf(p).Of(kind) ==>
              Run(s, calls).GetFactory(p, kind, id) == Some(s.FactoriesOf(p).Of(kind)[id])
  {
    RunFacts(s, calls);
    var t := Run(s, calls);
    assert id in s.FactoriesOf(p).Of(kind) ==> id in t.FactoriesOf(p).Of(kind);
  }

  /** The run makes no other choice of default for this platform and kind. */
  predicate KeepsDefault(calls: seq<Call>, p: PlatformId, kind: Kind) {
    forall i :: 0 <= i < |calls| && calls[i].SetDefault? ==> calls[i].p != p || calls[i].kind != kind
  }

  lemma {:induction false} DefaultStays(s: State, calls: seq<Call>, p: PlatformId, kind: Kind)
    requires KeepsDefault(calls, p, kind)
    ensures Run(s, calls).DefaultsOf(p).Of(kind) == s.DefaultsOf(p).Of(kind)
    decreases |calls|
  {
    if calls != [] {
      var rest := calls[1..];
      assert forall i :: 0 <= i < |rest| ==> rest[i] == calls[i + 1];
      DefaultStepStays(s, calls[0], p, kind);
      DefaultStays(Apply(s, calls[0]), rest, p, kind);
    }
  }

  lemma DefaultStepStays(s: State, c: Call, p: PlatformId, kind: Kind)
    requires c.SetDefault? ==> c.p != p || c.kind != kind
    ensures Apply(s, c).DefaultsOf(p).Of(kind) == s.DefaultsOf(p).Of(kind)
  {
  }

  /**
   A request for the default succeeds exactly when a default other than the null id
   is set; after a successful SetDefaultFactory it serves the id set last, until
   another is set. Setting the null id as default makes the request fail.
   */
  lemma DefaultLookup(s: State, calls: seq<Call>, p: PlatformId, kind: Kind, id: PluginId)
    requires s.Valid() && (forall i :: 0 <= i < |calls| ==> WellKinded(calls[i])) && KeepsDefault(calls, p, kind)
    requires kind != Invalid && s.HasFactory(p, kind, id)
    ensures var t := Run(Apply(s, SetDefault(p, kind, id)), calls);
            && (t.GetFactory(p, kind, DEFAULT_PLUGIN).Some? <==> id != NULL_PLUGIN)
            && (id != NULL_PLUGIN ==> t.GetFactory(p, kind, DEFAULT_PLUGIN) == t.Lookup(p, kind, id))
  {
    var set' := Apply(s, SetDefault(p, kind, id));
    StepKeepsValid(s, SetDefault(p, kind, id));
    RunFacts(set', calls);
    DefaultStays(set', calls, p, kind);
  }
}

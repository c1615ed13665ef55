/** The module registry: built-in modules, installed personal modules and the operations on them. */
module Registry {
  import opened Bytes
  import opened Namespaces

  // ---------------------------------------------------------------- data

  datatype Kind = BuiltIn | Personal

  datatype SubProvider = SubProvider(id: string, subpath: string, enabled: bool)

  datatype SubProviderManifest = SubProviderManifest(id: string, subpath: string)

  datatype Group = Group(enabled: bool, providers: seq<SubProviderManifest>)

  /** The parts of a manifest that matter for registration and routing. */
  datatype Manifest = Manifest(id: string, namespace: string, protocol: string, entrypoint: string, group: Option<Group>)

  datatype Descriptor = Descriptor(
    id: string,
    namespace: string,
    kind: Kind,
    enabled: bool,
    order: int,
    providers: Option<seq<SubProvider>>)

  datatype ModuleError = InvalidId | InvalidNamespace | ReservedNamespace | NamespaceCollision | InvalidManifest | NotFound

  type Modules = map<string, Descriptor>

  /** The registry as a value. */
  datatype Reg = Reg(modules: Modules, manifests: map<string, Manifest>, uninstalled: set<string>)

  // ---------------------------------------------------------------- validation

  /** `validate_module_id` */
  function CheckId(id: string, modules: Modules): Option<ModuleError> {
    if !IsId(id) then Some(InvalidId)
    else if id in modules && modules[id].kind == BuiltIn then Some(InvalidId)
    else None
  }

  /** Another module's namespace is in the way. */
  predicate Collides(t: string, id: string, modules: Modules) {
    exists other :: other in modules && other != id && Conflict(t, TrimEndMatches(modules[other].namespace, '/'))
  }

  /** `validate_module_namespace` */
  function CheckNamespace(ns: string, id: string, modules: Modules): Option<ModuleError> {
    var t := Checked(ns);
    if !IsPathPrefix(t) then Some(InvalidNamespace)
    else if HitsReserved(t) then Some(ReservedNamespace)
    else if HitsBuiltin(t) then Some(NamespaceCollision)
    else if Collides(t, id, modules) then Some(NamespaceCollision)
    else None
  }

  /** The text up to the first of `stops`. */
  function UpTo(s: string, stops: string): string
    decreases |s|
  {
    if s == "" || s[0] in stops then "" else [s[0]] + UpTo(s[1..], stops)
  }

  /** `is_loopback_origin` */
  predicate IsLoopbackOrigin(origin: string) {
    var lower := Lower(origin);
    if !("http://" <= lower) && !("https://" <= lower) then false
    else
      var rest := if "http://" <= lower then lower[7..] else lower[8..];
      var authority := UpTo(rest, "/?#");
      if '@' in authority then false
      else
        var host := if "[" <= authority then UpTo(authority[1..], "]") else UpTo(authority, ":");
        host == "localhost" || host == "127.0.0.1" || host == "::1"
  }

  /** `validate_module_protocol` on a Unix system. */
  predicate ProtocolOk(m: Manifest) {
    var ep := Trim(m.entrypoint);
    && ep != ""
    && (m.protocol == "stdio-stream" || m.protocol == "local-http")
    && (m.protocol == "stdio-stream" ==> ep[0] == '/')
    && (m.protocol == "local-http" ==> IsLoopbackOrigin(ep))
  }

  /** The subpath `validate_sub_providers` compares. */
  function CheckedSubpath(p: SubProviderManifest): string {
    if Trim(p.subpath) == "" then "/" + Trim(p.id) else TrimEndMatches(Trim(p.subpath), '/')
  }

  /** `validate_sub_providers` */
  predicate ProvidersOk(ps: seq<SubProviderManifest>) {
    && (forall i :: 0 <= i < |ps| ==>
          IsId(Trim(ps[i].id)) && (Trim(ps[i].subpath) != "" ==> IsPathPrefix(CheckedSubpath(ps[i]))))
    && (forall i, j :: 0 <= i < j < |ps| ==>
          Trim(ps[i].id) != Trim(ps[j].id) && CheckedSubpath(ps[i]) != CheckedSubpath(ps[j]))
  }

  predicate GroupOk(m: Manifest) {
    m.group.Some? ==> ProvidersOk(m.group.value.providers)
  }

  function StoredSubpath(p: SubProviderManifest): string {
    if p.subpath == "" then "/" + Trim(p.id)
    else if p.subpath[0] != '/' then "/" + TrimEndMatches(p.subpath, '/')
    else TrimEndMatches(p.subpath, '/')
  }

  /** `build_sub_providers` for a group that passed its checks. */
  function SubProviders(m: Manifest, enabled: bool): Option<seq<SubProvider>> {
    match m.group
    case None => None
    case Some(g) =>
      Some(seq(|g.providers|, i requires 0 <= i < |g.providers| =>
             SubProvider(Trim(g.providers[i].id), StoredSubpath(g.providers[i]), g.enabled && enabled)))
  }

  /** The enablement a provider had before an upgrade, by its id. */
  function FormerState(p: SubProvider, former: seq<SubProvider>): SubProvider
    decreases |former|
  {
    if former == [] then p
    else if former[0].id == p.id then p.(enabled := former[0].enabled)
    else FormerState(p, former[1..])
  }

  // ---------------------------------------------------------------- operations on the value

  function I32(n: int): int {
    (n + 0x8000_0000) % 0x1_0000_0000 - 0x8000_0000
  }

  /** `register_personal_module` */
  function Registered(reg: Reg, m: Manifest): Result<Reg, ModuleError> {
    var id := Trim(m.id);
    var ns := Clean(m.namespace);
    if CheckId(id, reg.modules).Some? then Err(CheckId(id, reg.modules).value)
    else if CheckNamespace(ns, id, reg.modules).Some? then Err(CheckNamespace(ns, id, reg.modules).value)
    else if !ProtocolOk(m) || !GroupOk(m) then Err(InvalidManifest)
    else
      var order := I32(100 + |reg.manifests| * 10);
      var desc := Descriptor(id, ns, Personal, true, order, SubProviders(m, true));
      Ok(Reg(reg.modules[id := desc], reg.manifests[id := m], reg.uninstalled))
  }

  /** `upgrade_personal_module`: order and enablement are kept, also those of known sub-providers. */
  function Upgraded(reg: Reg, m: Manifest): Result<Reg, ModuleError> {
    var id := Trim(m.id);
    var ns := Clean(m.namespace);
    if id !in reg.modules then Err(NotFound)
    else
      var existing := reg.modules[id];
      if existing.kind == BuiltIn then Err(InvalidManifest)
      else if CheckNamespace(ns, id, reg.modules).Some? then Err(CheckNamespace(ns, id, reg.modules).value)
      else if !ProtocolOk(m) || !GroupOk(m) then Err(InvalidManifest)
      else
        var listed := SubProviders(m, existing.enabled);
        var kept := if listed.Some? && existing.providers.Some? && m.group.Some? && m.group.value.enabled then
                      Some(seq(|listed.value|, i requires 0 <= i < |listed.value| => FormerState(listed.value[i], existing.providers.value)))
                    else listed;
        var desc := Descriptor(id, ns, Personal, existing.enabled, existing.order, kept);
        Ok(Reg(reg.modules[id := desc], reg.manifests[id := m], reg.uninstalled - {id}))
  }

  /** `unregister_personal_module` */
  function Unregistered(reg: Reg, id: string): (Reg, Result<Manifest, ModuleError>) {
    if id !in reg.modules then (reg, Err(NotFound))
    else if reg.modules[id].kind == BuiltIn then (reg, Err(InvalidManifest))
    else
      var next := Reg(reg.modules - {id}, reg.manifests - {id}, reg.uninstalled + {id});
      (next, if id in reg.manifests then Ok(reg.manifests[id]) else Err(NotFound))
  }

  function WithStatus(desc: Descriptor, enabled: bool): Descriptor {
    match desc.providers
    case None => desc.(enabled := enabled)
    case Some(ps) =>
      desc.(enabled := enabled, providers := Some(seq(|ps|, i requires 0 <= i < |ps| => ps[i].(enabled := enabled))))
  }

  /** `set_module_status` */
  function StatusSet(reg: Reg, id: string, enabled: bool): Result<Reg, ModuleError> {
    if id !in reg.modules then Err(NotFound)
    else Ok(reg.(modules := reg.modules[id := WithStatus(reg.modules[id], enabled)]))
  }

  /** `apply_enablement_map` */
  function EnablementApplied(reg: Reg, enabled: map<string, bool>): Reg {
    reg.(modules := map id | id in reg.modules ::
           if id in enabled then WithStatus(reg.modules[id], enabled[id]) else reg.modules[id])
  }

  function Builtin(id: string, namespace: string, order: int, subpaths: seq<string>): Descriptor {
    Descriptor(id, namespace, BuiltIn, true, order,
               if subpaths == [] then None
               else Some(seq(|subpaths|, i requires 0 <= i < |subpaths| =>
                           SubProvider(if subpaths[i] == "" then "" else subpaths[i][1..], subpaths[i], true))))
  }

  const OMNIROUTE := Builtin("omniroute", "/ominroute", 10, [])
  const MUSE := Builtin("muse", "/muse-ai", 20, ["/chat", "/image", "/video", "/threads"])
  const JEV := Builtin("jev", "/jev", 30, ["/decisions", "/models"])

  /** A registry at start-up. */
  const FRESH := Reg(map["omniroute" := OMNIROUTE, "muse" := MUSE, "jev" := JEV], map[], {})

  // ---------------------------------------------------------------- what the operations put in place

  /** The descriptor of a personal module says what its manifest says, provider by provider. */
  predicate IsInstalled(desc: Descriptor, m: Manifest) {
    && desc.id == Trim(m.id) && desc.kind == Personal && desc.namespace == Clean(m.namespace)
    && (desc.providers.None? <==> m.group.None?)
    && (m.group.Some? ==>
          var ps := m.group.value.providers;
          && |desc.providers.value| == |ps|
          && forall i :: 0 <= i < |ps| ==>
               desc.providers.value[i].id == Trim(ps[i].id) && desc.providers.value[i].subpath == StoredSubpath(ps[i]))
  }

  /** `k` is the first provider of that name in the former list. */
  predicate IsFormer(former: seq<SubProvider>, id: string, k: nat) {
    k < |former| && former[k].id == id && forall j :: 0 <= j < k ==> former[j].id != id
  }

  /** Whether each provider is enabled after an upgrade: in an enabled group as it was before, or like
      the module if it is new; not at all in a disabled group. */
  ghost predicate KeepsStates(desc: Descriptor, group: Group, former: Descriptor)
    requires desc.providers.Some?
  {
    forall i :: 0 <= i < |desc.providers.value| ==>
      var p := desc.providers.value[i];
      && (!group.enabled ==> !p.enabled)
      && (group.enabled && (former.providers.None? || forall k: nat :: !IsFormer(former.providers.value, p.id, k)) ==>
            p.enabled == former.enabled)
      && (group.enabled && former.providers.Some? ==>
            forall k: nat :: IsFormer(former.providers.value, p.id, k) ==> p.enabled == former.providers.value[k].enabled)
  }

  lemma {:induction false} FormerStateIs(p: SubProvider, former: seq<SubProvider>)
    ensures FormerState(p, former).(enabled := p.enabled) == p
    ensures forall k: nat :: IsFormer(former, p.id, k) ==> FormerState(p, former).enabled == former[k].enabled
    ensures (forall k: nat :: !IsFormer(former, p.id, k)) ==> FormerState(p, former) == p
    decreases |former|
  {
    if former != [] {
      if former[0].id == p.id {
        assert IsFormer(former, p.id, 0);
        assert forall k: nat :: k > 0 ==> !IsFormer(former, p.id, k);
      } else {
        FormerStateIs(p, former[1..]);
        forall k: nat
          ensures IsFormer(former[1..], p.id, k) ==> IsFormer(former, p.id, k + 1)
          ensures IsFormer(former, p.id, k) ==> k > 0 && IsFormer(former[1..], p.id, k - 1)
        {
          FormerBehind(former, p.id, k);
        }
        if forall k: nat :: !IsFormer(former, p.id, k) {
          forall k: nat
            ensures !IsFormer(former[1..], p.id, k)
          {
            FormerBehind(former, p.id, k);
            assert !IsFormer(former, p.id, k + 1);
          }
        }
      }
    }
  }

  lemma FormerBehind(former: seq<SubProvider>, id: string, k: nat)
    requires former != [] && former[0].id != id
    ensures IsFormer(former[1..], id, k) ==> IsFormer(former, id, k + 1)
    ensures IsFormer(former, id, k) ==> k > 0 && IsFormer(former[1..], id, k - 1)
  {
    assert forall j :: 0 < j < |former| ==> former[j] == former[1..][j - 1];
  }

  /** The new list of providers before and after the former states are put in. */
  lemma StatesAreKept(m: Manifest, existing: Descriptor)
    ensures var listed := SubProviders(m, existing.enabled);
            var kept := if listed.Some? && existing.providers.Some? && m.group.value.enabled then
                          Some(seq(|listed.value|, i requires 0 <= i < |listed.value| => FormerState(listed.value[i], existing.providers.value)))
                        else listed;
            var desc := Descriptor(Trim(m.id), Clean(m.namespace), Personal, existing.enabled, existing.order, kept);
            IsInstalled(desc, m) && (m.group.Some? ==> KeepsStates(desc, m.group.value, existing))
  {
    hide Trim, Clean, StoredSubpath, FormerState;
    var listed := SubProviders(m, existing.enabled);
    if listed.Some? && existing.providers.Some? {
      forall i | 0 <= i < |listed.value|
        ensures FormerState(listed.value[i], existing.providers.value).id == listed.value[i].id
        ensures FormerState(listed.value[i], existing.providers.value).subpath == listed.value[i].subpath
        ensures forall k: nat :: IsFormer(existing.providers.value, listed.value[i].id, k) ==>
                  FormerState(listed.value[i], existing.providers.value).enabled == existing.providers.value[k].enabled
        ensures (forall k: nat :: !IsFormer(existing.providers.value, listed.value[i].id, k)) ==>
                  FormerState(listed.value[i], existing.providers.value) == listed.value[i]
      {
        FormerStateIs(listed.value[i], existing.providers.value);
      }
    }
  }

  /** The module and all its providers have the status; nothing else about them changes. */
  predicate HasStatus(desc: Descriptor, before: Descriptor, enabled: bool) {
    && desc == before.(enabled := enabled, providers := desc.providers)
    && (desc.providers.None? <==> before.providers.None?)
    && (desc.providers.Some? ==>
          && |desc.providers.value| == |before.providers.value|
          && forall i :: 0 <= i < |desc.providers.value| ==>
               desc.providers.value[i] == before.providers.value[i].(enabled := enabled))
  }

  /** The subpath of a provider: a single slash in front, none behind, and the identifier where nothing is
      written. */
  lemma SubpathsAre(id: string, segment: string, slashes: string)
    requires forall i :: 0 <= i < |slashes| ==> slashes[i] == '/'
    requires segment != "" && segment[0] != '/' && segment[|segment| - 1] != '/'
    ensures StoredSubpath(SubProviderManifest(id, "")) == "/" + Trim(id)
    ensures StoredSubpath(SubProviderManifest(id, segment + slashes)) == "/" + segment
    ensures StoredSubpath(SubProviderManifest(id, "/" + segment + slashes)) == "/" + segment
  {
    hide Trim;
    CopiesAreTrimmed(segment, slashes, '/');
    CopiesAreTrimmed("/" + segment, slashes, '/');
    assert (segment + slashes)[0] == segment[0];
  }

  // ---------------------------------------------------------------- the registry object

  class ModuleRegistry {
    var modules: Modules
    var manifests: map<string, Manifest>
    var uninstalled: set<string>

    function Value(): Reg
      reads this
    {
      Reg(modules, manifests, uninstalled)
    }

    constructor ()
      ensures Value() == FRESH
    {
      modules := map["omniroute" := OMNIROUTE, "muse" := MUSE, "jev" := JEV];
      manifests := map[];
      uninstalled := {};
    }

    method RegisterPersonalModule(m: Manifest) returns (r: Result<(), ModuleError>)
      modifies this
      ensures match Registered(old(Value()), m)
              case Err(error) => r == Err(error) && Value() == old(Value())
              case Ok(next) => r == Ok(()) && Value() == next
      ensures r.Ok? ==>
                var id := Trim(m.id);
                && id in modules && modules == old(modules)[id := modules[id]] && IsInstalled(modules[id], m)
                && modules[id].enabled && modules[id].order == I32(100 + 10 * |old(manifests)|)
                && (m.group.Some? ==> forall i :: 0 <= i < |m.group.value.providers| ==>
                      modules[id].providers.value[i].enabled == m.group.value.enabled)
                && manifests == old(manifests)[id := m] && uninstalled == old(uninstalled)
      ensures r.Err? ==> Value() == old(Value())
    {
      hide CheckNamespace, CheckId, ProtocolOk, GroupOk, Clean, Trim;
      var id := Trim(m.id);
      var badId := CheckId(id, modules);
      if badId.Some? {
        return Err(badId.value);
      }
      var ns := Clean(m.namespace);
      var badNs := CheckNamespace(ns, id, modules);
      if badNs.Some? {
        return Err(badNs.value);
      }
      if !ProtocolOk(m) {
        return Err(InvalidManifest);
      }
      if !GroupOk(m) {
        return Err(InvalidManifest);
      }
      var nextOrder := I32(100 + |manifests| * 10);
      modules := modules[id := Descriptor(id, ns, Personal, true, nextOrder, SubProviders(m, true))];
      manifests := manifests[id := m];
      return Ok(());
    }

    method UpgradePersonalModule(m: Manifest) returns (r: Result<Descriptor, ModuleError>)
      modifies this
      ensures match Upgraded(old(Value()), m)
              case Err(error) => r == Err(error) && Value() == old(Value())
              case Ok(next) => Trim(m.id) in modules && r == Ok(modules[Trim(m.id)]) && Value() == next
      ensures r.Ok? ==>
                var id := Trim(m.id);
                && id in old(modules) && old(modules)[id].kind == Personal
                && id in modules && modules == old(modules)[id := modules[id]] && IsInstalled(modules[id], m)
                && modules[id].enabled == old(modules)[id].enabled && modules[id].order == old(modules)[id].order
                && (m.group.Some? ==> KeepsStates(modules[id], m.group.value, old(modules)[id]))
                && manifests == old(manifests)[id := m] && uninstalled == old(uninstalled) - {id}
      ensures r.Err? ==> Value() == old(Value())
    {
      hide CheckNamespace, ProtocolOk, GroupOk, Clean, Trim;
      var id := Trim(m.id);
      if id !in modules {
        return Err(NotFound);
      }
      var existing := modules[id];
      if existing.kind == BuiltIn {
        return Err(InvalidManifest);
      }
      var ns := Clean(m.namespace);
      var badNs := CheckNamespace(ns, id, modules);
      if badNs.Some? {
        return Err(badNs.value);
      }
      if !ProtocolOk(m) {
        return Err(InvalidManifest);
      }
      if !GroupOk(m) {
        return Err(InvalidManifest);
      }
      StatesAreKept(m, existing);
      var providers := SubProviders(m, existing.enabled);
      var groupEnabled := m.group.None? || m.group.value.enabled;
      if groupEnabled && providers.Some? && existing.providers.Some? {
        var list := providers.value;
        providers := Some(seq(|list|, i requires 0 <= i < |list| => FormerState(list[i], existing.providers.value)));
      }
      var desc := Descriptor(id, ns, Personal, existing.enabled, existing.order, providers);
      modules := modules[id := desc];
      manifests := manifests[id := m];
      uninstalled := uninstalled - {id};
      return Ok(desc);
    }

    method UnregisterPersonalModule(id: string) returns (r: Result<Manifest, ModuleError>)
      modifies this
      ensures (Value(), r) == Unregistered(old(Value()), id)
      ensures id in old(modules) && old(modules)[id].kind == Personal ==>
                && modules == old(modules) - {id} && manifests == old(manifests) - {id}
                && uninstalled == old(uninstalled) + {id}
                && r == if id in old(manifests) then Ok(old(manifests)[id]) else Err(NotFound)
      ensures id !in old(modules) ==> r == Err(NotFound) && Value() == old(Value())
      ensures id in old(modules) && old(modules)[id].kind == BuiltIn ==> r == Err(InvalidManifest) && Value() == old(Value())
    {
      if id in modules {
        if modules[id].kind == BuiltIn {
          return Err(InvalidManifest);
        }
      } else {
        return Err(NotFound);
      }
      modules := modules - {id};
      uninstalled := uninstalled + {id};
      r := if id in manifests then Ok(manifests[id]) else Err(NotFound);
      manifests := manifests - {id};
    }

    method SetModuleStatus(id: string, enabled: bool) returns (r: Result<(), ModuleError>)
      modifies this
      ensures match StatusSet(old(Value()), id, enabled)
              case Err(error) => r == Err(error) && Value() == old(Value())
              case Ok(next) => r == Ok(()) && Value() == next
      ensures r.Ok? <==> id in old(modules)
      ensures r.Ok? ==>
                && id in modules && modules == old(modules)[id := modules[id]] && HasStatus(modules[id], old(modules)[id], enabled)
                && manifests == old(manifests) && uninstalled == old(uninstalled)
    {
      if id !in modules {
        return Err(NotFound);
      }
      modules := modules[id := WithStatus(modules[id], enabled)];
      return Ok(());
    }

    /** `order` is the order in which the map yields its keys. */
    method ApplyEnablementMap(enabled: map<string, bool>, order: seq<string>)
      requires forall id :: id in order <==> id in enabled
      modifies this
      ensures Value() == EnablementApplied(old(Value()), enabled)
    {
      hide WithStatus;
      for i := 0 to |order|
        invariant manifests == old(manifests) && uninstalled == old(uninstalled) && modules.Keys == old(modules).Keys
        invariant forall id :: id in modules ==>
                    modules[id] == if id in order[..i] then WithStatus(old(modules)[id], enabled[id]) else old(modules)[id]
      {
        var id := order[i];
        assert order[..i + 1] == order[..i] + [id];
        if id in modules {
          StatusTwice(old(modules)[id], enabled[id]);
          modules := modules[id := WithStatus(modules[id], enabled[id])];
        }
      }
      assert order[..|order|] == order;
      assert modules == EnablementApplied(old(Value()), enabled).modules;
    }
  }

  lemma StatusTwice(desc: Descriptor, enabled: bool)
    ensures WithStatus(WithStatus(desc, enabled), enabled) == WithStatus(desc, enabled)
  {
    if desc.providers.Some? {
      assert WithStatus(WithStatus(desc, enabled), enabled).providers.value == WithStatus(desc, enabled).providers.value;
    }
  }
}

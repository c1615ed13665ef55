/** What every sequence of registry operations keeps. */
module RegistryLaws {
  import opened Bytes
  import opened Namespaces
  import opened Registry

  /** The operations on a registry. `Renumber` stands for everything that only changes menu orders. */
  datatype Op =
    | Register(m: Manifest)
    | Upgrade(m: Manifest)
    | Unregister(id: string)
    | SetStatus(id: string, enabled: bool)
    | Renumber(orders: map<string, int>)

  function Renumbered(modules: Modules, orders: map<string, int>): Modules {
    map id | id in modules :: if id in orders then modules[id].(order := orders[id]) else modules[id]
  }

  /** An operation that fails leaves the registry as it was. */
  function Step(reg: Reg, op: Op): Reg {
    match op
    case Register(m) => (match Registered(reg, m) case Ok(next) => next case Err(e) => reg)
    case Upgrade(m) => (match Upgraded(reg, m) case Ok(next) => next case Err(e) => reg)
    case Unregister(id) => Unregistered(reg, id).0
    case SetStatus(id, enabled) => (match StatusSet(reg, id, enabled) case Ok(next) => next case Err(e) => reg)
    case Renumber(orders) => reg.(modules := Renumbered(reg.modules, orders))
  }

  /** The registry after a history of operations. */
  function After(ops: seq<Op>): Reg
    decreases |ops|
  {
    if ops == [] then FRESH else Step(After(ops[..|ops| - 1]), ops[|ops| - 1])
  }

  predicate IsBuiltinId(id: string) {
    id == "omniroute" || id == "muse" || id == "jev"
  }

  predicate HasBuiltins(modules: Modules) {
    && "omniroute" in modules && modules["omniroute"].namespace == "/ominroute"
    && "muse" in modules && modules["muse"].namespace == "/muse-ai"
    && "jev" in modules && modules["jev"].namespace == "/jev"
    && forall id :: id in modules ==> modules[id].id == id && (modules[id].kind == BuiltIn <==> IsBuiltinId(id))
  }

  /** The descriptor is the one its manifest asks for, and the manifest passes the checks that do not
      depend on other modules. */
  predicate Installed(id: string, m: Manifest, desc: Descriptor) {
    && Trim(m.id) == id && IsId(id) && !IsBuiltinId(id)
    && desc.namespace == Clean(m.namespace) && IsFree(Checked(desc.namespace))
    && ProtocolOk(m) && GroupOk(m)
  }

  /** What holds in every registry. */
  ghost predicate Wf(reg: Reg) {
    && HasBuiltins(reg.modules)
    && (forall id :: id in reg.manifests <==> id in reg.modules && reg.modules[id].kind == Personal)
    && (forall id :: id in reg.manifests ==> Installed(id, reg.manifests[id], reg.modules[id]))
  }

  /** No module's namespace is, or lies in front of, another's. */
  predicate Disjoint(modules: Modules) {
    forall a, b :: a in modules && b in modules && a != b ==> !Conflict(modules[a].namespace, modules[b].namespace)
  }

  // ---------------------------------------------------------------- well-formedness

  /** Putting a checked personal module in place, new or upgraded. */
  lemma InstallKeepsWf(reg: Reg, m: Manifest, desc: Descriptor, uninstalled: set<string>)
    requires Wf(reg) && desc.kind == Personal && desc.id == Trim(m.id) && Installed(desc.id, m, desc)
    ensures Wf(Reg(reg.modules[desc.id := desc], reg.manifests[desc.id := m], uninstalled))
  {
    hide Installed;
    InstalledIsNotBuiltin(desc.id, m, desc);
  }

  lemma InstalledIsNotBuiltin(id: string, m: Manifest, desc: Descriptor)
    requires Installed(id, m, desc)
    ensures !IsBuiltinId(id)
  {
  }

  lemma RegisteredInstalls(reg: Reg, m: Manifest)
    requires Wf(reg) && Registered(reg, m).Ok?
    ensures var next, id := Registered(reg, m).value, Trim(m.id);
            && id in next.modules && next.modules == reg.modules[id := next.modules[id]]
            && next.manifests == reg.manifests[id := m]
            && next.modules[id].kind == Personal && next.modules[id].id == id
            && Installed(id, m, next.modules[id])
            && !Collides(Checked(next.modules[id].namespace), id, reg.modules)
  {
    hide HitsReserved, HitsBuiltin, IsPathPrefix, Collides, ProtocolOk, GroupOk, Clean, Checked, Trim;
  }

  lemma UpgradedInstalls(reg: Reg, m: Manifest)
    requires Wf(reg) && Upgraded(reg, m).Ok?
    ensures var next, id := Upgraded(reg, m).value, Trim(m.id);
            && id in next.modules && next.modules == reg.modules[id := next.modules[id]]
            && next.manifests == reg.manifests[id := m]
            && next.modules[id].kind == Personal && next.modules[id].id == id
            && Installed(id, m, next.modules[id])
            && !Collides(Checked(next.modules[id].namespace), id, reg.modules)
  {
    hide HitsReserved, HitsBuiltin, IsPathPrefix, Collides, ProtocolOk, GroupOk, Clean, Checked, Trim, FormerState;
    var id := Trim(m.id);
    assert id in reg.manifests;
    assert Installed(id, reg.manifests[id], reg.modules[id]);
  }

  lemma UnregisterKeepsWf(reg: Reg, id: string)
    requires Wf(reg)
    ensures Wf(Unregistered(reg, id).0)
  {
    hide Installed;
  }

  lemma StepKeepsWf(reg: Reg, op: Op)
    requires Wf(reg)
    ensures Wf(Step(reg, op))
  {
    hide Installed, Registered, Upgraded, Unregistered, HasBuiltins;
    match op
    case Register(m) =>
      if Registered(reg, m).Ok? {
        RegisteredInstalls(reg, m);
        var next := Registered(reg, m).value;
        InstallKeepsWf(reg, m, next.modules[Trim(m.id)], next.uninstalled);
      }
    case Upgrade(m) =>
      if Upgraded(reg, m).Ok? {
        UpgradedInstalls(reg, m);
        var next := Upgraded(reg, m).value;
        InstallKeepsWf(reg, m, next.modules[Trim(m.id)], next.uninstalled);
      }
    case Unregister(id) => UnregisterKeepsWf(reg, id);
    case SetStatus(id, enabled) => SameRoutesKeepWf(reg, Step(reg, op).modules);
    case Renumber(orders) => SameRoutesKeepWf(reg, Step(reg, op).modules);
  }

  /** The same modules with the same identities, kinds and namespaces. */
  predicate SameRoutes(a: Modules, b: Modules) {
    && a.Keys == b.Keys
    && forall id :: id in a ==> a[id].id == b[id].id && a[id].kind == b[id].kind && a[id].namespace == b[id].namespace
  }

  lemma InstalledDependsOnNamespace(id: string, m: Manifest, a: Descriptor, b: Descriptor)
    requires Installed(id, m, a) && a.namespace == b.namespace
    ensures Installed(id, m, b)
  {
    hide IsFree, ProtocolOk, GroupOk;
  }

  lemma SameRoutesKeepWf(reg: Reg, modules: Modules)
    requires Wf(reg) && SameRoutes(reg.modules, modules)
    ensures Wf(reg.(modules := modules))
  {
    hide Installed;
    forall i | i in reg.manifests
      ensures Installed(i, reg.manifests[i], modules[i])
    {
      InstalledDependsOnNamespace(i, reg.manifests[i], reg.modules[i], modules[i]);
    }
  }

  lemma BuiltinsAreApart()
    ensures !Conflict("/ominroute", "/muse-ai") && !Conflict("/ominroute", "/jev") && !Conflict("/muse-ai", "/jev")
  {
    assert "/ominroute"[1] == 'o' && "/muse-ai"[1] == 'm' && "/jev"[1] == 'j';
  }

  lemma FreshIsWf()
    ensures Wf(FRESH) && Disjoint(FRESH.modules)
  {
    BuiltinsAreApart();
    hide Within;
  }

  lemma {:induction false} HistoryKeepsWf(ops: seq<Op>)
    ensures Wf(After(ops))
    decreases |ops|
  {
    hide Wf, Step;
    if ops == [] {
      FreshIsWf();
    } else {
      HistoryKeepsWf(ops[..|ops| - 1]);
      StepKeepsWf(After(ops[..|ops| - 1]), ops[|ops| - 1]);
    }
  }

  // ---------------------------------------------------------------- disjoint namespaces

  /** The namespace an operation installs satisfies `cond`. */
  predicate Installs(op: Op, cond: string -> bool) {
    match op
    case Register(m) => cond(m.namespace)
    case Upgrade(m) => cond(m.namespace)
    case _ => true
  }

  predicate AllInstall(ops: seq<Op>, cond: string -> bool) {
    forall i :: 0 <= i < |ops| ==> Installs(ops[i], cond)
  }

  lemma StoredEverywhere(reg: Reg, id: string)
    requires Wf(reg) && id in reg.modules
    ensures IsStored(reg.modules[id].namespace) && reg.modules[id].namespace != ""
    ensures TrimEndMatches(reg.modules[id].namespace, '/') == reg.modules[id].namespace
  {
    if id in reg.manifests {
      hide Clean, Checked, WhitespaceLen, HitsReserved, HitsBuiltin, ProtocolOk, GroupOk;
      var ns := reg.modules[id].namespace;
      assert Installed(id, reg.manifests[id], reg.modules[id]);
      CleanIsStored(reg.manifests[id].namespace);
      if ns == "" {
        CheckedIsPrefix(ns);
      }
    } else {
      assert IsBuiltinId(id);
    }
  }

  /** A module put in place after a passed collision check stays clear of all others. */
  lemma InstallKeepsDisjoint(reg: Reg, m: Manifest, desc: Descriptor)
    requires Wf(reg) && Disjoint(reg.modules) && Installed(desc.id, m, desc)
    requires Sound(m.namespace) && !Collides(Checked(desc.namespace), desc.id, reg.modules)
    ensures Disjoint(reg.modules[desc.id := desc])
  {
    hide Clean, Checked, Conflict, IsStored, HitsReserved, HitsBuiltin, ProtocolOk, GroupOk;
    CleanIsStored(m.namespace);
    forall b | b in reg.modules && b != desc.id
      ensures !Conflict(desc.namespace, reg.modules[b].namespace)
      ensures !Conflict(reg.modules[b].namespace, desc.namespace)
    {
      StoredEverywhere(reg, b);
      CheckProtectsStored(desc.namespace, reg.modules[b].namespace);
      ConflictSymmetric(desc.namespace, reg.modules[b].namespace);
    }
  }

  lemma ConflictSelf(a: string)
    ensures Conflict(a, a)
  {
  }

  lemma ConflictSymmetric(a: string, b: string)
    ensures Conflict(a, b) <==> Conflict(b, a)
  {
  }

  lemma SameRoutesKeepDisjoint(a: Modules, b: Modules)
    requires Disjoint(a) && SameRoutes(a, b)
    ensures Disjoint(b)
  {
    hide Conflict;
  }

  lemma UnregisterKeepsDisjoint(reg: Reg, id: string)
    requires Disjoint(reg.modules)
    ensures Disjoint(Unregistered(reg, id).0.modules)
  {
    hide Conflict;
  }

  lemma InstalledIsSound(id: string, m: Manifest, desc: Descriptor)
    requires Installed(id, m, desc) && Guarded(m.namespace)
    ensures Sound(m.namespace)
  {
    hide IsFree, Checked, Clean, Sound;
  }

  lemma StepKeepsDisjoint(reg: Reg, op: Op)
    requires Wf(reg) && Disjoint(reg.modules) && Installs(op, Guarded)
    ensures Disjoint(Step(reg, op).modules)
  {
    hide Installed, Registered, Upgraded, Unregistered, Disjoint, Wf, Collides, Checked, Clean, Sound, Guarded;
    match op
    case Register(m) =>
      if Registered(reg, m).Ok? {
        RegisteredInstalls(reg, m);
        InstalledIsSound(Trim(m.id), m, Registered(reg, m).value.modules[Trim(m.id)]);
        InstallKeepsDisjoint(reg, m, Registered(reg, m).value.modules[Trim(m.id)]);
      }
    case Upgrade(m) =>
      if Upgraded(reg, m).Ok? {
        UpgradedInstalls(reg, m);
        InstalledIsSound(Trim(m.id), m, Upgraded(reg, m).value.modules[Trim(m.id)]);
        InstallKeepsDisjoint(reg, m, Upgraded(reg, m).value.modules[Trim(m.id)]);
      }
    case Unregister(id) => UnregisterKeepsDisjoint(reg, id);
    case SetStatus(id, enabled) => SameRoutesKeepDisjoint(reg.modules, Step(reg, op).modules);
    case Renumber(orders) => SameRoutesKeepDisjoint(reg.modules, Step(reg, op).modules);
  }

  /** After any history, failed operations included, no namespace equals or is a segment prefix of
      another, as long as no namespace that passes the checks has a blank right behind its checked
      part. */
  lemma {:induction false} NamespacesStayDisjoint(ops: seq<Op>)
    requires AllInstall(ops, Guarded)
    ensures Disjoint(After(ops).modules)
    decreases |ops|
  {
    hide Disjoint, Step;
    if ops == [] {
      FreshIsWf();
    } else {
      var front := ops[..|ops| - 1];
      NamespacesStayDisjoint(front);
      HistoryKeepsWf(front);
      assert Installs(ops[|ops| - 1], Guarded);
      StepKeepsDisjoint(After(front), ops[|ops| - 1]);
    }
  }

  /** The second of two modules with one unsound namespace passes the collision check. */
  lemma SecondUnsoundPasses(raw: string, first: Descriptor)
    requires IsFree(Checked(Clean(raw))) && !Sound(raw) && first.namespace == Clean(raw)
    ensures !Collides(Checked(Clean(raw)), "b", FRESH.modules["a" := first])
  {
    hide Clean, Checked, Conflict, IsFree;
    FreshDoesNotCollide(Checked(Clean(raw)), "b");
    CleanIsStored(raw);
    UnsoundIsNotProtected(raw);
    NoSlashToTrim(Clean(raw));
  }

  lemma AfterTwo(x: Op, y: Op)
    ensures After([x, y]) == Step(Step(FRESH, x), y)
  {
    hide Step;
    assert [x, y][..1] == [x] && [x][..0] == [];
    assert After([x]) == Step(FRESH, x);
  }

  /** Every namespace that is not guarded can be taken twice. */
  lemma UnguardedCanBeTakenTwice(raw: string)
    requires !Guarded(raw)
    ensures !Disjoint(After([Register(Plain("a", raw)), Register(Plain("b", raw))]).modules)
  {
    hide Registered, IsFree, Clean, Checked, Sound, After, Collides, Within;
    FreshDoesNotCollide(Checked(Clean(raw)), "a");
    PlainRegisters(FRESH, "a", raw);
    var one := Registered(FRESH, Plain("a", raw)).value;
    SecondUnsoundPasses(raw, one.modules["a"]);
    PlainRegisters(one, "b", raw);
    var two := Registered(one, Plain("b", raw)).value;
    AfterTwo(Register(Plain("a", raw)), Register(Plain("b", raw)));
    assert two.modules["a"].namespace == Clean(raw) == two.modules["b"].namespace;
    ConflictSelf(Clean(raw));
  }

  /** `raw` itself, or any guarded namespace. */
  function RawOrGuarded(raw: string): string -> bool {
    ns => ns == raw || Guarded(ns)
  }

  /** The condition is exact: a namespace is harmless in every history of guarded ones if and only if
      it is guarded. */
  lemma GuardedExactly(raw: string)
    ensures Guarded(raw) <==> forall ops: seq<Op> :: AllInstall(ops, RawOrGuarded(raw)) ==> Disjoint(After(ops).modules)
  {
    hide Guarded, Disjoint, After;
    if Guarded(raw) {
      forall ops: seq<Op> | AllInstall(ops, RawOrGuarded(raw))
        ensures Disjoint(After(ops).modules)
      {
        forall i | 0 <= i < |ops|
          ensures Installs(ops[i], Guarded)
        {
          assert Installs(ops[i], RawOrGuarded(raw));
        }
        NamespacesStayDisjoint(ops);
      }
    } else {
      UnguardedCanBeTakenTwice(raw);
      assert AllInstall([Register(Plain("a", raw)), Register(Plain("b", raw))], RawOrGuarded(raw));
    }
  }

  lemma NoSlashToTrim(ns: string)
    requires IsStored(ns)
    ensures TrimEndMatches(ns, '/') == ns
  {
  }

  /** A minimal manifest. */
  function Plain(id: string, namespace: string): Manifest {
    Manifest(id, namespace, "stdio-stream", "/bin/sh", None)
  }

  lemma PlainIsFine(id: string, raw: string)
    ensures IsId(id) ==> Trim(id) == id
    ensures ProtocolOk(Plain(id, raw)) && GroupOk(Plain(id, raw))
  {
    if IsId(id) {
      TrimNothing(id);
    }
    TrimNothing("/bin/sh");
  }

  /** A minimal manifest registers under its trimmed identifier. */
  lemma MinimalRegisters(reg: Reg, rawId: string, raw: string)
    requires IsId(Trim(rawId)) && (Trim(rawId) in reg.modules ==> reg.modules[Trim(rawId)].kind == Personal)
    requires IsFree(Checked(Clean(raw))) && !Collides(Checked(Clean(raw)), Trim(rawId), reg.modules)
    ensures Registered(reg, Plain(rawId, raw)).Ok?
    ensures var next, id := Registered(reg, Plain(rawId, raw)).value, Trim(rawId);
            && id in next.modules && next.modules == reg.modules[id := next.modules[id]]
            && next.modules[id].kind == Personal && next.modules[id].namespace == Clean(raw)
  {
    hide HitsReserved, HitsBuiltin, IsPathPrefix, Collides, ProtocolOk, GroupOk, Clean, Checked, Trim;
    PlainIsFine(rawId, raw);
  }

  lemma PlainRegisters(reg: Reg, id: string, raw: string)
    requires IsId(id) && (id in reg.modules ==> reg.modules[id].kind == Personal)
    requires IsFree(Checked(Clean(raw))) && !Collides(Checked(Clean(raw)), id, reg.modules)
    ensures Registered(reg, Plain(id, raw)).Ok?
    ensures var next := Registered(reg, Plain(id, raw)).value;
            && id in next.modules && next.modules == reg.modules[id := next.modules[id]]
            && next.modules[id].kind == Personal && next.modules[id].namespace == Clean(raw)
  {
    hide IsFree, Collides, Registered, Clean, Checked, Trim, IsId;
    PlainIsFine(id, raw);
    MinimalRegisters(reg, id, raw);
  }

  lemma FreshHasBuiltins(id: string)
    ensures id in FRESH.modules <==> IsBuiltinId(id)
  {
  }

  lemma FreshDoesNotCollide(t: string, id: string)
    requires IsFree(t)
    ensures !Collides(t, id, FRESH.modules)
  {
    hide IsPathPrefix, HitsReserved, Conflict;
    assert BUILTIN_PROVIDER_PREFIXES[0] == "/ominroute" && BUILTIN_PROVIDER_PREFIXES[2] == "/muse-ai"
        && BUILTIN_PROVIDER_PREFIXES[4] == "/jev";
    assert !Conflict(t, BUILTIN_PROVIDER_PREFIXES[0]) && !Conflict(t, BUILTIN_PROVIDER_PREFIXES[2])
        && !Conflict(t, BUILTIN_PROVIDER_PREFIXES[4]);
    assert TrimEndMatches("/ominroute", '/') == "/ominroute";
    assert TrimEndMatches("/muse-ai", '/') == "/muse-ai";
    assert TrimEndMatches("/jev", '/') == "/jev";
  }

  /** What one operation can bring into the registry: the manifest it carries, under its own id. */
  lemma StepBrings(reg: Reg, op: Op)
    requires Wf(reg)
    ensures var next := Step(reg, op);
            && (forall id :: id in next.modules && id !in reg.modules ==> op.Register? && id == Trim(op.m.id))
            && (forall id :: id in next.manifests ==>
                  || (id in reg.manifests && next.manifests[id] == reg.manifests[id])
                  || ((op.Register? || op.Upgrade?) && next.manifests[id] == op.m))
  {
    hide Registered, Upgraded, Trim, Installed;
    match op
    case Register(m) => if Registered(reg, m).Ok? { RegisteredInstalls(reg, m); }
    case Upgrade(m) => if Upgraded(reg, m).Ok? { UpgradedInstalls(reg, m); UpgradeNeedsModule(reg, m); }
    case _ =>
  }

  // ---------------------------------------------------------------- what unregistering removes

  /** After a personal module is unregistered it is neither installed nor listed nor kept, it is marked
      as uninstalled, and nothing else has changed. */
  lemma UnregisteredIsGone(ops: seq<Op>, id: string)
    requires id in After(ops).modules && !IsBuiltinId(id)
    ensures var before, after := After(ops), After(ops + [Unregister(id)]);
            && id !in after.modules && id !in after.manifests && id in after.uninstalled
            && (forall other :: other != id ==> (other in after.modules <==> other in before.modules)
                                                && (other in after.manifests <==> other in before.manifests)
                                                && (other in after.uninstalled <==> other in before.uninstalled))
            && (forall other :: other in after.modules ==> after.modules[other] == before.modules[other])
            && (forall other :: other in after.manifests ==> after.manifests[other] == before.manifests[other])
  {
    hide Installed;
    HistoryKeepsWf(ops);
    AfterOneMore(ops, Unregister(id));
  }

  lemma AfterOneMore(ops: seq<Op>, op: Op)
    ensures After(ops + [op]) == Step(After(ops), op)
  {
    hide Step;
    assert (ops + [op])[..|ops|] == ops;
  }

  /** What is not installed stays so until it is registered. */
  lemma {:induction false} GoneUntilRegistered(ops: seq<Op>, more: seq<Op>, id: string)
    requires id !in After(ops).modules
    requires forall i :: 0 <= i < |more| && more[i].Register? ==> Trim(more[i].m.id) != id
    ensures id !in After(ops + more).modules
    decreases |more|
  {
    hide Step, Trim, Installed;
    if more == [] {
      assert ops + more == ops;
    } else {
      var front, last := more[..|more| - 1], more[|more| - 1];
      GoneUntilRegistered(ops, front, id);
      assert ops + more == ops + front + [last];
      AfterOneMore(ops + front, last);
      HistoryKeepsWf(ops + front);
      StepBrings(After(ops + front), last);
    }
  }

  lemma UpgradeNeedsModule(reg: Reg, m: Manifest)
    requires Upgraded(reg, m).Ok?
    ensures Trim(m.id) in reg.modules
  {
  }

  lemma InitialsDiffer(a: string, b: string)
    requires |a| >= 2 && |b| >= 2 && a[1] != b[1]
    ensures !Conflict(a, b)
  {
  }

  /** A namespace that is its own checked text is stored as it is written. */
  lemma PlainNamespaceIsKept(t: string)
    requires IsPathPrefix(t) && t[|t| - 1] != '/'
    ensures Clean(t) == t && Checked(t) == t
  {
    TrimNothing(t);
  }

  /** Namespaces that start with a `t` meet no reserved and no built-in prefix. */
  lemma InitialTIsFree(t: string)
    requires IsPathPrefix(t) && t[1] == 't'
    ensures IsFree(t)
  {
    hide Conflict;
    forall i | 0 <= i < |RESERVED_PREFIXES| && RESERVED_PREFIXES[i] != "/"
      ensures !Conflict(t, RESERVED_PREFIXES[i])
    {
      assert |RESERVED_PREFIXES[i]| >= 2 && RESERVED_PREFIXES[i][1] != 't';
      InitialsDiffer(t, RESERVED_PREFIXES[i]);
    }
    forall i | 0 <= i < |BUILTIN_PROVIDER_PREFIXES|
      ensures !Conflict(t, BUILTIN_PROVIDER_PREFIXES[i])
    {
      assert |BUILTIN_PROVIDER_PREFIXES[i]| >= 2 && BUILTIN_PROVIDER_PREFIXES[i][1] != 't';
      InitialsDiffer(t, BUILTIN_PROVIDER_PREFIXES[i]);
    }
  }

  /** Checks passed: the module is put in place. */
  lemma ChecksPassed(reg: Reg, m: Manifest)
    requires CheckId(Trim(m.id), reg.modules).None? && CheckNamespace(Clean(m.namespace), Trim(m.id), reg.modules).None?
    requires ProtocolOk(m) && GroupOk(m)
    ensures Registered(reg, m).Ok?
    ensures var next, id := Registered(reg, m).value, Trim(m.id);
            && id in next.modules && next.modules == reg.modules[id := next.modules[id]]
            && next.modules[id].namespace == Clean(m.namespace) && next.modules[id].kind == Personal
  {
    hide CheckId, CheckNamespace, ProtocolOk, GroupOk, Clean, Trim, SubProviders;
  }

  // ---------------------------------------------------------------- what is refused, and for what

  /** The first check that fails gives the error. */
  lemma RefusedForTheFirstFault(reg: Reg, m: Manifest)
    ensures var id, t := Trim(m.id), Checked(Clean(m.namespace));
            var r := Registered(reg, m);
            && (!IsId(id) || (id in reg.modules && reg.modules[id].kind == BuiltIn) ==> r == Err(InvalidId))
            && (r != Err(InvalidId) && !IsPathPrefix(t) ==> r == Err(InvalidNamespace))
            && (r != Err(InvalidId) && IsPathPrefix(t) && HitsReserved(t) ==> r == Err(ReservedNamespace))
            && (r != Err(InvalidId) && IsPathPrefix(t) && !HitsReserved(t) && (HitsBuiltin(t) || Collides(t, id, reg.modules)) ==>
                  r == Err(NamespaceCollision))
            && (r != Err(InvalidId) && IsFree(t) && !Collides(t, id, reg.modules) ==>
                  if ProtocolOk(m) && GroupOk(m) then r.Ok? else r == Err(InvalidManifest))
  {
    hide HitsReserved, HitsBuiltin, IsPathPrefix, Collides, ProtocolOk, GroupOk, Clean, Checked, Trim, IsId, SubProviders;
  }
}

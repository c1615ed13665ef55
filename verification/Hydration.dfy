/** Re-registering the stored modules when the gateway starts. */
module Hydration {
  import opened Bytes
  import opened Namespaces
  import opened Registry
  import opened RegistryLaws

  datatype StoredModule = StoredModule(manifest: Manifest, enabled: bool)

  /** One stored module: skipped if its registration fails, otherwise given its stored status. The
      status goes to the identifier as it is written in the manifest. */
  function HydrateOne(reg: Reg, sm: StoredModule): Reg {
    match Registered(reg, sm.manifest)
    case Err(error) => reg
    case Ok(next) => match StatusSet(next, sm.manifest.id, sm.enabled) case Err(error) => next case Ok(done) => done
  }

  function Hydrated(reg: Reg, stored: seq<StoredModule>): Reg
    decreases |stored|
  {
    if stored == [] then reg else Hydrated(HydrateOne(reg, stored[0]), stored[1..])
  }

  /** Every stored module registers when its turn comes. */
  predicate AllSucceed(reg: Reg, stored: seq<StoredModule>)
    decreases |stored|
  {
    stored == [] || (Registered(reg, stored[0].manifest).Ok? && AllSucceed(HydrateOne(reg, stored[0]), stored[1..]))
  }

  /** `hydrate_stored_modules` */
  method HydrateStoredModules(reg: ModuleRegistry, stored: seq<StoredModule>)
    modifies reg
    ensures reg.Value() == Hydrated(old(reg.Value()), stored)
  {
    hide Registered, StatusSet;
    for i := 0 to |stored|
      invariant Hydrated(reg.Value(), stored[i..]) == Hydrated(old(reg.Value()), stored)
    {
      assert stored[i..][1..] == stored[i + 1..];
      var sm := stored[i];
      var r := reg.RegisterPersonalModule(sm.manifest);
      if r.Ok? {
        var ignored := reg.SetModuleStatus(sm.manifest.id, sm.enabled);
      }
    }
    assert stored[|stored|..] == [];
  }

  // ---------------------------------------------------------------- confluence

  /** A part of the modules of `target`, under the same namespaces. */
  predicate PartOf(modules: Modules, target: Modules) {
    forall id :: id in modules ==>
      id in target && modules[id].namespace == target[id].namespace && modules[id].kind == target[id].kind
  }

  predicate StoredIn(sm: StoredModule, target: Reg) {
    Trim(sm.manifest.id) in target.manifests && target.manifests[Trim(sm.manifest.id)] == sm.manifest
  }

  ghost predicate AllWellTrimmed(reg: Reg) {
    forall id :: id in reg.manifests ==> WellTrimmed(reg.manifests[id].namespace)
  }

  /** A well-trimmed manifest of a registry registers into any part of that registry. */
  lemma ManifestFits(reg: Reg, target: Reg, m: Manifest)
    requires Wf(target) && Disjoint(target.modules) && PartOf(reg.modules, target.modules)
    requires StoredIn(StoredModule(m, true), target) && WellTrimmed(m.namespace)
    ensures Trim(m.id) in target.modules && CheckId(Trim(m.id), reg.modules).None?
    ensures CheckNamespace(Clean(m.namespace), Trim(m.id), reg.modules).None?
    ensures ProtocolOk(m) && GroupOk(m) && Clean(m.namespace) == target.modules[Trim(m.id)].namespace
    ensures target.modules[Trim(m.id)].kind == Personal
  {
    hide HitsReserved, HitsBuiltin, IsPathPrefix, Conflict, Clean, Checked, Trim, ProtocolOk, GroupOk, IsStored;
    var id := Trim(m.id);
    assert Installed(id, m, target.modules[id]);
    forall other | other in reg.modules && other != id
      ensures !Conflict(Clean(m.namespace), TrimEndMatches(reg.modules[other].namespace, '/'))
    {
      StoredEverywhere(target, other);
    }
  }

  /** Setting a status moves no module. */
  lemma StatusKeepsPart(reg: Reg, target: Modules, id: string, enabled: bool)
    requires PartOf(reg.modules, target)
    ensures var next := match StatusSet(reg, id, enabled) case Err(error) => reg case Ok(done) => done;
            PartOf(next.modules, target) && next.modules.Keys == reg.modules.Keys
  {
  }

  /** Registering a manifest that fits puts its module where `target` has it. */
  lemma RegisteredIsPart(reg: Reg, target: Reg, m: Manifest)
    requires Wf(target) && Disjoint(target.modules) && PartOf(reg.modules, target.modules)
    requires StoredIn(StoredModule(m, true), target) && WellTrimmed(m.namespace)
    ensures Registered(reg, m).Ok?
    ensures var next := Registered(reg, m).value;
            PartOf(next.modules, target.modules) && next.modules.Keys == reg.modules.Keys + {Trim(m.id)}
  {
    hide Registered, CheckId, CheckNamespace, ProtocolOk, GroupOk, Clean, WellTrimmed, Trim, Disjoint, Wf;
    ManifestFits(reg, target, m);
    ChecksPassed(reg, m);
  }

  lemma ManifestRegisters(reg: Reg, target: Reg, sm: StoredModule)
    requires Wf(target) && Disjoint(target.modules) && PartOf(reg.modules, target.modules)
    requires StoredIn(sm, target) && WellTrimmed(sm.manifest.namespace)
    ensures Registered(reg, sm.manifest).Ok?
    ensures PartOf(HydrateOne(reg, sm).modules, target.modules)
    ensures HydrateOne(reg, sm).modules.Keys == reg.modules.Keys + {Trim(sm.manifest.id)}
  {
    hide Registered, WellTrimmed, Trim, Disjoint, Wf, StatusSet, PartOf;
    RegisteredIsPart(reg, target, sm.manifest);
    StatusKeepsPart(Registered(reg, sm.manifest).value, target.modules, sm.manifest.id, sm.enabled);
  }

  lemma {:induction false} AllManifestsRegister(reg: Reg, target: Reg, stored: seq<StoredModule>)
    requires Wf(target) && Disjoint(target.modules) && AllWellTrimmed(target)
    requires PartOf(reg.modules, target.modules)
    requires forall i :: 0 <= i < |stored| ==> StoredIn(stored[i], target)
    ensures AllSucceed(reg, stored)
    ensures PartOf(Hydrated(reg, stored).modules, target.modules)
    ensures reg.modules.Keys <= Hydrated(reg, stored).modules.Keys
    ensures forall i :: 0 <= i < |stored| ==> Trim(stored[i].manifest.id) in Hydrated(reg, stored).modules
    decreases |stored|
  {
    hide Registered, WellTrimmed, Trim, Disjoint, HydrateOne, PartOf, Wf;
    if stored != [] {
      ManifestRegisters(reg, target, stored[0]);
      AllManifestsRegister(HydrateOne(reg, stored[0]), target, stored[1..]);
      forall i | 0 <= i < |stored|
        ensures Trim(stored[i].manifest.id) in Hydrated(reg, stored).modules
      {
        if i > 0 {
          assert stored[i] == stored[1..][i - 1];
        }
      }
    }
  }

  /** The same modules own the same namespaces. */
  predicate SameOwnership(a: Modules, b: Modules) {
    a.Keys == b.Keys && forall id :: id in a ==> a[id].namespace == b[id].namespace
  }

  lemma RestorableIsGuarded(raw: string)
    requires Restorable(raw)
    ensures Guarded(raw)
  {
    hide IsFree;
  }

  lemma RestorableHistory(ops: seq<Op>)
    requires AllInstall(ops, Restorable)
    ensures Wf(After(ops)) && Disjoint(After(ops).modules) && AllWellTrimmed(After(ops))
  {
    hide Disjoint, After, Installed, Guarded, Restorable, WellTrimmed;
    forall i | 0 <= i < |ops|
      ensures Installs(ops[i], Guarded)
    {
      assert Installs(ops[i], Restorable);
      if ops[i].Register? || ops[i].Upgrade? {
        RestorableIsGuarded(ops[i].m.namespace);
      }
    }
    HistoryKeepsWf(ops);
    NamespacesStayDisjoint(ops);
    HistoryIsWellTrimmed(ops);
  }

  /** Every manifest of `target` is stored, possibly more than once, and nothing else. */
  ghost predicate IsStoreOf(stored: seq<StoredModule>, target: Reg) {
    && (forall i :: 0 <= i < |stored| ==> StoredIn(stored[i], target))
    && (forall id :: id in target.manifests ==> exists i :: 0 <= i < |stored| && Trim(stored[i].manifest.id) == id)
  }

  /** Restart: the manifests of a registry with well-trimmed namespaces, stored in any order and with
      any statuses, all register at start-up and give every module its namespace back. */
  lemma HydrationRestoresOwnership(ops: seq<Op>, stored: seq<StoredModule>)
    requires AllInstall(ops, Restorable)
    requires IsStoreOf(stored, After(ops))
    ensures AllSucceed(FRESH, stored)
    ensures SameOwnership(Hydrated(FRESH, stored).modules, After(ops).modules)
  {
    hide Registered, WellTrimmed, Trim, Disjoint, Hydrated, AllSucceed, After, Installed, Guarded, Restorable;
    var target := After(ops);
    RestorableHistory(ops);
    FreshIsPart(target);
    AllManifestsRegister(FRESH, target, stored);
    EveryIdIsBack(target, Hydrated(FRESH, stored).modules);
  }

  lemma FreshIsPart(target: Reg)
    requires Wf(target)
    ensures PartOf(FRESH.modules, target.modules)
  {
    hide Installed;
    assert forall id :: id in FRESH.modules ==> IsBuiltinId(id);
  }

  lemma EveryIdIsBack(target: Reg, modules: Modules)
    requires Wf(target) && PartOf(modules, target.modules) && FRESH.modules.Keys <= modules.Keys
    requires forall id :: id in target.manifests ==> id in modules
    ensures SameOwnership(modules, target.modules)
  {
    hide Installed;
    forall id | id in target.modules
      ensures id in modules
    {
      if id !in target.manifests {
        assert IsBuiltinId(id);
        assert id in FRESH.modules.Keys;
      }
    }
  }

  lemma {:induction false} HistoryIsWellTrimmed(ops: seq<Op>)
    requires AllInstall(ops, Restorable)
    ensures AllWellTrimmed(After(ops))
    decreases |ops|
  {
    hide Step, Trim, WellTrimmed, Restorable, Installed;
    if ops != [] {
      var front := ops[..|ops| - 1];
      HistoryIsWellTrimmed(front);
      HistoryKeepsWf(front);
      StepBrings(After(front), ops[|ops| - 1]);
      assert Installs(ops[|ops| - 1], Restorable);
      HistoryKeepsWf(ops);
      forall id | id in After(ops).manifests
        ensures WellTrimmed(After(ops).manifests[id].namespace)
      {
        InstalledIsWellTrimmed(id, After(ops).manifests[id], After(ops).modules[id]);
      }
    }
  }

  lemma InstalledIsWellTrimmed(id: string, m: Manifest, desc: Descriptor)
    requires Installed(id, m, desc)
    ensures Restorable(m.namespace) ==> WellTrimmed(m.namespace)
  {
    hide IsFree, Checked, Clean, WellTrimmed;
  }

  // ---------------------------------------------------------------- where it fails

  lemma ExtensionIsFree(t: string)
    requires IsFree(t) && t[|t| - 1] != '/'
    ensures IsFree(t + "/b") && Within(t + "/b", t)
  {
    var u := t + "/b";
    assert Within(u, t) by { assert (t + "/") <= u; }
    hide Within;
    assert forall i :: 0 <= i < |t| ==> u[i] == t[i];
    forall i | 0 <= i < |RESERVED_PREFIXES| && RESERVED_PREFIXES[i] != "/"
      ensures !Conflict(u, RESERVED_PREFIXES[i])
    {
      if Conflict(u, RESERVED_PREFIXES[i]) {
        ConflictSymmetric(u, RESERVED_PREFIXES[i]);
        ConflictGoesUp(RESERVED_PREFIXES[i], u, t);
      }
    }
    forall i | 0 <= i < |BUILTIN_PROVIDER_PREFIXES|
      ensures !Conflict(u, BUILTIN_PROVIDER_PREFIXES[i])
    {
      if Conflict(u, BUILTIN_PROVIDER_PREFIXES[i]) {
        ConflictSymmetric(u, BUILTIN_PROVIDER_PREFIXES[i]);
        ConflictGoesUp(BUILTIN_PROVIDER_PREFIXES[i], u, t);
      }
    }
  }

  /** The namespace whose module is accepted after, but not before, one with namespace `raw`. */
  function Rival(raw: string): string {
    var t := Checked(Clean(raw));
    if Sound(raw) then t + "/b" else t
  }

  lemma RivalIsFree(raw: string)
    requires IsFree(Checked(Clean(raw))) && !WellTrimmed(raw)
    ensures IsFree(Rival(raw)) && Clean(Rival(raw)) == Rival(raw) && Checked(Rival(raw)) == Rival(raw)
    ensures Within(Rival(raw), Checked(Clean(raw)))
    ensures !Conflict(Rival(raw), Clean(raw))
  {
    var ns, t := Clean(raw), Checked(Clean(raw));
    CleanIsStored(raw);
    CheckedIsPrefix(ns);
    hide Clean, Checked, HitsReserved, HitsBuiltin;
    if Sound(raw) {
      ExtensionIsFree(t);
      PlainNamespaceIsKept(t + "/b");
      BlankIsNoLetter(ns, t);
    } else {
      PlainNamespaceIsKept(t);
      UnsoundIsNotProtected(raw);
    }
  }

  lemma BlankIsNoLetter(ns: string, t: string)
    requires t + "/" <= ns && ns[|ns| - 1] != '/' && ns != t + "/b"
    requires |ns| > |t| + 1 && ns[|t| + 1] != 'b'
    ensures !Conflict(t + "/b", ns)
  {
    assert (t + "/b")[|t| + 1] == 'b';
    assert (t + "/b" + "/")[|t| + 1] == 'b';
  }

  lemma TwoSucceed(reg: Reg, a: StoredModule, b: StoredModule)
    ensures AllSucceed(reg, [a, b])
            <==> Registered(reg, a.manifest).Ok? && Registered(HydrateOne(reg, a), b.manifest).Ok?
  {
    hide Registered, HydrateOne;
    assert [a, b][1..] == [b] && [b][1..] == [];
    assert AllSucceed(HydrateOne(reg, a), [b]) <==> Registered(HydrateOne(reg, a), b.manifest).Ok?;
  }

  /** The start-up registry with one plain module. */
  lemma HydratePlain(id: string, raw: string)
    requires IsId(id) && !IsBuiltinId(id) && IsFree(Checked(Clean(raw)))
    ensures Registered(FRESH, Plain(id, raw)).Ok?
    ensures var modules := HydrateOne(FRESH, StoredModule(Plain(id, raw), true)).modules;
            && modules.Keys == FRESH.modules.Keys + {id}
            && modules[id].namespace == Clean(raw)
            && forall other :: other in FRESH.modules ==> modules[other] == FRESH.modules[other]
  {
    hide Registered, Clean, Checked, IsFree, Trim, IsId, Collides;
    FreshDoesNotCollide(Checked(Clean(raw)), id);
    PlainRegisters(FRESH, id, raw);
    PlainIsFine(id, raw);
    FreshHasBuiltins(id);
    var next := Registered(FRESH, Plain(id, raw)).value;
    assert HydrateOne(FRESH, StoredModule(Plain(id, raw), true)).modules == next.modules[id := WithStatus(next.modules[id], true)];
  }

  /** The condition is exact: for every namespace that is free at start-up but not well trimmed there
      is a second one such that both register in one order, and in the other the first is skipped. */
  lemma HydrationOrderMatters(raw: string)
    requires IsFree(Checked(Clean(raw))) && !WellTrimmed(raw)
    ensures var a, b := StoredModule(Plain("a", raw), true), StoredModule(Plain("b", Rival(raw)), true);
            AllSucceed(FRESH, [a, b]) && !AllSucceed(FRESH, [b, a])
  {
    hide Registered, HydrateOne, Rival, Clean, Checked, IsFree, WellTrimmed, Conflict, Within, AllSucceed;
    var a, b := StoredModule(Plain("a", raw), true), StoredModule(Plain("b", Rival(raw)), true);
    RivalIsFree(raw);
    FirstThenRival(raw);
    RivalThenFirst(raw);
    HydratePlain("a", raw);
    TwoSucceed(FRESH, a, b);
    TwoSucceed(FRESH, b, a);
  }

  /** `raw` itself, or any restorable namespace. */
  function RawOrRestorable(raw: string): string -> bool {
    ns => ns == raw || Restorable(ns)
  }

  /** All orders of the manifests of all registries reached with these namespaces register again. */
  ghost predicate AlwaysHydrates(cond: string -> bool) {
    forall ops: seq<Op>, stored :: AllInstall(ops, cond) && IsStoreOf(stored, After(ops)) ==> AllSucceed(FRESH, stored)
  }

  /** The condition is exact: a namespace is harmless among restorable ones if and only if it is
      restorable. */
  lemma RestorableExactly(raw: string)
    ensures Restorable(raw) <==> AlwaysHydrates(RawOrRestorable(raw))
  {
    hide Restorable, AllSucceed, After, IsStoreOf, Rival;
    if Restorable(raw) {
      forall ops: seq<Op>, stored | AllInstall(ops, RawOrRestorable(raw)) && IsStoreOf(stored, After(ops))
        ensures AllSucceed(FRESH, stored)
      {
        forall i | 0 <= i < |ops|
          ensures Installs(ops[i], Restorable)
        {
          assert Installs(ops[i], RawOrRestorable(raw));
        }
        HydrationRestoresOwnership(ops, stored);
      }
    } else {
      var ops := RivalHistory(raw);
      HydrationOrderMattersFor(raw);
      RivalIsReached(raw);
      assert AllInstall(ops, RawOrRestorable(raw));
    }
  }

  lemma HydrationOrderMattersFor(raw: string)
    requires !Restorable(raw)
    ensures !AllSucceed(FRESH, [StoredModule(Plain("b", Rival(raw)), true), StoredModule(Plain("a", raw), true)])
  {
    hide IsFree, Checked, Clean, WellTrimmed, Rival, AllSucceed;
    HydrationOrderMatters(raw);
  }

  function RivalHistory(raw: string): seq<Op> {
    [Register(Plain("a", raw)), SetStatus("a", true), Register(Plain("b", Rival(raw)))]
  }

  /** Both modules of the counterexample are in a registry of that history. */
  lemma RivalIsReached(raw: string)
    requires !Restorable(raw)
    ensures Restorable(Rival(raw))
    ensures IsStoreOf([StoredModule(Plain("b", Rival(raw)), true), StoredModule(Plain("a", raw), true)], After(RivalHistory(raw)))
  {
    hide Registered, Rival, Clean, Checked, IsFree, Conflict, Within, Trim, StatusSet, Installed, Collides;
    RivalIsFree(raw);
    FirstThenRival(raw);
    HydratePlain("a", raw);
    PlainIsFine("a", raw);
    PlainIsFine("b", Rival(raw));
    FreshIsWf();
    var first := Registered(FRESH, Plain("a", raw)).value;
    RegisteredInstalls(FRESH, Plain("a", raw));
    var one := HydrateOne(FRESH, StoredModule(Plain("a", raw), true));
    AfterThree(RivalHistory(raw)[0], RivalHistory(raw)[1], RivalHistory(raw)[2]);
    StepKeepsWf(FRESH, RivalHistory(raw)[0]);
    StepKeepsWf(first, RivalHistory(raw)[1]);
    StatusKeepsManifests(first, "a", true);
    RegisteredInstalls(one, Plain("b", Rival(raw)));
    var reg := After(RivalHistory(raw));
    assert reg.manifests == map["a" := Plain("a", raw), "b" := Plain("b", Rival(raw))];
    var stored := [StoredModule(Plain("b", Rival(raw)), true), StoredModule(Plain("a", raw), true)];
    assert stored[0].manifest.id == "b" && stored[1].manifest.id == "a";
  }

  lemma StatusKeepsManifests(reg: Reg, id: string, enabled: bool)
    requires id in reg.modules
    ensures StatusSet(reg, id, enabled).Ok? && StatusSet(reg, id, enabled).value.manifests == reg.manifests
  {
  }

  lemma AfterThree(x: Op, y: Op, z: Op)
    ensures After([x, y, z]) == Step(Step(Step(FRESH, x), y), z)
  {
    hide Step;
    AfterTwo(x, y);
    assert [x, y, z][..2] == [x, y];
  }

  lemma FirstThenRival(raw: string)
    requires IsFree(Checked(Clean(raw))) && !WellTrimmed(raw)
    ensures Registered(HydrateOne(FRESH, StoredModule(Plain("a", raw), true)), Plain("b", Rival(raw))).Ok?
  {
    hide Rival, Registered, Conflict, HydrateOne, Clean, Checked, IsFree, IsStored, WellTrimmed, Within, TrimEndMatches;
    var one := HydrateOne(FRESH, StoredModule(Plain("a", raw), true));
    RivalIsFree(raw);
    CleanIsStored(raw);
    NoSlashToTrim(Clean(raw));
    FreshHasBuiltins("b");
    FreshDoesNotCollide(Rival(raw), "b");
    HydratePlain("a", raw);
    assert !Collides(Rival(raw), "b", one.modules);
    PlainRegisters(one, "b", Rival(raw));
  }

  lemma RivalThenFirst(raw: string)
    requires IsFree(Checked(Clean(raw))) && !WellTrimmed(raw)
    ensures Registered(HydrateOne(FRESH, StoredModule(Plain("b", Rival(raw)), true)), Plain("a", raw)).Err?
  {
    hide Rival, HydrateOne, Clean, IsStored, Checked, Trim, ProtocolOk, IsPathPrefix, HitsReserved, HitsBuiltin, WellTrimmed, TrimEndMatches;
    var one := HydrateOne(FRESH, StoredModule(Plain("b", Rival(raw)), true));
    RivalIsFree(raw);
    CleanIsStored(Rival(raw));
    NoSlashToTrim(Rival(raw));
    HydratePlain("b", Rival(raw));
    PlainIsFine("a", raw);
    assert Conflict(Checked(Clean(raw)), TrimEndMatches(one.modules["b"].namespace, '/'));
    assert Collides(Checked(Clean(raw)), "a", one.modules);
  }

  /** Both ways of failing the conditions exist: a blank, or a slash and a blank, in front of the last
      slash of a namespace. */
  lemma BlankBehindNamespace()
    ensures !Sound("/t /") && IsFree(Checked(Clean("/t /")))
    ensures Sound("/t/ /") && !WellTrimmed("/t/ /") && IsFree(Checked(Clean("/t/ /")))
  {
    hide IsFree, Trim, TrimEndMatches;
    TrimNothing("/t /");
    TrimNothing("/t/ /");
    CutOneSlash("/t ");
    CutOneSlash("/t/ ");
    CutOneBlank("/t");
    CutOneBlank("/t/");
    CutOneSlash("/t");
    NoSlashToTrim("/t");
    InitialTIsFree("/t");
    assert "/t " + "/" == "/t /" && "/t/ " + "/" == "/t/ /" && "/t" + " " == "/t " && "/t/" + " " == "/t/ ";
    assert "/t" + "/" == "/t/";
  }

  lemma CutOneSlash(s: string)
    requires s != "" && s[|s| - 1] != '/'
    ensures TrimEndMatches(s + "/", '/') == s
  {
    assert (s + "/")[..|s|] == s;
  }

  lemma CutOneBlank(s: string)
    requires s != "" && WhitespaceLen(s, 0) == 0 && 32 < s[|s| - 1] as int < 0x80
    ensures Trim(s + " ") == s
  {
    assert (s + " ")[..|s|] == s;
    assert (s + " ")[0..] == s + " ";
  }
}

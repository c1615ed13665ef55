/** What the gateway's registry is after a restart. */
module Restart {
  import opened Bytes
  import opened Namespaces
  import opened Registry
  import opened RegistryLaws
  import opened Hydration

  /** The parts of the persistent configuration that concern modules and their statuses. */
  datatype Persisted = Persisted(personal: Option<seq<Manifest>>, enabled: Option<map<string, bool>>)

  /** A manifest from the disk or from the configuration is registered if no module has its identifier
      as it is written. */
  function AddOne(reg: Reg, m: Manifest): Reg {
    if m.id in reg.modules then reg else match Registered(reg, m) case Err(error) => reg case Ok(next) => next
  }

  function AddMissing(reg: Reg, manifests: seq<Manifest>): Reg
    decreases |manifests|
  {
    if manifests == [] then reg else AddMissing(AddOne(reg, manifests[0]), manifests[1..])
  }

  function SetOne(reg: Reg, sm: StoredModule): Reg {
    match StatusSet(reg, sm.manifest.id, sm.enabled) case Err(error) => reg case Ok(next) => next
  }

  /** `apply_stored_module_statuses` */
  function StatusesApplied(reg: Reg, stored: seq<StoredModule>): Reg
    decreases |stored|
  {
    if stored == [] then reg else StatusesApplied(SetOne(reg, stored[0]), stored[1..])
  }

  /** The registry before the persistent configuration comes in. */
  function Found(stored: seq<StoredModule>, discovered: seq<Manifest>): Reg {
    AddMissing(Hydrated(FRESH, stored), discovered)
  }

  function Supplemented(reg: Reg, personal: Option<seq<Manifest>>): Reg {
    match personal case None => reg case Some(manifests) => AddMissing(reg, manifests)
  }

  function Switched(reg: Reg, enabled: Option<map<string, bool>>): Reg {
    match enabled case None => reg case Some(m) => EnablementApplied(reg, m)
  }

  /** `build_module_registry`: `discovered` are the manifests on disk that are not marked as
      uninstalled. */
  function Restarted(stored: seq<StoredModule>, discovered: seq<Manifest>, persisted: Option<Persisted>): Reg {
    match persisted
    case None => Found(stored, discovered)
    case Some(p) => StatusesApplied(Switched(Supplemented(Found(stored, discovered), p.personal), p.enabled), stored)
  }

  // ---------------------------------------------------------------- what is left alone

  /** A module keeps its descriptor when missing ones are added, unless a manifest writes its identifier
      with blanks: then it is registered anew. */
  lemma {:induction false} AddingKeeps(reg: Reg, manifests: seq<Manifest>, id: string)
    requires id in reg.modules && forall m :: m in manifests && Trim(m.id) == id ==> m.id == id
    ensures id in AddMissing(reg, manifests).modules && AddMissing(reg, manifests).modules[id] == reg.modules[id]
    decreases |manifests|
  {
    hide Registered, Trim;
    if manifests != [] {
      var m := manifests[0];
      assert m in manifests;
      if Registered(reg, m).Ok? {
        RegisteredTouchesOne(reg, m);
      }
      AddingKeeps(AddOne(reg, m), manifests[1..], id);
    }
  }

  /** What the database says about a module stays when the disk and the configuration are read, unless they
      write its identifier with blanks. */
  lemma StoredComesFirst(stored: seq<StoredModule>, discovered: seq<Manifest>, personal: Option<seq<Manifest>>, id: string)
    requires id in Hydrated(FRESH, stored).modules
    requires forall m :: (m in discovered || m in personal.GetOr([])) && Trim(m.id) == id ==> m.id == id
    ensures var reg := Supplemented(Found(stored, discovered), personal);
            id in reg.modules && reg.modules[id] == Hydrated(FRESH, stored).modules[id]
  {
    hide AddMissing, Hydrated, Trim;
    AddingKeeps(Hydrated(FRESH, stored), discovered, id);
    AddingKeeps(Found(stored, discovered), personal.GetOr([]), id);
  }

  lemma RegisteredTouchesOne(reg: Reg, m: Manifest)
    requires Registered(reg, m).Ok?
    ensures var next := Registered(reg, m).value;
            && next.modules.Keys == reg.modules.Keys + {Trim(m.id)}
            && forall id :: id in reg.modules && id != Trim(m.id) ==> next.modules[id] == reg.modules[id]
  {
    hide CheckId, CheckNamespace, ProtocolOk, GroupOk, Clean, Trim, SubProviders;
  }

  // ---------------------------------------------------------------- the loops

  method RegisterMissing(reg: ModuleRegistry, manifests: seq<Manifest>)
    modifies reg
    ensures reg.Value() == AddMissing(old(reg.Value()), manifests)
  {
    hide Registered;
    for i := 0 to |manifests|
      invariant AddMissing(reg.Value(), manifests[i..]) == AddMissing(old(reg.Value()), manifests)
    {
      assert manifests[i..][1..] == manifests[i + 1..];
      if manifests[i].id !in reg.modules {
        var ignored := reg.RegisterPersonalModule(manifests[i]);
      }
    }
    assert manifests[|manifests|..] == [];
  }

  method ApplyStoredModuleStatuses(reg: ModuleRegistry, stored: seq<StoredModule>)
    modifies reg
    ensures reg.Value() == StatusesApplied(old(reg.Value()), stored)
  {
    hide StatusSet;
    for i := 0 to |stored|
      invariant StatusesApplied(reg.Value(), stored[i..]) == StatusesApplied(old(reg.Value()), stored)
    {
      assert stored[i..][1..] == stored[i + 1..];
      var ignored := reg.SetModuleStatus(stored[i].manifest.id, stored[i].enabled);
    }
    assert stored[|stored|..] == [];
  }

  /** `apply_persistent_fallback` for what concerns modules and their statuses. `order` is the order in
      which the enablement map yields its keys. */
  method ApplyPersistentFallback(reg: ModuleRegistry, p: Persisted, stored: seq<StoredModule>, order: seq<string>)
    requires p.enabled.Some? ==> forall id :: id in order <==> id in p.enabled.value
    modifies reg
    ensures reg.Value() == StatusesApplied(Switched(Supplemented(old(reg.Value()), p.personal), p.enabled), stored)
  {
    if p.personal.Some? {
      RegisterMissing(reg, p.personal.value);
    }
    if p.enabled.Some? {
      reg.ApplyEnablementMap(p.enabled.value, order);
    }
    ApplyStoredModuleStatuses(reg, stored);
  }

  method BuildModuleRegistry(stored: seq<StoredModule>, discovered: seq<Manifest>, persisted: Option<Persisted>, order: seq<string>)
    returns (reg: ModuleRegistry)
    requires persisted.Some? && persisted.value.enabled.Some? ==> forall id :: id in order <==> id in persisted.value.enabled.value
    ensures fresh(reg) && reg.Value() == Restarted(stored, discovered, persisted)
  {
    reg := new ModuleRegistry();
    HydrateStoredModules(reg, stored);
    RegisterMissing(reg, discovered);
    if persisted.Some? {
      ApplyPersistentFallback(reg, persisted.value, stored, order);
    }
  }

  // ---------------------------------------------------------------- statuses

  /** The status stored last for exactly this identifier. */
  function StoredStatus(stored: seq<StoredModule>, id: string): Option<bool>
    decreases |stored|
  {
    if stored == [] then None
    else if stored[|stored| - 1].manifest.id == id then Some(stored[|stored| - 1].enabled)
    else StoredStatus(stored[..|stored| - 1], id)
  }

  function SavedStatus(persisted: Option<Persisted>, id: string): Option<bool> {
    match persisted
    case None => None
    case Some(p) =>
      match p.enabled
      case None => None
      case Some(m) => if id in m then Some(m[id]) else None
  }

  predicate IsEnabled(reg: Reg, id: string)
    requires id in reg.modules
  {
    reg.modules[id].enabled
  }

  /** Every module without a status stored under its own identifier is enabled. */
  predicate OthersEnabled(reg: Reg, stored: seq<StoredModule>) {
    forall id :: id in reg.modules && StoredStatus(stored, id).None? ==> IsEnabled(reg, id)
  }

  lemma {:induction false} StoredStatusNone(stored: seq<StoredModule>, i: nat)
    requires i < |stored|
    ensures StoredStatus(stored, stored[i].manifest.id).Some?
    decreases |stored|
  {
    if i < |stored| - 1 {
      StoredStatusNone(stored[..|stored| - 1], i);
    }
  }

  /** Registration enables the module it puts in place and touches no other. */
  lemma RegistrationEnables(reg: Reg, m: Manifest, id: string)
    requires Registered(reg, m).Ok? && id in Registered(reg, m).value.modules
    ensures IsEnabled(Registered(reg, m).value, id) || (id in reg.modules && IsEnabled(Registered(reg, m).value, id) == IsEnabled(reg, id))
  {
    hide CheckId, CheckNamespace, ProtocolOk, GroupOk, Clean, Trim, SubProviders;
  }

  lemma HydratingKeepsOthersEnabled(reg: Reg, stored: seq<StoredModule>, i: nat)
    requires i < |stored| && OthersEnabled(reg, stored)
    ensures OthersEnabled(HydrateOne(reg, stored[i]), stored)
  {
    hide Registered;
    StoredStatusNone(stored, i);
    var next := HydrateOne(reg, stored[i]);
    forall id | id in next.modules && StoredStatus(stored, id).None?
      ensures IsEnabled(next, id)
    {
      if Registered(reg, stored[i].manifest).Ok? {
        RegistrationEnables(reg, stored[i].manifest, id);
      }
    }
  }

  lemma {:induction false} HydrationEnablesOthers(reg: Reg, stored: seq<StoredModule>, from: nat)
    requires from <= |stored| && OthersEnabled(reg, stored)
    ensures OthersEnabled(Hydrated(reg, stored[from..]), stored)
    decreases |stored| - from
  {
    hide HydrateOne, OthersEnabled;
    if from < |stored| {
      assert stored[from..][0] == stored[from] && stored[from..][1..] == stored[from + 1..];
      HydratingKeepsOthersEnabled(reg, stored, from);
      HydrationEnablesOthers(HydrateOne(reg, stored[from]), stored, from + 1);
    }
  }

  lemma {:induction false} AddingEnablesOthers(reg: Reg, stored: seq<StoredModule>, manifests: seq<Manifest>)
    requires OthersEnabled(reg, stored)
    ensures OthersEnabled(AddMissing(reg, manifests), stored)
    decreases |manifests|
  {
    hide Registered, StoredStatus;
    if manifests != [] {
      var next := AddOne(reg, manifests[0]);
      forall id | id in next.modules && StoredStatus(stored, id).None?
        ensures IsEnabled(next, id)
      {
        if manifests[0].id !in reg.modules && Registered(reg, manifests[0]).Ok? {
          RegistrationEnables(reg, manifests[0], id);
        }
      }
      AddingEnablesOthers(next, stored, manifests[1..]);
    }
  }

  lemma FoundEnablesOthers(stored: seq<StoredModule>, discovered: seq<Manifest>, personal: Option<seq<Manifest>>)
    ensures OthersEnabled(Found(stored, discovered), stored)
    ensures OthersEnabled(Supplemented(Found(stored, discovered), personal), stored)
  {
    hide AddMissing, Hydrated;
    assert OthersEnabled(FRESH, stored);
    assert stored[0..] == stored;
    HydrationEnablesOthers(FRESH, stored, 0);
    AddingEnablesOthers(Hydrated(FRESH, stored), stored, discovered);
    if personal.Some? {
      AddingEnablesOthers(Found(stored, discovered), stored, personal.value);
    }
  }

  /** The last pass gives every module the status stored under its own identifier. */
  lemma {:induction false} StatusesWin(reg: Reg, stored: seq<StoredModule>, id: string)
    requires id in reg.modules
    ensures id in StatusesApplied(reg, stored).modules
    ensures IsEnabled(StatusesApplied(reg, stored), id) == StoredStatus(stored, id).GetOr(IsEnabled(reg, id))
    decreases |stored|
  {
    hide StatusSet;
    if stored != [] {
      StatusesAppliedLast(reg, stored);
      StatusesWin(reg, stored[..|stored| - 1], id);
      SetOneSets(StatusesApplied(reg, stored[..|stored| - 1]), stored[|stored| - 1], id);
    }
  }

  lemma SetOneSets(reg: Reg, sm: StoredModule, id: string)
    requires id in reg.modules
    ensures id in SetOne(reg, sm).modules
    ensures IsEnabled(SetOne(reg, sm), id) == if sm.manifest.id == id then sm.enabled else IsEnabled(reg, id)
  {
  }

  lemma {:induction false} StatusesAppliedLast(reg: Reg, stored: seq<StoredModule>)
    requires stored != []
    ensures StatusesApplied(reg, stored) == SetOne(StatusesApplied(reg, stored[..|stored| - 1]), stored[|stored| - 1])
    decreases |stored|
  {
    hide SetOne;
    if |stored| > 1 {
      var rest := stored[1..];
      StatusesAppliedLast(SetOne(reg, stored[0]), rest);
      assert rest[..|rest| - 1] == stored[..|stored| - 1][1..] && rest[|rest| - 1] == stored[|stored| - 1];
    } else {
      assert stored[..0] == [] && stored[1..] == [];
    }
  }

  lemma {:induction false} StatusesKeepKeys(reg: Reg, stored: seq<StoredModule>)
    ensures StatusesApplied(reg, stored).modules.Keys == reg.modules.Keys
    decreases |stored|
  {
    if stored != [] {
      StatusesKeepKeys(SetOne(reg, stored[0]), stored[1..]);
    }
  }

  /** The status of every module after a restart with a persistent configuration: the one stored under
      its own identifier, else the saved one, else enabled. */
  lemma StatusAfterRestart(stored: seq<StoredModule>, discovered: seq<Manifest>, p: Persisted, id: string)
    requires id in Restarted(stored, discovered, Some(p)).modules
    ensures IsEnabled(Restarted(stored, discovered, Some(p)), id)
            == StoredStatus(stored, id).GetOr(SavedStatus(Some(p), id).GetOr(true))
  {
    hide Found, StatusesApplied, Supplemented, StoredStatus;
    var supplemented := Supplemented(Found(stored, discovered), p.personal);
    FoundEnablesOthers(stored, discovered, p.personal);
    StatusesKeepKeys(Switched(supplemented, p.enabled), stored);
    StatusesWin(Switched(supplemented, p.enabled), stored, id);
  }

  /** A stored module whose identifier is written with blanks gets its status back exactly when the
      saved configuration has it: the stored one is never looked up. */
  lemma BlankIdNeedsSavedStatus(stored: seq<StoredModule>, discovered: seq<Manifest>, persisted: Option<Persisted>, i: nat)
    requires i < |stored| && Trim(stored[i].manifest.id) in Restarted(stored, discovered, persisted).modules
    requires StoredStatus(stored, Trim(stored[i].manifest.id)).None?
    ensures IsEnabled(Restarted(stored, discovered, persisted), Trim(stored[i].manifest.id)) == stored[i].enabled
            <==> SavedStatus(persisted, Trim(stored[i].manifest.id)).GetOr(true) == stored[i].enabled
  {
    hide Found, StoredStatus, Trim;
    match persisted
    case None => FoundEnablesOthers(stored, discovered, None);
    case Some(p) => StatusAfterRestart(stored, discovered, p, Trim(stored[i].manifest.id));
  }

  /** What `save_to_persistent_file` writes. */
  function SavedMap(reg: Reg): map<string, bool> {
    map id | id in reg.modules :: reg.modules[id].enabled
  }

  /** Round trip: with the configuration saved last, and stored statuses that agree with the registry
      where they have its identifiers, every module that is back has the status it had. */
  lemma SavedStatusesReturn(reg: Reg, stored: seq<StoredModule>, discovered: seq<Manifest>, personal: Option<seq<Manifest>>, id: string)
    requires forall x :: x in reg.modules && StoredStatus(stored, x).Some? ==> StoredStatus(stored, x).value == IsEnabled(reg, x)
    requires var p := Persisted(personal, Some(SavedMap(reg)));
             id in Restarted(stored, discovered, Some(p)).modules && id in reg.modules
    ensures var p := Persisted(personal, Some(SavedMap(reg)));
            IsEnabled(Restarted(stored, discovered, Some(p)), id) == IsEnabled(reg, id)
  {
    hide Restarted, StoredStatus;
    StatusAfterRestart(stored, discovered, Persisted(personal, Some(SavedMap(reg))), id);
  }

  /** Both cases occur, for every identifier written with blanks: without a saved configuration a
      disabled module comes back enabled, with one that has the module it stays disabled. */
  lemma BlankIdIsLost(rawId: string, raw: string)
    requires IsId(Trim(rawId)) && rawId != Trim(rawId) && !IsBuiltinId(Trim(rawId)) && IsFree(Checked(Clean(raw)))
    ensures var stored, id := [StoredModule(Plain(rawId, raw), false)], Trim(rawId);
            var saved := Persisted(None, Some(map[id := false]));
            && id in Restarted(stored, [], None).modules && IsEnabled(Restarted(stored, [], None), id)
            && id in Restarted(stored, [], Some(saved)).modules && !IsEnabled(Restarted(stored, [], Some(saved)), id)
  {
    hide Registered, Trim, IsId, IsFree, Checked, Clean, Collides, StatusesApplied, StatusSet;
    var stored, id := [StoredModule(Plain(rawId, raw), false)], Trim(rawId);
    var saved := Persisted(None, Some(map[id := false]));
    FreshDoesNotCollide(Checked(Clean(raw)), id);
    FreshHasBuiltins(id);
    MinimalRegisters(FRESH, rawId, raw);
    var next := Registered(FRESH, Plain(rawId, raw)).value;
    StatusKeepsPart(next, next.modules, rawId, false);
    assert stored[1..] == [] && stored[..0] == [];
    assert Hydrated(FRESH, stored) == HydrateOne(FRESH, stored[0]);
    StatusesKeepKeys(Switched(Found(stored, []), saved.enabled), stored);
    assert StoredStatus([], id) == None;
    BlankIdNeedsSavedStatus(stored, [], None, 0);
    BlankIdNeedsSavedStatus(stored, [], Some(saved), 0);
  }

  lemma BlankIdExists()
    ensures Trim(" a") == "a" && IsId("a") && !IsBuiltinId("a")
  {
    assert " a"[1..] == "a" && "a"[0..] == "a";
    assert SkipWhitespace(" a", 0) == 1;
    TrimNothing("a");
  }

  // ---------------------------------------------------------------- ownership

  lemma IdIsTrimmed(id: string)
    requires IsId(id)
    ensures Trim(id) == id
  {
    TrimNothing(id);
  }

  lemma InstalledHasId(id: string, m: Manifest, desc: Descriptor)
    requires Installed(id, m, desc)
    ensures IsId(id)
  {
  }

  lemma KeyIsTrimmed(reg: Reg, key: string)
    requires Wf(reg) && key in reg.modules
    ensures Trim(key) == key
  {
    hide Trim, Installed;
    if key in reg.manifests {
      InstalledHasId(key, reg.manifests[key], reg.modules[key]);
    } else {
      assert IsBuiltinId(key);
    }
    IdIsTrimmed(key);
  }

  /** Manifests of `target` put what is missing where `target` has it. */
  lemma {:induction false} AddingIsPart(reg: Reg, target: Reg, manifests: seq<Manifest>)
    requires Wf(target) && Disjoint(target.modules) && AllWellTrimmed(target)
    requires PartOf(reg.modules, target.modules)
    requires forall i :: 0 <= i < |manifests| ==> StoredIn(StoredModule(manifests[i], true), target)
    ensures PartOf(AddMissing(reg, manifests).modules, target.modules)
    ensures reg.modules.Keys <= AddMissing(reg, manifests).modules.Keys
    ensures forall i :: 0 <= i < |manifests| ==> Trim(manifests[i].id) in AddMissing(reg, manifests).modules
    decreases |manifests|
  {
    hide Registered, WellTrimmed, Trim, Disjoint, PartOf, Wf;
    if manifests != [] {
      var m := manifests[0];
      if m.id in reg.modules {
        PartKey(reg.modules, target.modules, m.id);
        KeyIsTrimmed(target, m.id);
      } else {
        RegisteredIsPart(reg, target, m);
      }
      AddingIsPart(AddOne(reg, m), target, manifests[1..]);
      forall i | 0 <= i < |manifests|
        ensures Trim(manifests[i].id) in AddMissing(reg, manifests).modules
      {
        if i > 0 {
          assert manifests[i] == manifests[1..][i - 1];
        }
      }
    }
  }

  lemma PartKey(modules: Modules, target: Modules, key: string)
    requires PartOf(modules, target) && key in modules
    ensures key in target
  {
  }

  /** The manifest of a module is among the stored, the discovered or the saved ones. */
  ghost predicate IsKept(id: string, stored: seq<StoredModule>, discovered: seq<Manifest>, personal: seq<Manifest>) {
    || (exists i :: 0 <= i < |stored| && Trim(stored[i].manifest.id) == id)
    || (exists i :: 0 <= i < |discovered| && Trim(discovered[i].id) == id)
    || (exists i :: 0 <= i < |personal| && Trim(personal[i].id) == id)
  }

  predicate AllIn(manifests: seq<Manifest>, target: Reg) {
    forall i :: 0 <= i < |manifests| ==> StoredIn(StoredModule(manifests[i], true), target)
  }

  /** Before the statuses are set, the registry is a part of `target` with everything that is kept. */
  lemma SupplementedIsPart(target: Reg, stored: seq<StoredModule>, discovered: seq<Manifest>, personal: Option<seq<Manifest>>)
    requires Wf(target) && Disjoint(target.modules) && AllWellTrimmed(target)
    requires forall i :: 0 <= i < |stored| ==> StoredIn(stored[i], target)
    requires AllIn(discovered, target) && AllIn(personal.GetOr([]), target)
    ensures var modules := Supplemented(Found(stored, discovered), personal).modules;
            && PartOf(modules, target.modules) && FRESH.modules.Keys <= modules.Keys
            && forall id :: IsKept(id, stored, discovered, personal.GetOr([])) ==> id in modules
  {
    hide AddMissing, Hydrated, Trim, Disjoint, Wf, AllWellTrimmed, StoredIn, PartOf;
    FreshIsPart(target);
    AllManifestsRegister(FRESH, target, stored);
    AddingIsPart(Hydrated(FRESH, stored), target, discovered);
    AddingIsPart(Found(stored, discovered), target, personal.GetOr([]));
    AddNothing(Found(stored, discovered));
  }

  /** The manifests that the configuration keeps, if there is one. */
  function SavedManifests(persisted: Option<Persisted>): seq<Manifest> {
    match persisted case None => [] case Some(p) => p.personal.GetOr([])
  }

  /** The whole restart, with or without a configuration: wherever the manifests of a registry are kept,
      and in whatever order, every module gets its namespace back. */
  lemma RestartRestoresOwnership(ops: seq<Op>, stored: seq<StoredModule>, discovered: seq<Manifest>, persisted: Option<Persisted>)
    requires AllInstall(ops, Restorable)
    requires forall i :: 0 <= i < |stored| ==> StoredIn(stored[i], After(ops))
    requires AllIn(discovered, After(ops)) && AllIn(SavedManifests(persisted), After(ops))
    requires forall id :: id in After(ops).manifests ==> IsKept(id, stored, discovered, SavedManifests(persisted))
    ensures SameOwnership(Restarted(stored, discovered, persisted).modules, After(ops).modules)
  {
    hide Found, Supplemented, StatusesApplied, After, Disjoint, Wf, AllWellTrimmed, StoredIn, IsKept, AllIn, SameOwnership, WithStatus;
    var target := After(ops);
    RestorableHistory(ops);
    match persisted {
    case None =>
      SupplementedIsPart(target, stored, discovered, None);
      NothingSupplements(Found(stored, discovered));
    case Some(p) =>
      var supplemented := Supplemented(Found(stored, discovered), p.personal);
      SupplementedIsPart(target, stored, discovered, p.personal);
      var before := Switched(supplemented, p.enabled);
      SwitchingKeepsPart(supplemented, target.modules, p.enabled);
      StatusesKeepKeys(before, stored);
      StatusesKeepPart(before, target.modules, stored);
    }
    EveryIdIsBack(target, Restarted(stored, discovered, persisted).modules);
  }

  lemma NothingSupplements(reg: Reg)
    ensures Supplemented(reg, None) == reg
  {
  }

  lemma SwitchingKeepsPart(reg: Reg, target: Modules, enabled: Option<map<string, bool>>)
    requires PartOf(reg.modules, target)
    ensures PartOf(Switched(reg, enabled).modules, target) && Switched(reg, enabled).modules.Keys == reg.modules.Keys
  {
  }

  lemma AddNothing(reg: Reg)
    ensures AddMissing(reg, []) == reg
  {
  }

  lemma {:induction false} StatusesKeepPart(reg: Reg, target: Modules, stored: seq<StoredModule>)
    requires PartOf(reg.modules, target)
    ensures PartOf(StatusesApplied(reg, stored).modules, target)
    decreases |stored|
  {
    hide StatusSet, PartOf;
    if stored != [] {
      StatusKeepsPart(reg, target, stored[0].manifest.id, stored[0].enabled);
      StatusesKeepPart(SetOne(reg, stored[0]), target, stored[1..]);
    }
  }
}

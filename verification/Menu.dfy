/** The order of modules in the menu. */
module Menu {
  import opened Bytes
  import opened Sorting
  import opened Registry
  import opened RegistryLaws

  // ---------------------------------------------------------------- the sort key

  /** Modules sort by order, then by identifier. */
  predicate Before(modules: Modules, a: string, b: string)
    requires a in modules && b in modules
  {
    modules[a].order < modules[b].order || (modules[a].order == modules[b].order && StringLess(a, b))
  }

  lemma BeforeIsTotalOrder(modules: Modules, a: string, b: string, c: string)
    requires a in modules && b in modules && c in modules
    ensures !(Before(modules, a, b) && Before(modules, b, a))
    ensures a == b || Before(modules, a, b) || Before(modules, b, a)
    ensures Before(modules, a, b) && Before(modules, b, c) ==> Before(modules, a, c)
  {
    StringLessIrreflexive(a);
    StringLessTotal(a, b);
    if StringLess(a, b) && StringLess(b, a) {
      StringLessTransitive(a, b, a);
    }
    if StringLess(a, b) && StringLess(b, c) {
      StringLessTransitive(a, b, c);
    }
  }

  // ---------------------------------------------------------------- listings

  predicate Known(ids: seq<string>, modules: Modules) {
    forall k :: 0 <= k < |ids| ==> ids[k] in modules
  }

  predicate Sorted(ids: seq<string>, modules: Modules)
    requires Known(ids, modules)
  {
    forall i, j :: 0 <= i < j < |ids| ==> Before(modules, ids[i], ids[j])
  }

  /** All modules, each once, in menu order. */
  predicate IsListing(ids: seq<string>, modules: Modules) {
    Known(ids, modules) && Sorted(ids, modules) && forall id :: id in modules ==> id in ids
  }

  predicate SameElements(a: seq<string>, b: seq<string>) {
    (forall x :: x in a ==> x in b) && (forall x :: x in b ==> x in a)
  }

  /** A sorted sequence is determined by its elements. */
  lemma {:induction false} SortedIsUnique(a: seq<string>, b: seq<string>, modules: Modules)
    requires Known(a, modules) && Known(b, modules) && Sorted(a, modules) && Sorted(b, modules) && SameElements(a, b)
    ensures a == b
    decreases |a|
  {
    hide Before;
    if a != [] { assert a[0] in b; }
    if b != [] { assert b[0] in a; }
    if a != [] {
      HeadIsLeast(a, b, modules);
      forall x | x in a[1..]
        ensures x in b[1..]
      {
        TailElement(a, b, x, modules);
      }
      forall x | x in b[1..]
        ensures x in a[1..]
      {
        TailElement(b, a, x, modules);
      }
      SortedIsUnique(a[1..], b[1..], modules);
      assert a == [a[0]] + a[1..] && b == [b[0]] + b[1..];
    }
  }

  lemma HeadIsLeast(a: seq<string>, b: seq<string>, modules: Modules)
    requires a != [] && b != [] && Known(a, modules) && Known(b, modules)
    requires Sorted(a, modules) && Sorted(b, modules) && SameElements(a, b)
    ensures a[0] == b[0]
  {
    hide Before;
    assert a[0] in b && b[0] in a;
    var i :| 0 <= i < |b| && b[i] == a[0];
    var j :| 0 <= j < |a| && a[j] == b[0];
    BeforeIsTotalOrder(modules, a[0], b[0], a[0]);
  }

  lemma TailElement(a: seq<string>, b: seq<string>, x: string, modules: Modules)
    requires a != [] && b != [] && Known(a, modules) && Known(b, modules)
    requires Sorted(a, modules) && SameElements(a, b) && a[0] == b[0] && x in a[1..]
    ensures x in b[1..]
  {
    hide Before;
    var i :| 0 <= i < |a[1..]| && a[1..][i] == x;
    assert Before(modules, a[0], a[i + 1]);
    BeforeIsTotalOrder(modules, x, x, x);
    assert x in b && x != b[0];
  }

  /** A registry has one listing. */
  lemma ListingIsUnique(a: seq<string>, b: seq<string>, modules: Modules)
    requires IsListing(a, modules) && IsListing(b, modules)
    ensures a == b
  {
    SortedIsUnique(a, b, modules);
  }

  /** `id` put at its place among sorted identifiers. */
  function Inserted(id: string, ids: seq<string>, modules: Modules): (r: seq<string>)
    requires id in modules && Known(ids, modules)
    ensures Known(r, modules) && forall x :: x in r <==> x == id || x in ids
  {
    if ids == [] then [id]
    else if Before(modules, ids[0], id) then
      assert forall x :: x in ids <==> x == ids[0] || x in ids[1..];
      [ids[0]] + Inserted(id, ids[1..], modules)
    else [id] + ids
  }

  lemma {:induction false} InsertedIsSorted(id: string, ids: seq<string>, modules: Modules)
    requires id in modules && Known(ids, modules) && Sorted(ids, modules) && id !in ids
    ensures Sorted(Inserted(id, ids, modules), modules)
    decreases |ids|
  {
    hide Before;
    var r := Inserted(id, ids, modules);
    if ids != [] {
      if Before(modules, ids[0], id) {
        var rest := Inserted(id, ids[1..], modules);
        InsertedIsSorted(id, ids[1..], modules);
        forall j | 1 <= j < |r|
          ensures Before(modules, r[0], r[j])
        {
          assert r[j] == rest[j - 1] && rest[j - 1] in rest;
        }
      } else {
        BeforeIsTotalOrder(modules, id, ids[0], id);
        forall j | 1 <= j < |r|
          ensures Before(modules, r[0], r[j])
        {
          BeforeIsTotalOrder(modules, id, ids[0], ids[j - 1]);
        }
      }
    }
  }

  /** The iteration order of the map: every key once. */
  predicate Iterates(iteration: seq<string>, modules: Modules) {
    && Known(iteration, modules)
    && (forall i, j :: 0 <= i < j < |iteration| ==> iteration[i] != iteration[j])
    && (forall id :: id in modules ==> id in iteration)
  }

  /** `list_modules`: sorts what the map yields, in whatever order it yields it. */
  method ListModules(modules: Modules, iteration: seq<string>) returns (list: seq<string>)
    requires Iterates(iteration, modules)
    ensures IsListing(list, modules)
  {
    hide Before, Inserted;
    list := [];
    for i := 0 to |iteration|
      invariant Known(list, modules) && Sorted(list, modules)
      invariant forall x :: x in list <==> x in iteration[..i]
    {
      assert iteration[i] !in iteration[..i];
      InsertedIsSorted(iteration[i], list, modules);
      list := Inserted(iteration[i], list, modules);
      assert iteration[..i + 1] == iteration[..i] + [iteration[i]];
    }
    assert iteration[..|iteration|] == iteration;
  }

  // ---------------------------------------------------------------- moving a module

  const MAX_MODULES := 214748364

  /** The orders are 10, 20, 30 and so on along `ids`. */
  predicate NumberedAlong(ids: seq<string>, modules: Modules) {
    Known(ids, modules) && forall k :: 0 <= k < |ids| ==> modules[ids[k]].order == (k + 1) * 10
  }

  lemma NumberedIsListing(ids: seq<string>, modules: Modules)
    requires NumberedAlong(ids, modules) && forall id :: id in modules ==> id in ids
    ensures IsListing(ids, modules)
  {
  }

  lemma ListingIsDistinct(ids: seq<string>, modules: Modules)
    requires IsListing(ids, modules)
    ensures Distinct(ids)
  {
    forall i, j | 0 <= i < j < |ids|
      ensures ids[i] != ids[j]
    {
      BeforeIsTotalOrder(modules, ids[i], ids[j], ids[i]);
    }
  }

  predicate OnlyOrdersDiffer(a: Modules, b: Modules) {
    a.Keys == b.Keys && forall id :: id in a ==> b[id] == a[id].(order := b[id].order)
  }

  datatype Direction = Up | Down | Unknown

  function ParseDirection(s: string): Direction {
    var d := Lower(Trim(s));
    if d == "up" then Up else if d == "down" then Down else Unknown
  }

  function Swapped(ids: seq<string>, i: nat, j: nat): seq<string>
    requires i < |ids| && j < |ids|
  {
    ids[i := ids[j]][j := ids[i]]
  }

  /** The listing after a move: the module and its neighbour swapped, if it has one on that side. */
  function MovedListing(ids: seq<string>, pos: nat, direction: Direction): (r: seq<string>)
    requires pos < |ids|
    ensures |r| == |ids|
  {
    match direction
    case Up => if pos > 0 then Swapped(ids, pos, pos - 1) else ids
    case Down => if pos + 1 < |ids| then Swapped(ids, pos, pos + 1) else ids
    case Unknown => ids
  }

  function WithOrder(modules: Modules, id: string, order: int): Modules {
    if id in modules then modules[id := modules[id].(order := order)] else modules
  }

  /** The first loop of `move_module_order`: a step of ten for every module. */
  method Normalize(modules: Modules, list: seq<string>) returns (r: Modules)
    requires IsListing(list, modules) && |list| <= MAX_MODULES
    ensures NumberedAlong(list, r) && OnlyOrdersDiffer(modules, r) && IsListing(list, r)
  {
    hide Before, Sorted;
    ListingIsDistinct(list, modules);
    r := modules;
    for idx := 0 to |list|
      invariant OnlyOrdersDiffer(modules, r)
      invariant forall k :: 0 <= k < idx ==> r[list[k]].order == (k + 1) * 10
    {
      r := WithOrder(r, list[idx], I32((idx + 1) * 10));
    }
    NumberedIsListing(list, r);
  }

  lemma SwappedElements(ids: seq<string>, i: nat, j: nat, id: string)
    requires i < |ids| && j < |ids| && id in ids
    ensures id in Swapped(ids, i, j)
  {
    var s := Swapped(ids, i, j);
    var k :| 0 <= k < |ids| && ids[k] == id;
    assert s[if k == i then j else if k == j then i else k] == id;
  }

  lemma SwappedNumbers(modules: Modules, ids: seq<string>, i: nat, j: nat)
    requires NumberedAlong(ids, modules) && Distinct(ids) && i < |ids| && j < |ids| && i != j
    ensures var r := WithOrder(WithOrder(modules, ids[i], modules[ids[j]].order), ids[j], modules[ids[i]].order);
            NumberedAlong(Swapped(ids, i, j), r) && OnlyOrdersDiffer(modules, r)
  {
    var r := WithOrder(WithOrder(modules, ids[i], modules[ids[j]].order), ids[j], modules[ids[i]].order);
    var s := Swapped(ids, i, j);
    forall k | 0 <= k < |s|
      ensures s[k] in r && r[s[k]].order == (k + 1) * 10
    {
      if k != i && k != j {
        assert s[k] == ids[k] && ids[k] != ids[i] && ids[k] != ids[j];
      }
    }
  }

  /** Exchanging the orders of two modules exchanges them in the listing. */
  lemma SwapOrders(modules: Modules, ids: seq<string>, i: nat, j: nat)
    requires NumberedAlong(ids, modules) && IsListing(ids, modules) && i < |ids| && j < |ids| && i != j
    ensures var r := WithOrder(WithOrder(modules, ids[i], modules[ids[j]].order), ids[j], modules[ids[i]].order);
            && NumberedAlong(Swapped(ids, i, j), r) && IsListing(Swapped(ids, i, j), r) && OnlyOrdersDiffer(modules, r)
  {
    hide Before, Sorted, NumberedAlong, Swapped;
    ListingIsDistinct(ids, modules);
    SwappedNumbers(modules, ids, i, j);
    forall id | id in modules
      ensures id in Swapped(ids, i, j)
    {
      SwappedElements(ids, i, j, id);
    }
    NumberedIsListing(Swapped(ids, i, j), WithOrder(WithOrder(modules, ids[i], modules[ids[j]].order), ids[j], modules[ids[i]].order));
  }

  lemma SameKeys(a: Modules, b: Modules)
    requires OnlyOrdersDiffer(a, b)
    ensures a.Keys == b.Keys
  {
  }

  lemma StillKnown(modules: Modules, a: string, x: int, b: string, y: int)
    ensures WithOrder(WithOrder(modules, a, x), b, y).Keys == modules.Keys
  {
  }

  lemma OrdersDifferTransitive(a: Modules, b: Modules, c: Modules)
    requires OnlyOrdersDiffer(a, b) && OnlyOrdersDiffer(b, c)
    ensures OnlyOrdersDiffer(a, c)
  {
  }

  lemma SameIteration(first: seq<string>, second: seq<string>, a: Modules, b: Modules)
    requires Iterates(first, a) && SameElements(first, second) && Distinct(second) && a.Keys == b.Keys
    ensures Iterates(second, b)
  {
    forall k | 0 <= k < |second|
      ensures second[k] in b
    {
      assert second[k] in first;
    }
  }

  /** `move_module_order`. `first` and `second` are the iteration orders of the map at the two
      listings. Whatever the outcome, the orders are renumbered; a bad direction moves nothing. */
  method MoveModuleOrder(reg: ModuleRegistry, id: string, direction: string, first: seq<string>, second: seq<string>)
    returns (r: Result<Descriptor, ModuleError>, ghost before: seq<string>, ghost after: seq<string>)
    requires |first| <= MAX_MODULES
    requires Iterates(first, reg.modules) && SameElements(first, second) && Distinct(second)
    modifies reg
    ensures id !in old(reg.modules) ==> r == Err(NotFound) && reg.Value() == old(reg.Value())
    ensures id in old(reg.modules) ==>
              && IsListing(before, old(reg.modules)) && id in before
              && (exists pos: nat :: pos < |before| && before[pos] == id
                                     && after == MovedListing(before, pos, ParseDirection(direction)))
              && IsListing(after, reg.modules) && NumberedAlong(after, reg.modules)
              && OnlyOrdersDiffer(old(reg.modules), reg.modules)
              && reg.manifests == old(reg.manifests) && reg.uninstalled == old(reg.uninstalled)
              && r == (if ParseDirection(direction) == Unknown then Err(InvalidManifest) else Ok(reg.modules[id]))
  {
    hide Sorted, Trim, IsListing, Iterates, Swapped, NumberedAlong, OnlyOrdersDiffer;
    before, after := [], [];
    if id !in reg.modules {
      return Err(NotFound), before, after;
    }
    var sorted := ListModules(reg.modules, first);
    before := sorted;
    ListingLength(sorted, first, reg.modules);
    var renumbered := Normalize(reg.modules, sorted);
    SameKeys(reg.modules, renumbered);
    SameIteration(first, second, reg.modules, renumbered);
    reg.modules := renumbered;
    var again := ListModules(reg.modules, second);
    ListingIsUnique(sorted, again, reg.modules);
    ListingCovers(again, reg.modules, id);
    var pos := IndexOf(again, id);
    after := MovedListing(before, pos, ParseDirection(direction));
    var dir := Lower(Trim(direction));
    var target: Option<nat>;
    if dir == "up" {
      target := if pos > 0 then Some(pos - 1) else None;
    } else if dir == "down" {
      target := if pos + 1 < |again| then Some(pos + 1) else None;
    } else {
      return Err(InvalidManifest), before, after;
    }
    if target.Some? {
      var other := target.value;
      var curOrder, otherOrder := reg.modules[again[pos]].order, reg.modules[again[other]].order;
      SwapOrders(reg.modules, again, pos, other);
      StillKnown(reg.modules, again[pos], otherOrder, again[other], curOrder);
      OrdersDifferTransitive(old(reg.modules), reg.modules,
        WithOrder(WithOrder(reg.modules, again[pos], otherOrder), again[other], curOrder));
      reg.modules := WithOrder(reg.modules, id, otherOrder);
      reg.modules := WithOrder(reg.modules, again[other], curOrder);
    }
    r := Ok(reg.modules[id]);
  }

  lemma ListingCovers(ids: seq<string>, modules: Modules, id: string)
    requires IsListing(ids, modules) && id in modules
    ensures id in ids && Known(ids, modules)
  {
  }

  method IndexOf(ids: seq<string>, id: string) returns (pos: nat)
    requires id in ids
    ensures pos < |ids| && ids[pos] == id
  {
    pos := 0;
    while ids[pos] != id
      invariant pos < |ids| && id !in ids[..pos]
      decreases |ids| - pos
    {
      assert ids[..pos + 1] == ids[..pos] + [ids[pos]];
      assert ids == ids[..pos + 1] + ids[pos + 1..];
      pos := pos + 1;
    }
  }

  /** A listing is as long as the map is large. */
  lemma ListingLength(list: seq<string>, iteration: seq<string>, modules: Modules)
    requires IsListing(list, modules) && Iterates(iteration, modules)
    ensures |list| == |iteration|
  {
    ListingIsDistinct(list, modules);
    hide Sorted;
    DistinctLength(list, modules.Keys);
    DistinctLength(iteration, modules.Keys);
  }

  lemma {:induction false} DistinctLength(ids: seq<string>, elements: set<string>)
    requires Distinct(ids) && forall x :: x in ids <==> x in elements
    ensures |ids| == |elements|
    decreases |ids|
  {
    if ids == [] {
      assert elements == {};
    } else {
      assert ids[0] in elements && ids == [ids[0]] + ids[1..];
      DistinctLength(ids[1..], elements - {ids[0]});
    }
  }

  /** Up leads to the front, down to the back: the module changes places with its neighbour there, and
      every other module keeps its place. Any other word moves nothing. */
  lemma WordsMove(ids: seq<string>, pos: nat, word: string)
    requires pos < |ids|
    ensures var r, spoken := MovedListing(ids, pos, ParseDirection(word)), Lower(Trim(word));
            && (spoken == "up" && pos > 0 ==> r[pos - 1] == ids[pos] && r[pos] == ids[pos - 1]
                                              && forall k :: 0 <= k < |ids| && k != pos && k != pos - 1 ==> r[k] == ids[k])
            && (spoken == "down" && pos + 1 < |ids| ==> r[pos + 1] == ids[pos] && r[pos] == ids[pos + 1]
                                                        && forall k :: 0 <= k < |ids| && k != pos && k != pos + 1 ==> r[k] == ids[k])
            && (spoken != "up" && spoken != "down" ==> r == ids)
            && (spoken == "up" && pos == 0 ==> r == ids) && (spoken == "down" && pos + 1 == |ids| ==> r == ids)
  {
    hide Trim, Lower;
  }

  // ---------------------------------------------------------------- there and back

  /** `direction` leads from position `pos` to a neighbour. */
  predicate HasNeighbour(ids: seq<string>, pos: nat, direction: Direction)
    requires pos < |ids|
  {
    match direction case Up => pos > 0 case Down => pos + 1 < |ids| case Unknown => false
  }

  predicate AreOpposite(a: Direction, b: Direction) {
    (a == Up && b == Down) || (a == Down && b == Up)
  }

  /** The second move undoes the first exactly when the first had somewhere to go, or neither has. */
  lemma ThereAndBack(ids: seq<string>, pos: nat, there: Direction, back: Direction, pos': nat)
    requires Distinct(ids) && pos < |ids| && AreOpposite(there, back)
    requires pos' < |ids| && MovedListing(ids, pos, there)[pos'] == ids[pos]
    ensures MovedListing(MovedListing(ids, pos, there), pos', back) == ids
            <==> HasNeighbour(ids, pos, there) || !HasNeighbour(ids, pos, back)
  {
    if HasNeighbour(ids, pos, there) {
      var next := if there == Up then pos - 1 else pos + 1;
      assert MovedListing(ids, pos, there) == Swapped(ids, pos, next);
      assert pos' == next;
      assert Swapped(Swapped(ids, pos, next), next, pos) == ids;
    } else {
      assert pos' == pos;
      if HasNeighbour(ids, pos, back) {
        assert MovedListing(ids, pos, back)[pos] != ids[pos];
      }
    }
  }

  /** The same keys in another order. */
  predicate IsReordering(order: seq<string>, iteration: seq<string>) {
    SameElements(iteration, order) && Distinct(order)
  }

  lemma ReorderedTwice(a: seq<string>, b: seq<string>, c: seq<string>)
    requires IsReordering(b, a) && IsReordering(c, a)
    ensures IsReordering(c, b)
  {
  }

  /** A move and the opposite one: the registry is listed as before, and differs in its orders at
      most, exactly when the first move had somewhere to go, or neither has. Each of the four listings
      of the map may come in an order of its own. */
  method MoveThereAndBack(reg: ModuleRegistry, id: string, there: string, back: string, first: seq<string>, orders: seq<seq<string>>)
    returns (ghost before: seq<string>, ghost pos: nat)
    requires id in reg.modules && AreOpposite(ParseDirection(there), ParseDirection(back))
    requires |first| <= MAX_MODULES && Iterates(first, reg.modules)
    requires |orders| == 3 && forall k :: 0 <= k < 3 ==> IsReordering(orders[k], first)
    modifies reg
    ensures IsListing(before, old(reg.modules)) && pos < |before| && before[pos] == id
    ensures OnlyOrdersDiffer(old(reg.modules), reg.modules)
    ensures IsListing(before, reg.modules)
            <==> HasNeighbour(before, pos, ParseDirection(there)) || !HasNeighbour(before, pos, ParseDirection(back))
  {
    hide IsListing, Iterates, NumberedAlong, MovedListing, ParseDirection, OnlyOrdersDiffer, SameElements, HasNeighbour, Distinct;
    ghost var start := reg.modules;
    var ignored;
    ghost var mid;
    ignored, before, mid := MoveModuleOrder(reg, id, there, first, orders[0]);
    pos :| pos < |before| && before[pos] == id && mid == MovedListing(before, pos, ParseDirection(there));
    SameKeys(start, reg.modules);
    SameIteration(first, orders[1], start, reg.modules);
    ReorderedTwice(first, orders[1], orders[2]);
    IterationLength(first, orders[1], start);
    ghost var middle := reg.modules;
    ghost var again, after;
    ignored, again, after := MoveModuleOrder(reg, id, back, orders[1], orders[2]);
    ListingIsUnique(mid, again, middle);
    ghost var pos': nat :| pos' < |again| && again[pos'] == id && after == MovedListing(again, pos', ParseDirection(back));
    ListingIsDistinct(before, start);
    ThereAndBack(before, pos, ParseDirection(there), ParseDirection(back), pos');
    OrdersDifferTransitive(start, middle, reg.modules);
    if IsListing(before, reg.modules) {
      ListingIsUnique(before, after, reg.modules);
    }
  }

  lemma IterationLength(first: seq<string>, second: seq<string>, modules: Modules)
    requires Iterates(first, modules) && IsReordering(second, first)
    ensures |second| == |first|
  {
    DistinctLength(first, modules.Keys);
    DistinctLength(second, modules.Keys);
  }

  /** In the language of `RegistryLaws`, a move is a renumbering, so everything proved there for all
      histories includes moves. */
  lemma MoveIsRenumbering(before: Modules, after: Modules)
    requires OnlyOrdersDiffer(before, after)
    ensures after == Renumbered(before, map id | id in after :: after[id].order)
  {
  }
}

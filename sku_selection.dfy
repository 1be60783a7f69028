/**
 * The selection state of SKUSelect as a value (one slot per group), and what the
 * queries and the toggle of src/index.ts compute from it.
 */
module SkuSelection {
  import opened Primes
  import opened SkuIndex

  /** One slot per group: the selected value, or None where the source holds `undefined`. */
  type Selection = seq<Option<Value>>

  /** The values of the non-empty slots, in slot order. */
  function SelectedValues(sel: Selection): (values: seq<Value>)
    ensures |values| <= |sel|
    ensures forall v :: v in values <==> Some(v) in sel
  {
    if sel == [] then []
    else (if sel[0].Some? then [sel[0].value] else []) + SelectedValues(sel[1..])
  }

  /** One value per non-empty slot: the list is as long as the slots minus the empty ones. */
  lemma {:induction false} SelectedValuesCount(sel: Selection)
    ensures |SelectedValues(sel)| == |sel| - multiset(sel)[None]
  {
    if sel != [] {
      assert sel == [sel[0]] + sel[1..];
      SelectedValuesCount(sel[1..]);
    }
  }

  /** Every selected value is mapped and sits in the slot of its own group. */
  predicate WellPlaced(sel: Selection, primeGroups: seq<seq<nat>>, primeOf: map<Value, nat>) {
    forall i :: 0 <= i < |sel| && sel[i].Some? ==>
      sel[i].value in primeOf && FindGroupIndexOfSKUProp(primeGroups, primeOf, sel[i].value) == i
  }

  /**
   * The product of the selected values' primes is at least 1, is 1 exactly when
   * every slot is empty, and is divisible by the prime of every selected value.
   */
  lemma SelectedProduct(sel: Selection, primeOf: map<Value, nat>)
    requires PrimeValued(primeOf)
    requires forall i :: 0 <= i < |sel| && sel[i].Some? ==> sel[i].value in primeOf
    ensures forall v :: v in SelectedValues(sel) ==> v in primeOf
    ensures PrimesProduct(SelectedValues(sel), primeOf) >= 1
    ensures PrimesProduct(SelectedValues(sel), primeOf) == 1 <==> forall i :: 0 <= i < |sel| ==> sel[i].None?
    ensures forall i :: 0 <= i < |sel| && sel[i].Some? ==>
      Divides(primeOf[sel[i].value], PrimesProduct(SelectedValues(sel), primeOf))
  {
    var values := SelectedValues(sel);
    ProductIsOneIffEmpty(values, primeOf);
    forall i | 0 <= i < |sel| && sel[i].Some?
      ensures Divides(primeOf[sel[i].value], PrimesProduct(values, primeOf))
    {
      var k :| 0 <= k < |values| && values[k] == sel[i].value;
      ProductDivisibleByMember(values, k, primeOf);
    }
  }

  // ---------------------------------------------------------------------------
  // selectSKUProp

  /**
   * The slot update of selectSKUProp for a value of group g: slot g becomes empty
   * when the value is selected in ANY slot, and becomes the value otherwise.
   */
  function Toggled(sel: Selection, g: nat, v: Value): (toggled: Selection)
    requires g < |sel|
    ensures |toggled| == |sel|
    ensures toggled[g] == None <==> Some(v) in sel
    ensures toggled[g] != None ==> toggled[g] == Some(v)
    ensures forall k :: 0 <= k < |sel| && k != g ==> toggled[k] == sel[k]
  {
    sel[g := if Some(v) in sel then None else Some(v)]
  }

  /** Toggling a well-placed selection keeps it well placed. */
  lemma ToggleKeepsPlacement(sel: Selection, primeGroups: seq<seq<nat>>, primeOf: map<Value, nat>, v: Value)
    requires WellPlaced(sel, primeGroups, primeOf)
    requires v in primeOf && 0 <= FindGroupIndexOfSKUProp(primeGroups, primeOf, v) < |sel|
    ensures WellPlaced(Toggled(sel, FindGroupIndexOfSKUProp(primeGroups, primeOf, v), v), primeGroups, primeOf)
  {
  }

  /**
   * Toggling v twice restores the selection exactly when v's slot was empty or
   * already held v; when it held another value w, the slot ends up empty, not w.
   */
  lemma ToggleTwice(sel: Selection, g: nat, v: Value)
    requires g < |sel|
    requires forall k :: 0 <= k < |sel| && sel[k] == Some(v) ==> k == g
    ensures Toggled(Toggled(sel, g, v), g, v) == sel <==> sel[g] == None || sel[g] == Some(v)
    ensures sel[g] != None && sel[g] != Some(v) ==> Toggled(Toggled(sel, g, v), g, v) == sel[g := None]
  {
    var once := Toggled(sel, g, v);
    if sel[g] == Some(v) {
      assert once == sel[g := None];
      assert Some(v) !in once by {
        forall k | 0 <= k < |once| ensures once[k] != Some(v) {
        }
      }
    } else {
      assert Some(v) !in sel;
      assert once == sel[g := Some(v)];
      assert once[g] == Some(v);
      if sel[g] != None {
        assert Toggled(once, g, v)[g] != sel[g];
      }
    }
  }

  /** Toggling v1 and then another value v2 of the same group leaves v2, alone, in the slot. */
  lemma ToggleReplacesWithinGroup(sel: Selection, g: nat, v1: Value, v2: Value)
    requires g < |sel| && v1 != v2
    requires forall k :: 0 <= k < |sel| && (sel[k] == Some(v1) || sel[k] == Some(v2)) ==> k == g
    ensures Toggled(Toggled(sel, g, v1), g, v2)[g] == Some(v2)
    ensures forall k :: 0 <= k < |sel| && k != g ==> Toggled(Toggled(sel, g, v1), g, v2)[k] == sel[k]
  {
    var once := Toggled(sel, g, v1);
    forall k | 0 <= k < |once| ensures once[k] != Some(v2) {
    }
  }

  // ---------------------------------------------------------------------------
  // checkIsSKUPropDisabled

  /**
   * `primesProduct % (selectedPrime * prime) === 0` for some entry. An unmapped v has
   * an `undefined` prime in the source, which makes every such test false.
   */
  predicate Compatible(entries: seq<Entry>, primeOf: map<Value, nat>, s: Value, v: Value): (compatible: bool)
    ensures compatible ==> (s in primeOf && v in primeOf &&
      exists e :: e in entries && Divides(primeOf[s], e.1) && Divides(primeOf[v], e.1))
  {
    if s in primeOf && v in primeOf && exists e :: e in entries && Divides(primeOf[s] * primeOf[v], e.1) then
      var p, q := primeOf[s], primeOf[v];
      assert exists e :: e in entries && Divides(p, e.1) && Divides(q, e.1) by {
        var e :| e in entries && Divides(p * q, e.1);
        FactorsDivide(p, q, e.1);
      }
      true
    else
      false
  }

  /** The test the loop repeats: v is compatible with at least one selected value. */
  predicate AnyCompatible(entries: seq<Entry>, primeOf: map<Value, nat>, selectedValues: seq<Value>, v: Value) {
    exists s :: s in selectedValues && Compatible(entries, primeOf, s, v)
  }

  /** Some slot other than g holds a value. */
  predicate OtherGroupSelected(sel: Selection, g: int) {
    exists k :: 0 <= k < |sel| && k != g && sel[k].Some?
  }

  /**
   * checkIsSKUPropDisabled as written: disabled when some group other than v's own
   * holds a selection and v is compatible with none of the selected values
   * (v's own group's selection included).
   */
  predicate Disabled(sel: Selection, g: int, entries: seq<Entry>, primeOf: map<Value, nat>, v: Value): (disabled: bool)
    ensures disabled <==> (OtherGroupSelected(sel, g) &&
      forall k :: 0 <= k < |sel| && sel[k].Some? ==> !Compatible(entries, primeOf, sel[k].value, v))
  {
    OtherGroupSelected(sel, g) && !AnyCompatible(entries, primeOf, SelectedValues(sel), v)
  }

  /**
   * The per-group reading of the same check: disabled when some other group's
   * selection is incompatible with v.
   */
  predicate PairwiseDisabled(sel: Selection, g: int, entries: seq<Entry>, primeOf: map<Value, nat>, v: Value) {
    exists k :: 0 <= k < |sel| && k != g && sel[k].Some? && !Compatible(entries, primeOf, sel[k].value, v)
  }

  /** With no selection outside v's own group, v is never disabled. */
  lemma OwnGroupNeverDisables(sel: Selection, g: int, entries: seq<Entry>, primeOf: map<Value, nat>, v: Value)
    requires forall k :: 0 <= k < |sel| && k != g ==> sel[k].None?
    ensures !Disabled(sel, g, entries, primeOf, v)
  {
  }

  /** What the code disables, the per-group reading disables too: the code only under-disables. */
  lemma DisabledImpliesPairwiseDisabled(sel: Selection, g: int, entries: seq<Entry>, primeOf: map<Value, nat>, v: Value)
    requires Disabled(sel, g, entries, primeOf, v)
    ensures PairwiseDisabled(sel, g, entries, primeOf, v)
  {
    var k :| 0 <= k < |sel| && k != g && sel[k].Some?;
    assert sel[k].value in SelectedValues(sel);
  }

  /**
   * A value that shares an SKU with some selected value is not disabled: the SKU's
   * code is divisible by the product of the two primes.
   */
  lemma SharedSkuKeepsEnabled(skus: seq<Sku>, primeOf: map<Value, nat>, sel: Selection, g: int, v: Value,
                              i: nat, a: nat, b: nat, k: nat)
    requires SkusMapped(skus, primeOf) && PrimeValued(primeOf)
    requires i < |skus| && a < |skus[i].values| && b < |skus[i].values| && a != b
    requires k < |sel| && sel[k].Some?
    requires skus[i].values[a] == sel[k].value && skus[i].values[b] == v
    ensures !Disabled(sel, g, BuildSKUIdPrimesProductEntries(skus, primeOf), primeOf, v)
  {
    var entries := BuildSKUIdPrimesProductEntries(skus, primeOf);
    var s := sel[k].value;
    assert s in skus[i].values && v in skus[i].values;
    ProductDivisibleByPair(skus[i].values, a, b, primeOf);
    assert entries[i] in entries;
    assert Compatible(entries, primeOf, s, v);
    assert s in SelectedValues(sel);
  }

  // ---------------------------------------------------------------------------
  // getSelectedSKU

  /** `find` over the entries: the id of the first entry whose code equals `code`. */
  function FindSkuIdByCode(entries: seq<Entry>, code: nat): (id: Option<SkuId>)
    ensures id.None? <==> forall j :: 0 <= j < |entries| ==> entries[j].1 != code
    ensures id.Some? ==> exists j :: 0 <= j < |entries| && entries[j] == (id.value, code) &&
                                     forall k :: 0 <= k < j ==> entries[k].1 != code
  {
    if entries == [] then None
    else if entries[0].1 == code then Some(entries[0].0)
    else
      var id := FindSkuIdByCode(entries[1..], code);
      assert id.Some? ==> exists j :: 1 <= j < |entries| && entries[j] == (id.value, code) &&
                                      forall k :: 0 <= k < j ==> entries[k].1 != code by {
        if id.Some? {
          var j :| 0 <= j < |entries[1..]| && entries[1..][j] == (id.value, code) &&
                   forall k :: 0 <= k < j ==> entries[1..][k].1 != code;
          assert entries[j + 1] == (id.value, code);
        }
      }
      id
  }

  /** `find` over the SKUs: the first SKU with the given id. */
  function FindSkuById(skus: seq<Sku>, id: SkuId): (sku: Option<Sku>)
    ensures sku.None? <==> forall j :: 0 <= j < |skus| ==> skus[j].id != id
    ensures sku.Some? ==> exists j :: 0 <= j < |skus| && skus[j] == sku.value && sku.value.id == id &&
                                      forall k :: 0 <= k < j ==> skus[k].id != id
  {
    if skus == [] then None
    else if skus[0].id == id then Some(skus[0])
    else
      var sku := FindSkuById(skus[1..], id);
      assert sku.Some? ==> exists j :: 1 <= j < |skus| && skus[j] == sku.value && sku.value.id == id &&
                                       forall k :: 0 <= k < j ==> skus[k].id != id by {
        if sku.Some? {
          var j :| 0 <= j < |skus[1..]| && skus[1..][j] == sku.value && sku.value.id == id &&
                   forall k :: 0 <= k < j ==> skus[1..][k].id != id;
          assert skus[j + 1] == sku.value;
        }
      }
      sku
  }

  /**
   * The two finds of getSelectedSKU: the id of the first entry whose code is
   * `code`, then the first SKU with that id.
   */
  function ResolveSku(entries: seq<Entry>, skus: seq<Sku>, code: nat): (sku: Option<Sku>)
    requires |entries| == |skus| && forall j :: 0 <= j < |skus| ==> entries[j].0 == skus[j].id
    ensures sku.Some? <==> exists j :: 0 <= j < |entries| && entries[j].1 == code
    ensures sku.Some? ==> sku.value in skus
    ensures sku.Some? ==>
      exists j :: (0 <= j < |skus| && entries[j].1 == code && sku.value.id == skus[j].id &&
                   forall k :: 0 <= k < j ==> entries[k].1 != code)
    ensures sku.Some? ==>
      exists j :: 0 <= j < |skus| && skus[j] == sku.value && forall k :: 0 <= k < j ==> skus[k].id != sku.value.id
  {
    match FindSkuIdByCode(entries, code)
    case None => None
    case Some(id) =>
      assert exists j :: 0 <= j < |skus| && skus[j].id == id;
      FindSkuById(skus, id)
  }
}

/**
 * The SKUSelect class (src/index.ts): an immutable prime index built once by the
 * constructor, and one mutable array with a slot per option group.
 */
module SkuSelect {
  import opened Primes
  import opened SkuIndex
  import opened SkuSelection

  /** `skuPropGroups.map(() => undefined)`: a fresh array of n empty slots. */
  method EmptySlots(n: nat) returns (slots: array<Option<Value>>)
    ensures fresh(slots) && slots.Length == n
    ensures forall k :: 0 <= k < n ==> slots[k] == None
  {
    slots := new Option<Value>[n](_ => None);
  }

  class SKUSelect {
    /** The option groups, each as its list of values. */
    const groups: seq<seq<Value>>
    const skus: seq<Sku>
    /** The primes handed out, one per (group, value) occurrence. */
    ghost const primes: seq<nat>
    /** `primeBySKUPropValue` */
    const primeOf: map<Value, nat>
    const primeGroups: seq<seq<nat>>
    /** `skuIdPrimesProductEntries` */
    const entries: seq<Entry>
    /** `selectedSKUPropValues`: one slot per group, None for `undefined`. */
    const selected: array<Option<Value>>

    /** The index fields are what the constructor's builders produce. */
    ghost predicate Indexed()
      reads this
    {
      && IsFirstPrimes(primes, |Flatten(groups)|)
      && primeOf == BuildPrimeBySKUPropValue(groups, primes)
      && SkusMapped(skus, primeOf)
      && entries == BuildSKUIdPrimesProductEntries(skus, primeOf)
      && GroupsMapped(groups, primeOf)
      && primeGroups == BuildPrimeGroups(groups, primeOf)
    }

    ghost predicate Valid()
      reads this, selected
    {
      && Indexed()
      && selected.Length == |groups|
      && WellPlaced(selected[..], primeGroups, primeOf)
    }

    /** The group index of every value that some group lists. */
    lemma GroupIndexFacts(v: Value)
      requires Indexed()
      ensures PrimeValued(primeOf)
      ensures var g := FindGroupIndexOfSKUProp(primeGroups, primeOf, v);
        && -1 <= g < |groups|
        && (g >= 0 <==> InSomeGroup(groups, v))
        && (g >= 0 ==> v in groups[g] && forall k :: 0 <= k < g ==> v !in groups[k])
    {
      GroupIndexIsFirstGroupOfValue(groups, primes, v);
      PrimeMapIsPrimeValued(groups, primes);
    }

    /** Builds the index from the groups and SKUs and starts with every slot empty. */
    constructor (skuPropGroups: seq<seq<Value>>, skus: seq<Sku>)
      requires forall i :: 0 <= i < |skus| ==> forall v :: v in skus[i].values ==> InSomeGroup(skuPropGroups, v)
      ensures Valid() && fresh(selected)
      ensures groups == skuPropGroups && this.skus == skus
      ensures IsFirstPrimes(primes, |Flatten(skuPropGroups)|)
      ensures |primes| == Occurrences(skuPropGroups)
      ensures forall i :: 0 <= i < selected.Length ==> selected[i] == None
      ensures GetSelectedPrimesProduct() == 1
    {
      FlattenLength(skuPropGroups);
      var ps := GeneratePrimes(|Flatten(skuPropGroups)|);
      var primeBySKUPropValue := BuildPrimeBySKUPropValue(skuPropGroups, ps);
      assert SkusMapped(skus, primeBySKUPropValue) && GroupsMapped(skuPropGroups, primeBySKUPropValue) by {
        forall g | 0 <= g < |skuPropGroups| ensures forall v :: v in skuPropGroups[g] ==> v in primeBySKUPropValue {
          assert forall v :: v in skuPropGroups[g] ==> InSomeGroup(skuPropGroups, v);
        }
      }
      groups := skuPropGroups;
      this.skus := skus;
      primes := ps;
      primeOf := primeBySKUPropValue;
      entries := BuildSKUIdPrimesProductEntries(skus, primeBySKUPropValue);
      primeGroups := BuildPrimeGroups(skuPropGroups, primeBySKUPropValue);
      var slots := EmptySlots(|skuPropGroups|);
      selected := slots;
      new;
      assert Indexed();
      assert WellPlaced(selected[..], primeGroups, primeOf);
    }

    /** The product of the primes of the selected values; 1 for an empty selection. */
    function GetSelectedPrimesProduct(): (product: nat)
      requires Valid()
      reads this, selected
      ensures product >= 1
      ensures product == 1 <==> forall i :: 0 <= i < selected.Length ==> selected[i].None?
      ensures forall i :: 0 <= i < selected.Length && selected[i].Some? ==>
        Divides(primeOf[selected[i].value], product)
    {
      PrimeMapIsPrimeValued(groups, primes);
      SelectedProduct(selected[..], primeOf);
      PrimesProduct(SelectedValues(selected[..]), primeOf)
    }

    /** `includes`: the value is selected in some slot, which can only be its own group's slot. */
    function CheckIsSKUPropSelected(v: Value): (isSelected: bool)
      requires Valid()
      reads this, selected
      ensures isSelected <==> exists i :: 0 <= i < selected.Length && selected[i] == Some(v)
      ensures isSelected ==> selected[FindGroupIndexOfSKUProp(primeGroups, primeOf, v)] == Some(v)
    {
      assert forall i :: 0 <= i < selected.Length ==> selected[..][i] == selected[i];
      Some(v) in selected[..]
    }

    /** Loops over the groups; disabled as soon as one selected other group fails the test. */
    method CheckIsSKUPropDisabled(v: Value) returns (result: bool)
      ensures result == Disabled(selected[..], FindGroupIndexOfSKUProp(primeGroups, primeOf, v), entries, primeOf, v)
    {
      result := false;
      ghost var sel := selected[..];
      var selectedValues := SelectedValues(selected[..]);
      var groupIndex := FindGroupIndexOfSKUProp(primeGroups, primeOf, v);
      ghost var compatible := AnyCompatible(entries, primeOf, selectedValues, v);
      for currentGroupIndex := 0 to selected.Length
        invariant !result
        invariant compatible || !OtherGroupSelected(sel[..currentGroupIndex], groupIndex)
      {
        var isSKUGroupNotSelected := selected[currentGroupIndex].None?;
        var isInSameSKUGroup := groupIndex == currentGroupIndex;
        if isSKUGroupNotSelected || isInSameSKUGroup {
          assert sel[..currentGroupIndex + 1] == sel[..currentGroupIndex] + [sel[currentGroupIndex]];
          continue;
        }
        var isDisabled := !AnyCompatible(entries, primeOf, selectedValues, v);
        if isDisabled {
          result := true;
          assert sel[..currentGroupIndex + 1][currentGroupIndex] == selected[currentGroupIndex];
          break;
        }
        assert sel[..currentGroupIndex + 1] == sel[..currentGroupIndex] + [sel[currentGroupIndex]];
      }
      assert sel[..selected.Length] == sel;
    }

    /**
     * Toggles v in its group's slot: the slot is cleared when v is selected anywhere,
     * and set to v otherwise. Every other slot keeps its value.
     */
    method SelectSKUProp(v: Value)
      requires Valid()
      requires InSomeGroup(groups, v)
      modifies selected
      ensures Valid()
      ensures 0 <= FindGroupIndexOfSKUProp(primeGroups, primeOf, v) < selected.Length
      ensures selected[..] == Toggled(old(selected[..]), FindGroupIndexOfSKUProp(primeGroups, primeOf, v), v)
    {
      GroupIndexFacts(v);
      ghost var before := selected[..];
      var isSelected := CheckIsSKUPropSelected(v);
      var groupIndex := FindGroupIndexOfSKUProp(primeGroups, primeOf, v);
      selected[groupIndex] := if isSelected then None else Some(v);
      assert selected[..] == Toggled(before, groupIndex, v);
      ToggleKeepsPlacement(before, primeGroups, primeOf, v);
    }

    /** The SKU whose entry is the first to match the selected product, if any. */
    function GetSelectedSKU(): (sku: Option<Sku>)
      requires Valid()
      reads this, selected
      ensures sku.Some? <==> exists j :: 0 <= j < |entries| && entries[j].1 == GetSelectedPrimesProduct()
      ensures sku.Some? ==> sku.value in skus
      ensures sku.Some? ==>
        exists j :: (0 <= j < |skus| && entries[j].1 == GetSelectedPrimesProduct() && sku.value.id == skus[j].id &&
                     forall k :: 0 <= k < j ==> entries[k].1 != GetSelectedPrimesProduct())
      ensures sku.Some? ==>
        exists j :: 0 <= j < |skus| && skus[j] == sku.value && forall k :: 0 <= k < j ==> skus[k].id != sku.value.id
    {
      ResolveSku(entries, skus, GetSelectedPrimesProduct())
    }

    /**
     * Selecting exactly the values of SKU i (in any slot order) makes the selected
     * product that SKU's code, so some SKU is resolved; it is SKU i itself when no
     * earlier SKU has the same code or the same id.
     */
    lemma SelectingSkuValuesResolves(i: nat)
      requires Valid() && i < |skus|
      requires multiset(SelectedValues(selected[..])) == multiset(skus[i].values)
      ensures GetSelectedPrimesProduct() == entries[i].1
      ensures GetSelectedSKU().Some?
      ensures (forall j :: 0 <= j < i ==> entries[j].1 != entries[i].1 && skus[j].id != skus[i].id) ==>
        GetSelectedSKU() == Some(skus[i])
    {
      var values := SelectedValues(selected[..]);
      ProductPermutation(skus[i].values, values, primeOf);
      assert entries[i].1 == PrimesProduct(skus[i].values, primeOf);
    }

    /** With nothing selected, only an SKU without values (code 1) can be resolved. */
    lemma EmptySelectionResolvesOnlyValuelessSku()
      requires Valid()
      requires forall i :: 0 <= i < selected.Length ==> selected[i].None?
      ensures GetSelectedSKU().Some? <==> exists j :: 0 <= j < |skus| && skus[j].values == []
    {
      PrimeMapIsPrimeValued(groups, primes);
      forall j | 0 <= j < |skus| ensures entries[j].1 == 1 <==> skus[j].values == [] {
        ProductIsOneIffEmpty(skus[j].values, primeOf);
      }
    }
  }
}

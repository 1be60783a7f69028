/**
 * The immutable prime index that the SKUSelect constructor builds (src/index.ts):
 * one prime per option value, one product of primes per SKU, and the primes of
 * each option group.
 */
module SkuIndex {
  import opened Primes

  /** A catalog scalar: the source's `string | number`. */
  datatype Scalar = Str(text: string) | Num(number: int)

  /** An option value ("SKU prop value"). */
  type Value = Scalar

  type SkuId = Scalar

  /** An SKU with its id and the values it is made of, already read from the record. */
  datatype Sku = Sku(id: SkuId, values: seq<Value>)

  /** One `[skuId, primesProduct]` entry. */
  type Entry = (SkuId, nat)

  datatype Option<+T> = None | Some(value: T)

  predicate InSomeGroup(groups: seq<seq<Value>>, v: Value) {
    exists g :: 0 <= g < |groups| && v in groups[g]
  }

  /** Every value of every SKU is mapped to a prime. */
  predicate SkusMapped(skus: seq<Sku>, primeOf: map<Value, nat>) {
    forall i :: 0 <= i < |skus| ==> forall v :: v in skus[i].values ==> v in primeOf
  }

  /** Every value of every group is mapped to a prime. */
  predicate GroupsMapped(groups: seq<seq<Value>>, primeOf: map<Value, nat>) {
    forall g :: 0 <= g < |groups| ==> forall v :: v in groups[g] ==> v in primeOf
  }

  predicate PrimeValued(primeOf: map<Value, nat>) {
    forall v :: v in primeOf ==> IsPrime(primeOf[v])
  }

  // ---------------------------------------------------------------------------
  // buildPrimeBySKUPropValue

  /** The props of all groups, group after group (the `reduce` that concatenates them). */
  function Flatten(groups: seq<seq<Value>>): (props: seq<Value>)
    ensures forall v :: v in props <==> InSomeGroup(groups, v)
  {
    if groups == [] then []
    else
      var init := groups[..|groups| - 1];
      assert forall g :: 0 <= g < |init| ==> init[g] == groups[g];
      Flatten(init) + groups[|groups| - 1]
  }

  /** Value i of group g is prop number |Flatten(groups[..g])| + i of the flattened list. */
  lemma {:induction false} FlattenAt(groups: seq<seq<Value>>, g: nat, i: nat)
    requires g < |groups| && i < |groups[g]|
    ensures |Flatten(groups[..g])| + i < |Flatten(groups)|
    ensures Flatten(groups)[|Flatten(groups[..g])| + i] == groups[g][i]
  {
    var init := groups[..|groups| - 1];
    if g == |groups| - 1 {
      assert init == groups[..g];
    } else {
      assert init[..g] == groups[..g];
      FlattenAt(init, g, i);
    }
  }

  /** The number of (group, value) occurrences: the sum of the group sizes. */
  function Occurrences(groups: seq<seq<Value>>): nat {
    if groups == [] then 0 else |groups[0]| + Occurrences(groups[1..])
  }

  lemma {:induction false} OccurrencesConcat(a: seq<seq<Value>>, b: seq<seq<Value>>)
    ensures Occurrences(a + b) == Occurrences(a) + Occurrences(b)
    decreases |a|
  {
    if a == [] {
      assert a + b == b;
    } else {
      assert (a + b)[1..] == a[1..] + b;
      OccurrencesConcat(a[1..], b);
    }
  }

  /** The flattened list has one entry per occurrence, so one prime is requested per occurrence. */
  lemma {:induction false} FlattenLength(groups: seq<seq<Value>>)
    ensures |Flatten(groups)| == Occurrences(groups)
    decreases |groups|
  {
    if groups != [] {
      var n := |groups| - 1;
      FlattenLength(groups[..n]);
      OccurrencesConcat(groups[..n], [groups[n]]);
      assert groups[..n] + [groups[n]] == groups;
      assert [groups[n]][1..] == [];
    }
  }

  /** Position k of the flattened list holds value i of group g. */
  predicate PositionOf(groups: seq<seq<Value>>, g: nat, i: nat, k: nat) {
    g < |groups| && i < |groups[g]| && k == |Flatten(groups[..g])| + i
  }

  /** The converse of FlattenAt: every position of the flattened list is some value of some group. */
  lemma {:induction false} FlattenCovers(groups: seq<seq<Value>>, k: nat) returns (g: nat, i: nat)
    requires k < |Flatten(groups)|
    ensures PositionOf(groups, g, i, k)
    decreases |groups|
  {
    var n := |groups| - 1;
    var init := groups[..n];
    if k < |Flatten(init)| {
      g, i := FlattenCovers(init, k);
      assert init[..g] == groups[..g];
    } else {
      g, i := n, k - |Flatten(init)|;
    }
  }

  /** The position of the last occurrence of v in props. */
  function LastIndexOf(props: seq<Value>, v: Value): (k: nat)
    requires v in props
    ensures k < |props| && props[k] == v
    ensures forall j :: k < j < |props| ==> props[j] != v
  {
    if props[|props| - 1] == v then |props| - 1
    else LastIndexOf(props[..|props| - 1], v)
  }

  /**
   * `Object.fromEntries` of the pairs (props[k], primes[k]), inserted in order,
   * so a value that occurs twice keeps the prime of its last occurrence.
   */
  function FromEntries(props: seq<Value>, primes: seq<nat>): (m: map<Value, nat>)
    requires |primes| == |props|
    ensures m.Keys == set v | v in props
    ensures forall v :: v in props ==> m[v] == primes[LastIndexOf(props, v)]
  {
    if props == [] then map[]
    else
      var n := |props| - 1;
      FromEntries(props[..n], primes[..n])[props[n] := primes[n]]
  }

  /**
   * The value-to-prime map: one prime is requested per (group, value) occurrence,
   * the k-th flattened prop is paired with primes[k], and the last occurrence wins.
   */
  function BuildPrimeBySKUPropValue(groups: seq<seq<Value>>, primes: seq<nat>): (primeOf: map<Value, nat>)
    requires |primes| == |Flatten(groups)|
    ensures forall v :: v in primeOf <==> InSomeGroup(groups, v)
    ensures forall v :: v in primeOf ==> primeOf[v] == primes[LastIndexOf(Flatten(groups), v)]
  {
    FromEntries(Flatten(groups), primes)
  }

  /** With pairwise distinct props, the k-th prop gets exactly primes[k]. */
  lemma DistinctPropsGetOwnPrime(groups: seq<seq<Value>>, primes: seq<nat>)
    requires |primes| == |Flatten(groups)|
    requires forall i, j :: 0 <= i < j < |Flatten(groups)| ==> Flatten(groups)[i] != Flatten(groups)[j]
    ensures forall k :: 0 <= k < |primes| ==>
      BuildPrimeBySKUPropValue(groups, primes)[Flatten(groups)[k]] == primes[k]
  {
    var props := Flatten(groups);
    forall k | 0 <= k < |primes|
      ensures BuildPrimeBySKUPropValue(groups, primes)[props[k]] == primes[k]
    {
      var last := LastIndexOf(props, props[k]);
      assert last == k;
    }
  }

  /** Distinct values get distinct primes, whether or not some value occurs twice. */
  lemma PrimeMapInjective(groups: seq<seq<Value>>, primes: seq<nat>, u: Value, v: Value)
    requires |primes| == |Flatten(groups)| && StrictlyIncreasing(primes)
    requires InSomeGroup(groups, u) && InSomeGroup(groups, v) && u != v
    ensures BuildPrimeBySKUPropValue(groups, primes)[u] != BuildPrimeBySKUPropValue(groups, primes)[v]
  {
    var props := Flatten(groups);
    var i, j := LastIndexOf(props, u), LastIndexOf(props, v);
    assert i != j;
    assert i < j || j < i;
  }

  /** Every value of the map is one of the generated primes. */
  lemma PrimeMapIsPrimeValued(groups: seq<seq<Value>>, primes: seq<nat>)
    requires |primes| == |Flatten(groups)| && AllPrime(primes)
    ensures PrimeValued(BuildPrimeBySKUPropValue(groups, primes))
  {
  }

  // ---------------------------------------------------------------------------
  // buildSKUIdPrimesProductEntries

  /** The product of the primes of `values`, folded from the left starting at 1. */
  function PrimesProduct(values: seq<Value>, primeOf: map<Value, nat>): (product: nat)
    requires forall v :: v in values ==> v in primeOf
    ensures values == [] ==> product == 1
    ensures |values| == 1 ==> product == primeOf[values[0]]
  {
    if values == [] then 1
    else PrimesProduct(values[..|values| - 1], primeOf) * primeOf[values[|values| - 1]]
  }

  /** The SKU entries, in SKU order: each SKU's id with the product of its values' primes. */
  function BuildSKUIdPrimesProductEntries(skus: seq<Sku>, primeOf: map<Value, nat>): (entries: seq<Entry>)
    requires SkusMapped(skus, primeOf)
    ensures |entries| == |skus|
    ensures forall i :: 0 <= i < |skus| ==>
      entries[i].0 == skus[i].id && entries[i].1 == PrimesProduct(skus[i].values, primeOf)
  {
    seq(|skus|, i requires 0 <= i < |skus| => (skus[i].id, PrimesProduct(skus[i].values, primeOf)))
  }

  lemma MulRegroup(x: nat, y: nat, p: nat)
    ensures x * (p * y) == (x * y) * p
  {
  }

  lemma {:induction false} ProductConcat(a: seq<Value>, b: seq<Value>, primeOf: map<Value, nat>)
    requires forall v :: v in a + b ==> v in primeOf
    ensures PrimesProduct(a + b, primeOf) == PrimesProduct(a, primeOf) * PrimesProduct(b, primeOf)
    decreases |b|
  {
    if b == [] {
      assert a + b == a;
    } else {
      var n := |b| - 1;
      assert (a + b)[..|a + b| - 1] == a + b[..n];
      ProductConcat(a, b[..n], primeOf);
      var pa, pb, p := PrimesProduct(a, primeOf), PrimesProduct(b[..n], primeOf), primeOf[b[n]];
      assert PrimesProduct(a + b, primeOf) == (pa * pb) * p;
      assert PrimesProduct(b, primeOf) == pb * p;
      MulRegroup(pa, p, pb);
    }
  }

  /** Taking one value out divides its prime out of the product. */
  lemma ProductRemoveAt(a: seq<Value>, k: nat, primeOf: map<Value, nat>)
    requires k < |a| && forall v :: v in a ==> v in primeOf
    ensures PrimesProduct(a, primeOf) == PrimesProduct(a[..k] + a[k + 1..], primeOf) * primeOf[a[k]]
  {
    var x, y, p := PrimesProduct(a[..k], primeOf), PrimesProduct(a[k + 1..], primeOf), primeOf[a[k]];
    assert a == a[..k] + ([a[k]] + a[k + 1..]);
    ProductConcat(a[..k], [a[k]] + a[k + 1..], primeOf);
    ProductConcat([a[k]], a[k + 1..], primeOf);
    assert PrimesProduct([a[k]], primeOf) == p by {
      assert [a[k]][..0] == [];
    }
    ProductConcat(a[..k], a[k + 1..], primeOf);
    assert PrimesProduct(a, primeOf) == x * (p * y);
    MulRegroup(x, y, p);
  }

  /** The product does not depend on the order of the values. */
  lemma {:induction false} ProductPermutation(a: seq<Value>, b: seq<Value>, primeOf: map<Value, nat>)
    requires multiset(a) == multiset(b)
    requires forall v :: v in a ==> v in primeOf
    ensures forall v :: v in b ==> v in primeOf
    ensures PrimesProduct(a, primeOf) == PrimesProduct(b, primeOf)
    decreases |a|
  {
    assert forall v :: v in b ==> v in multiset(a);
    if a != [] {
      var n := |a| - 1;
      var x := a[n];
      assert x in multiset(b);
      var j :| 0 <= j < |b| && b[j] == x;
      var rest := b[..j] + b[j + 1..];
      assert b == b[..j] + [x] + b[j + 1..];
      assert a == a[..n] + [x];
      assert multiset(a) == multiset(a[..n]) + multiset{x};
      assert multiset(b) == multiset(b[..j]) + multiset{x} + multiset(b[j + 1..]);
      assert multiset(rest) == multiset(b[..j]) + multiset(b[j + 1..]);
      assert multiset(a[..n]) == multiset(a) - multiset{x};
      assert multiset(rest) == multiset(b) - multiset{x};
      ProductPermutation(a[..n], rest, primeOf);
      ProductRemoveAt(b, j, primeOf);
    }
  }

  /** Each value's prime divides the product. */
  lemma ProductDivisibleByMember(a: seq<Value>, k: nat, primeOf: map<Value, nat>)
    requires k < |a| && forall v :: v in a ==> v in primeOf
    requires primeOf[a[k]] > 0
    ensures Divides(primeOf[a[k]], PrimesProduct(a, primeOf))
  {
    ProductRemoveAt(a, k, primeOf);
    var r, p := PrimesProduct(a[..k] + a[k + 1..], primeOf), primeOf[a[k]];
    MultipleDividesLeft(p, r);
  }

  /** The primes of two values at different positions jointly divide the product. */
  lemma ProductDivisibleByPair(a: seq<Value>, i: nat, j: nat, primeOf: map<Value, nat>)
    requires i < |a| && j < |a| && i != j && forall v :: v in a ==> v in primeOf
    requires primeOf[a[i]] > 0 && primeOf[a[j]] > 0
    ensures Divides(primeOf[a[i]] * primeOf[a[j]], PrimesProduct(a, primeOf))
  {
    var rest := a[..i] + a[i + 1..];
    ProductRemoveAt(a, i, primeOf);
    var j' := if j < i then j else j - 1;
    assert rest[j'] == a[j];
    ProductRemoveAt(rest, j', primeOf);
    var r := PrimesProduct(rest[..j'] + rest[j' + 1..], primeOf);
    var p, q := primeOf[a[i]], primeOf[a[j]];
    assert PrimesProduct(a, primeOf) == (r * q) * p;
    MulRegroup(r, q, p);
    assert (r * q) * p == (p * q) * r;
    MultipleDivides(p * q, r);
  }

  /** With primes of at least 2, the product is 1 exactly for no values. */
  lemma {:induction false} ProductIsOneIffEmpty(a: seq<Value>, primeOf: map<Value, nat>)
    requires forall v :: v in a ==> v in primeOf
    requires PrimeValued(primeOf)
    ensures PrimesProduct(a, primeOf) >= 1
    ensures PrimesProduct(a, primeOf) == 1 <==> a == []
  {
    if a != [] {
      var n := |a| - 1;
      ProductIsOneIffEmpty(a[..n], primeOf);
      var x, p := PrimesProduct(a[..n], primeOf), primeOf[a[n]];
      assert p >= 2;
      assert x * p >= p;
    }
  }

  // ---------------------------------------------------------------------------
  // buildPrimeGroups and findGroupIndexOfSKUProp

  /** For each group, in order, the primes of its values, in order. */
  function BuildPrimeGroups(groups: seq<seq<Value>>, primeOf: map<Value, nat>): (primeGroups: seq<seq<nat>>)
    requires GroupsMapped(groups, primeOf)
    ensures |primeGroups| == |groups|
    ensures forall g :: 0 <= g < |groups| ==> |primeGroups[g]| == |groups[g]|
    ensures forall g, i :: 0 <= g < |groups| && 0 <= i < |groups[g]| ==>
      primeGroups[g][i] == primeOf[groups[g][i]]
  {
    seq(|groups|, g requires 0 <= g < |groups| =>
      seq(|groups[g]|, i requires 0 <= i < |groups[g]| => primeOf[groups[g][i]]))
  }

  /**
   * With pairwise distinct values, group g's list holds the consecutive primes
   * primes[o], primes[o + 1], ... where o is the number of props in earlier groups.
   */
  lemma PrimeGroupsAreGroupMajor(groups: seq<seq<Value>>, primes: seq<nat>, g: nat, i: nat)
    requires |primes| == |Flatten(groups)|
    requires forall a, b :: 0 <= a < b < |Flatten(groups)| ==> Flatten(groups)[a] != Flatten(groups)[b]
    requires g < |groups| && i < |groups[g]|
    ensures GroupsMapped(groups, BuildPrimeBySKUPropValue(groups, primes))
    ensures |Flatten(groups[..g])| + i < |primes|
    ensures BuildPrimeGroups(groups, BuildPrimeBySKUPropValue(groups, primes))[g][i]
         == primes[|Flatten(groups[..g])| + i]
  {
    FlattenAt(groups, g, i);
    DistinctPropsGetOwnPrime(groups, primes);
  }

  /** `findIndex` over the prime groups: the first group whose list holds p, or -1. */
  function IndexOfGroupContaining(primeGroups: seq<seq<nat>>, p: nat): (g: int)
    ensures -1 <= g < |primeGroups|
    ensures g >= 0 ==> p in primeGroups[g]
    ensures forall k :: 0 <= k < |primeGroups| && (g < 0 || k < g) ==> p !in primeGroups[k]
  {
    if primeGroups == [] then -1
    else if p in primeGroups[0] then 0
    else
      var g := IndexOfGroupContaining(primeGroups[1..], p);
      if g < 0 then -1 else g + 1
  }

  /** The group index of a value, or -1 when its prime is in no group (an unknown value). */
  function FindGroupIndexOfSKUProp(primeGroups: seq<seq<nat>>, primeOf: map<Value, nat>, v: Value): (g: int)
    ensures -1 <= g < |primeGroups|
    ensures g >= 0 <==> v in primeOf && exists k :: 0 <= k < |primeGroups| && primeOf[v] in primeGroups[k]
    ensures g >= 0 ==> primeOf[v] in primeGroups[g] && forall k :: 0 <= k < g ==> primeOf[v] !in primeGroups[k]
  {
    if v in primeOf then IndexOfGroupContaining(primeGroups, primeOf[v]) else -1
  }

  /**
   * On the index built from the groups, the group index of v is the first group
   * that lists v, and -1 exactly when no group lists it.
   */
  lemma GroupIndexIsFirstGroupOfValue(groups: seq<seq<Value>>, primes: seq<nat>, v: Value)
    requires |primes| == |Flatten(groups)| && StrictlyIncreasing(primes)
    ensures GroupsMapped(groups, BuildPrimeBySKUPropValue(groups, primes))
    ensures var primeOf := BuildPrimeBySKUPropValue(groups, primes);
      var g := FindGroupIndexOfSKUProp(BuildPrimeGroups(groups, primeOf), primeOf, v);
      && -1 <= g < |groups|
      && (g >= 0 <==> InSomeGroup(groups, v))
      && (g >= 0 ==> v in groups[g] && forall k :: 0 <= k < g ==> v !in groups[k])
  {
    var primeOf := BuildPrimeBySKUPropValue(groups, primes);
    assert GroupsMapped(groups, primeOf);
    var primeGroups := BuildPrimeGroups(groups, primeOf);
    if v in primeOf {
      forall k | 0 <= k < |groups| ensures primeOf[v] in primeGroups[k] <==> v in groups[k] {
        assert |primeGroups[k]| == |groups[k]|;
        if primeOf[v] in primeGroups[k] {
          var i :| 0 <= i < |primeGroups[k]| && primeGroups[k][i] == primeOf[v];
          if groups[k][i] != v {
            PrimeMapInjective(groups, primes, groups[k][i], v);
          }
        }
        if v in groups[k] {
          var i :| 0 <= i < |groups[k]| && groups[k][i] == v;
          assert primeGroups[k][i] == primeOf[v];
        }
      }
    }
  }
}

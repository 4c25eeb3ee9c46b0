/**
 The operations on the ordered inventory (the script's process-wide `shoe_list`, here passed in
 and returned): `capture_shoes`, `re_stock`, `search_shoe` and `highest_qty`.
 */
module Inventory {
  import opened Wrappers
  import opened Shoes

  /** `capture_shoes`: the new record goes at the end; the records already there keep their places. */
  function CaptureShoes(inventory: seq<Shoe>, country: string, code: string, product: string,
                        cost: int, quantity: int): (r: seq<Shoe>)
    ensures |r| == |inventory| + 1
    ensures r[..|inventory|] == inventory
    ensures r[|inventory|] == Shoe(country, code, product, cost, quantity)
  {
    inventory + [Shoe(country, code, product, cost, quantity)]
  }

  /** Index k holds the lowest quantity, and no earlier record is as low (Python's `min` keeps the first). */
  predicate IsFirstLowest(inventory: seq<Shoe>, k: int) {
    && 0 <= k < |inventory|
    && (forall j :: 0 <= j < |inventory| ==> inventory[k].quantity <= inventory[j].quantity)
    && (forall j :: 0 <= j < k ==> inventory[j].quantity > inventory[k].quantity)
  }

  /** Index k holds the highest quantity, and no earlier record is as high (Python's `max` keeps the first). */
  predicate IsFirstHighest(inventory: seq<Shoe>, k: int) {
    && 0 <= k < |inventory|
    && (forall j :: 0 <= j < |inventory| ==> inventory[k].quantity >= inventory[j].quantity)
    && (forall j :: 0 <= j < k ==> inventory[j].quantity < inventory[k].quantity)
  }

  /** There is only one first lowest record, so the restock target is determined. */
  lemma FirstLowestUnique(inventory: seq<Shoe>, i: int, j: int)
    requires IsFirstLowest(inventory, i) && IsFirstLowest(inventory, j)
    ensures i == j
  {
    assert inventory[i].quantity == inventory[j].quantity;
    assert !(i < j) && !(j < i);
  }

  /** There is only one first highest record, so the sale pick is determined. */
  lemma FirstHighestUnique(inventory: seq<Shoe>, i: int, j: int)
    requires IsFirstHighest(inventory, i) && IsFirstHighest(inventory, j)
    ensures i == j
  {
    assert inventory[i].quantity == inventory[j].quantity;
    assert !(i < j) && !(j < i);
  }

  /** `min(shoe_list, key=quantity)`: a left-to-right scan that moves only on a strictly lower quantity. */
  method LowestQuantityIndex(inventory: seq<Shoe>) returns (k: nat)
    requires |inventory| > 0
    ensures IsFirstLowest(inventory, k)
  {
    k := 0;
    var i := 1;
    while i < |inventory|
      invariant 1 <= i <= |inventory|
      invariant k < i
      invariant forall j :: 0 <= j < i ==> inventory[k].quantity <= inventory[j].quantity
      invariant forall j :: 0 <= j < k ==> inventory[j].quantity > inventory[k].quantity
    {
      if inventory[i].quantity < inventory[k].quantity {
        k := i;
      }
      i := i + 1;
    }
  }

  /** `max(shoe_list, key=quantity)`: a left-to-right scan that moves only on a strictly higher quantity. */
  method HighestQuantityIndex(inventory: seq<Shoe>) returns (k: nat)
    requires |inventory| > 0
    ensures IsFirstHighest(inventory, k)
  {
    k := 0;
    var i := 1;
    while i < |inventory|
      invariant 1 <= i <= |inventory|
      invariant k < i
      invariant forall j :: 0 <= j < i ==> inventory[k].quantity >= inventory[j].quantity
      invariant forall j :: 0 <= j < k ==> inventory[j].quantity < inventory[k].quantity
    {
      if inventory[i].quantity > inventory[k].quantity {
        k := i;
      }
      i := i + 1;
    }
  }

  /** Sum of the quantities on hand. */
  function TotalQuantity(inventory: seq<Shoe>): int {
    if |inventory| == 0 then 0 else inventory[0].quantity + TotalQuantity(inventory[1..])
  }

  /** Changing one record's quantity by `amount` changes the total by `amount`. */
  lemma {:induction false} TotalQuantityAfterAdding(inventory: seq<Shoe>, k: nat, amount: int)
    requires k < |inventory|
    ensures TotalQuantity(inventory[k := inventory[k].(quantity := inventory[k].quantity + amount)])
            == TotalQuantity(inventory) + amount
  {
    var updated := inventory[k := inventory[k].(quantity := inventory[k].quantity + amount)];
    if k == 0 {
      assert updated[1..] == inventory[1..];
    } else {
      assert updated[1..] == inventory[1..][k - 1 := inventory[k].(quantity := inventory[k].quantity + amount)];
      TotalQuantityAfterAdding(inventory[1..], k - 1, amount);
    }
  }

  /**
   `re_stock`: on an empty inventory nothing happens and no record is chosen. Otherwise the
   first record with the lowest quantity is chosen and `amount` (any integer the user enters) is
   added to its quantity; every other field of it, and every other record, stays as it was, so
   the total quantity grows by exactly `amount`.
   */
  method ReStock(inventory: seq<Shoe>, amount: int) returns (r: seq<Shoe>, chosen: Option<nat>)
    ensures chosen.None? <==> |inventory| == 0
    ensures chosen.None? ==> r == inventory
    ensures chosen.Some? ==> IsFirstLowest(inventory, chosen.value)
    ensures |r| == |inventory|
    ensures forall j :: 0 <= j < |r| && Some(j) != chosen ==> r[j] == inventory[j]
    ensures chosen.Some? ==>
      r[chosen.value] == inventory[chosen.value].(quantity := inventory[chosen.value].quantity + amount)
    ensures TotalQuantity(r) == TotalQuantity(inventory) + (if chosen.Some? then amount else 0)
  {
    if |inventory| == 0 {
      return inventory, None;
    }
    var k := LowestQuantityIndex(inventory);
    var lowest := inventory[k];
    r := inventory[k := lowest.(quantity := lowest.quantity + amount)];
    TotalQuantityAfterAdding(inventory, k, amount);
    chosen := Some(k);
  }

  /** The index of the first record whose code equals `code` exactly, if any. */
  function FindCode(inventory: seq<Shoe>, code: string): (r: Option<nat>)
    ensures r.Some? ==> r.value < |inventory| && inventory[r.value].code == code
    ensures r.Some? ==> forall j :: 0 <= j < r.value ==> inventory[j].code != code
    ensures r.None? <==> forall j :: 0 <= j < |inventory| ==> inventory[j].code != code
  {
    if |inventory| == 0 then None
    else if inventory[0].code == code then Some(0)
    else
      match FindCode(inventory[1..], code)
      case None =>
        assert forall j :: 1 <= j < |inventory| ==> inventory[j] == inventory[1..][j - 1];
        None
      case Some(k) =>
        assert forall j :: 1 <= j <= k + 1 ==> inventory[j] == inventory[1..][j - 1];
        Some(k + 1)
  }

  /**
   `search_shoe`: the first record whose code equals the query exactly (case-sensitive), or none
   when no record has it, in particular on an empty inventory.
   */
  function SearchShoe(inventory: seq<Shoe>, code: string): (r: Option<Shoe>)
    ensures r.None? <==> forall j :: 0 <= j < |inventory| ==> inventory[j].code != code
    ensures r.Some? ==> r.value.code == code
    ensures r.Some? ==> exists k :: 0 <= k < |inventory| && inventory[k] == r.value &&
                                  forall j :: 0 <= j < k ==> inventory[j].code != code
  {
    if |inventory| == 0 then None
    else
      match FindCode(inventory, code)
      case None => None
      case Some(k) => Some(inventory[k])
  }

  /** After a capture, a search finds what it found before, or else the new record if its code matches. */
  lemma SearchAfterCapture(inventory: seq<Shoe>, country: string, code: string, product: string,
                           cost: int, quantity: int, query: string)
    ensures var after := CaptureShoes(inventory, country, code, product, cost, quantity);
      SearchShoe(after, query) ==
        if SearchShoe(inventory, query).Some? then SearchShoe(inventory, query)
        else if code == query then Some(Shoe(country, code, product, cost, quantity))
        else None
  {
    var after := CaptureShoes(inventory, country, code, product, cost, quantity);
    assert forall j :: 0 <= j < |inventory| ==> after[j] == inventory[j];
    match FindCode(inventory, query)
    case Some(k) =>
      assert FindCode(after, query) == Some(k) by {
        FindCodeExtends(inventory, after, query);
      }
    case None =>
      if code == query {
        assert after[|inventory|].code == query;
        assert FindCode(after, query) == Some(|inventory|);
      }
  }

  /** Extending an inventory at the end does not change where the first match of a code already in it is. */
  lemma FindCodeExtends(inventory: seq<Shoe>, longer: seq<Shoe>, code: string)
    requires |inventory| <= |longer| && longer[..|inventory|] == inventory
    requires FindCode(inventory, code).Some?
    ensures FindCode(longer, code) == FindCode(inventory, code)
  {
    var k := FindCode(inventory, code).value;
    assert longer[k] == inventory[k];
    assert forall j :: 0 <= j < k ==> longer[j] == inventory[j];
  }

  /**
   `highest_qty`: none on an empty inventory; otherwise the first record whose quantity is at
   least every other record's.
   */
  method HighestQty(inventory: seq<Shoe>) returns (r: Option<Shoe>)
    ensures r.None? <==> |inventory| == 0
    ensures r.Some? ==> exists k :: IsFirstHighest(inventory, k) && inventory[k] == r.value
  {
    if |inventory| == 0 {
      return None;
    }
    var k := HighestQuantityIndex(inventory);
    r := Some(inventory[k]);
  }
}

/** The menu service's shopping cart: a list of entries, at most one per menu
    item, each with a quantity. */
module Menu {
  import opened Wrappers
  import opened ArrayOps

  /** A menu item. `price` is in whole minor units (cents). */
  datatype MenuItem = MenuItem(
    id: int,
    name: string,
    description: string,
    price: int,
    image: string,
    category: string,
    actors: seq<string>,
    rating: real)

  /** A cart entry. */
  datatype CartItem = CartItem(menuItem: MenuItem, quantity: int)

  function ItemIdOf(entry: CartItem): int {
    entry.menuItem.id
  }

  /** At most one entry per menu item id. */
  ghost predicate UniqueIds(cart: seq<CartItem>) {
    DistinctBy(cart, ItemIdOf)
  }

  /** Every entry has a quantity of at least one. */
  ghost predicate AllPositive(cart: seq<CartItem>) {
    forall i :: 0 <= i < |cart| ==> cart[i].quantity >= 1
  }

  /** The invariant the cart operations keep. */
  ghost predicate WellFormed(cart: seq<CartItem>) {
    UniqueIds(cart) && AllPositive(cart)
  }

  /** `getCartItemCount`: the running total of quantities, left to right. */
  function CartItemCount(cart: seq<CartItem>): int {
    if cart == [] then 0
    else CartItemCount(cart[..|cart| - 1]) + cart[|cart| - 1].quantity
  }

  /** `getCartTotal`: the running total of price times quantity, left to right. */
  function CartTotal(cart: seq<CartItem>): int {
    if cart == [] then 0
    else
      var last := cart[|cart| - 1];
      CartTotal(cart[..|cart| - 1]) + last.menuItem.price * last.quantity
  }

  /** The count of a concatenation is the sum of the counts. */
  lemma {:induction false} CartItemCountConcat(a: seq<CartItem>, b: seq<CartItem>)
    ensures CartItemCount(a + b) == CartItemCount(a) + CartItemCount(b)
  {
    if b == [] {
      assert a + b == a;
    } else {
      CartItemCountConcat(a, b[..|b| - 1]);
      assert (a + b)[..|a + b| - 1] == a + b[..|b| - 1];
    }
  }

  /** The total of a concatenation is the sum of the totals. */
  lemma {:induction false} CartTotalConcat(a: seq<CartItem>, b: seq<CartItem>)
    ensures CartTotal(a + b) == CartTotal(a) + CartTotal(b)
  {
    if b == [] {
      assert a + b == a;
    } else {
      CartTotalConcat(a, b[..|b| - 1]);
      assert (a + b)[..|a + b| - 1] == a + b[..|b| - 1];
    }
  }

  /** The sum of the quantities, stated from the front: an independent
      reference for the left fold. */
  function QuantitySum(cart: seq<CartItem>): int {
    if cart == [] then 0 else cart[0].quantity + QuantitySum(cart[1..])
  }

  /** The sum of price times quantity, stated from the front. */
  function PriceSum(cart: seq<CartItem>): int {
    if cart == [] then 0
    else cart[0].menuItem.price * cart[0].quantity + PriceSum(cart[1..])
  }

  /** `getCartItemCount` is the sum of the quantities. */
  lemma {:induction false} CartItemCountIsQuantitySum(cart: seq<CartItem>)
    ensures CartItemCount(cart) == QuantitySum(cart)
  {
    if cart != [] {
      CartItemCountIsQuantitySum(cart[1..]);
      CartItemCountConcat([cart[0]], cart[1..]);
      assert [cart[0]] + cart[1..] == cart;
      assert CartItemCount([cart[0]]) == cart[0].quantity by {
        assert [cart[0]][..0] == [];
      }
    }
  }

  /** `getCartTotal` is the sum of price times quantity. */
  lemma {:induction false} CartTotalIsPriceSum(cart: seq<CartItem>)
    ensures CartTotal(cart) == PriceSum(cart)
  {
    if cart != [] {
      CartTotalIsPriceSum(cart[1..]);
      CartTotalConcat([cart[0]], cart[1..]);
      assert [cart[0]] + cart[1..] == cart;
      CartTotalSingle(cart[0]);
    }
  }

  /** A cart whose entries are all positive counts at least one per entry;
      in particular its count is zero only when it is empty. */
  lemma {:induction false} CartItemCountAtLeastLength(cart: seq<CartItem>)
    requires AllPositive(cart)
    ensures CartItemCount(cart) >= |cart|
  {
    if cart != [] {
      CartItemCountAtLeastLength(cart[..|cart| - 1]);
    }
  }

  /** Splits a cart around position k. */
  lemma SplitAt(cart: seq<CartItem>, k: nat)
    requires k < |cart|
    ensures cart == cart[..k] + [cart[k]] + cart[k + 1..]
  {
  }

  /** Setting one entry's quantity moves the count by the difference. */
  lemma CartItemCountSetQuantity(cart: seq<CartItem>, k: nat, quantity: int)
    requires k < |cart|
    ensures CartItemCount(cart[k := cart[k].(quantity := quantity)]) ==
      CartItemCount(cart) - cart[k].quantity + quantity
  {
    var updated := cart[k := cart[k].(quantity := quantity)];
    SplitAt(cart, k);
    SplitAt(updated, k);
    assert updated[..k] == cart[..k] && updated[k + 1..] == cart[k + 1..];
    CartItemCountConcat(cart[..k] + [cart[k]], cart[k + 1..]);
    CartItemCountConcat(cart[..k], [cart[k]]);
    CartItemCountConcat(updated[..k] + [updated[k]], updated[k + 1..]);
    CartItemCountConcat(updated[..k], [updated[k]]);
  }

  /** The total of a single entry is its price times its quantity. */
  lemma CartTotalSingle(entry: CartItem)
    ensures CartTotal([entry]) == entry.menuItem.price * entry.quantity
  {
    assert [entry][..0] == [];
  }

  /** Setting one entry's quantity replaces its price times quantity in the
      total. */
  lemma CartTotalSetQuantity(cart: seq<CartItem>, k: nat, quantity: int)
    requires k < |cart|
    ensures CartTotal(cart[k := cart[k].(quantity := quantity)]) ==
      CartTotal(cart) - cart[k].menuItem.price * cart[k].quantity + cart[k].menuItem.price * quantity
  {
    var updated := cart[k := cart[k].(quantity := quantity)];
    SplitAt(cart, k);
    SplitAt(updated, k);
    assert updated[..k] == cart[..k] && updated[k + 1..] == cart[k + 1..];
    CartTotalConcat(cart[..k] + [cart[k]], cart[k + 1..]);
    CartTotalConcat(cart[..k], [cart[k]]);
    CartTotalConcat(updated[..k] + [updated[k]], updated[k + 1..]);
    CartTotalConcat(updated[..k], [updated[k]]);
    CartTotalSingle(cart[k]);
    CartTotalSingle(updated[k]);
  }

  /** Deleting the entry at k lowers the count by its quantity and the total by
      its price times its quantity. */
  lemma CartSumsDeleteAt(cart: seq<CartItem>, k: nat)
    requires k < |cart|
    ensures CartItemCount(cart[..k] + cart[k + 1..]) == CartItemCount(cart) - cart[k].quantity
    ensures CartTotal(cart[..k] + cart[k + 1..]) ==
      CartTotal(cart) - cart[k].menuItem.price * cart[k].quantity
  {
    SplitAt(cart, k);
    CartItemCountConcat(cart[..k] + [cart[k]], cart[k + 1..]);
    CartItemCountConcat(cart[..k], [cart[k]]);
    CartItemCountConcat(cart[..k], cart[k + 1..]);
    CartTotalConcat(cart[..k] + [cart[k]], cart[k + 1..]);
    CartTotalConcat(cart[..k], [cart[k]]);
    CartTotalConcat(cart[..k], cart[k + 1..]);
  }

  /** Appending an entry of positive quantity keeps every quantity positive. */
  lemma AppendKeepsPositive(cart: seq<CartItem>, entry: CartItem)
    requires AllPositive(cart) && entry.quantity >= 1
    ensures AllPositive(cart + [entry])
  {
    var added := cart + [entry];
    forall i | 0 <= i < |added|
      ensures added[i].quantity >= 1
    {
      if i < |cart| {
        assert added[i] == cart[i];
      }
    }
  }

  /** Adding an entry with a new id keeps the cart well formed. */
  lemma AppendKeepsWellFormed(cart: seq<CartItem>, entry: CartItem)
    requires WellFormed(cart) && entry.quantity >= 1
    requires !HasKey(cart, ItemIdOf, ItemIdOf(entry))
    ensures WellFormed(cart + [entry])
  {
    var added := cart + [entry];
    AppendKeepsPositive(cart, entry);
    forall i, j | 0 <= i < j < |added|
      ensures ItemIdOf(added[i]) != ItemIdOf(added[j])
    {
      if j == |cart| {
        assert added[i] == cart[i];
      } else {
        assert added[i] == cart[i] && added[j] == cart[j];
      }
    }
  }

  /** Setting a positive quantity keeps every quantity positive. */
  lemma SetQuantityKeepsPositive(cart: seq<CartItem>, k: nat, quantity: int)
    requires AllPositive(cart) && k < |cart| && quantity >= 1
    ensures AllPositive(cart[k := cart[k].(quantity := quantity)])
  {
  }

  /** Changing only a quantity, to a positive one, keeps the cart well formed. */
  lemma SetQuantityKeepsWellFormed(cart: seq<CartItem>, k: nat, quantity: int)
    requires WellFormed(cart) && k < |cart| && quantity >= 1
    ensures WellFormed(cart[k := cart[k].(quantity := quantity)])
  {
    var updated := cart[k := cart[k].(quantity := quantity)];
    SetQuantityKeepsPositive(cart, k, quantity);
    assert forall i :: 0 <= i < |cart| ==> ItemIdOf(updated[i]) == ItemIdOf(cart[i]);
  }

  /** Removing an id keeps every quantity positive, whether or not ids are
      unique. */
  lemma RemoveKeepsPositive(cart: seq<CartItem>, itemId: int)
    requires AllPositive(cart)
    ensures AllPositive(Without(cart, ItemIdOf, itemId))
  {
    var kept := Without(cart, ItemIdOf, itemId);
    WithoutMembers(cart, ItemIdOf, itemId);
    forall i | 0 <= i < |kept|
      ensures kept[i].quantity >= 1
    {
      var j :| 0 <= j < |cart| && cart[j] == kept[i];
    }
  }

  /** Removing an id keeps the cart well formed. */
  lemma RemoveKeepsWellFormed(cart: seq<CartItem>, itemId: int)
    requires WellFormed(cart)
    ensures WellFormed(Without(cart, ItemIdOf, itemId))
  {
    WithoutDistinctBy(cart, ItemIdOf, itemId);
    RemoveKeepsPositive(cart, itemId);
  }

  /** Bumping the quantity of entry k by one raises the count by one and the
      total by that entry's price, keeps its id in the cart and keeps the cart
      well formed. */
  lemma IncrementAt(cart: seq<CartItem>, k: nat)
    requires k < |cart|
    ensures var bumped := cart[k := cart[k].(quantity := cart[k].quantity + 1)];
      && CartItemCount(bumped) == CartItemCount(cart) + 1
      && CartTotal(bumped) == CartTotal(cart) + cart[k].menuItem.price
      && HasKey(bumped, ItemIdOf, ItemIdOf(cart[k]))
      && (AllPositive(cart) ==> AllPositive(bumped))
      && (WellFormed(cart) ==> WellFormed(bumped))
  {
    var q := cart[k].quantity + 1;
    var bumped := cart[k := cart[k].(quantity := q)];
    CartItemCountSetQuantity(cart, k, q);
    CartTotalSetQuantity(cart, k, q);
    var p := cart[k].menuItem.price;
    assert p * q == p * cart[k].quantity + p;
    if AllPositive(cart) {
      SetQuantityKeepsPositive(cart, k, q);
    }
    if WellFormed(cart) {
      SetQuantityKeepsWellFormed(cart, k, q);
    }
    assert ItemIdOf(bumped[k]) == ItemIdOf(cart[k]);
  }

  /** Appending a new entry of quantity one raises the count by one and the
      total by the item's price, puts its id in the cart and, when the id was
      absent, keeps the cart well formed. */
  lemma AppendNew(cart: seq<CartItem>, item: MenuItem)
    ensures var added := cart + [CartItem(item, 1)];
      && CartItemCount(added) == CartItemCount(cart) + 1
      && CartTotal(added) == CartTotal(cart) + item.price
      && HasKey(added, ItemIdOf, item.id)
      && (AllPositive(cart) ==> AllPositive(added))
      && (WellFormed(cart) && !HasKey(cart, ItemIdOf, item.id) ==> WellFormed(added))
  {
    var entry := CartItem(item, 1);
    CartItemCountConcat(cart, [entry]);
    CartTotalConcat(cart, [entry]);
    CartTotalSingle(entry);
    assert CartItemCount([entry]) == 1 by {
      assert [entry][..0] == [];
    }
    HasKeyAppend(cart, entry, ItemIdOf, item.id);
    if AllPositive(cart) {
      AppendKeepsPositive(cart, entry);
    }
    if WellFormed(cart) && !HasKey(cart, ItemIdOf, item.id) {
      AppendKeepsWellFormed(cart, entry);
    }
  }

  /** The cart part of the service. */
  class MenuService {
    /** The current cart every consumer observes. */
    var cartItems: seq<CartItem>

    /** Starts from the cart restored from storage. */
    constructor (savedCart: seq<CartItem>)
      ensures cartItems == savedCart
    {
      cartItems := savedCart;
    }

    /** `addToCart`: bumps the quantity of the entry with the item's id, or
        appends a new entry of quantity one. */
    method AddToCart(item: MenuItem)
      modifies this
      ensures match IndexOfKey(old(cartItems), ItemIdOf, item.id)
        case Some(k) =>
          cartItems == old(cartItems)[k := old(cartItems)[k].(quantity := old(cartItems)[k].quantity + 1)] &&
          CartTotal(cartItems) == old(CartTotal(cartItems)) + old(cartItems)[k].menuItem.price
        case None =>
          cartItems == old(cartItems) + [CartItem(item, 1)] &&
          CartTotal(cartItems) == old(CartTotal(cartItems)) + item.price
      ensures CartItemCount(cartItems) == old(CartItemCount(cartItems)) + 1
      ensures HasKey(cartItems, ItemIdOf, item.id)
      ensures old(AllPositive(cartItems)) ==> AllPositive(cartItems)
      ensures old(WellFormed(cartItems)) ==> WellFormed(cartItems)
    {
      var currentCart := cartItems;
      var existingItem := IndexOfKey(currentCart, ItemIdOf, item.id);
      if existingItem.Some? {
        var k := existingItem.value;
        IncrementAt(currentCart, k);
        currentCart := currentCart[k := currentCart[k].(quantity := currentCart[k].quantity + 1)];
      } else {
        AppendNew(currentCart, item);
        currentCart := currentCart + [CartItem(item, 1)];
      }
      cartItems := currentCart;
    }

    /** `removeFromCart`: drops every entry with the id, keeping the others in
        order. */
    method RemoveFromCart(itemId: int)
      modifies this
      ensures cartItems == Without(old(cartItems), ItemIdOf, itemId)
      ensures !HasKey(cartItems, ItemIdOf, itemId)
      ensures !old(HasKey(cartItems, ItemIdOf, itemId)) ==> cartItems == old(cartItems)
      ensures old(UniqueIds(cartItems)) && old(IndexOfKey(cartItems, ItemIdOf, itemId)).Some? ==>
        var k := old(IndexOfKey(cartItems, ItemIdOf, itemId)).value;
        && cartItems == old(cartItems)[..k] + old(cartItems)[k + 1..]
        && CartItemCount(cartItems) == old(CartItemCount(cartItems)) - old(cartItems)[k].quantity
        && CartTotal(cartItems) ==
             old(CartTotal(cartItems)) - old(cartItems)[k].menuItem.price * old(cartItems)[k].quantity
      ensures old(AllPositive(cartItems)) ==> AllPositive(cartItems)
      ensures old(WellFormed(cartItems)) ==> WellFormed(cartItems)
    {
      var before := cartItems;
      HasKeyWithout(before, ItemIdOf, itemId, itemId);
      if !HasKey(before, ItemIdOf, itemId) {
        WithoutAbsent(before, ItemIdOf, itemId);
      }
      var existing := IndexOfKey(before, ItemIdOf, itemId);
      if UniqueIds(before) && existing.Some? {
        WithoutDistinctAt(before, ItemIdOf, existing.value);
        CartSumsDeleteAt(before, existing.value);
      }
      if AllPositive(before) {
        RemoveKeepsPositive(before, itemId);
      }
      if WellFormed(before) {
        RemoveKeepsWellFormed(before, itemId);
      }
      cartItems := Without(before, ItemIdOf, itemId);
    }

    /** `updateQuantity`: no entry with the id, nothing happens; a quantity of
        zero or less removes the entry; otherwise only that entry's quantity
        changes. */
    method UpdateQuantity(itemId: int, quantity: int)
      modifies this
      ensures match old(IndexOfKey(cartItems, ItemIdOf, itemId))
        case None => cartItems == old(cartItems)
        case Some(k) =>
          if quantity <= 0 then cartItems == Without(old(cartItems), ItemIdOf, itemId)
          else
            && cartItems == old(cartItems)[k := old(cartItems)[k].(quantity := quantity)]
            && CartItemCount(cartItems) == old(CartItemCount(cartItems)) - old(cartItems)[k].quantity + quantity
      ensures old(AllPositive(cartItems)) ==> AllPositive(cartItems)
      ensures old(WellFormed(cartItems)) ==> WellFormed(cartItems)
    {
      var currentCart := cartItems;
      var item := IndexOfKey(currentCart, ItemIdOf, itemId);
      if item.Some? {
        var k := item.value;
        if quantity <= 0 {
          RemoveFromCart(itemId);
        } else {
          CartItemCountSetQuantity(currentCart, k, quantity);
          if AllPositive(currentCart) {
            SetQuantityKeepsPositive(currentCart, k, quantity);
          }
          if WellFormed(currentCart) {
            SetQuantityKeepsWellFormed(currentCart, k, quantity);
          }
          cartItems := currentCart[k := currentCart[k].(quantity := quantity)];
        }
      }
    }

    /** `clearCart`: empties the cart. */
    method ClearCart()
      modifies this
      ensures cartItems == []
      ensures CartItemCount(cartItems) == 0 && CartTotal(cartItems) == 0
    {
      cartItems := [];
    }
  }
}

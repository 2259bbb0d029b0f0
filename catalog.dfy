/**
 * The query module of the shop: products and orders held in memory, seven
 * read-only queries over them and one operation that discounts toys in
 * place. Orders refer to products by their position in the shared product
 * table, so a price changed in the table is the price every order sees.
 */
module Catalog {
  import opened Wrappers
  import opened Streams
  import opened Sorting
  import opened Collectors

  /** A product of the catalog; only its price ever changes. */
  datatype Product = Product(id: int, name: string, category: string, price: real)

  /**
   * An order: its id, its date (a day number; later days are larger) and
   * the positions in the product table of the products it holds.
   */
  datatype Order = Order(id: int, orderDate: int, products: seq<nat>)

  // The getters the stream pipelines pass as method references.
  function ProductId(p: Product): int { p.id }
  function Category(p: Product): string { p.category }
  function Price(p: Product): real { p.price }
  function OrderId(o: Order): int { o.id }
  function OrderDate(o: Order): int { o.orderDate }
  function ProductCount(o: Order): int { |o.products| }

  predicate IsBook(p: Product) { p.category == "Books" }
  predicate IsToy(p: Product) { p.category == "Toys" }
  predicate PriceAbove100(p: Product) { p.price > 100.0 }
  predicate IsPricedBook(p: Product) { IsBook(p) && PriceAbove100(p) }

  /** Every order refers only to products that exist in the table. */
  ghost predicate RefsValid(products: seq<Product>, orders: seq<Order>) {
    forall o, k :: o in orders && 0 <= k < |o.products| ==> o.products[k] < |products|
  }

  // ---------------------------------------------------------------------------
  // Books costing more than 100

  /** `getBooksWithPrice`: the books priced above 100, in catalog order. */
  function BooksWithPrice(products: seq<Product>): (r: seq<Product>)
    ensures SelectedBy(r, products, IsPricedBook)
    ensures forall x :: x in r <==> x in products && x.category == "Books" && x.price > 100.0
  {
    FilterFilter(products, IsBook, PriceAbove100, IsPricedBook);
    FilterSelects(products, IsPricedBook);
    FilterMembers(products, IsPricedBook);
    Filter(Filter(products, IsBook), PriceAbove100)
  }

  // ---------------------------------------------------------------------------
  // Orders holding a baby product

  /** The product at table position `j` exists and has category `c`. */
  function RefersTo(products: seq<Product>, c: string): nat -> bool {
    (j: nat) => j < |products| && products[j].category == c
  }

  /** The order holds at least one product of category `c`. */
  function HoldsCategory(products: seq<Product>, c: string): Order -> bool {
    (o: Order) => AnyMatch(o.products, RefersTo(products, c))
  }

  /** `getOrdersWithBabyProducts`: the orders holding a "Baby" product, in order. */
  function OrdersWithBabyProducts(products: seq<Product>, orders: seq<Order>): (r: seq<Order>)
    ensures SelectedBy(r, orders, HoldsCategory(products, "Baby"))
    ensures forall o :: o in r <==>
      (o in orders &&
       exists k :: 0 <= k < |o.products| && o.products[k] < |products| && products[o.products[k]].category == "Baby")
  {
    FilterSelects(orders, HoldsCategory(products, "Baby"));
    FilterMembers(orders, HoldsCategory(products, "Baby"));
    Filter(orders, HoldsCategory(products, "Baby"))
  }

  // ---------------------------------------------------------------------------
  // Half price for toys

  /** The price update `setPrice(getPrice() * 0.5)`, applied to toys only. */
  function Discount(p: Product): (r: Product)
    ensures r.id == p.id && r.name == p.name && r.category == p.category
    ensures IsToy(p) ==> r.price * 2.0 == p.price
    ensures !IsToy(p) ==> r == p
  {
    if IsToy(p) then p.(price := p.price * 0.5) else p
  }

  /** The product table after the discount: toys at half price, all else as it was. */
  function Discounted(products: seq<Product>): (r: seq<Product>)
    ensures |r| == |products|
    ensures forall i :: 0 <= i < |products| ==>
      && r[i].id == products[i].id
      && r[i].name == products[i].name
      && r[i].category == products[i].category
      && (IsToy(products[i]) ==> r[i].price * 2.0 == products[i].price)
      && (!IsToy(products[i]) ==> r[i] == products[i])
  {
    Map(products, Discount)
  }

  /** Discounting twice leaves toys at a quarter of their price. */
  lemma DiscountTwiceQuarters(products: seq<Product>)
    ensures forall i :: 0 <= i < |products| && IsToy(products[i]) ==>
      Discounted(Discounted(products))[i].price * 4.0 == products[i].price
  {
    var once := Discounted(products);
    assert forall i :: 0 <= i < |products| ==> IsToy(once[i]) == IsToy(products[i]);
  }

  /** So the discount is not idempotent as soon as some toy has a non-zero price. */
  lemma DiscountNotIdempotent(products: seq<Product>, i: nat)
    requires i < |products| && IsToy(products[i]) && products[i].price != 0.0
    ensures Discounted(Discounted(products)) != Discounted(products)
  {
    var once := Discounted(products);
    assert IsToy(once[i]);
    assert Discounted(once)[i].price != once[i].price;
  }

  /** The discounted table, taken apart at its first product. */
  lemma DiscountedCons(products: seq<Product>)
    requires products != []
    ensures Discounted(products) == [Discount(products[0])] + Discounted(products[1..])
  {
    var d, rest := Discounted(products), Discounted(products[1..]);
    assert forall i :: 0 <= i < |rest| ==> rest[i] == Discount(products[i + 1]);
    assert d == [d[0]] + rest;
  }

  /** The toys of the discounted table are the discounted toys of the old one. */
  lemma {:induction false} DiscountedToys(products: seq<Product>)
    ensures Filter(Discounted(products), IsToy) == Discounted(Filter(products, IsToy))
  {
    if products != [] {
      var head, rest := products[0], products[1..];
      DiscountedCons(products);
      DiscountedToys(rest);
      FilterCons(Discount(head), Discounted(rest), IsToy);
      assert products == [head] + rest;
      FilterCons(head, rest, IsToy);
      if IsToy(head) {
        DiscountedCons([head] + Filter(rest, IsToy));
        assert ([head] + Filter(rest, IsToy))[1..] == Filter(rest, IsToy);
      }
    }
  }

  /** The discount changes neither which products are books nor any book. */
  lemma {:induction false} DiscountedBooks(products: seq<Product>)
    ensures Filter(Discounted(products), IsBook) == Filter(products, IsBook)
  {
    if products != [] {
      var head, rest := products[0], products[1..];
      DiscountedCons(products);
      DiscountedBooks(rest);
      FilterCons(Discount(head), Discounted(rest), IsBook);
      assert products == [head] + rest;
      FilterCons(head, rest, IsBook);
    }
  }

  // ---------------------------------------------------------------------------
  // The cheapest book

  /**
   * `getCheapestBook`: absent exactly when there is no book; otherwise a
   * book priced at most every book, and the first such book in catalog
   * order.
   */
  function CheapestBook(products: seq<Product>): (r: Option<Product>)
    ensures r.None? <==> forall i :: 0 <= i < |products| ==> !IsBook(products[i])
    ensures r.Some? ==> exists i :: IsFirstMinimumWhere(products, IsBook, Price, i) && r.value == products[i]
  {
    MinOfFilter(products, IsBook, Price);
    Min(Filter(products, IsBook), Price)
  }

  // ---------------------------------------------------------------------------
  // The three most recent orders

  /**
   * `getRecentOrders`: at most three orders of the input (with their
   * multiplicity), latest date first.
   */
  function RecentOrders(orders: seq<Order>): (r: seq<Order>)
    ensures |r| == if |orders| < 3 then |orders| else 3
    ensures multiset(r) <= multiset(orders)
    ensures Descending(r, OrderDate)
  {
    var sorted := SortDescending(orders, OrderDate);
    var r := Limit(sorted, 3);
    assert sorted == r + sorted[|r|..];
    r
  }

  /** No order left out of the result is later than any order in it. */
  lemma RecentOrdersOmitNoLater(orders: seq<Order>)
    ensures forall o :: o in multiset(orders) - multiset(RecentOrders(orders)) ==>
      forall k :: 0 <= k < |RecentOrders(orders)| ==> o.orderDate <= RecentOrders(orders)[k].orderDate
  {
    LimitOmitsNoLarger(orders, OrderDate, 3);
  }

  /**
   * Equal dates keep their input order: for every date, the returned orders
   * of that date are the first orders of that date in the input, in order.
   */
  lemma RecentOrdersStable(orders: seq<Order>, d: int)
    ensures Filter(RecentOrders(orders), Matches(OrderDate, d)) <= Filter(orders, Matches(OrderDate, d))
  {
    var sorted := SortDescending(orders, OrderDate);
    var r := RecentOrders(orders);
    assert sorted == r + sorted[|r|..];
    FilterAppend(r, sorted[|r|..], Matches(OrderDate, d));
    SortStable(orders, OrderDate, d);
  }

  // ---------------------------------------------------------------------------
  // Price statistics of the books

  /** The total price of the books, summed in catalog order. */
  function BooksTotal(products: seq<Product>): real {
    if products == [] then 0.0
    else (if IsBook(products[0]) then products[0].price else 0.0) + BooksTotal(products[1..])
  }

  /** `getBooksStats`: the summary statistics of the book prices. */
  function BooksStats(products: seq<Product>): (st: Statistics)
    ensures st.count == |Filter(products, IsBook)|
  {
    SummaryStatistics(Map(Filter(products, IsBook), Price))
  }

  lemma {:induction false} BookPricesSum(products: seq<Product>)
    ensures Sum(Map(Filter(products, IsBook), Price)) == BooksTotal(products)
  {
    if products != [] {
      var head, rest := products[0], products[1..];
      assert products == [head] + rest;
      BookPricesSum(rest);
      FilterCons(head, rest, IsBook);
      var h := if IsBook(head) then [head] else [];
      var f := Filter(rest, IsBook);
      assert Map(h + f, Price) == Map(h, Price) + Map(f, Price) by {
        MapAppend(h, f, Price);
      }
      SumAppend(Map(h, Price), Map(f, Price));
    }
  }

  /** Mapping distributes over concatenation. */
  lemma MapAppend<T, U>(a: seq<T>, b: seq<T>, f: T -> U)
    ensures Map(a + b, f) == Map(a, f) + Map(b, f)
  {
    assert |Map(a + b, f)| == |Map(a, f) + Map(b, f)|;
    forall i | 0 <= i < |a| + |b| ensures Map(a + b, f)[i] == (Map(a, f) + Map(b, f))[i] {
      if i >= |a| {
        assert (a + b)[i] == b[i - |a|];
      }
    }
  }

  /**
   * The count is the number of books and the sum their total price; with no
   * book the sum is 0 and there is no minimum or maximum.
   */
  lemma BooksStatsTotals(products: seq<Product>)
    ensures BooksStats(products).count == |Positions(products, IsBook)|
    ensures BooksStats(products).sum == BooksTotal(products)
    ensures BooksStats(products).count == 0 ==>
      BooksStats(products).sum == 0.0 && BooksStats(products).min.None? && BooksStats(products).max.None?
  {
    FilterSelects(products, IsBook);
    BookPricesSum(products);
  }

  /** With at least one book, the minimum and maximum bound every book's price. */
  lemma BooksStatsBounds(products: seq<Product>)
    ensures BooksStats(products).count > 0 ==>
      && BooksStats(products).min.Some? && BooksStats(products).max.Some?
      && forall i :: 0 <= i < |products| && IsBook(products[i]) ==>
           BooksStats(products).min.value <= products[i].price <= BooksStats(products).max.value
  {
    var books := Filter(products, IsBook);
    var prices := Map(books, Price);
    var st := BooksStats(products);
    FilterMembers(products, IsBook);
    forall i | 0 <= i < |products| && IsBook(products[i])
      ensures st.min.value <= products[i].price <= st.max.value
    {
      assert products[i] in books;
      var l :| 0 <= l < |books| && books[l] == products[i];
      assert prices[l] == products[i].price;
    }
  }

  /** With at least one book, the minimum and the maximum are prices of books. */
  lemma BooksStatsAttained(products: seq<Product>)
    ensures BooksStats(products).count > 0 ==>
      && (exists i :: 0 <= i < |products| && IsBook(products[i]) && products[i].price == BooksStats(products).min.value)
      && (exists i :: 0 <= i < |products| && IsBook(products[i]) && products[i].price == BooksStats(products).max.value)
  {
    var books := Filter(products, IsBook);
    var prices := Map(books, Price);
    var st := BooksStats(products);
    if st.count > 0 {
      FilterMembers(products, IsBook);
      var lo :| 0 <= lo < |prices| && prices[lo] == st.min.value;
      var hi :| 0 <= hi < |prices| && prices[hi] == st.max.value;
      assert books[lo] in books && books[hi] in books;
      var a :| 0 <= a < |products| && products[a] == books[lo];
      var b :| 0 <= b < |products| && products[b] == books[hi];
      assert IsBook(products[a]) && products[a].price == st.min.value;
      assert IsBook(products[b]) && products[b].price == st.max.value;
    }
  }

  // ---------------------------------------------------------------------------
  // Product count per order

  /**
   * `getOrdersProductsMap`: order id to number of products. It succeeds
   * exactly when no two orders share an id, and then has the order ids as
   * its keys; otherwise it fails with an id that two orders share.
   */
  function OrdersProductsMap(orders: seq<Order>): (r: Result<map<int, int>, MapError<int>>)
    ensures r.Success? <==> forall i, j :: 0 <= i < j < |orders| ==> orders[i].id != orders[j].id
    ensures r.Success? ==> r.value.Keys == set i | 0 <= i < |orders| :: orders[i].id
    ensures r.Success? ==> forall i :: 0 <= i < |orders| ==> r.value[orders[i].id] == |orders[i].products|
    ensures r.Failure? ==>
      exists i, j :: 0 <= i < j < |orders| && orders[i].id == r.error.key && orders[j].id == r.error.key
  {
    ToMapFailure(orders, OrderId, ProductCount);
    ToMap(orders, OrderId, ProductCount)
  }

  // ---------------------------------------------------------------------------
  // Product ids per category

  /** `getProductsByCategory`: category to the ids of its products. */
  function ProductsByCategory(products: seq<Product>): (m: map<string, seq<int>>)
    ensures m.Keys == set i | 0 <= i < |products| :: products[i].category
    ensures forall c :: c in m ==> m[c] != []
  {
    GroupingBy(products, Category, ProductId)
  }

  /** Each category's list is the ids of that category's products, in catalog order. */
  lemma ProductsByCategoryGroups(products: seq<Product>)
    ensures forall c :: c in ProductsByCategory(products) ==>
      ProductsByCategory(products)[c] == Map(Filter(products, Matches(Category, c)), ProductId)
  {
    forall c | c in ProductsByCategory(products)
      ensures ProductsByCategory(products)[c] == Map(Filter(products, Matches(Category, c)), ProductId)
    {
      GroupingByGroups(products, Category, ProductId, c);
    }
  }

  /** Every product's id is in the list of its own category. */
  lemma ProductsByCategoryComplete(products: seq<Product>)
    ensures forall i :: 0 <= i < |products| ==>
      products[i].category in ProductsByCategory(products) &&
      products[i].id in ProductsByCategory(products)[products[i].category]
  {
    forall i | 0 <= i < |products|
      ensures products[i].category in ProductsByCategory(products)
      ensures products[i].id in ProductsByCategory(products)[products[i].category]
    {
      ProductInOwnGroup(products, i);
    }
  }

  lemma ProductInOwnGroup(products: seq<Product>, i: nat)
    requires i < |products|
    ensures products[i].category in ProductsByCategory(products)
    ensures products[i].id in ProductsByCategory(products)[products[i].category]
  {
    var c := products[i].category;
    var p := Matches(Category, c);
    GroupingByGroups(products, Category, ProductId, c);
    var f := Filter(products, p);
    FilterMembers(products, p);
    assert p(products[i]);
    assert products[i] in f;
    var l :| 0 <= l < |f| && f[l] == products[i];
    assert Map(f, ProductId)[l] == products[i].id;
  }

  /** Every id in a category's list is the id of a product of that category. */
  lemma ProductsByCategorySound(products: seq<Product>)
    ensures forall c, v :: c in ProductsByCategory(products) && v in ProductsByCategory(products)[c] ==>
      exists i :: 0 <= i < |products| && products[i].id == v && products[i].category == c
  {
    forall c, v | c in ProductsByCategory(products) && v in ProductsByCategory(products)[c]
      ensures exists i :: 0 <= i < |products| && products[i].id == v && products[i].category == c
    {
      GroupMemberIsProduct(products, c, v);
    }
  }

  lemma GroupMemberIsProduct(products: seq<Product>, c: string, v: int)
    requires c in ProductsByCategory(products) && v in ProductsByCategory(products)[c]
    ensures exists i :: 0 <= i < |products| && products[i].id == v && products[i].category == c
  {
    var p := Matches(Category, c);
    GroupingByGroups(products, Category, ProductId, c);
    var f := Filter(products, p);
    var ids := Map(f, ProductId);
    assert v in ids;
    var l :| 0 <= l < |ids| && ids[l] == v;
    FilterMembers(products, p);
    assert f[l] in f;
    var i :| 0 <= i < |products| && products[i] == f[l];
    assert p(products[i]);
  }

  // ---------------------------------------------------------------------------
  // What the discount leaves alone

  /**
   * Only toy prices change, so every query other than the discount gives
   * the same answer on the discounted table; the two order-only queries do
   * not read the products at all.
   */
  lemma DiscountKeepsOtherQueries(products: seq<Product>, orders: seq<Order>)
    ensures BooksWithPrice(Discounted(products)) == BooksWithPrice(products)
    ensures CheapestBook(Discounted(products)) == CheapestBook(products)
    ensures BooksStats(Discounted(products)) == BooksStats(products)
    ensures OrdersWithBabyProducts(Discounted(products), orders) == OrdersWithBabyProducts(products, orders)
    ensures ProductsByCategory(Discounted(products)) == ProductsByCategory(products)
  {
    var d := Discounted(products);
    DiscountedBooks(products);
    forall i | 0 <= i < |orders|
      ensures HoldsCategory(d, "Baby")(orders[i]) == HoldsCategory(products, "Baby")(orders[i])
    {
      var refs := orders[i].products;
      assert forall k :: 0 <= k < |refs| ==> RefersTo(d, "Baby")(refs[k]) == RefersTo(products, "Baby")(refs[k]);
    }
    FilterCongruent(orders, HoldsCategory(d, "Baby"), HoldsCategory(products, "Baby"));
    GroupingByCongruent(d, products, Category, ProductId);
  }

  /**
   * What the discount loop leaves behind: a table, each of whose products is
   * the discounted old product, and the increasing list of every old toy's
   * position. That table is the discounted table, and the list is the toy
   * positions of both tables.
   */
  lemma DiscountedPositions(orig: seq<Product>, now: seq<Product>, toys: seq<nat>)
    requires |now| == |orig|
    requires forall k :: 0 <= k < |orig| ==> now[k] == Discount(orig[k])
    requires forall k :: 0 <= k < |toys| ==> toys[k] < |orig| && IsToy(orig[toys[k]])
    requires forall k, l :: 0 <= k < l < |toys| ==> toys[k] < toys[l]
    requires forall j :: 0 <= j < |orig| && IsToy(orig[j]) ==> j in toys
    ensures now == Discounted(orig)
    ensures toys == Positions(orig, IsToy) && toys == Positions(now, IsToy)
  {
    PositionsUnique(orig, IsToy, toys);
    assert forall k :: 0 <= k < |now| ==> IsToy(now[k]) == IsToy(orig[k]);
    PositionsUnique(now, IsToy, toys);
    var d := Discounted(orig);
    assert forall k :: 0 <= k < |now| ==> d[k] == now[k];
  }

  // ---------------------------------------------------------------------------
  // The query object over the shared data

  /**
   * `HardTasks`: the product table and the order list it queries. The
   * table is an array because products are updated where they are: an
   * order refers to a position of the table, so it sees the new price.
   */
  class HardTasks {
    const products: array<Product>
    const orders: seq<Order>

    /**
     * Every order refers to a product of the table. It reads only the two
     * constant fields and the table's length, so no method can change it.
     */
    ghost predicate Valid() {
      forall o, k :: o in orders && 0 <= k < |o.products| ==> o.products[k] < products.Length
    }

    constructor (products: seq<Product>, orders: seq<Order>)
      ensures this.products[..] == products && this.orders == orders
      ensures fresh(this.products)
      ensures Valid() <==> RefsValid(products, orders)
    {
      this.products := new Product[|products|](i requires 0 <= i < |products| => products[i]);
      this.orders := orders;
    }

    /**
     * `applyDiscountToToys`: halves the price of every toy in the table and
     * leaves every other product as it was. The Java list it returns holds
     * the very toy objects of the table; here it is their table positions,
     * in table order, so a later change to the table is seen through it
     * just as every order sees the new prices.
     */
    method ApplyDiscountToToys() returns (toys: seq<nat>)
      modifies products
      ensures products[..] == Discounted(old(products[..]))
      ensures toys == Positions(old(products[..]), IsToy)
      ensures toys == Positions(products[..], IsToy)
      ensures Valid() ==> forall o, k :: o in orders && 0 <= k < |o.products| ==>
        products[o.products[k]] == Discount(old(products[o.products[k]]))
    {
      ghost var orig := products[..];
      toys := [];
      for i := 0 to products.Length
        invariant forall k :: 0 <= k < i ==> products[k] == Discount(orig[k])
        invariant forall k :: i <= k < products.Length ==> products[k] == orig[k]
        invariant forall k :: 0 <= k < |toys| ==> toys[k] < i && IsToy(orig[toys[k]])
        invariant forall k, l :: 0 <= k < l < |toys| ==> toys[k] < toys[l]
        invariant forall j :: 0 <= j < i && IsToy(orig[j]) ==> j in toys
      {
        if IsToy(products[i]) {
          products[i] := products[i].(price := products[i].price * 0.5);
          toys := toys + [i];
        }
      }
      DiscountedPositions(orig, products[..], toys);
    }
  }

  // The example catalog: two books, one of them above 100, and a toy.
  const Book150 := Product(1, "A", "Books", 150.0)
  const Book50 := Product(2, "B", "Books", 50.0)
  const Toy20 := Product(3, "C", "Toys", 20.0)

  lemma SampleBooksWithPrice()
    ensures BooksWithPrice([Book150, Book50, Toy20]) == [Book150]
  {
    FilterCons(Toy20, [], IsBook);
    FilterCons(Book50, [Toy20], IsBook);
    FilterCons(Book150, [Book50, Toy20], IsBook);
    assert [Book50] + [Toy20] == [Book50, Toy20];
    assert [Book150] + [Book50, Toy20] == [Book150, Book50, Toy20];
    FilterCons(Book50, [], PriceAbove100);
    FilterCons(Book150, [Book50], PriceAbove100);
    assert [Book150] + [Book50] == [Book150, Book50];
  }

  lemma SampleCheapestBook()
    ensures CheapestBook([Book150, Book50, Toy20]) == Some(Book50)
  {
    var s := [Book150, Book50, Toy20];
    var cb := CheapestBook(s);
    var i :| IsFirstMinimumWhere(s, IsBook, Price, i) && cb.value == s[i];
    assert IsBook(s[1]) && Price(s[i]) <= Price(s[1]);
    assert i == 1;
  }

  lemma SampleDiscount()
    ensures Filter(Discounted([Book150, Book50, Toy20]), IsToy) == [Toy20.(price := 10.0)]
  {
    var d := Discounted([Book150, Book50, Toy20]);
    var t := Toy20.(price := 10.0);
    assert d == [Book150, Book50, t];
    FilterCons(t, [], IsToy);
    FilterCons(Book50, [t], IsToy);
    FilterCons(Book150, [Book50, t], IsToy);
    assert [Book50] + [t] == [Book50, t];
    assert [Book150] + [Book50, t] == [Book150, Book50, t];
  }
}

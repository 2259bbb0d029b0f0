# HardTasks: the catalog queries, modelled and proved in Dafny

The program is an exercise in Java streams over a small in-memory shop. A
list of products (id, name, category, price) and a list of orders (id,
date, the products they hold) are queried by eight operations of the class
`HardTasks`:

- the books costing more than 100;
- the orders that hold a product of category "Baby";
- a 50% discount on every toy, applied in place;
- the cheapest book;
- the three most recent orders;
- summary statistics (count, sum, min, max, average) of the book prices;
- a map from order id to the number of products in the order;
- a map from category to the ids of its products.

The model keeps the shape of the stream pipelines. Generic modules give the
stream stages and collectors the code uses, as recursive functions over a
sequence. Some recurse on the first element and the rest, others on all but
the last element and the last. Every result keeps the stream's encounter
order:

- `Streams`: `filter`, `map`, `limit`, `anyMatch` and `min`;
- `Sorting`: a stable `sorted` by a key, largest first;
- `Collectors`: `toMap`, `groupingBy` with a `mapping(..., toList())`
  downstream, and `summaryStatistics`.

Module `Catalog` builds the eight operations from them:

- Products and orders are datatypes.
- Prices are exact `real`s and dates are day numbers (`int`).
- An order refers to its products by their position in the shared product
  table. Class `HardTasks` holds that table as an array. Its method
  `ApplyDiscountToToys` halves the toys' prices in a loop, so every order
  sees the new price, as the shared `Product` objects in the Java code do.
  The toys it returns are their table positions, so whoever keeps them
  also sees any later change to those products.
- The other seven operations are functions of the table's contents and of
  the order list.

How the source's behaviour is captured:

- `Stream.min` keeps the left operand when two prices are equal, so the
  cheapest book is the FIRST cheapest book in catalog order.
- The sort is stable. This is stated as: for every date, the orders of that
  date appear in the sorted result exactly as in the input.
- `Collectors.toMap` throws on a repeated key. The model returns
  `Failure(DuplicateKey(k))`, where `k` is the key of the first order whose
  id was already seen.
- `DoubleSummaryStatistics` reports infinities as the minimum and maximum
  of no values. The model reports them as absent (`None`). `getAverage()`
  is 0 for no values, as in Java.
- The two map results are Dafny `map`s, because the source gives no
  iteration order for them.

## Model

| member | source | states |
|---|---|---|
| `Catalog.BooksWithPrice` | app/src/main/java/ua/opnu/HardTasks.java:49-55 | the result is exactly the products at the catalog positions of books priced above 100, in catalog order; a product is in it iff it is in the catalog, is a book and costs more than 100 |
| `Streams.Filter` | app/src/main/java/ua/opnu/HardTasks.java:52-53 | the definition of the `filter` stage (also at lines 60, 68, 76 and 91); the result is never longer than the input, and `FilterSelects` and `FilterMembers` state which elements it keeps |
| `Streams.Map` | app/src/main/java/ua/opnu/HardTasks.java:92 | the definition of `map`, used for `mapToDouble` and for the `mapping` collector at line 112: same length, each element the function applied to the input element at the same position |
| `Streams.FilterSelects` | app/src/main/java/ua/opnu/HardTasks.java:52-53 | `filter` keeps exactly the elements at the positions where the predicate holds, in the order of those positions |
| `Streams.FilterMembers` | app/src/main/java/ua/opnu/HardTasks.java:52-53 | an element is in the filtered stream iff it is in the input and satisfies the predicate |
| `Streams.FilterFilter` | app/src/main/java/ua/opnu/HardTasks.java:52-53 | two `filter` stages in a row select by the conjunction of their predicates |
| `Streams.Positions` | app/src/main/java/ua/opnu/HardTasks.java:52-53 | the positions where a predicate holds: all in range, all satisfying it, strictly increasing, and none missing |
| `Catalog.OrdersWithBabyProducts` | app/src/main/java/ua/opnu/HardTasks.java:57-63 | the result is exactly the orders (in input order) holding at least one product of category "Baby"; an order is in it iff it is in the input and one of its products is a "Baby" product |
| `Streams.AnyMatch` | app/src/main/java/ua/opnu/HardTasks.java:60-61 | `anyMatch` is true iff some element satisfies the predicate |
| `Catalog.Discounted` | app/src/main/java/ua/opnu/HardTasks.java:65-71 | after the discount every toy costs half its old price; ids, names and categories do not change; every other product is unchanged |
| `Catalog.HardTasks.ApplyDiscountToToys` | app/src/main/java/ua/opnu/HardTasks.java:65-71 | the table becomes the discounted table; the result is the positions of exactly the toys, in increasing order, both in the old table and in the new one; every product an order refers to now has its discounted value |
| `Catalog.DiscountedPositions` | app/src/main/java/ua/opnu/HardTasks.java:67-70 | the state the discount loop ends in is the discounted table, and the collected positions are the toy positions of the old and the new table |
| `Streams.PositionsUnique` | app/src/main/java/ua/opnu/HardTasks.java:68-70 | any increasing list of positions that covers exactly the positions where a predicate holds is the list of those positions |
| `Catalog.Discount` | app/src/main/java/ua/opnu/HardTasks.java:69 | the definition of the price update: a toy keeps its id, name and category at half its price; any other product is unchanged |
| `Catalog.DiscountedToys` | app/src/main/java/ua/opnu/HardTasks.java:67-70 | the toys returned are the old toys, each at half price, in the same order |
| `Catalog.DiscountTwiceQuarters` | app/src/main/java/ua/opnu/HardTasks.java:69 | discounting twice leaves every toy at a quarter of its price |
| `Catalog.DiscountNotIdempotent` | app/src/main/java/ua/opnu/HardTasks.java:69 | a second discount changes the table whenever some toy has a non-zero price |
| `Catalog.DiscountedBooks` | app/src/main/java/ua/opnu/HardTasks.java:65-71 | the discount changes no book and does not change which products are books |
| `Catalog.DiscountKeepsOtherQueries` | app/src/main/java/ua/opnu/HardTasks.java:49-114 | the books above 100, the cheapest book, the book statistics, the orders with baby products and the category groups are the same before and after the discount |
| `Catalog.HardTasks.constructor` | app/src/main/java/ua/opnu/HardTasks.java:13-15 | the query object holds the given products (in a fresh table) and orders; its invariant holds iff every order refers to existing products |
| `Catalog.CheapestBook` | app/src/main/java/ua/opnu/HardTasks.java:73-78 | absent iff no product is a book; otherwise a book of the catalog priced at most every book, with every earlier book strictly dearer (the first cheapest book) |
| `Streams.Min` | app/src/main/java/ua/opnu/HardTasks.java:77 | `min` is empty iff the stream is, and otherwise returns the element at the first position of least key |
| `Streams.MinIndexFrom` | app/src/main/java/ua/opnu/HardTasks.java:77 | the reduction that keeps the left operand on ties ends at the first position of least key |
| `Streams.MinOfFilter` | app/src/main/java/ua/opnu/HardTasks.java:75-77 | `min` after `filter` is empty iff no element passes the filter; otherwise it is the first element of least key among those that pass, located in the unfiltered input |
| `Catalog.RecentOrders` | app/src/main/java/ua/opnu/HardTasks.java:80-86 | at most three orders, exactly three when there are that many, all of them drawn from the input (with multiplicity), latest date first |
| `Catalog.RecentOrdersOmitNoLater` | app/src/main/java/ua/opnu/HardTasks.java:80-86 | no order left out is later than any order returned |
| `Catalog.RecentOrdersStable` | app/src/main/java/ua/opnu/HardTasks.java:83-84 | for every date, the returned orders of that date are a prefix of that date's orders in input order |
| `Streams.Limit` | app/src/main/java/ua/opnu/HardTasks.java:84 | `limit(n)` is a prefix of the stream of length n, or the whole stream when it is shorter |
| `Sorting.SortDescending` | app/src/main/java/ua/opnu/HardTasks.java:83 | the sort is a permutation of its input with keys never increasing |
| `Sorting.Insert` | app/src/main/java/ua/opnu/HardTasks.java:83 | one insertion step adds exactly the new element (as a multiset) and nothing else |
| `Sorting.InsertDescending` | app/src/main/java/ua/opnu/HardTasks.java:83 | inserting into a sequence with descending keys keeps the keys descending |
| `Sorting.SortStable` | app/src/main/java/ua/opnu/HardTasks.java:83 | stability: for every key value, the elements with that key appear in the sorted result exactly as in the input |
| `Sorting.InsertStable` | app/src/main/java/ua/opnu/HardTasks.java:83 | insertion puts the new element behind all elements of equal key and leaves other keys' runs alone |
| `Sorting.LimitOmitsNoLarger` | app/src/main/java/ua/opnu/HardTasks.java:83-84 | sorting by a key, largest first, then keeping n: every element left out has a key no larger than every element kept |
| `Sorting.PrefixDominates` | app/src/main/java/ua/opnu/HardTasks.java:83-84 | in a descending sequence nothing after the first n elements has a larger key than any of them |
| `Catalog.BooksStats` | app/src/main/java/ua/opnu/HardTasks.java:88-94 | the count of the statistics is the number of books in the catalog |
| `Catalog.BooksStatsTotals` | app/src/main/java/ua/opnu/HardTasks.java:88-94 | the count is the number of book positions and the sum is the books' total price; with no book the sum is 0 and there is no minimum or maximum |
| `Catalog.BooksStatsBounds` | app/src/main/java/ua/opnu/HardTasks.java:88-94 | with at least one book, the minimum is at most and the maximum at least every book's price |
| `Catalog.BooksStatsAttained` | app/src/main/java/ua/opnu/HardTasks.java:88-94 | with at least one book, the minimum and the maximum are each the price of some book |
| `Catalog.BookPricesSum` | app/src/main/java/ua/opnu/HardTasks.java:91-93 | the summed mapped prices of the filtered books are the catalog total of the book prices |
| `Collectors.SummaryStatistics` | app/src/main/java/ua/opnu/HardTasks.java:93 | count is the number of values and sum their sum; min and max are absent iff there are no values, else they are values bounding all the others |
| `Collectors.Statistics.Average` | app/src/main/java/ua/opnu/HardTasks.java:88-94 | the average times the count is the sum, and the average of no values is 0 |
| `Collectors.Statistics.Accept` | app/src/main/java/ua/opnu/HardTasks.java:93 | recording a value adds one to the count and the value to the sum; the new minimum is at most the value and the old minimum and is one of them, and the same holds for the maximum the other way |
| `Catalog.OrdersProductsMap` | app/src/main/java/ua/opnu/HardTasks.java:96-103 | succeeds iff no two orders share an id; then its keys are exactly the order ids and each id maps to that order's number of products; otherwise it fails with an id two orders share |
| `Collectors.ToMap` | app/src/main/java/ua/opnu/HardTasks.java:99-102 | `toMap` succeeds iff all keys are distinct, and then holds exactly those keys, each mapped to its element's value |
| `Collectors.ToMapFailure` | app/src/main/java/ua/opnu/HardTasks.java:99-102 | when `toMap` fails, its key is that of the first element whose key already occurred earlier: all keys before that element are distinct |
| `Catalog.ProductsByCategory` | app/src/main/java/ua/opnu/HardTasks.java:105-114 | the keys are exactly the categories that occur, and no group is empty |
| `Catalog.ProductsByCategoryGroups` | app/src/main/java/ua/opnu/HardTasks.java:109-113 | each category's list is the ids of that category's products in catalog order |
| `Catalog.ProductsByCategoryComplete` | app/src/main/java/ua/opnu/HardTasks.java:109-113 | every product's id is in the list of its own category |
| `Catalog.ProductsByCategorySound` | app/src/main/java/ua/opnu/HardTasks.java:109-113 | every id in a category's list is the id of a product of that category |
| `Collectors.GroupingBy` | app/src/main/java/ua/opnu/HardTasks.java:110-113 | the keys of `groupingBy` are exactly the classes that occur, and no group is empty |
| `Collectors.GroupingByGroups` | app/src/main/java/ua/opnu/HardTasks.java:110-113 | a class has an entry iff some element has that class, and its list is the mapped values of that class's elements in encounter order |
| `Catalog.SampleBooksWithPrice` | app/src/main/java/ua/opnu/HardTasks.java:49-55 | in the catalog of a book at 150, a book at 50 and a toy at 20, only the first book costs more than 100 |
| `Catalog.SampleCheapestBook` | app/src/main/java/ua/opnu/HardTasks.java:73-78 | in that catalog the cheapest book is the book at 50 |
| `Catalog.SampleDiscount` | app/src/main/java/ua/opnu/HardTasks.java:65-71 | in that catalog the discount yields the toy at 10 |

## Left out

- `main`, all console output and the `requireNonNull` checks on the results (HardTasks.java:17-47): these are I/O.
- The sample data and the `DataProvider` class that builds it: `DataProvider` is not part of this model. The constructor of `HardTasks` takes the products and orders as parameters instead.
- The `customers` list: no operation reads it.
- The `Product` and `Order` classes are not part of this model. Their getters are read as plain fields. An order's date is a day number, because the type of `getOrderDate` is not shown.
- IEEE-754 arithmetic. Prices are exact reals, so these are not modelled: the rounding of `price * 0.5`, the compensated summation inside `DoubleSummaryStatistics`, NaN and signed zeros in comparisons, and the infinite minimum and maximum of an empty statistic (modelled as absent).
- The iteration order of the `HashMap`s that `toMap` and `groupingBy` return. The results are Dafny maps.
- Null values: no product, category or order in the model can be null, so the exceptions the stream operations throw on null values are not modelled.
- `Catalog.OrdersWithBabyProducts`: an order position with no product in the table counts as "not a Baby product". Orders in the source always hold real products. `HardTasks.Valid` states that invariant, and under it this case cannot arise.
- `Catalog.BooksStats`: its own contract states only the count. The sum, bounds and attainment are stated by `BooksStatsTotals`, `BooksStatsBounds` and `BooksStatsAttained`.
- `Catalog.HardTasks.ApplyDiscountToToys`: the returned toys are table positions, and distinct positions stand for distinct `Product` objects. A Java product list that held one object at two positions would halve that object twice; the model cannot show that case.

/**
 * The inventory service: the product listing that pairs every product with
 * its zero-or-one inventory row, the two lookups, and the four transactional
 * writes on the `inventory` table.
 */
module InventoryService {
  import opened Wrappers
  import opened Store
  import opened ProductModel
  import opened InventoryModel

  /** Why a service call panicked instead of returning. */
  datatype Panic =
    | PoolUnavailable                      // no connection from the pool
    | InventoryFetchFailed(cause: Error)   // the listing's inventory query failed
    | MultipleInventories(productId: i32)  // a product has two or more inventory rows

  /** How a service call ends: with its return value, or with a panic. */
  datatype Outcome<+T> = Returned(value: T) | Panicked(reason: Panic)

  /** What the product listing returns. */
  type Listing = seq<(Product, Option<Inventory>)>

  // ---------------------------------------------------------------------------
  // Queries on the rows of the table

  /** The two columns the service filters on. */
  datatype Column = InventoryIdColumn | ProductIdColumn

  function ValueOf(row: Inventory, column: Column): i32 {
    match column
    case InventoryIdColumn => row.inventoryId
    case ProductIdColumn => row.productId
  }

  /** `filter(column.eq(v))`: the rows holding `v` in `column`, in store order. */
  function Matching(rows: seq<Inventory>, column: Column, v: i32): (m: seq<Inventory>)
    ensures |m| <= |rows|
    ensures forall x :: x in m <==> x in rows && ValueOf(x, column) == v
    ensures m == [] <==> forall x :: x in rows ==> ValueOf(x, column) != v
  {
    if rows == [] then []
    else if ValueOf(rows[0], column) == v then [rows[0]] + Matching(rows[1..], column, v)
    else Matching(rows[1..], column, v)
  }

  /** Filtering a table that grew by one row at its end. */
  lemma {:induction false} MatchingAppend(rows: seq<Inventory>, x: Inventory, column: Column, v: i32)
    ensures Matching(rows + [x], column, v)
         == Matching(rows, column, v) + (if ValueOf(x, column) == v then [x] else [])
  {
    if rows == [] {
      assert rows + [x] == [x];
    } else {
      assert (rows + [x])[1..] == rows[1..] + [x];
      MatchingAppend(rows[1..], x, column, v);
    }
  }

  /** Two distinct rows holding `v` make the filter return at least two rows. */
  lemma {:induction false} MatchingTwo(rows: seq<Inventory>, column: Column, v: i32, a: nat, b: nat)
    requires a < b < |rows|
    requires ValueOf(rows[a], column) == v && ValueOf(rows[b], column) == v
    ensures |Matching(rows, column, v)| >= 2
  {
    if a == 0 {
      assert rows[b] in rows[1..];
      assert rows[b] in Matching(rows[1..], column, v);
    } else {
      MatchingTwo(rows[1..], column, v, a - 1, b - 1);
    }
  }

  /**
   * `filter(column.eq(v)).first()`: the first row in store order holding `v`,
   * or `NotFound` when there is none.
   */
  function First(rows: seq<Inventory>, column: Column, v: i32): (q: Result<Inventory, Error>)
    ensures q.Err? <==> Matching(rows, column, v) == []
    ensures q.Err? ==> q.error == NotFound
    ensures q.Ok? ==> q.value == Matching(rows, column, v)[0]
  {
    if rows == [] then Err(NotFound)
    else if ValueOf(rows[0], column) == v then Ok(rows[0])
    else First(rows[1..], column, v)
  }

  /**
   * The lookup query as the store answers it: a failing store yields its
   * database error, a healthy one the first matching row or `NotFound`.
   */
  function RunFirst(rows: seq<Inventory>, column: Column, v: i32, fault: Option<DatabaseErrorKind>): (q: Result<Inventory, Error>)
    ensures fault.Some? <==> q.Err? && q.error.DatabaseError?
    ensures fault.Some? ==> q.error.kind == fault.value
    ensures q == Err(NotFound) <==> fault.None? && forall x :: x in rows ==> ValueOf(x, column) != v
    ensures q.Ok? ==> q.value in rows && ValueOf(q.value, column) == v
    ensures q.Err? ==> q.error != QueryBuilderError
  {
    if fault.Some? then Err(DatabaseError(fault.value)) else First(rows, column, v)
  }

  /**
   * How both lookups read a `first` query: a row becomes `Ok(Some(row))`, "no
   * row" becomes `Ok(None)`, and every other error is passed on unchanged.
   */
  function NotFoundAsNone(q: Result<Inventory, Error>): (r: Result<Option<Inventory>, Error>)
    ensures r == Ok(None) <==> q == Err(NotFound)
    ensures q.Ok? ==> r == Ok(Some(q.value))
    ensures r.Ok? && r.value.Some? ==> q == Ok(r.value.value)
    ensures r.Err? <==> q.Err? && q.error != NotFound
    ensures r.Err? ==> r.error == q.error
  {
    match q
    case Ok(row) => Ok(Some(row))
    case Err(NotFound) => Ok(None)
    case Err(e) => Err(e)
  }

  // ---------------------------------------------------------------------------
  // The product listing

  /** `Inventory::belonging_to(&products)`: the rows whose product is listed, in store order. */
  function BelongingTo(rows: seq<Inventory>, products: seq<Product>): (b: seq<Inventory>)
    ensures forall x :: x in b <==> x in rows && x.productId in ProductIds(products)
  {
    if rows == [] then []
    else if rows[0].productId in ProductIds(products) then [rows[0]] + BelongingTo(rows[1..], products)
    else BelongingTo(rows[1..], products)
  }

  /** For a listed product, the listing's query loses none of its rows. */
  lemma {:induction false} MatchingBelongingTo(rows: seq<Inventory>, products: seq<Product>, id: i32)
    requires id in ProductIds(products)
    ensures Matching(BelongingTo(rows, products), ProductIdColumn, id) == Matching(rows, ProductIdColumn, id)
  {
    if rows != [] {
      MatchingBelongingTo(rows[1..], products, id);
    }
  }

  /**
   * The bucket Diesel's parent-id map sends product id `id` to: the last
   * product carrying it, since later entries overwrite earlier ones.
   */
  function IdIndex(parents: seq<Product>, id: i32): (k: Option<nat>)
    ensures k.Some? ==> k.value < |parents| && parents[k.value].productId == id
    ensures k.Some? ==> forall j :: k.value < j < |parents| ==> parents[j].productId != id
    ensures k.None? ==> forall j :: 0 <= j < |parents| ==> parents[j].productId != id
  {
    if parents == [] then None
    else if parents[|parents| - 1].productId == id then Some(|parents| - 1)
    else IdIndex(parents[..|parents| - 1], id)
  }

  /**
   * `children.grouped_by(&parents)`: one bucket per parent; each child in
   * turn is pushed onto the bucket its product id maps to, and dropped when
   * it maps to none.
   */
  function GroupedBy(children: seq<Inventory>, parents: seq<Product>): (g: seq<seq<Inventory>>)
    ensures |g| == |parents|
    ensures forall i, x :: 0 <= i < |g| && x in g[i] ==> x in children && x.productId == parents[i].productId
    decreases |children|
  {
    if children == [] then seq(|parents|, i => [])
    else
      var init, child := children[..|children| - 1], children[|children| - 1];
      var g := GroupedBy(init, parents);
      assert forall x :: x in init ==> x in children;
      match IdIndex(parents, child.productId)
      case None => g
      case Some(k) => g[k := g[k] + [child]]
  }

  /**
   * Bucket `i` holds, in order, exactly the children of parent `i`, unless a
   * later parent has the same id (then the later one takes them).
   */
  lemma {:induction false} GroupedByBucket(children: seq<Inventory>, parents: seq<Product>, i: nat)
    requires i < |parents|
    ensures GroupedBy(children, parents)[i]
         == if IdIndex(parents, parents[i].productId) == Some(i)
            then Matching(children, ProductIdColumn, parents[i].productId)
            else []
  {
    if children != [] {
      var init, child := children[..|children| - 1], children[|children| - 1];
      assert children == init + [child];
      GroupedByBucket(init, parents, i);
      MatchingAppend(init, child, ProductIdColumn, parents[i].productId);
    }
  }

  function Min(a: int, b: int): int { if a <= b then a else b }

  /**
   * The `zip`/`map`/`collect` step: bucket `i` is paired with product `i`; an
   * empty bucket gives `None`, a bucket of one row gives `Some(row)`, and the
   * first bucket of two or more rows aborts with that product's id.
   */
  function Compose(groups: seq<seq<Inventory>>, products: seq<Product>): (r: Result<Listing, i32>)
    ensures r.Ok? <==> forall i :: 0 <= i < Min(|groups|, |products|) ==> |groups[i]| <= 1
    ensures r.Ok? ==> |r.value| == Min(|groups|, |products|)
    ensures r.Ok? ==> forall i :: 0 <= i < |r.value| ==>
              r.value[i].0 == products[i] &&
              (r.value[i].1.None? <==> groups[i] == []) &&
              (r.value[i].1.Some? ==> groups[i] == [r.value[i].1.value])
    ensures r.Err? ==>
              exists i :: (0 <= i < Min(|groups|, |products|) &&
                           |groups[i]| >= 2 && r.error == products[i].productId &&
                           forall j :: 0 <= j < i ==> |groups[j]| <= 1)
    decreases |groups|
  {
    if groups == [] || products == [] then Ok([])
    else if |groups[0]| >= 2 then Err(products[0].productId)
    else
      var pair := (products[0], if groups[0] == [] then None else Some(groups[0][0]));
      match Compose(groups[1..], products[1..])
      case Err(id) => Err(id)
      case Ok(rest) => Ok([pair] + rest)
  }

  /**
   * An oversized bucket makes the zip fail, naming the first oversized bucket,
   * which comes no later than `i`.
   */
  lemma ComposeFailsAt(groups: seq<seq<Inventory>>, products: seq<Product>, i: nat) returns (k: nat)
    requires i < |groups| && i < |products| && |groups[i]| >= 2
    ensures k <= i && |groups[k]| >= 2 && forall j :: 0 <= j < k ==> |groups[j]| <= 1
    ensures Compose(groups, products) == Err(products[k].productId)
  {
    var r := Compose(groups, products);
    assert r.Err?;
    k :| 0 <= k < Min(|groups|, |products|) && |groups[k]| >= 2 && r.error == products[k].productId &&
         forall j :: 0 <= j < k ==> |groups[j]| <= 1;
  }

  /**
   * `get_all_inventory`: fetch the rows of the listed products in one query,
   * group them by product and pair every product with its row.
   */
  function GetAllInventory(products: seq<Product>, rows: seq<Inventory>, io: Io): (o: Outcome<Listing>)
    ensures o == Panicked(PoolUnavailable) <==> !io.poolAvailable
    ensures o.Returned? ==> io.Healthy()
  {
    if !io.poolAvailable then Panicked(PoolUnavailable)
    else if io.fault.Some? then Panicked(InventoryFetchFailed(DatabaseError(io.fault.value)))
    else
      match Compose(GroupedBy(BelongingTo(rows, products), products), products)
      case Ok(listing) => Returned(listing)
      case Err(id) => Panicked(MultipleInventories(id))
  }

  /** With distinct product ids, the bucket of product `i` is all of that product's rows. */
  lemma ListingBucket(rows: seq<Inventory>, products: seq<Product>, i: nat)
    requires DistinctProductIds(products) && i < |products|
    ensures GroupedBy(BelongingTo(rows, products), products)[i]
         == Matching(rows, ProductIdColumn, products[i].productId)
  {
    GroupedByBucket(BelongingTo(rows, products), products, i);
    MatchingBelongingTo(rows, products, products[i].productId);
  }

  /** All buckets at once. */
  lemma ListingBuckets(rows: seq<Inventory>, products: seq<Product>)
    requires DistinctProductIds(products)
    ensures forall i :: 0 <= i < |products| ==>
      GroupedBy(BelongingTo(rows, products), products)[i] == Matching(rows, ProductIdColumn, products[i].productId)
  {
    forall i | 0 <= i < |products|
      ensures GroupedBy(BelongingTo(rows, products), products)[i] == Matching(rows, ProductIdColumn, products[i].productId)
    {
      ListingBucket(rows, products, i);
    }
  }

  /**
   * A row belongs to the bucket of a listed product exactly when it carries
   * that product's id, so it sits in the bucket of at most one product.
   */
  lemma RowInOneBucket(rows: seq<Inventory>, products: seq<Product>, x: Inventory, i: nat)
    requires DistinctProductIds(products) && i < |products| && x in rows
    ensures var groups := GroupedBy(BelongingTo(rows, products), products);
      (x in groups[i] <==> x.productId == products[i].productId) &&
      (x in groups[i] ==> forall j :: 0 <= j < |products| && j != i ==> x !in groups[j])
  {
    ListingBuckets(rows, products);
  }

  /**
   * When neither pool nor store fails, the listing is returned exactly when no
   * listed product has two or more inventory rows.
   */
  lemma GetAllInventoryReturns(products: seq<Product>, rows: seq<Inventory>, io: Io)
    requires io.Healthy() && DistinctProductIds(products)
    ensures GetAllInventory(products, rows, io).Returned?
        <==> forall i :: 0 <= i < |products| ==> |Matching(rows, ProductIdColumn, products[i].productId)| <= 1
  {
    ListingBuckets(rows, products);
  }

  /**
   * A returned listing has one pair per product, in the order of the product
   * list; a product no row refers to is paired with `None`, any other with
   * `Some` of its one row, which refers back to it.
   */
  lemma GetAllInventoryPairs(products: seq<Product>, rows: seq<Inventory>, io: Io)
    requires DistinctProductIds(products)
    requires GetAllInventory(products, rows, io).Returned?
    ensures var listing := GetAllInventory(products, rows, io).value;
      |listing| == |products| &&
      forall i :: 0 <= i < |products| ==>
        listing[i].0 == products[i] &&
        (listing[i].1.None? <==> forall x :: x in rows ==> x.productId != products[i].productId) &&
        (listing[i].1.Some? ==>
           listing[i].1.value in rows && listing[i].1.value.productId == products[i].productId &&
           Matching(rows, ProductIdColumn, products[i].productId) == [listing[i].1.value])
  {
    ListingBuckets(rows, products);
    var listing := GetAllInventory(products, rows, io).value;
    forall i | 0 <= i < |products|
      ensures listing[i].1.None? <==> forall x :: x in rows ==> x.productId != products[i].productId
    {
      var m := Matching(rows, ProductIdColumn, products[i].productId);
      if m != [] {
        assert m[0] in m;
      }
    }
  }

  /**
   * The listing fails fast: when a listed product has two or more inventory
   * rows, nothing is returned, and the panic names the first product in list
   * order that has two or more.
   */
  lemma GetAllInventoryFailsFast(products: seq<Product>, rows: seq<Inventory>, io: Io, i: nat)
    requires io.Healthy() && DistinctProductIds(products)
    requires i < |products| && |Matching(rows, ProductIdColumn, products[i].productId)| >= 2
    ensures var o := GetAllInventory(products, rows, io);
      o.Panicked? && o.reason.MultipleInventories? &&
      exists k :: (0 <= k <= i && o.reason.productId == products[k].productId &&
                   |Matching(rows, ProductIdColumn, products[k].productId)| >= 2 &&
                   forall j :: 0 <= j < k ==> |Matching(rows, ProductIdColumn, products[j].productId)| <= 1)
  {
    var groups := GroupedBy(BelongingTo(rows, products), products);
    ListingBucket(rows, products, i);
    var k := ComposeFailsAt(groups, products, i);
    ListingBucket(rows, products, k);
    forall j | 0 <= j < k
      ensures |Matching(rows, ProductIdColumn, products[j].productId)| <= 1
    {
      ListingBucket(rows, products, j);
    }
  }

  /** Two inventory rows for one listed product abort the listing. */
  lemma DuplicateInventoryAbortsListing(products: seq<Product>, rows: seq<Inventory>, io: Io, i: nat, a: nat, b: nat)
    requires io.Healthy() && DistinctProductIds(products) && i < |products|
    requires a < b < |rows|
    requires rows[a].productId == products[i].productId && rows[b].productId == products[i].productId
    ensures GetAllInventory(products, rows, io).Panicked?
  {
    MatchingTwo(rows, ProductIdColumn, products[i].productId, a, b);
    GetAllInventoryFailsFast(products, rows, io, i);
  }

  // ---------------------------------------------------------------------------
  // The rows a write statement leaves behind

  /** Rows in primary-key order, as the store scans them; no id appears twice. */
  predicate KeyOrdered(rows: seq<Inventory>) {
    forall i, j :: 0 <= i < j < |rows| ==> rows[i].inventoryId < rows[j].inventoryId
  }

  /** A primary key matches at most one row. */
  lemma {:induction false} AtMostOneWithId(rows: seq<Inventory>, id: i32)
    requires KeyOrdered(rows)
    ensures |Matching(rows, InventoryIdColumn, id)| <= 1
  {
    if rows != [] {
      AtMostOneWithId(rows[1..], id);
    }
  }

  /** `UPDATE inventory SET form WHERE inventory_id = id`: the rows afterwards. */
  function UpdateWhere(rows: seq<Inventory>, id: i32, form: InventoryForm): (r: seq<Inventory>)
    ensures |r| == |rows|
    ensures forall i :: 0 <= i < |rows| && rows[i].inventoryId != id ==> r[i] == rows[i]
    ensures forall i :: 0 <= i < |rows| && rows[i].inventoryId == id ==> r[i] == ApplyForm(rows[i], form)
  {
    if rows == [] then []
    else [if rows[0].inventoryId == id then ApplyForm(rows[0], form) else rows[0]]
         + UpdateWhere(rows[1..], id, form)
  }

  /** `DELETE FROM inventory WHERE inventory_id = id`: the rows afterwards. */
  function DeleteWhere(rows: seq<Inventory>, id: i32): (r: seq<Inventory>)
    ensures forall x :: x in r <==> x in rows && x.inventoryId != id
    ensures |r| == |rows| - |Matching(rows, InventoryIdColumn, id)|
  {
    if rows == [] then []
    else if rows[0].inventoryId == id then DeleteWhere(rows[1..], id)
    else [rows[0]] + DeleteWhere(rows[1..], id)
  }

  /** A row whose id is below every id of a key-ordered table can be put in front of it. */
  lemma KeyOrderedCons(head: Inventory, tail: seq<Inventory>)
    requires KeyOrdered(tail)
    requires forall x :: x in tail ==> head.inventoryId < x.inventoryId
    ensures KeyOrdered([head] + tail)
  {
    var r := [head] + tail;
    forall i, j | 0 <= i < j < |r| ensures r[i].inventoryId < r[j].inventoryId {
      assert r[j] == tail[j - 1];
      if i > 0 {
        assert r[i] == tail[i - 1];
      }
    }
  }

  /** A row whose id is above every id of a key-ordered table can be put at its end. */
  lemma KeyOrderedSnoc(rows: seq<Inventory>, last: Inventory)
    requires KeyOrdered(rows)
    requires forall x :: x in rows ==> x.inventoryId < last.inventoryId
    ensures KeyOrdered(rows + [last])
  {
    var r := rows + [last];
    forall i, j | 0 <= i < j < |r| ensures r[i].inventoryId < r[j].inventoryId {
      assert r[i] == rows[i] && rows[i] in rows;
    }
  }

  /** The ids after the first row of a key-ordered table all lie above the first. */
  lemma KeyOrderedHead(rows: seq<Inventory>)
    requires KeyOrdered(rows) && rows != []
    ensures KeyOrdered(rows[1..])
    ensures forall x :: x in rows[1..] ==> rows[0].inventoryId < x.inventoryId
  {
    forall x | x in rows[1..] ensures rows[0].inventoryId < x.inventoryId {
      var k :| 0 <= k < |rows[1..]| && rows[1..][k] == x;
      assert rows[k + 1] == x;
    }
  }

  /** Deleting rows keeps the rest in key order. */
  lemma {:induction false} DeleteKeepsOrder(rows: seq<Inventory>, id: i32)
    requires KeyOrdered(rows)
    ensures KeyOrdered(DeleteWhere(rows, id))
  {
    if rows != [] {
      KeyOrderedHead(rows);
      DeleteKeepsOrder(rows[1..], id);
      if rows[0].inventoryId != id {
        KeyOrderedCons(rows[0], DeleteWhere(rows[1..], id));
      }
    }
  }

  /** After an update of an existing row, looking its id up gives the row with the form applied. */
  lemma UpdateThenFind(rows: seq<Inventory>, id: i32, form: InventoryForm, k: nat)
    requires KeyOrdered(rows) && k < |rows| && rows[k].inventoryId == id
    ensures First(UpdateWhere(rows, id, form), InventoryIdColumn, id) == Ok(ApplyForm(rows[k], form))
  {
    var after := UpdateWhere(rows, id, form);
    assert KeyOrdered(after);
    AtMostOneWithId(after, id);
    var m := Matching(after, InventoryIdColumn, id);
    assert after[k] in m;
    assert m[0] in m;
  }

  /** After a delete, looking the deleted id up finds nothing. */
  lemma DeleteThenFind(rows: seq<Inventory>, id: i32)
    ensures First(DeleteWhere(rows, id), InventoryIdColumn, id) == Err(NotFound)
  {
  }

  /** A row inserted with a fresh id is what looking that id up finds. */
  lemma InsertThenFind(rows: seq<Inventory>, row: Inventory)
    requires forall x :: x in rows ==> x.inventoryId < row.inventoryId
    ensures First(rows + [row], InventoryIdColumn, row.inventoryId) == Ok(row)
  {
    MatchingAppend(rows, row, InventoryIdColumn, row.inventoryId);
  }

  /**
   * In a key-ordered table, the first row of a product is the one with the
   * smallest `inventory_id` among that product's rows.
   */
  lemma {:induction false} FirstIsSmallestId(rows: seq<Inventory>, productId: i32)
    requires KeyOrdered(rows)
    requires First(rows, ProductIdColumn, productId).Ok?
    ensures forall x :: x in rows && x.productId == productId ==>
              First(rows, ProductIdColumn, productId).value.inventoryId <= x.inventoryId
  {
    KeyOrderedHead(rows);
    if rows[0].productId != productId {
      FirstIsSmallestId(rows[1..], productId);
    }
  }

  // ---------------------------------------------------------------------------
  // The table and the service operations on it

  /** The write committed: the transaction closure returned `Ok(())`. */
  predicate Committed(o: Outcome<Result<(), Error>>) {
    o == Returned(Ok(()))
  }

  /**
   * The auto-increment counter after it handed out an id: one more, except at
   * the largest `INT`, where it stays.
   */
  function CounterAfter(counter: int): (next: int)
    requires 1 <= counter <= I32_MAX
    ensures 1 <= next <= I32_MAX && counter <= next
    ensures next == counter <==> counter == I32_MAX
  {
    if counter < I32_MAX then counter + 1 else counter
  }

  /**
   * The `inventory` table: its rows in primary-key order, and the
   * auto-increment counter that supplies the next `inventory_id`.
   */
  class InventoryTable {
    var rows: seq<Inventory>
    var nextId: int

    ghost predicate Valid()
      reads this
    {
      1 <= nextId <= I32_MAX &&
      KeyOrdered(rows) &&
      forall x :: x in rows ==> x.inventoryId as int < nextId || x.inventoryId as int == nextId == I32_MAX
    }

    /** An empty table whose counter starts at 1. */
    constructor ()
      ensures Valid() && rows == [] && nextId == 1
    {
      rows := [];
      nextId := 1;
    }

    /** `get_inventory_by_id`: the row with that primary key, `None` when there is none. */
    function GetInventoryById(id: i32, io: Io): (o: Outcome<Result<Option<Inventory>, Error>>)
      reads this
      ensures !io.poolAvailable <==> o == Panicked(PoolUnavailable)
      ensures io.poolAvailable && io.fault.Some? ==> o == Returned(Err(DatabaseError(io.fault.value)))
      ensures io.Healthy() ==> o.Returned? && o.value.Ok?
      ensures io.Healthy() ==> (o.value.value.None? <==> forall x :: x in rows ==> x.inventoryId != id)
      ensures o.Returned? && o.value.Ok? && o.value.value.Some? ==>
                o.value.value.value in rows && o.value.value.value.inventoryId == id
    {
      if !io.poolAvailable then Panicked(PoolUnavailable)
      else Returned(NotFoundAsNone(RunFirst(rows, InventoryIdColumn, id, io.fault)))
    }

    /**
     * `get_inventory_by_product_id`: the first row in store order that
     * belongs to the product, `None` when there is none.
     */
    function GetInventoryByProductId(productId: i32, io: Io): (o: Outcome<Result<Option<Inventory>, Error>>)
      reads this
      ensures !io.poolAvailable <==> o == Panicked(PoolUnavailable)
      ensures io.poolAvailable && io.fault.Some? ==> o == Returned(Err(DatabaseError(io.fault.value)))
      ensures io.Healthy() ==> o.Returned? && o.value.Ok?
      ensures io.Healthy() ==> (o.value.value.None? <==> forall x :: x in rows ==> x.productId != productId)
      ensures o.Returned? && o.value.Ok? && o.value.value.Some? ==>
                o.value.value.value in rows && o.value.value.value.productId == productId &&
                o.value.value.value == Matching(rows, ProductIdColumn, productId)[0]
    {
      if !io.poolAvailable then Panicked(PoolUnavailable)
      else Returned(NotFoundAsNone(RunFirst(rows, ProductIdColumn, productId, io.fault)))
    }

    /**
     * `add_inventory`: inserts one row in a transaction. The store gives it
     * the id the auto-increment counter holds. At the largest `INT` the
     * counter stays put, so the insert fails as a duplicate key while a row
     * holds that id, and succeeds again once none does. A foreign-key refusal
     * comes after the id was taken, and a rollback does not give it back;
     * any other store failure may strike before or after the id was taken.
     */
    method AddInventory(newInventory: NewInventory, io: Io) returns (o: Outcome<Result<(), Error>>)
      requires Valid()
      modifies this
      ensures Valid()
      ensures !Committed(o) ==> rows == old(rows)
      ensures !io.poolAvailable ==> o == Panicked(PoolUnavailable) && nextId == old(nextId)
      ensures io.poolAvailable && io.fault.Some? ==> o == Returned(Err(DatabaseError(io.fault.value)))
      ensures io.poolAvailable && io.fault == Some(ForeignKeyViolation) ==> nextId == CounterAfter(old(nextId))
      ensures io.poolAvailable && io.fault.Some? ==> nextId == old(nextId) || nextId == CounterAfter(old(nextId))
      ensures io.Healthy() && (exists x :: x in old(rows) && x.inventoryId as int == old(nextId)) ==>
                o == Returned(Err(DatabaseError(UniqueViolation))) && nextId == old(nextId)
      ensures io.Healthy() && (forall x :: x in old(rows) ==> x.inventoryId as int != old(nextId)) ==>
                Committed(o)
      ensures Committed(o) ==>
                nextId == CounterAfter(old(nextId)) &&
                rows == old(rows) + [Inventory(old(nextId) as i32, newInventory.productId, newInventory.quantity)]
    {
      if !io.poolAvailable {
        return Panicked(PoolUnavailable);
      }
      var before := rows;                  // the transaction opens
      var id := nextId as i32;
      var result: Result<(), Error>;
      if io.fault.Some? {
        if io.fault.value == ForeignKeyViolation {
          nextId := CounterAfter(nextId);  // the id was taken before the check
        }
        result := Err(DatabaseError(io.fault.value));
      } else if Matching(rows, InventoryIdColumn, id) != [] {
        result := Err(DatabaseError(UniqueViolation));
      } else {
        assert forall x :: x in rows ==> x.inventoryId < id;
        KeyOrderedSnoc(rows, Inventory(id, newInventory.productId, newInventory.quantity));
        rows := rows + [Inventory(id, newInventory.productId, newInventory.quantity)];
        nextId := CounterAfter(nextId);
        result := Ok(());
      }
      if result.Err? {
        rows := before;                    // rolled back
      }
      o := Returned(result);
    }

    /**
     * `update_inventory`: applies the form to the row with that id in a
     * transaction. An empty form cannot be built into a statement; zero rows
     * affected becomes `NotFound`. Either error rolls the transaction back.
     */
    method UpdateInventory(id: i32, form: InventoryForm, io: Io) returns (o: Outcome<Result<(), Error>>)
      requires Valid()
      modifies this
      ensures Valid() && nextId == old(nextId)
      ensures !Committed(o) ==> rows == old(rows)
      ensures !io.poolAvailable ==> o == Panicked(PoolUnavailable)
      ensures io.poolAvailable && io.fault.Some? ==> o == Returned(Err(DatabaseError(io.fault.value)))
      ensures io.Healthy() && form.IsEmpty() ==> o == Returned(Err(QueryBuilderError))
      ensures io.Healthy() && !form.IsEmpty() ==>
                (o == Returned(Err(NotFound)) <==> forall x :: x in old(rows) ==> x.inventoryId != id)
      ensures io.Healthy() && !form.IsEmpty() ==> o == Returned(Err(NotFound)) || Committed(o)
      ensures Committed(o) ==> rows == UpdateWhere(old(rows), id, form)
    {
      if !io.poolAvailable {
        return Panicked(PoolUnavailable);
      }
      var before := rows;                  // the transaction opens
      var result: Result<(), Error>;
      if io.fault.Some? {
        result := Err(DatabaseError(io.fault.value));
      } else if form.IsEmpty() {
        result := Err(QueryBuilderError);
      } else {
        var affected := |Matching(rows, InventoryIdColumn, id)|;
        rows := UpdateWhere(rows, id, form);
        if affected == 0 {
          result := Err(NotFound);
        } else {
          result := Ok(());
        }
      }
      if result.Err? {
        rows := before;                    // rolled back
      }
      o := Returned(result);
      assert KeyOrdered(rows);
      assert forall x :: x in rows ==> x.inventoryId as int < nextId || x.inventoryId as int == nextId == I32_MAX by {
        forall x | x in rows ensures x.inventoryId as int < nextId || x.inventoryId as int == nextId == I32_MAX {
          var j :| 0 <= j < |rows| && rows[j] == x;
          assert before[j] in before;
        }
      }
    }

    /**
     * `remove_inventory`: deletes the row with that id in a transaction; zero
     * rows affected becomes `NotFound` and rolls the transaction back.
     */
    method RemoveInventory(id: i32, io: Io) returns (o: Outcome<Result<(), Error>>)
      requires Valid()
      modifies this
      ensures Valid() && nextId == old(nextId)
      ensures !Committed(o) ==> rows == old(rows)
      ensures !io.poolAvailable ==> o == Panicked(PoolUnavailable)
      ensures io.poolAvailable && io.fault.Some? ==> o == Returned(Err(DatabaseError(io.fault.value)))
      ensures io.Healthy() ==>
                (o == Returned(Err(NotFound)) <==> forall x :: x in old(rows) ==> x.inventoryId != id)
      ensures io.Healthy() ==> o == Returned(Err(NotFound)) || Committed(o)
      ensures Committed(o) ==> rows == DeleteWhere(old(rows), id) && |rows| == |old(rows)| - 1
    {
      if !io.poolAvailable {
        return Panicked(PoolUnavailable);
      }
      var before := rows;                  // the transaction opens
      var result: Result<(), Error>;
      if io.fault.Some? {
        result := Err(DatabaseError(io.fault.value));
      } else {
        var affected := |Matching(rows, InventoryIdColumn, id)|;
        AtMostOneWithId(rows, id);
        DeleteKeepsOrder(rows, id);
        rows := DeleteWhere(rows, id);
        if affected == 0 {
          result := Err(NotFound);
        } else {
          result := Ok(());
        }
      }
      if result.Err? {
        rows := before;                    // rolled back
      }
      o := Returned(result);
    }

    /**
     * `clear_inventory`: deletes every row in a transaction. A `DELETE` does
     * not reset the auto-increment counter.
     */
    method ClearInventory(io: Io) returns (o: Outcome<Result<(), Error>>)
      requires Valid()
      modifies this
      ensures Valid() && nextId == old(nextId)
      ensures !Committed(o) ==> rows == old(rows)
      ensures !io.poolAvailable ==> o == Panicked(PoolUnavailable)
      ensures io.poolAvailable && io.fault.Some? ==> o == Returned(Err(DatabaseError(io.fault.value)))
      ensures io.Healthy() ==> Committed(o)
      ensures Committed(o) ==> rows == []
    {
      if !io.poolAvailable {
        return Panicked(PoolUnavailable);
      }
      var before := rows;                  // the transaction opens
      var result: Result<(), Error>;
      if io.fault.Some? {
        result := Err(DatabaseError(io.fault.value));
      } else {
        rows := [];
        result := Ok(());
      }
      if result.Err? {
        rows := before;                    // rolled back
      }
      o := Returned(result);
    }
  }

  /** A product whose one row is the whole table is listed with that row. */
  lemma SingleRowListing(product: Product, row: Inventory, io: Io)
    requires io.Healthy() && row.productId == product.productId
    ensures GetAllInventory([product], [row], io) == Returned([(product, Some(row))])
  {
    assert Matching([row], ProductIdColumn, product.productId) == [row];
    GetAllInventoryReturns([product], [row], io);
    GetAllInventoryPairs([product], [row], io);
    var listing := GetAllInventory([product], [row], io).value;
    assert row in [row];
    assert listing[0] == (product, Some(row));
    assert listing == [(product, Some(row))];
  }

  /**
   * The inventory round trip of the service's integration test, on a healthy
   * store: clear the table (its id counter is kept), add 5 units of a
   * product, find them by product, list the product, set the quantity to 3
   * by id, find it by id, remove it, and find nothing. The row gets the id
   * the counter held when the table was cleared.
   */
  method InventoryRoundTrip(table: InventoryTable, product: Product)
    returns (byProduct: Outcome<Result<Option<Inventory>, Error>>,
             listing: Outcome<Listing>,
             afterUpdate: Outcome<Result<Option<Inventory>, Error>>,
             afterRemove: Outcome<Result<Option<Inventory>, Error>>)
    requires table.Valid()
    modifies table
    ensures table.Valid() && table.rows == []
    ensures byProduct == Returned(Ok(Some(Inventory(old(table.nextId) as i32, product.productId, 5))))
    ensures listing == Returned([(product, Some(Inventory(old(table.nextId) as i32, product.productId, 5)))])
    ensures afterUpdate == Returned(Ok(Some(Inventory(old(table.nextId) as i32, product.productId, 3))))
    ensures afterRemove == Returned(Ok(None))
  {
    var io := Io(true, None);
    var cleared := table.ClearInventory(io);
    var n := table.nextId;
    var added := table.AddInventory(NewInventory(product.productId, 5), io);
    assert added == Returned(Ok(()));
    byProduct := table.GetInventoryByProductId(product.productId, io);
    var row := Inventory(n as i32, product.productId, 5);
    assert table.rows == [row];

    listing := GetAllInventory([product], table.rows, io);
    SingleRowListing(product, row, io);

    var updated := table.UpdateInventory(row.inventoryId, InventoryForm(None, Some(3)), io);
    afterUpdate := table.GetInventoryById(row.inventoryId, io);

    var removed := table.RemoveInventory(row.inventoryId, io);
    afterRemove := table.GetInventoryById(row.inventoryId, io);
  }
}

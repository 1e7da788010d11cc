# Inventory service of rust_orm, modelled in Dafny

rust_orm is a data-access layer over MySQL (Diesel with `diesel_async`) for
two tables, `products` and `inventory`. This project models its inventory
service: the product listing `get_all_inventory`, which pairs every product
with its zero-or-one inventory row and panics when a product has two or
more; the two lookups `get_inventory_by_id` and `get_inventory_by_product_id`,
which turn "no row" into `Ok(None)`; and the four transactional writes
`add_inventory`, `update_inventory`, `remove_inventory` and
`clear_inventory`, which turn "zero rows affected" into `NotFound` and roll
back on any error. It also models the row types they use: `Inventory`,
`NewInventory` and the partial-update form `InventoryForm`.

Files (one module each):

- `wrappers.dfy`: `Option` and `Result`.
- `store.dfy`: the `i32` column type, `diesel::result::Error` (the variants the service can meet) and `Io`. `Io` is the environment of one call: whether the pool hands out a connection, and whether the store fails the call. In `update_inventory` a store failure is taken to come before Diesel rejects an empty form, because the transaction is opened on the store before the update is built.
- `product_model.dfy`: `Product` without its price.
- `inventory_model.dfy`: the three inventory records and `ApplyForm`, the partial update.
- `inventory_service.dfy`: the listing, written as pure functions; the `inventory` table as the class `InventoryTable`, whose field `rows` the write methods reassign; and an end-to-end client that replays the integration test.

How the model reads the source:

- A Rust `panic!` is `Outcome.Panicked(reason)`, and a returned value is `Outcome.Returned(v)`. The panics are: no connection from the pool, a failed inventory query in the listing, and a product with several inventory rows. A panic leaves the table as it was.
- The table is a sequence of rows in primary-key order. None of the three queries has an `ORDER BY`, so MySQL promises no order; the model picks key order. So "first" means the row with the smallest `inventory_id` (`FirstIsSmallestId`).
- `inventory_id` comes from an auto-increment counter, `nextId`. At the largest `INT`, 2147483647, the counter stays put, as InnoDB's does. So an insert there takes 2147483647 again: it fails as a duplicate key while a row holds that id, and succeeds once none does. An insert refused by the foreign key has already taken its id, and the rollback does not return it. Any other store failure, such as a failed commit, may come before or after the insert took its id, so it uses up at most one id. A `DELETE` of every row does not reset the counter.
- A transaction is all-or-nothing. Each write method keeps the rows it started from and puts them back on any `Err`. `Committed(o)` means the write returned `Ok(())`. Every write method ensures that on any other outcome the rows are unchanged.
- "Rows affected" counts the rows the `WHERE` matched. `diesel_async` opens MySQL connections with the found-rows flag, so an update that writes a row's current values still counts that row.
- A form with no field present is rejected by Diesel as `QueryBuilderError` before the `UPDATE` is sent. It happens inside the transaction, so the transaction is rolled back.
- Diesel's `grouped_by` is modelled the way that library does it. It maps each parent id to the LAST parent carrying that id. Then it walks the children in order and pushes each child onto its parent's bucket. A child whose id matches no parent is dropped.

Two features of the code that the model keeps:

- Even recoverable failures panic: no connection from the pool, a failed inventory query in the listing.
- The listing panics on a product with several rows rather than returning an error.
- No write keeps at most one inventory row per product: `add_inventory` and `update_inventory` can each create a second one. Only the listing detects it (`DuplicateInventoryAbortsListing`).

## Model

| member | source | states |
|---|---|---|
| InventoryModel.ApplyForm | src/models/inventory_model.rs:23-29 | a field present in the form replaces that column; an absent field leaves it; `inventory_id` never changes |
| InventoryModel.ApplyFormReach | src/models/inventory_model.rs:9-13 | a form can turn a row into exactly the rows with the same `inventory_id`, and into no other row |
| InventoryModel.ApplyFormIdempotent | src/models/inventory_model.rs:26-29 | applying a form a second time changes nothing more |
| InventoryModel.ApplyFormSequence | src/models/inventory_model.rs:26-29 | when two forms are applied in turn, the later form wins on every field it sets, and the earlier one supplies the rest |
| InventoryService.Matching | src/services/inventory_service.rs:48-49 | the `filter(col.eq(v))` result holds exactly the rows that have `v` in that column, and it is empty exactly when no row has it |
| InventoryService.First | src/services/inventory_service.rs:48-51 | `first()` fails with `NotFound` exactly when no row matches; otherwise it returns the earliest matching row |
| InventoryService.RunFirst | src/services/inventory_service.rs:68-71 | the lookup query fails with a database error exactly when the store fails; on a healthy store it gives `NotFound` exactly when no row matches, and otherwise a table row holding the value |
| InventoryService.NotFoundAsNone | src/services/inventory_service.rs:53-57 | a row becomes `Ok(Some(row))`; `NotFound` becomes `Ok(None)`; any other error is passed on unchanged |
| InventoryService.BelongingTo | src/services/inventory_service.rs:19-25 | the listing's single query returns exactly the rows whose `product_id` belongs to a listed product |
| InventoryService.IdIndex | src/services/inventory_service.rs:28 | the parent-id map of `grouped_by`: an id maps to the last product carrying it, or to nothing when no product carries it |
| InventoryService.GroupedBy | src/services/inventory_service.rs:27-28 | `grouped_by` gives one bucket per product, and every row in bucket `i` is a fetched row carrying product `i`'s id; which rows land there is stated by `GroupedByBucket` |
| InventoryService.GroupedByBucket | src/services/inventory_service.rs:27-28 | bucket `i` holds, in store order, exactly the rows of product `i`; if a later product has the same id, that later product's bucket takes them |
| InventoryService.Compose | src/services/inventory_service.rs:29-38 | the zip succeeds iff no bucket has two or more rows; on success pair `i` is product `i`, with `None` for an empty bucket or `Some` of the bucket's one row; on failure the error names the first product with an oversized bucket |
| InventoryService.ComposeFailsAt | src/services/inventory_service.rs:35 | an oversized bucket at `i` aborts the zip; the error names the first oversized bucket, which is at or before `i` |
| InventoryService.GetAllInventory | src/services/inventory_service.rs:9-39 | panics with a pool error exactly when the pool fails; returns a listing only when both the pool and the query succeed |
| InventoryService.RowInOneBucket | src/models/inventory_model.rs:5 | a row is in a listed product's bucket iff it carries that product's id, so it is in at most one bucket |
| InventoryService.GetAllInventoryReturns | src/services/inventory_service.rs:32-35 | with a healthy pool and store, the listing is returned iff no listed product has two or more inventory rows |
| InventoryService.GetAllInventoryPairs | src/services/inventory_service.rs:27-38 | a returned listing has one pair per product, in product order; the pair holds `None` iff no row refers to the product, and otherwise `Some` of the product's only row, whose `product_id` is the product's |
| InventoryService.GetAllInventoryFailsFast | src/services/inventory_service.rs:35 | if a listed product has two or more rows, nothing is returned; the panic names the first product in list order that has two or more rows |
| InventoryService.DuplicateInventoryAbortsListing | src/services/inventory_service.rs:32-36 | two inventory rows for one listed product make the listing panic |
| InventoryService.AtMostOneWithId | src/models/inventory_model.rs:7-10 | in a table kept in key order, a primary key matches at most one row |
| InventoryService.UpdateWhere | src/services/inventory_service.rs:115-118 | the update statement applies the form to the rows with that id and leaves every other row as it was, in place |
| InventoryService.DeleteWhere | src/services/inventory_service.rs:146-148 | after the delete statement, the rows left are exactly the old rows with another id; as many rows go as the id matched |
| InventoryService.DeleteKeepsOrder | src/services/inventory_service.rs:146-148 | deleting rows keeps the remaining rows in key order |
| InventoryService.FirstIsSmallestId | src/services/inventory_service.rs:48-51 | in a key-ordered table, the row `first()` returns for a product has the smallest `inventory_id` of that product's rows |
| InventoryService.UpdateThenFind | src/lib.rs:125-142 | after an update of an existing row, a lookup of its id finds that row with the form applied |
| InventoryService.DeleteThenFind | src/lib.rs:144-152 | after a delete, a lookup of the deleted id finds nothing |
| InventoryService.InsertThenFind | src/models/inventory_model.rs:18-21 | a row inserted with a fresh id is what a lookup of that id finds |
| InventoryService.InventoryTable.GetInventoryById | src/services/inventory_service.rs:60-78 | panics iff the pool fails; a store failure is returned as its database error; with a healthy store it returns `Ok(None)` iff no row has the id, and otherwise `Ok(Some(row))` for a row in the table with that id |
| InventoryService.InventoryTable.GetInventoryByProductId | src/services/inventory_service.rs:41-58 | the same contract for a product id; the row returned is the first, in store order, that belongs to the product |
| InventoryService.InventoryTable.AddInventory | src/services/inventory_service.rs:80-101 | on success, appends exactly one row with the next store-assigned id and the given `product_id` and `quantity`; it fails as a duplicate key exactly when a row already holds the counter's id, which can happen only at the largest `INT`, where the counter stays; on any error the rows are unchanged; a foreign-key refusal advances the counter, any other store failure advances it at most once, and a pool failure or duplicate key leaves it |
| InventoryService.InventoryTable.UpdateInventory | src/services/inventory_service.rs:103-132 | an empty form gives `QueryBuilderError`; an id with no row gives `NotFound` and leaves the table unchanged; otherwise only the row with that id changes, by the form |
| InventoryService.InventoryTable.RemoveInventory | src/services/inventory_service.rs:134-161 | an id with no row gives `NotFound` and leaves the table unchanged; otherwise exactly the row with that id is gone and every other row remains |
| InventoryService.InventoryTable.ClearInventory | src/services/inventory_service.rs:162-184 | on success the table is empty and the id counter is kept; on error the table is unchanged |
| InventoryService.SingleRowListing | src/lib.rs:111-123 | a table holding one row of a product lists that product paired with that row |
| InventoryService.InventoryRoundTrip | src/lib.rs:73-154 | from any table: clear it; add 5 units, which get the id the counter held; the lookup by product finds them; the listing pairs the product with that row; after an update to 3, the lookup by id sees 3; after the remove, the lookup by id finds nothing |

## Left out

- The connection pool (`src/data/database.rs`): lazy initialisation, reading `DATABASE_URL` and opening connections are I/O. A failed lease is the input `Io.poolAvailable`, which leads to a panic.
- Diesel's SQL generation, the async runtime and the transaction machinery come from libraries. A transaction is modelled only as all-or-nothing on the table's rows.
- Store-side failures such as a dropped connection, a foreign-key violation or a failed commit are one abstract fault per call (`Io.fault`). The model does not decide which statement of the call fails, except that a foreign-key refusal comes from the insert itself. In particular, the foreign key from `inventory.product_id` to `products` is not checked by the model.
- Concurrency between callers (isolation levels, interleaved transactions) is not modelled: every call runs alone on the table.
- The product service and `get_all_products` are not part of this model. The listing takes the product list as an input. Its guarantees about pairing assume distinct product ids (`DistinctProductIds`), which holds because `product_id` is the key of `products`.
- `Product.product_price` is an `f32` and is left out. A product is its id and its text fields.
- `RestockHistory` is not part of this model: no operation uses it.
- The demo binary that prints product names is not part of this model.
- InventoryService.InventoryTable.GetInventoryByProductId: when several rows belong to one product, the model returns the one with the smallest `inventory_id` (`FirstIsSmallestId`). The source promises only "some row", because its query has no `ORDER BY`. Taking key order is a choice of the model.

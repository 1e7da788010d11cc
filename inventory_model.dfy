/**
 * The three record types of the `inventory` table: the stored row, the
 * insertable row and the partial-update changeset.
 */
module InventoryModel {
  import opened Wrappers
  import opened Store

  /**
   * A stored inventory row. `inventoryId` is the primary key; `productId`
   * names the one product the row belongs to (the grouping key of the
   * product listing); `quantity` is the stock on hand.
   */
  datatype Inventory = Inventory(inventoryId: i32, productId: i32, quantity: i32)

  /** What a caller inserts: the store supplies `inventory_id`. */
  datatype NewInventory = NewInventory(productId: i32, quantity: i32)

  /**
   * A partial update. A present field is written to the row, an absent one
   * is left alone. There is no `inventory_id` field, so no form can rekey a row.
   */
  datatype InventoryForm = InventoryForm(productId: Option<i32>, quantity: Option<i32>)
  {
    /** The changeset sets no column at all. */
    predicate IsEmpty() { productId.None? && quantity.None? }
  }

  /** The row `row` becomes when the changeset `form` is applied to it. */
  function ApplyForm(row: Inventory, form: InventoryForm): (r: Inventory)
    ensures r.inventoryId == row.inventoryId
    ensures form.productId.Some? ==> r.productId == form.productId.value
    ensures form.productId.None? ==> r.productId == row.productId
    ensures form.quantity.Some? ==> r.quantity == form.quantity.value
    ensures form.quantity.None? ==> r.quantity == row.quantity
  {
    row.(productId := form.productId.GetOr(row.productId),
         quantity := form.quantity.GetOr(row.quantity))
  }

  /** The form that sets every column a form can set to the values of `target`. */
  function FullForm(target: Inventory): InventoryForm {
    InventoryForm(Some(target.productId), Some(target.quantity))
  }

  /** Applying the same form a second time changes nothing more. */
  lemma ApplyFormIdempotent(row: Inventory, form: InventoryForm)
    ensures ApplyForm(ApplyForm(row, form), form) == ApplyForm(row, form)
  {
  }

  /**
   * A form can turn a row into exactly those rows that keep its
   * `inventory_id`: every such row is reachable, and no other is.
   */
  lemma ApplyFormReach(row: Inventory, target: Inventory)
    ensures (exists form :: ApplyForm(row, form) == target) <==> target.inventoryId == row.inventoryId
  {
    if target.inventoryId == row.inventoryId {
      assert ApplyForm(row, FullForm(target)) == target;
    }
  }

  /** Of two forms applied in turn, the later one wins on every field it sets. */
  lemma ApplyFormSequence(row: Inventory, first: InventoryForm, second: InventoryForm)
    ensures ApplyForm(ApplyForm(row, first), second)
         == ApplyForm(row, InventoryForm(
              if second.productId.Some? then second.productId else first.productId,
              if second.quantity.Some? then second.quantity else first.quantity))
  {
  }
}

/** Wish: a store's request for an item. Everything but the `isActive` flag is
    fixed once the wish is built; `close` clears the flag in place. Times of day
    are minutes or seconds as plain integers; only their order matters. */
module WishEntity {
  import opened Common

  /** The columns of a wish row. */
  datatype WishRow = WishRow(
    id: int,
    storeId: int,
    title: string,
    itemName: string,
    brand: Option<string>,
    quantity: int,
    description: Option<string>,
    openTime: int,
    closeTime: int,
    isActive: bool)

  class Wish {
    const id: int
    const storeId: int
    const title: string
    const itemName: string
    const brand: Option<string>
    const quantity: int
    const description: Option<string>
    const openTime: int
    const closeTime: int
    var isActive: bool

    function Row(): WishRow
      reads this
    {
      WishRow(id, storeId, title, itemName, brand, quantity, description, openTime, closeTime, isActive)
    }

    /** The builder: every column from its argument, and `isActive` at its
        default, true. */
    constructor (id: int, storeId: int, title: string, itemName: string, brand: Option<string>,
                 quantity: int, description: Option<string>, openTime: int, closeTime: int)
      ensures Row() == WishRow(id, storeId, title, itemName, brand, quantity, description,
                               openTime, closeTime, true)
      ensures isActive
    {
      this.id := id;
      this.storeId := storeId;
      this.title := title;
      this.itemName := itemName;
      this.brand := brand;
      this.quantity := quantity;
      this.description := description;
      this.openTime := openTime;
      this.closeTime := closeTime;
      this.isActive := true;
    }

    /** close: the wish is no longer active; no other column changes, and
        closing a closed wish changes nothing. */
    method Close()
      modifies this
      ensures !isActive
      ensures Row() == old(Row()).(isActive := false)
      ensures !old(isActive) ==> Row() == old(Row())
    {
      isActive := false;
    }
  }
}

/** Share: a store's offer of an item. The item columns are fixed once the
    share is built; the stock counter `quantity` and the image list are
    written in place. Dates are day numbers and times of day plain integers. */
module ShareEntity {
  import opened Common

  datatype StorageType = Refrigerated | Frozen | RoomTemperature

  /** One image of a share: the share it is linked to, its slot (`seq`) and
      its storage key. */
  datatype ShareImage = ShareImage(share: Option<int>, slot: int, objectKey: string)

  /** The columns of a share row, with its image list. */
  datatype ShareRow = ShareRow(
    id: int,
    storeId: int,
    images: seq<ShareImage>,
    itemName: string,
    brand: Option<string>,
    quantity: int,
    description: Option<string>,
    expirationDate: Option<int>,
    storageType: StorageType,
    openTime: int,
    closeTime: int,
    regDate: int)

  /** `List.remove(Object)`: the list without the first element equal to x,
      or the list itself when x does not occur. */
  function RemoveFirst(s: seq<ShareImage>, x: ShareImage): seq<ShareImage>
  {
    if |s| == 0 then []
    else if s[0] == x then s[1..]
    else [s[0]] + RemoveFirst(s[1..], x)
  }

  /** RemoveFirst takes out exactly one occurrence of x, if there is one, and
      keeps everything else. */
  lemma {:induction false} RemoveFirstRemovesOne(s: seq<ShareImage>, x: ShareImage)
    ensures multiset(RemoveFirst(s, x)) == multiset(s) - multiset{x}
    ensures x in s ==> |RemoveFirst(s, x)| == |s| - 1
    ensures x !in s ==> RemoveFirst(s, x) == s
  {
    if |s| == 0 {
    } else if s[0] == x {
      assert s == [s[0]] + s[1..];
    } else {
      RemoveFirstRemovesOne(s[1..], x);
      assert s == [s[0]] + s[1..];
    }
  }

  /** The other elements keep their relative order: what comes before the
      first x is untouched and what comes after it follows directly. */
  lemma {:induction false} RemoveFirstSplits(a: seq<ShareImage>, x: ShareImage, b: seq<ShareImage>)
    requires x !in a
    ensures RemoveFirst(a + [x] + b, x) == a + b
  {
    if |a| == 0 {
      assert a + [x] + b == [x] + b;
    } else {
      assert (a + [x] + b)[1..] == a[1..] + [x] + b;
      RemoveFirstSplits(a[1..], x, b);
      assert [a[0]] + (a[1..] + b) == a + b;
    }
  }

  /** `findByShareIdAndSeq(shareId, 0)` on the share's images: the key of the
      first image in slot 0, if there is one. */
  function PrimaryImageKey(images: seq<ShareImage>): (r: Option<string>)
    ensures r.None? <==> forall i :: 0 <= i < |images| ==> images[i].slot != 0
    ensures r.Some? ==> exists i :: 0 <= i < |images| && images[i].slot == 0 && images[i].objectKey == r.value
  {
    if |images| == 0 then None
    else if images[0].slot == 0 then Some(images[0].objectKey)
    else
      var r := PrimaryImageKey(images[1..]);
      assert forall i :: 1 <= i < |images| ==> images[i] == images[1..][i - 1];
      r
  }

  /** The row after `quantity += amount` on a Java `int`. */
  function Restocked(s: ShareRow, amount: int): ShareRow {
    s.(quantity := Wrap32(s.quantity + amount))
  }

  /** The row after `quantity -= amount` on a Java `int`. */
  function Taken(s: ShareRow, amount: int): ShareRow {
    s.(quantity := Wrap32(s.quantity - amount))
  }

  class Share {
    const id: int
    const storeId: int
    const itemName: string
    const brand: Option<string>
    const description: Option<string>
    const expirationDate: Option<int>
    const storageType: StorageType
    const openTime: int
    const closeTime: int
    const regDate: int
    var quantity: int
    var images: seq<ShareImage>

    function Row(): ShareRow
      reads this
    {
      ShareRow(id, storeId, images, itemName, brand, quantity, description, expirationDate,
               storageType, openTime, closeTime, regDate)
    }

    /** The builder: every column from its argument and no images. */
    constructor (id: int, storeId: int, itemName: string, brand: Option<string>, quantity: int,
                 description: Option<string>, expirationDate: Option<int>, storageType: StorageType,
                 openTime: int, closeTime: int, regDate: int)
      ensures Row() == ShareRow(id, storeId, [], itemName, brand, quantity, description,
                                expirationDate, storageType, openTime, closeTime, regDate)
    {
      this.id := id;
      this.storeId := storeId;
      this.itemName := itemName;
      this.brand := brand;
      this.quantity := quantity;
      this.description := description;
      this.expirationDate := expirationDate;
      this.storageType := storageType;
      this.openTime := openTime;
      this.closeTime := closeTime;
      this.regDate := regDate;
      this.images := [];
    }

    /** isAvailable: some stock is left. */
    predicate IsAvailable()
      reads this
    {
      quantity > 0
    }

    /** addImage: the image, linked to this share, goes at the end of the
        list; nothing else changes. */
    method AddImage(image: ShareImage)
      modifies this
      ensures images == old(images) + [image.(share := Some(id))]
      ensures quantity == old(quantity)
    {
      images := images + [image.(share := Some(id))];
    }

    /** removeImage: the first equal image leaves the list. */
    method RemoveImage(image: ShareImage)
      modifies this
      ensures images == RemoveFirst(old(images), image)
      ensures multiset(images) == multiset(old(images)) - multiset{image}
      ensures quantity == old(quantity)
    {
      RemoveFirstRemovesOne(images, image);
      images := RemoveFirst(images, image);
    }

    /** `getImages().clear()`: the list is emptied. */
    method ClearImages()
      modifies this
      ensures images == [] && quantity == old(quantity)
    {
      images := [];
    }

    /** decreaseQuantity: fails with BAD_REQUEST, changing nothing, when the
        stock is below the amount; otherwise `quantity -= amount` on a Java
        `int`. From an `int` stock, a non-negative amount leaves exactly the
        difference, which is never negative. */
    method DecreaseQuantity(amount: int) returns (r: Outcome)
      modifies this
      ensures old(quantity) < amount ==> r == Fail(BadRequest) && Row() == old(Row())
      ensures old(quantity) >= amount ==>
        r == Pass && Row() == Taken(old(Row()), amount)
      ensures r == Pass && InInt32(old(quantity)) && amount >= 0 ==>
        quantity == old(quantity) - amount && quantity >= 0
    {
      if quantity < amount {
        return Fail(BadRequest);
      }
      quantity := Wrap32(quantity - amount);
      return Pass;
    }

    /** increaseQuantity: `quantity += amount` on a Java `int`. */
    method IncreaseQuantity(amount: int)
      modifies this
      ensures Row() == Restocked(old(Row()), amount)
      ensures InInt32(old(quantity) + amount) ==> quantity == old(quantity) + amount
    {
      quantity := Wrap32(quantity + amount);
    }
  }
}

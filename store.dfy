/** Store: a shop taking part in sharing. Its owner and id are fixed; its
    profile, image key and the two trade counters are written in place. */
module StoreEntity {
  import opened Common

  /** The embedded address. Latitude and longitude are only carried along. */
  datatype Address = Address(roadAddress: string, dong: string, latitude: real, longitude: real)

  /** The profile fields an update request carries. */
  datatype StoreUpdate = StoreUpdate(
    storeName: string,
    address: Address,
    openTime: int,
    closeTime: int,
    phoneNumber: string,
    description: Option<string>)

  /** The columns of a store row; `owner` is the owning member's id, absent
      when no member owns the store. */
  datatype StoreRow = StoreRow(
    id: int,
    owner: Option<int>,
    storeImageKey: Option<string>,
    storeName: string,
    address: Address,
    phoneNumber: string,
    openTime: int,
    closeTime: int,
    giveTimes: int,
    receivedTimes: int,
    description: Option<string>)

  class Store {
    const id: int
    const owner: Option<int>
    var storeImageKey: Option<string>
    var storeName: string
    var address: Address
    var phoneNumber: string
    var openTime: int
    var closeTime: int
    var giveTimes: int
    var receivedTimes: int
    var description: Option<string>

    function Row(): StoreRow
      reads this
    {
      StoreRow(id, owner, storeImageKey, storeName, address, phoneNumber, openTime, closeTime,
               giveTimes, receivedTimes, description)
    }

    /** The builder: both counters start at 0 and there is no image yet. */
    constructor (id: int, owner: Option<int>, storeName: string, address: Address, phoneNumber: string,
                 openTime: int, closeTime: int, description: Option<string>)
      ensures Row() == StoreRow(id, owner, None, storeName, address, phoneNumber, openTime, closeTime,
                                0, 0, description)
    {
      this.id := id;
      this.owner := owner;
      this.storeImageKey := None;
      this.storeName := storeName;
      this.address := address;
      this.phoneNumber := phoneNumber;
      this.openTime := openTime;
      this.closeTime := closeTime;
      this.giveTimes := 0;
      this.receivedTimes := 0;
      this.description := description;
    }

    /** update: the profile fields are replaced; owner, image key and
        counters keep their values. */
    method Update(req: StoreUpdate)
      modifies this
      ensures Row() == old(Row()).(storeName := req.storeName, address := req.address,
                                   openTime := req.openTime, closeTime := req.closeTime,
                                   phoneNumber := req.phoneNumber, description := req.description)
      ensures storeImageKey == old(storeImageKey) && giveTimes == old(giveTimes)
      ensures receivedTimes == old(receivedTimes)
    {
      storeName := req.storeName;
      address := req.address;
      openTime := req.openTime;
      closeTime := req.closeTime;
      phoneNumber := req.phoneNumber;
      description := req.description;
    }

    /** updateImageKey: only the image key changes. */
    method UpdateImageKey(imageKey: Option<string>)
      modifies this
      ensures Row() == old(Row()).(storeImageKey := imageKey)
    {
      storeImageKey := imageKey;
    }

    /** increaseGiveTimes: `giveTimes += 1` on a Java `int`, so the count
        wraps at the top of the range; receivedTimes is untouched. */
    method IncreaseGiveTimes()
      modifies this
      ensures Row() == GiveCounted(old(Row()))
      ensures old(giveTimes) < INT_MAX && InInt32(old(giveTimes)) ==> giveTimes == old(giveTimes) + 1
    {
      giveTimes := Wrap32(giveTimes + 1);
    }

    /** increaseReceivedTimes: the mirror image for receivedTimes. */
    method IncreaseReceivedTimes()
      modifies this
      ensures Row() == ReceiveCounted(old(Row()))
      ensures old(receivedTimes) < INT_MAX && InInt32(old(receivedTimes)) ==>
        receivedTimes == old(receivedTimes) + 1
    {
      receivedTimes := Wrap32(receivedTimes + 1);
    }
  }

  /** The row after increaseGiveTimes. */
  function GiveCounted(s: StoreRow): StoreRow {
    s.(giveTimes := Wrap32(s.giveTimes + 1))
  }

  /** The row after increaseReceivedTimes. */
  function ReceiveCounted(s: StoreRow): StoreRow {
    s.(receivedTimes := Wrap32(s.receivedTimes + 1))
  }

  /** The wrap-around is real: a counter at the top of the range becomes the
      bottom of the range after one more increment. */
  lemma CounterWrapsAtTop()
    ensures Wrap32(INT_MAX + 1) == INT_MIN
  {
  }
}

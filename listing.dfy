/** The two share listings of the custom share repository: the shares that
    match a wish, and the active shares of a neighbourhood (dong). Each is a
    filter of the share table joined with its stores, an order and a page.
    The spherical distance between stores is floating point; the model takes
    it as an integer rank per store, from the origin of the listing. Dates
    are day numbers and times of day plain integers. */
module ShareListing {
  import opened Common
  import opened Sequences
  import opened ShareEntity
  import opened WishEntity
  import opened StoreEntity

  /** overlap: the closed windows [aStart, aEnd] and [bStart, bEnd] meet. */
  predicate Overlap(aStart: int, aEnd: int, bStart: int, bEnd: int) {
    aStart <= bEnd && aEnd >= bStart
  }

  predicate InWindow(x: int, start: int, end: int) {
    start <= x <= end
  }

  /** For windows within one day (each start at or before its end) the test
      holds exactly when some moment lies in both windows; it is symmetric
      in the two windows either way. */
  lemma OverlapIffCommonTime(aStart: int, aEnd: int, bStart: int, bEnd: int)
    ensures Overlap(aStart, aEnd, bStart, bEnd) == Overlap(bStart, bEnd, aStart, aEnd)
    ensures aStart <= aEnd && bStart <= bEnd ==>
      (Overlap(aStart, aEnd, bStart, bEnd) <==> exists x :: InWindow(x, aStart, aEnd) && InWindow(x, bStart, bEnd))
  {
    if aStart <= aEnd && bStart <= bEnd && Overlap(aStart, aEnd, bStart, bEnd) {
      var x := if aStart < bStart then bStart else aStart;
      assert InWindow(x, aStart, aEnd) && InWindow(x, bStart, bEnd);
    }
  }

  /** What a page request asks for: skip `offset` rows, return at most
      `size`. */
  datatype Pageable = Pageable(offset: nat, size: nat)

  /** One page of a listing and the number of rows of the whole listing. */
  datatype Page<T> = Page(content: seq<T>, total: nat)

  /** `offset`/`limit` on an ordered result. */
  function Slice<T>(s: seq<T>, p: Pageable): (r: seq<T>)
    ensures |r| <= p.size
    ensures forall i :: 0 <= i < |r| ==> p.offset + i < |s| && r[i] == s[p.offset + i]
    ensures p.offset + p.size <= |s| ==> |r| == p.size
    ensures p.offset + p.size > |s| ==> |r| == if p.offset < |s| then |s| - p.offset else 0
  {
    if p.offset >= |s| then []
    else if p.offset + p.size <= |s| then s[p.offset..p.offset + p.size]
    else s[p.offset..]
  }

  /** A page of a sorted listing is sorted. */
  lemma SliceSorted<T>(s: seq<T>, p: Pageable, key: T -> Key)
    requires Sorted(s, key)
    ensures Sorted(Slice(s, p), key)
  {
    if p.offset < |s| {
      var hi := if p.offset + p.size <= |s| then p.offset + p.size else |s|;
      SortedSlice(s, p.offset, hi, key);
      assert Slice(s, p) == s[p.offset..hi];
    }
  }

  /** A page of the ordered filter holds only rows of the table that the
      filter keeps, and it is sorted. */
  lemma PageOfFilter<T(!new)>(s: seq<T>, keep: T -> bool, key: T -> Key, page: Pageable)
    ensures var c := Slice(SortBy(Filter(s, keep), key), page);
      (forall x :: x in c ==> x in s && keep(x)) && Sorted(c, key)
  {
    var sorted := SortBy(Filter(s, keep), key);
    SliceSorted(sorted, page, key);
    var c := Slice(sorted, page);
    forall x | x in c
      ensures x in Filter(s, keep)
    {
      var i :| 0 <= i < |c| && c[i] == x;
      assert sorted[page.offset + i] in multiset(sorted);
    }
  }

  /* ---------------------------------------------------------------------
     findMatchesForWish
     --------------------------------------------------------------------- */

  /** The where-clause of findMatchesForWish, for a wish whose store lies in
      `dong`: the share's store (inner join) lies in the same dong, the item
      name is the same, the stock covers the wish and is positive, the
      expiry date is set and not before today (a missing date compares as
      SQL NULL and drops the row), and the opening windows overlap. */
  predicate MatchesWish(w: WishRow, dong: string, stores: map<int, StoreRow>, today: int, s: ShareRow) {
    && s.storeId in stores && stores[s.storeId].address.dong == dong
    && s.itemName == w.itemName
    && s.quantity >= w.quantity
    && s.quantity > 0
    && s.expirationDate.Some? && s.expirationDate.value >= today
    && Overlap(s.openTime, s.closeTime, w.openTime, w.closeTime)
  }

  /** The order of the matches: nearest store first, then newest. */
  function MatchKey(distance: int -> int): ShareRow -> Key {
    (s: ShareRow) => Key(distance(s.storeId), -s.regDate, 0)
  }

  /** findMatchesForWish. A missing or closed wish has no matches; a wish
      whose store row cannot be loaded fails as an unexpected error (the lazy
      load of the store throws); otherwise the matching shares, ordered, and
      one page of them. */
  function FindMatchesForWish(wishes: map<int, WishRow>, stores: map<int, StoreRow>, shares: seq<ShareRow>,
                              wishId: int, today: int, distance: int -> int, page: Pageable): Result<Page<ShareRow>>
  {
    if wishId !in wishes || !wishes[wishId].isActive then Ok(Page([], 0))
    else
      var w := wishes[wishId];
      if w.storeId !in stores then Err(Internal)
      else
        var dong := stores[w.storeId].address.dong;
        var matched := Filter(shares, s => MatchesWish(w, dong, stores, today, s));
        if |matched| == 0 then Ok(Page([], 0))
        else Ok(Page(Slice(SortBy(matched, MatchKey(distance)), page), |matched|))
  }

  /** A missing or inactive wish gives an empty page and a zero total. */
  lemma MatchesForClosedWish(wishes: map<int, WishRow>, stores: map<int, StoreRow>, shares: seq<ShareRow>,
                             wishId: int, today: int, distance: int -> int, page: Pageable)
    requires wishId !in wishes || !wishes[wishId].isActive
    ensures FindMatchesForWish(wishes, stores, shares, wishId, today, distance, page) == Ok(Page([], 0))
  {
  }

  /** The only failure is an active wish whose store row is missing, and it
      is the unexpected error of the throwing lazy load. */
  lemma MatchesForWishFailure(wishes: map<int, WishRow>, stores: map<int, StoreRow>, shares: seq<ShareRow>,
                              wishId: int, today: int, distance: int -> int, page: Pageable)
    ensures var r := FindMatchesForWish(wishes, stores, shares, wishId, today, distance, page);
      (r.Err? <==> wishId in wishes && wishes[wishId].isActive && wishes[wishId].storeId !in stores)
      && (r.Err? ==> r.code == Internal)
  {
  }

  /** Every row of a page of matches is a share of the table meeting each
      condition against the wish, and the page runs nearest store first,
      then newest first. The total counts exactly the table's matching rows
      (with their multiplicity), and no page holds more than its size. */
  lemma MatchesForWishSound(wishes: map<int, WishRow>, stores: map<int, StoreRow>, shares: seq<ShareRow>,
                            wishId: int, today: int, distance: int -> int, page: Pageable)
    requires FindMatchesForWish(wishes, stores, shares, wishId, today, distance, page).Ok?
    requires wishId in wishes && wishes[wishId].isActive
    ensures var w := wishes[wishId];
      var r := FindMatchesForWish(wishes, stores, shares, wishId, today, distance, page).value;
      && w.storeId in stores
      && |r.content| <= page.size
      && (forall x :: x in r.content ==>
            && x in shares
            && x.storeId in stores && stores[x.storeId].address.dong == stores[w.storeId].address.dong
            && x.itemName == w.itemName && x.quantity >= w.quantity && x.quantity > 0
            && x.expirationDate.Some? && x.expirationDate.value >= today
            && x.openTime <= w.closeTime && x.closeTime >= w.openTime)
      && (forall i, j :: 0 <= i < j < |r.content| ==>
            || distance(r.content[i].storeId) < distance(r.content[j].storeId)
            || (distance(r.content[i].storeId) == distance(r.content[j].storeId)
                && r.content[i].regDate >= r.content[j].regDate))
  {
    var w := wishes[wishId];
    var dong := stores[w.storeId].address.dong;
    PageOfFilter(shares, s => MatchesWish(w, dong, stores, today, s), MatchKey(distance), page);
  }

  /** The total is the number of the table's rows the where-clause keeps,
      and every one of them is in the ordered listing the page is cut from. */
  lemma MatchesForWishComplete(wishes: map<int, WishRow>, stores: map<int, StoreRow>, shares: seq<ShareRow>,
                               wishId: int, today: int, distance: int -> int, page: Pageable, x: ShareRow)
    requires wishId in wishes && wishes[wishId].isActive && wishes[wishId].storeId in stores
    requires x in shares
    requires var w := wishes[wishId];
      MatchesWish(w, stores[w.storeId].address.dong, stores, today, x)
    ensures var w := wishes[wishId];
      var r := FindMatchesForWish(wishes, stores, shares, wishId, today, distance, page);
      var all := SortBy(Filter(shares, s => MatchesWish(w, stores[w.storeId].address.dong, stores, today, s)),
                        MatchKey(distance));
      && r.Ok? && r.value.total == |all| > 0
      && x in all
      && r.value.content == Slice(all, page)
  {
    var w := wishes[wishId];
    var keep := s => MatchesWish(w, stores[w.storeId].address.dong, stores, today, s);
    var matched := Filter(shares, keep);
    assert x in matched;
    var all := SortBy(matched, MatchKey(distance));
    assert x in multiset(all);
  }

  /* ---------------------------------------------------------------------
     findActiveByDong
     --------------------------------------------------------------------- */

  /** The where-clause of findActiveByDong: the share's store lies in the
      dong, some stock is left, the expiry date is absent or not before
      today, and the store is not the one the listing is seen from. */
  predicate ActiveInDong(dong: string, originStoreId: int, stores: map<int, StoreRow>, today: int, s: ShareRow) {
    && s.storeId in stores && stores[s.storeId].address.dong == dong
    && s.quantity > 0
    && (s.expirationDate.None? || s.expirationDate.value >= today)
    && s.storeId != originStoreId
  }

  /** The order of the dong listing: with an origin, nearest first, then
      newest, then highest id; without one, newest and then highest id. */
  function ActiveKey(byDistance: bool, distance: int -> int): ShareRow -> Key {
    if byDistance then (s: ShareRow) => Key(distance(s.storeId), -s.regDate, -s.id)
    else (s: ShareRow) => Key(-s.regDate, -s.id, 0)
  }

  /** findActiveByDong. The order uses the distance only when both origin
      coordinates are given. */
  function FindActiveByDong(stores: map<int, StoreRow>, shares: seq<ShareRow>, dong: string,
                            originLat: Option<real>, originLng: Option<real>, originStoreId: int,
                            today: int, distance: int -> int, page: Pageable): Page<ShareRow>
  {
    var active := Filter(shares, s => ActiveInDong(dong, originStoreId, stores, today, s));
    var key := ActiveKey(originLat.Some? && originLng.Some?, distance);
    Page(Slice(SortBy(active, key), page), |active|)
  }

  /** Every listed share lies in the dong, has stock, has not expired and
      belongs to another store; the page follows the listing's order; and
      every share of the table meeting those conditions is counted. */
  lemma ActiveByDongSound(stores: map<int, StoreRow>, shares: seq<ShareRow>, dong: string,
                          originLat: Option<real>, originLng: Option<real>, originStoreId: int,
                          today: int, distance: int -> int, page: Pageable)
    ensures var r := FindActiveByDong(stores, shares, dong, originLat, originLng, originStoreId, today, distance, page);
      && |r.content| <= page.size
      && (forall x :: x in r.content ==>
            && x in shares
            && x.storeId in stores && stores[x.storeId].address.dong == dong
            && x.quantity > 0
            && (x.expirationDate.None? || x.expirationDate.value >= today)
            && x.storeId != originStoreId)
      && Sorted(r.content, ActiveKey(originLat.Some? && originLng.Some?, distance))
      && r.total == |Filter(shares, s => ActiveInDong(dong, originStoreId, stores, today, s))|
      && (forall x :: x in shares && ActiveInDong(dong, originStoreId, stores, today, x) ==>
            x in Filter(shares, s => ActiveInDong(dong, originStoreId, stores, today, s)))
  {
    PageOfFilter(shares, s => ActiveInDong(dong, originStoreId, stores, today, s),
                 ActiveKey(originLat.Some? && originLng.Some?, distance), page);
  }

  /** Without an origin the dong listing runs newest first, ties broken by
      the higher id first. */
  lemma ActiveByDongNewestFirst(stores: map<int, StoreRow>, shares: seq<ShareRow>, dong: string,
                                originStoreId: int, today: int, distance: int -> int, page: Pageable)
    ensures var c := FindActiveByDong(stores, shares, dong, None, None, originStoreId, today, distance, page).content;
      forall i, j :: 0 <= i < j < |c| ==>
        c[i].regDate > c[j].regDate || (c[i].regDate == c[j].regDate && c[i].id >= c[j].id)
  {
    ActiveByDongSound(stores, shares, dong, None, None, originStoreId, today, distance, page);
  }
}

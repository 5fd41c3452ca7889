/** The share-image request records and their `isSeqsValid` check: every
    item names a slot (`seq`) in [0, 4] and no slot twice. The records differ
    only in what they say about a missing or empty item list. A Java `null`
    is `None`. */
module ShareImageRequests {
  import opened Common

  /** The highest slot an image can take; slots run from 0. */
  const MAX_SLOT: int := 4

  /** One item of a confirm request: its slot and the key it was uploaded
      under. */
  datatype ConfirmItem = ConfirmItem(slot: Option<int>, objectKey: Option<string>)

  /** One item of a presign request: slot, file extension, MIME type and the
      announced size in bytes. */
  datatype PresignItem = PresignItem(slot: Option<int>, ext: Option<string>, contentType: Option<string>,
                                     sizeBytes: Option<int>)

  /** One item of a commit-from-draft request: slot and draft key. */
  datatype DraftItem = DraftItem(slot: Option<int>, draftKey: Option<string>)

  /** The slot the check reads from an item: none when the item or its slot
      is null. */
  function ConfirmSlot(it: Option<ConfirmItem>): Option<int> {
    if it.None? then None else it.value.slot
  }

  function PresignSlot(it: Option<PresignItem>): Option<int> {
    if it.None? then None else it.value.slot
  }

  function DraftSlot(it: Option<DraftItem>): Option<int> {
    if it.None? then None else it.value.slot
  }

  function Slots<I>(items: seq<I>, slot: I -> Option<int>): (r: seq<Option<int>>)
    ensures |r| == |items| && forall i :: 0 <= i < |items| ==> r[i] == slot(items[i])
  {
    seq(|items|, i requires 0 <= i < |items| => slot(items[i]))
  }

  /** What the loop accepts: every slot is present and in [0, 4], and no two
      items share a slot. */
  predicate SlotsValid(slots: seq<Option<int>>) {
    && (forall i :: 0 <= i < |slots| ==> slots[i].Some? && 0 <= slots[i].value <= MAX_SLOT)
    && (forall i, j :: 0 <= i < j < |slots| ==> slots[i] != slots[j])
  }

  /** The loop shared by the three records: a HashSet of the slots seen so
      far, and an early `false` on a missing slot, a slot out of range or a
      slot already seen. */
  method CheckSlots(slots: seq<Option<int>>) returns (ok: bool)
    ensures ok <==> SlotsValid(slots)
  {
    var seen: set<int> := {};
    var i := 0;
    while i < |slots|
      invariant 0 <= i <= |slots|
      invariant SlotsValid(slots[..i])
      invariant forall x :: x in seen <==> Some(x) in slots[..i]
    {
      if slots[i].None? {
        return false;
      }
      var s := slots[i].value;
      if s < 0 || s > MAX_SLOT {
        return false;
      }
      if s in seen {
        assert Some(s) in slots[..i];
        return false;
      }
      seen := seen + {s};
      assert slots[..i + 1] == slots[..i] + [slots[i]];
      i := i + 1;
    }
    assert slots[..i] == slots;
    return true;
  }

  /** Distinct slots, all drawn from a set of candidates, are no more than
      the candidates. */
  lemma {:induction false} DistinctSlotsBounded(slots: seq<Option<int>>, candidates: set<int>)
    requires SlotsValid(slots)
    requires forall i :: 0 <= i < |slots| ==> slots[i].value in candidates
    ensures |slots| <= |candidates|
    decreases |slots|
  {
    if |slots| > 0 {
      var rest := slots[1..];
      assert SlotsValid(rest) by {
        forall i, j | 0 <= i < j < |rest| ensures rest[i] != rest[j] {
          assert rest[i] == slots[i + 1] && rest[j] == slots[j + 1];
        }
      }
      forall i | 0 <= i < |rest|
        ensures rest[i].value in candidates - {slots[0].value}
      {
        assert rest[i] == slots[i + 1] && slots[0] != slots[i + 1];
      }
      DistinctSlotsBounded(rest, candidates - {slots[0].value});
    }
  }

  /** Valid slots are at most five. */
  lemma SlotsValidAtMostFive(slots: seq<Option<int>>)
    requires SlotsValid(slots)
    ensures |slots| <= MAX_SLOT + 1
  {
    assert |{0, 1, 2, 3, 4}| == 5;
    DistinctSlotsBounded(slots, {0, 1, 2, 3, 4});
  }

  /** Pairwise distinct elements occur once each. */
  lemma {:induction false} DistinctOnce<T>(s: seq<T>)
    requires forall i, j :: 0 <= i < j < |s| ==> s[i] != s[j]
    ensures forall x :: multiset(s)[x] <= 1
    decreases |s|
  {
    if |s| > 0 {
      var h, rest := s[0], s[1..];
      assert s == [h] + rest;
      forall i, j | 0 <= i < j < |rest| ensures rest[i] != rest[j] {
        assert rest[i] == s[i + 1] && rest[j] == s[j + 1];
      }
      DistinctOnce(rest);
      forall k | 0 <= k < |rest| ensures rest[k] != h {
        assert rest[k] == s[k + 1];
      }
      assert h !in rest;
    }
  }

  /** An element at two positions occurs at least twice. */
  lemma RepeatedTwice<T>(s: seq<T>, i: int, j: int)
    requires 0 <= i < j < |s|
    ensures s[i] == s[j] ==> multiset(s)[s[i]] >= 2
  {
    var x := s[j];
    assert s == s[..j] + [x] + s[j + 1..];
    assert s[..j][i] == s[i];
    assert s[i] in multiset(s[..j]);
  }

  /** Items whose slots pass the check pass it in any order. */
  lemma SlotsValidTransfer<I>(a: seq<I>, b: seq<I>, slot: I -> Option<int>)
    requires multiset(a) == multiset(b) && SlotsValid(Slots(a, slot))
    ensures SlotsValid(Slots(b, slot))
  {
    var sa, sb := Slots(a, slot), Slots(b, slot);
    forall i | 0 <= i < |b| ensures sb[i].Some? && 0 <= sb[i].value <= MAX_SLOT {
      assert b[i] in multiset(a);
      var p :| 0 <= p < |a| && a[p] == b[i];
      assert sa[p] == sb[i];
    }
    forall i, j | 0 <= i < j < |a| ensures a[i] != a[j] {
      assert sa[i] != sa[j];
    }
    DistinctOnce(a);
    forall i, j | 0 <= i < j < |b| ensures sb[i] != sb[j] {
      assert b[i] in multiset(a) && b[j] in multiset(a);
      var p :| 0 <= p < |a| && a[p] == b[i];
      var q :| 0 <= q < |a| && a[q] == b[j];
      RepeatedTwice(b, i, j);
      assert sa[p] == sb[i] && sa[q] == sb[j];
    }
  }

  /* ---------------------------------------------------------------------
     The three records.
     --------------------------------------------------------------------- */

  /** ShareImageConfirmRequest.isSeqsValid: false for a missing or empty
      list, otherwise the slot check. A true verdict leaves one to five
      items. */
  method ConfirmSeqsValid(items: Option<seq<Option<ConfirmItem>>>) returns (ok: bool)
    ensures ok <==> items.Some? && |items.value| > 0 && SlotsValid(Slots(items.value, ConfirmSlot))
    ensures ok ==> 1 <= |items.value| <= 5
  {
    if items.None? || |items.value| == 0 {
      return false;
    }
    ok := CheckSlots(Slots(items.value, ConfirmSlot));
    if ok {
      SlotsValidAtMostFive(Slots(items.value, ConfirmSlot));
    }
  }

  /** ShareImageDraftPresignRequest.isSeqsValid: false for a missing list,
      true for an empty one, otherwise the slot check. */
  method PresignSeqsValid(items: Option<seq<Option<PresignItem>>>) returns (ok: bool)
    ensures ok <==> items.Some? && SlotsValid(Slots(items.value, PresignSlot))
    ensures items == Some([]) ==> ok
    ensures ok ==> |items.value| <= 5
  {
    if items.None? {
      return false;
    }
    ok := CheckSlots(Slots(items.value, PresignSlot));
    if ok {
      SlotsValidAtMostFive(Slots(items.value, PresignSlot));
    }
  }

  /** ShareImageCommitFromDraftRequest.isSeqsValid: no check for a missing
      list, so iterating it throws (an error here); an empty list passes. */
  method CommitSeqsValid(items: Option<seq<Option<DraftItem>>>) returns (r: Result<bool>)
    ensures items.None? ==> r == Err(Internal)
    ensures items.Some? ==> r.Ok? && (r.value <==> SlotsValid(Slots(items.value, DraftSlot)))
    ensures items == Some([]) ==> r == Ok(true)
    ensures r == Ok(true) ==> |items.value| <= 5
  {
    if items.None? {
      return Err(Internal);
    }
    var ok := CheckSlots(Slots(items.value, DraftSlot));
    if ok {
      SlotsValidAtMostFive(Slots(items.value, DraftSlot));
    }
    return Ok(ok);
  }

  /** The verdict of a confirm request does not depend on the order of its
      items. */
  lemma ConfirmVerdictPermutation(a: seq<Option<ConfirmItem>>, b: seq<Option<ConfirmItem>>)
    requires multiset(a) == multiset(b)
    ensures SlotsValid(Slots(a, ConfirmSlot)) == SlotsValid(Slots(b, ConfirmSlot))
  {
    if SlotsValid(Slots(a, ConfirmSlot)) {
      SlotsValidTransfer(a, b, ConfirmSlot);
    }
    if SlotsValid(Slots(b, ConfirmSlot)) {
      SlotsValidTransfer(b, a, ConfirmSlot);
    }
  }
}

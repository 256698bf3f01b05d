/** Reservation ids. The store names a reservation by running together the
    booking date, the location id, the table id and the slot name ("slot3").
    The model keys records by the tuple of those four parts; this module keeps
    the string form beside it and states when the two agree. */
module Keys {
  import opened Slots

  datatype Key = Key(date: int, locationId: string, tableId: string, slot: int)

  /** "slot" followed by the slot's single digit. */
  function SlotName(i: int): (name: string)
    requires IsSlot(i)
    ensures |name| == 5 && name[..4] == "slot" && IsDigit(name[4]) && DigitValue(name[4]) == i
  {
    "slot" + [('0' as int + i) as char]
  }

  /** `extractSlotIndex` and `charAt(length - 1)` both recover the index. */
  lemma {:induction false} SlotNameInjective(i: int, j: int)
    requires IsSlot(i) && IsSlot(j)
    ensures SlotName(i) == SlotName(j) ==> i == j
  {
    if SlotName(i) == SlotName(j) {
      assert DigitValue(SlotName(i)[4]) == DigitValue(SlotName(j)[4]);
    }
  }

  /** The string id the source builds for a key, given the date's text. */
  function IdText(dateText: string, k: Key): string
    requires IsSlot(k.slot)
  {
    dateText + k.locationId + k.tableId + SlotName(k.slot)
  }

  /** Without a separator two different bookings can share one id: location
      "L1" with table "1T" and location "L" with table "11T". */
  lemma IdsCanCollide()
    ensures IdText("2025-06-01", Key(0, "L1", "1T", 1)) == IdText("2025-06-01", Key(0, "L", "11T", 1))
  {
    assert "2025-06-01" + "L1" + "1T" == "2025-06-01" + "L" + "11T";
  }

  /** When the date texts and the location ids have the same lengths (ISO
      dates always have ten characters), equal ids mean equal tables, locations
      and slots: the tuple key then loses nothing. */
  lemma {:induction false} IdInjective(dt1: string, dt2: string, k1: Key, k2: Key)
    requires IsSlot(k1.slot) && IsSlot(k2.slot)
    requires |dt1| == |dt2| && |k1.locationId| == |k2.locationId|
    requires IdText(dt1, k1) == IdText(dt2, k2)
    ensures dt1 == dt2 && k1.locationId == k2.locationId && k1.tableId == k2.tableId && k1.slot == k2.slot
  {
    var a := IdText(dt1, k1);
    var n := |dt1|;
    var m := |k1.locationId|;
    assert a[..n] == dt1;
    assert IdText(dt2, k2)[..n] == dt2;
    assert a[n..n + m] == k1.locationId;
    assert IdText(dt2, k2)[n..n + m] == k2.locationId;
    assert |a| == n + m + |k1.tableId| + 5;
    assert |k1.tableId| == |k2.tableId|;
    assert a[n + m..|a| - 5] == k1.tableId;
    assert IdText(dt2, k2)[n + m..|a| - 5] == k2.tableId;
    assert a[|a| - 5..] == SlotName(k1.slot);
    assert IdText(dt2, k2)[|a| - 5..] == SlotName(k2.slot);
    SlotNameInjective(k1.slot, k2.slot);
  }
}

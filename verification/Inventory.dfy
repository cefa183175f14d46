/** The inventory of the role-playing game: an array of slots that stands for a map from items to
    amounts. */
module Inventory {
  import opened MachineInts

  const MAX_INVENTORY: nat := 256

  datatype Slot = Slot(wItem: u16, nAmount: u16, nAmountInUse: u16)

  const EMPTY: Slot := Slot(0, 0, 0)

  /** Occupied slots come first, hold different items, and no more than 99 of each. */
  predicate WellKept(s: seq<Slot>)
  {
    && (forall i, j :: 0 <= i < j < |s| && s[j].wItem != 0 ==> s[i].wItem != 0 && s[i].wItem != s[j].wItem)
    && (forall i :: 0 <= i < |s| ==> s[i].nAmount <= 99)
  }

  /** The amount of an item: what its slot holds, or none. */
  function Amount(s: seq<Slot>, item: u16): u16
  {
    if s == [] || s[0].wItem == 0 then 0
    else if s[0].wItem == item then s[0].nAmount
    else Amount(s[1..], item)
  }

  /** Slot i is where the search for an item stops. */
  predicate StopsAt(s: seq<Slot>, item: u16, i: nat)
  {
    && i <= |s| && (forall k :: 0 <= k < i ==> s[k].wItem != 0 && s[k].wItem != item)
    && (i < |s| ==> s[i].wItem == item || s[i].wItem == 0)
  }

  lemma {:induction false} AmountIsFound(s: seq<Slot>, item: u16, i: nat)
    requires item != 0 && StopsAt(s, item, i)
    ensures Amount(s, item) == if i < |s| && s[i].wItem == item then s[i].nAmount else 0
    decreases i
  {
    if i > 0 {
      AmountIsFound(s[1..], item, i - 1);
    }
  }

  /** Changing the slot of one item, or taking the first empty one for it, leaves the others alone. */
  lemma {:induction false} OthersKeepAmounts(s: seq<Slot>, i: nat, slot: Slot, item: u16)
    requires WellKept(s) && i < |s| && slot.wItem != item && slot.wItem != 0
    requires StopsAt(s, slot.wItem, i)
    ensures Amount(s[i := slot], item) == Amount(s, item)
    decreases i
  {
    var t := s[i := slot];
    if i > 0 {
      OthersKeepAmounts(s[1..], i - 1, slot, item);
      assert t[1..] == s[1..][i - 1 := slot];
    } else {
      assert t[1..] == s[1..];
      if s[0].wItem == 0 && |s| > 1 {
        assert s[1].wItem == 0;
      }
    }
  }

  /** The number that an addition or removal is about. */
  function Number(num: i32): i32 { if num == 0 then 1 else num }

  /** The new amount after adding num to have, in 16-bit arithmetic. */
  function Added(have: u16, num: i32): u16
  {
    var sum := (have as int + num as int) % 0x1_0000;
    if sum > 99 then 99 else sum
  }

  /** Adding to a slot stops at 99 unless the sum wraps around to less than that. */
  lemma AddedIff(have: u16, num: i32)
    requires have <= 99 && num > 0
    ensures Added(have, num) as int == Min(99, have as int + num as int) <==>
              have as int + num as int < 0x1_0000 || (have as int + num as int) % 0x1_0000 >= 99
  {
  }

  predicate Holds(s: seq<Slot>, item: u16)
  {
    exists i :: 0 <= i < |s| && s[i].wItem == item
  }

  /** What a successful addition leaves of an item: a new slot takes the number as it is. */
  function AmountAfter(s: seq<Slot>, item: u16, num: i32): u16
    requires num > 0
  {
    if Holds(s, item) then Added(Amount(s, item), num) else Min(99, num)
  }

  /** A successful addition gives the amount capped at 99, unless the item has a slot already and the
      16-bit sum wraps around to less than that. */
  lemma AdditionIff(s: seq<Slot>, item: u16, num: i32)
    requires WellKept(s) && item != 0 && num > 0
    ensures var sum := Amount(s, item) as int + num as int;
            AmountAfter(s, item, num) as int == Min(99, sum) <==>
              !Holds(s, item) || sum < 0x1_0000 || sum % 0x1_0000 >= 99
  {
    AmountIsBounded(s, item);
    if Holds(s, item) {
      AddedIff(Amount(s, item), num);
    } else {
      AbsentAmount(s, item);
    }
  }

  /** Adding 65530 to 10 leaves 4. */
  lemma WrappedExample()
    ensures AmountAfter([Slot(1, 10, 0)], 1, 65530) == 4 && Min(99, 10 + 65530) == 99
  {
    assert [Slot(1, 10, 0)][0].wItem == 1;
  }

  lemma {:induction false} AmountIsBounded(s: seq<Slot>, item: u16)
    requires WellKept(s)
    ensures Amount(s, item) <= 99
    decreases |s|
  {
    if s != [] {
      AmountIsBounded(s[1..], item);
    }
  }

  /** The occupied slots that hold something, in order. */
  function Kept(s: seq<Slot>): (t: seq<Slot>)
    ensures |t| <= |s|
  {
    if s == [] || s[0].wItem == 0 then []
    else if s[0].nAmount > 0 then [s[0]] + Kept(s[1..])
    else Kept(s[1..])
  }

  /** An array of slots with empty ones at its end. */
  function Padded(s: seq<Slot>, n: nat): seq<Slot>
    requires |s| <= n
  {
    s + seq(n - |s|, _ => EMPTY)
  }

  // ----- changing one amount -----

  lemma {:induction false} NoItemZero(s: seq<Slot>)
    ensures Amount(s, 0) == 0
    decreases |s|
  {
    if s != [] && s[0].wItem != 0 {
      NoItemZero(s[1..]);
    }
  }

  lemma HoldsIff(s: seq<Slot>, item: u16, i: nat)
    requires WellKept(s) && item != 0 && StopsAt(s, item, i)
    ensures Holds(s, item) <==> i < |s| && s[i].wItem == item
    ensures i < |s| <==> exists k :: 0 <= k < |s| && (s[k].wItem == 0 || s[k].wItem == item)
  {
  }

  lemma SlotIsBounded(s: seq<Slot>, i: nat)
    requires WellKept(s) && i < |s|
    ensures s[i].nAmount <= 99
  {
  }

  lemma UpdateKeeps(s: seq<Slot>, i: nat, slot: Slot)
    requires WellKept(s) && i < |s| && slot.wItem != 0 && StopsAt(s, slot.wItem, i) && slot.nAmount <= 99
    ensures WellKept(s[i := slot])
    ensures Amount(s[i := slot], slot.wItem) == slot.nAmount
    ensures forall item :: item != slot.wItem ==> Amount(s[i := slot], item) == Amount(s, item)
  {
    AmountIsFound(s[i := slot], slot.wItem, i);
    forall item | item != slot.wItem
      ensures Amount(s[i := slot], item) == Amount(s, item)
    {
      OthersKeepAmounts(s, i, slot, item);
    }
  }

  // ----- compressing -----

  /** Compressing removes exactly the slots that hold nothing, and keeps the order of the others. */
  lemma {:induction false} KeptInOrder(s: seq<Slot>, i: nat, j: nat)
    requires i < j < |Kept(s)|
    ensures exists p, q :: 0 <= p < q < |s| && s[p] == Kept(s)[i] && s[q] == Kept(s)[j]
    decreases |s|
  {
    if s[0].nAmount == 0 {
      KeptInOrder(s[1..], i, j);
      var p, q :| 0 <= p < q < |s[1..]| && s[1..][p] == Kept(s)[i] && s[1..][q] == Kept(s)[j];
      assert s[p + 1] == Kept(s)[i] && s[q + 1] == Kept(s)[j];
    } else if i > 0 {
      KeptInOrder(s[1..], i - 1, j - 1);
      var p, q :| 0 <= p < q < |s[1..]| && s[1..][p] == Kept(s)[i] && s[1..][q] == Kept(s)[j];
      assert s[p + 1] == Kept(s)[i] && s[q + 1] == Kept(s)[j];
    } else {
      var q := KeptFrom(s[1..], j - 1);
      assert s[0] == Kept(s)[0] && s[q + 1] == Kept(s)[j];
    }
  }

  lemma {:induction false} KeptFrom(s: seq<Slot>, i: nat) returns (p: nat)
    requires i < |Kept(s)|
    ensures p < |s| && s[p] == Kept(s)[i] && s[p].nAmount > 0 && s[p].wItem != 0
    decreases |s|
  {
    if s[0].nAmount > 0 && i == 0 {
      p := 0;
    } else {
      p := KeptFrom(s[1..], if s[0].nAmount > 0 then i - 1 else i);
      p := p + 1;
    }
  }

  /** No item's amount changes. */
  lemma {:induction false} KeptAmounts(s: seq<Slot>, n: nat, item: u16)
    requires WellKept(s) && |s| <= n
    ensures Amount(Padded(Kept(s), n), item) == Amount(s, item)
    decreases |s|
  {
    var t := Padded(Kept(s), n);
    if s == [] || s[0].wItem == 0 {
      assert t == [] || t[0] == EMPTY;
    } else {
      KeptAmounts(s[1..], if s[0].nAmount > 0 then n - 1 else n, item);
      if s[0].nAmount > 0 {
        assert t[1..] == Padded(Kept(s[1..]), n - 1);
      } else if s[0].wItem == item {
        AbsentAmount(s[1..], item);
      }
    }
  }

  lemma {:induction false} AbsentAmount(s: seq<Slot>, item: u16)
    requires forall i :: 0 <= i < |s| ==> s[i].wItem != item
    ensures Amount(s, item) == 0
    decreases |s|
  {
    if s != [] {
      AbsentAmount(s[1..], item);
    }
  }

  lemma KeptIsWellKept(s: seq<Slot>, n: nat)
    requires WellKept(s) && |s| <= n
    ensures WellKept(Padded(Kept(s), n))
    ensures forall i :: 0 <= i < |Kept(s)| ==> Kept(s)[i].wItem != 0 && Kept(s)[i].nAmount > 0
    ensures var t := Padded(Kept(s), n);
            |t| == n && forall i :: 0 <= i < n ==> t[i].nAmount > 0 || t[i] == Slot(0, 0, 0)
  {
    var t := Kept(s);
    forall i | 0 <= i < |t|
      ensures t[i].wItem != 0 && 0 < t[i].nAmount <= 99
    {
      var p := KeptFrom(s, i);
    }
    forall i, j | 0 <= i < j < |t|
      ensures t[i].wItem != t[j].wItem
    {
      KeptInOrder(s, i, j);
    }
    hide Kept;
  }

  lemma KeptStep(s: seq<Slot>, i: nat)
    requires i < |s|
    ensures Kept(s[i..]) == if s[i].wItem == 0 then [] else (if s[i].nAmount > 0 then [s[i]] else []) + Kept(s[i + 1..])
  {
    assert s[i..][1..] == s[i + 1..];
  }

  lemma NothingKept(s: seq<Slot>)
    requires s == [] || s[0].wItem == 0
    ensures Kept(s) == []
  {
  }

  lemma PadStep(s: seq<Slot>, n: nat)
    requires |s| <= n
    ensures Padded(s, n + 1) == Padded(s, n) + [EMPTY] && Padded(s, |s|) == s
  {
  }

  class Globals {
    const rgInventory: array<Slot>

    ghost predicate Valid()
      reads rgInventory
    {
      rgInventory.Length == MAX_INVENTORY && WellKept(rgInventory[..])
    }

    constructor ()
      ensures Valid() && forall item :: Amount(rgInventory[..], item) == 0
    {
      rgInventory := new Slot[MAX_INVENTORY](_ => EMPTY);
    }

    method AddItemToInventory(wObjectID: u16, iNum: i32) returns (r: bool)
      requires Valid() && iNum > -0x8000_0000
      modifies rgInventory
      ensures Valid() && forall item :: item != wObjectID ==> Amount(rgInventory[..], item) == old(Amount(rgInventory[..], item))
      ensures forall i :: 0 <= i < MAX_INVENTORY ==> rgInventory[i].nAmountInUse == old(rgInventory[i]).nAmountInUse
      ensures iNum >= 0 ==>
                (r <==> wObjectID != 0
                        && exists k :: 0 <= k < MAX_INVENTORY && old(rgInventory[k]).wItem in [0, wObjectID])
      ensures iNum >= 0 && !r ==> rgInventory[..] == old(rgInventory[..])
      ensures iNum >= 0 && r ==>
                Amount(rgInventory[..], wObjectID) == AmountAfter(old(rgInventory[..]), wObjectID, Number(iNum))
      ensures iNum == 0 && r ==>
                var had := old(Amount(rgInventory[..], wObjectID));
                Amount(rgInventory[..], wObjectID) == if had < 99 then had + 1 else 99
      ensures iNum > 0 && r ==>
                var sum := old(Amount(rgInventory[..], wObjectID)) + iNum;
                var held := exists k :: 0 <= k < MAX_INVENTORY && old(rgInventory[k]).wItem == wObjectID;
                var left := if held then sum % 0x1_0000 else sum;
                Amount(rgInventory[..], wObjectID) == if left < 99 then left else 99
      ensures iNum < 0 ==> (r <==> -(iNum as int) <= old(Amount(rgInventory[..], wObjectID)) as int)
      ensures iNum < 0 ==>
                var left := old(Amount(rgInventory[..], wObjectID)) as int + iNum as int;
                Amount(rgInventory[..], wObjectID) == if left > 0 then left else 0
    {
      hide WellKept, Amount;
      ghost var before := rgInventory[..];
      if wObjectID == 0 {
        NoItemZero(before);
        return false;
      }
      var num := if iNum == 0 then 1 else iNum;
      var index, found := Search(wObjectID);
      AmountIsFound(before, wObjectID, index);
      HoldsIff(before, wObjectID, index);
      if num > 0 {
        if index >= MAX_INVENTORY {
          return false;
        }
        SlotIsBounded(before, index);
        if found {
          rgInventory[index] := rgInventory[index].(nAmount := (rgInventory[index].nAmount as int + num as int) % 0x1_0000);
          if rgInventory[index].nAmount > 99 {
            rgInventory[index] := rgInventory[index].(nAmount := 99);
          }
        } else {
          rgInventory[index] := rgInventory[index].(wItem := wObjectID);
          if num > 99 {
            num := 99;
          }
          rgInventory[index] := rgInventory[index].(nAmount := num);
        }
        r := true;
      } else if found {
        SlotIsBounded(before, index);
        num := -(num as int);
        if rgInventory[index].nAmount as int < num as int {
          rgInventory[index] := rgInventory[index].(nAmount := 0);
          r := false;
        } else {
          rgInventory[index] := rgInventory[index].(nAmount := rgInventory[index].nAmount as int - num as int);
          r := true;
        }
      } else {
        return false;
      }
      UpdateKeeps(before, index, rgInventory[index]);
      assert rgInventory[..] == before[index := rgInventory[index]];
    }

    /** The search both ways of changing an amount begin with. */
    method Search(wObjectID: u16) returns (index: nat, found: bool)
      requires Valid() && wObjectID != 0
      ensures StopsAt(rgInventory[..], wObjectID, index)
      ensures found <==> index < MAX_INVENTORY && rgInventory[index].wItem == wObjectID
    {
      index := 0;
      found := false;
      while index < MAX_INVENTORY
        invariant index <= MAX_INVENTORY && !found
        invariant forall k :: 0 <= k < index ==> rgInventory[k].wItem != 0 && rgInventory[k].wItem != wObjectID
      {
        if rgInventory[index].wItem == wObjectID {
          found := true;
          break;
        } else if rgInventory[index].wItem == 0 {
          break;
        }
        index := index + 1;
      }
    }

    method GetItemAmount(wItem: u16) returns (r: u16)
      requires Valid()
      ensures r == Amount(rgInventory[..], wItem)
    {
      for i := 0 to MAX_INVENTORY
        invariant Amount(rgInventory[..], wItem) == Amount(rgInventory[i..], wItem)
      {
        assert rgInventory[i..][1..] == rgInventory[i + 1..];
        if rgInventory[i].wItem == 0 {
          return 0;
        }
        if rgInventory[i].wItem == wItem {
          return rgInventory[i].nAmount;
        }
      }
      return 0;
    }

    /** Closes the gaps that items run out of have left. */
    method CompressInventory()
      requires Valid()
      modifies rgInventory
      ensures Valid() && rgInventory[..] == Padded(Kept(old(rgInventory[..])), MAX_INVENTORY)
      ensures forall item :: Amount(rgInventory[..], item) == old(Amount(rgInventory[..], item))
      ensures forall i :: 0 <= i < MAX_INVENTORY ==> rgInventory[i].nAmount > 0 || rgInventory[i] == Slot(0, 0, 0)
    {
      hide Kept, WellKept, Padded, Amount;
      ghost var before := rgInventory[..];
      forall item: u16
        ensures Amount(Padded(Kept(before), MAX_INVENTORY), item) == Amount(before, item)
      {
        KeptAmounts(before, MAX_INVENTORY, item);
      }
      assert before[0..] == before;
      var j: nat := 0;
      var i: nat := 0;
      while i < MAX_INVENTORY && rgInventory[i].wItem != 0
        invariant j <= i <= MAX_INVENTORY
        invariant rgInventory[i..] == before[i..]
        invariant Kept(before) == rgInventory[..j] + Kept(before[i..])
      {
        KeptStep(before, i);
        if rgInventory[i].nAmount > 0 {
          rgInventory[j] := rgInventory[i];
          j := j + 1;
        }
        i := i + 1;
      }
      NothingKept(before[i..]);
      assert Kept(before) == rgInventory[..j];
      PadStep(Kept(before), j);
      while j < MAX_INVENTORY
        invariant |Kept(before)| <= j <= MAX_INVENTORY
        invariant rgInventory[..j] == Padded(Kept(before), j)
      {
        PadStep(Kept(before), j);
        rgInventory[j] := rgInventory[j].(nAmount := 0);
        rgInventory[j] := rgInventory[j].(nAmountInUse := 0);
        rgInventory[j] := rgInventory[j].(wItem := 0);
        j := j + 1;
      }
      assert rgInventory[..j] == rgInventory[..];
      KeptIsWellKept(before, MAX_INVENTORY);
    }
  }
}

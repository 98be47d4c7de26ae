/**
 The agent's bounded event ring: 256 slots, short items copied into the slot, longer ones
 held on the heap, every refusal counted.
 */
module AgentRing {
  import opened Common

  const CAP: nat := 256
  const INLINE: nat := 768

  /** A slot: an oversize item's own block, or the bytes copied into the slot. */
  datatype Slot = Slot(heap: Option<string>, len: nat, buf: string)

  function View(s: Slot): string {
    if s.heap.Some? then s.heap.value else s.buf
  }

  // ----- The ring as a value -----

  datatype Ring = Ring(slots: seq<Slot>, head: nat, count: nat, dropped: nat)
  {
    ghost predicate Valid() {
      |slots| == CAP && head < CAP && count <= CAP
    }

    function Place(i: nat): nat {
      (head + i) % CAP
    }

    /** The queued items, oldest first. */
    ghost function Contents(): (items: seq<string>)
      requires Valid()
      ensures |items| == count
      ensures forall i :: 0 <= i < count ==> items[i] == View(slots[Place(i)])
    {
      seq(count, i requires 0 <= i < count => View(slots[Place(i)]))
    }

    /** Every occupied slot records the length of its item. */
    ghost predicate Measured()
      requires Valid()
    {
      forall i :: 0 <= i < count ==> slots[Place(i)].len == |View(slots[Place(i)])|
    }
  }

  /** Whether an item is queued: there is room, and a copy that needs the heap got its block. */
  predicate Admits(r: Ring, item: string, owned: bool, allocOk: bool) {
    r.count < CAP && (owned || |item| < INLINE || allocOk)
  }

  function Fill(old_: Slot, item: string, owned: bool): Slot {
    if owned || |item| >= INLINE then Slot(Some(item), |item|, old_.buf) else Slot(None, |item|, item)
  }

  /** A push; `owned` says the caller hands over a heap block, `allocOk` how an allocation would go. */
  function Push(r: Ring, item: string, owned: bool, allocOk: bool): (r': Ring)
    requires r.Valid()
    ensures r'.Valid()
  {
    if r.count >= CAP then r.(dropped := r.dropped + 1)
    else
      var i := r.Place(r.count);
      if Admits(r, item, owned, allocOk) then
        r.(slots := r.slots[i := Fill(r.slots[i], item, owned)], count := r.count + 1)
      else
        r.(slots := r.slots[i := r.slots[i].(heap := None)], dropped := r.dropped + 1)
  }

  function Pop(r: Ring): (r': Ring)
    requires r.Valid()
    ensures r'.Valid()
  {
    if r.count == 0 then r
    else
      Ring(r.slots[r.head := r.slots[r.head].(heap := None)], (r.head + 1) % CAP, r.count - 1, r.dropped)
  }

  /** A push appends or counts a refusal; the occupied slots keep their bytes. */
  lemma PushIsEnqueue(r: Ring, item: string, owned: bool, allocOk: bool)
    requires r.Valid()
    ensures var r' := Push(r, item, owned, allocOk);
            && (Admits(r, item, owned, allocOk) ==>
                  r'.Contents() == r.Contents() + [item] && r'.dropped == r.dropped)
            && (!Admits(r, item, owned, allocOk) ==>
                  r'.Contents() == r.Contents() && r'.dropped == r.dropped + 1)
            && r'.head == r.head
            && forall i :: 0 <= i < r.count ==> r'.slots[r.Place(i)] == r.slots[r.Place(i)]
  {
    var r' := Push(r, item, owned, allocOk);
    if r.count < CAP {
      var at := r.Place(r.count);
      forall i | 0 <= i < r.count ensures r.Place(i) != at && r'.Place(i) == r.Place(i) {
        Apart(r.head, i, r.count);
      }
      if Admits(r, item, owned, allocOk) {
        assert View(r'.slots[at]) == item;
      }
    }
  }

  /** A push is refused by a full ring, or by an item too long for its slot when there is no memory; by nothing else. */
  lemma RefusedIff(r: Ring, item: string, owned: bool, allocOk: bool)
    requires r.Valid()
    ensures var r' := Push(r, item, owned, allocOk);
            if r.count == 256 || (!owned && |item| >= 768 && !allocOk)
            then r'.Contents() == r.Contents() && r'.dropped == r.dropped + 1
            else r'.Contents() == r.Contents() + [item] && r'.dropped == r.dropped
  {
    PushIsEnqueue(r, item, owned, allocOk);
  }

  lemma PushMeasures(r: Ring, item: string, owned: bool, allocOk: bool)
    requires r.Valid() && r.Measured()
    ensures Push(r, item, owned, allocOk).Measured()
  {
    var r' := Push(r, item, owned, allocOk);
    forall i | 0 <= i < r'.count ensures r'.slots[r'.Place(i)].len == |View(r'.slots[r'.Place(i)])| {
      assert r'.Place(i) == r.Place(i);
      if i < r.count {
        assert r.slots[r.Place(i)].len == |View(r.slots[r.Place(i)])|;
        if r.count < CAP {
          Apart(r.head, i, r.count);
        }
      } else {
        assert r'.slots[r.Place(i)] == Fill(r.slots[r.Place(i)], item, owned);
      }
    }
  }

  lemma PopMeasures(r: Ring)
    requires r.Valid() && r.Measured()
    ensures Pop(r).Measured()
  {
    if r.count > 0 {
      var r' := Pop(r);
      forall i | 0 <= i < r'.count ensures r'.slots[r'.Place(i)].len == |View(r'.slots[r'.Place(i)])| {
        assert r'.Place(i) == r.Place(i + 1) != r.head;
      }
    }
  }

  lemma Apart(head: nat, i: nat, j: nat)
    requires head < CAP && i < j < CAP
    ensures (head + i) % CAP != (head + j) % CAP
  {
  }

  lemma PopIsDequeue(r: Ring)
    requires r.Valid()
    ensures Pop(r).dropped == r.dropped
    ensures Pop(r).Contents() == if r.count == 0 then [] else r.Contents()[1..]
  {
    if r.count > 0 {
      var r' := Pop(r);
      forall i | 0 <= i < r'.count
        ensures View(r'.slots[r'.Place(i)]) == r.Contents()[i + 1]
      {
        assert r'.Place(i) == r.Place(i + 1) != r.head;
      }
    }
  }

  // ----- The ring in place -----

  class EventRing {
    const slots: array<Slot>
    var head: nat
    var count: nat
    var dropped: nat

    ghost predicate Valid()
      reads this, slots
    {
      slots.Length == CAP && head < CAP && count <= CAP && Value().Measured()
    }

    ghost function Value(): Ring
      reads this, slots
    {
      Ring(slots[..], head, count, dropped)
    }

    constructor ()
      ensures Valid() && fresh(slots)
      ensures Value().Contents() == [] && dropped == 0
    {
      slots := new Slot[CAP](_ => Slot(None, 0, ""));
      head, count, dropped := 0, 0, 0;
    }

    method PushItem(item: string, owned: bool, allocOk: bool) returns (ok: bool)
      requires Valid()
      modifies this, slots
      ensures Valid()
      ensures Value() == Push(old(Value()), item, owned, allocOk)
      ensures ok == Admits(old(Value()), item, owned, allocOk)
    {
      ghost var before := Value();
      PushMeasures(before, item, owned, allocOk);
      if count >= CAP {
        dropped := dropped + 1;
        return false;
      }
      var at := (head + count) % CAP;
      slots[at] := slots[at].(heap := None);
      if owned {
        slots[at] := slots[at].(heap := Some(item));
      } else if |item| > INLINE - 1 {
        if !allocOk {
          dropped := dropped + 1;
          assert Value() == Push(before, item, owned, allocOk);
          return false;
        }
        slots[at] := slots[at].(heap := Some(item));
      } else {
        slots[at] := slots[at].(buf := item);
      }
      slots[at] := slots[at].(len := |item|);
      count := count + 1;
      assert Value() == Push(before, item, owned, allocOk);
      return true;
    }

    method Peek() returns (view: Option<string>, len: nat)
      requires Valid()
      ensures view == if count == 0 then None else Some(Value().Contents()[0])
      ensures count > 0 ==> len == |view.value|
    {
      if count == 0 {
        return None, 0;
      }
      var slot := slots[head];
      assert Value().Place(0) == head;
      len := slot.len;
      view := if slot.heap.Some? then slot.heap else Some(slot.buf);
    }

    method PopItem()
      requires Valid()
      modifies this, slots
      ensures Valid()
      ensures Value() == Pop(old(Value()))
    {
      ghost var before := Value();
      PopMeasures(before);
      if count == 0 {
        return;
      }
      slots[head] := slots[head].(heap := None);
      head := (head + 1) % CAP;
      count := count - 1;
      assert Value() == Pop(before);
    }
  }
}

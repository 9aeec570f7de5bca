/** The compile-time arena of firmware/src/services/settings.hpp: slots laid end to end in one payload
    buffer, each found by walking the slot list. */
module Arena {
  import opened SettingsProtocol

  /** A slot type: its identifier, the size of its data and its default value. */
  datatype Slot = Slot(id: bv16, size: nat, init: seq<bv8>)

  predicate Distinct(slots: seq<Slot>) {
    (forall s | s in slots :: |s.init| == s.size) && (forall i, j | 0 <= i < j < |slots| :: slots[i] != slots[j])
  }

  function TotalSize(slots: seq<Slot>): nat { if slots == [] then 0 else slots[0].size + TotalSize(slots[1..]) }

  /** offset_impl: walk the list, adding sizes, until the target is met. */
  function OffsetImpl(target: Slot, slots: seq<Slot>, acc: nat): nat
    decreases slots
  {
    if slots == [] then acc
    else if slots[0] == target then acc
    else OffsetImpl(target, slots[1..], acc + slots[0].size)
  }

  function OffsetOf(target: Slot, slots: seq<Slot>): nat { OffsetImpl(target, slots, 0) }

  function Defaults(slots: seq<Slot>): seq<bv8> { if slots == [] then [] else slots[0].init + Defaults(slots[1..]) }

  // ---------------------------------------------------------------- layout

  lemma {:induction false} OffsetIsPrefixSize(slots: seq<Slot>, i: nat, acc: nat)
    requires Distinct(slots) && i < |slots|
    ensures OffsetImpl(slots[i], slots, acc) == acc + TotalSize(slots[..i])
    decreases i
  {
    if i > 0 {
      assert slots[1..][i - 1] == slots[i];
      OffsetIsPrefixSize(slots[1..], i - 1, acc + slots[0].size);
      assert slots[..i][1..] == slots[1..][..i - 1];
    }
  }

  lemma {:induction false} TotalSizeSplit(slots: seq<Slot>, i: nat)
    requires i <= |slots|
    ensures TotalSize(slots) == TotalSize(slots[..i]) + TotalSize(slots[i..])
    decreases i
  {
    if i > 0 {
      TotalSizeSplit(slots[1..], i - 1);
      assert slots[..i][1..] == slots[1..][..i - 1] && slots[1..][i - 1..] == slots[i..];
    }
  }

  /** The windows follow one another without gap or overlap, the last one ending at the payload's end. */
  lemma WindowsTile(slots: seq<Slot>, i: nat)
    requires Distinct(slots) && i < |slots|
    ensures i == 0 ==> OffsetOf(slots[i], slots) == 0
    ensures OffsetOf(slots[i], slots) + slots[i].size ==
            if i + 1 < |slots| then OffsetOf(slots[i + 1], slots) else TotalSize(slots)
  {
    OffsetIsPrefixSize(slots, i, 0);
    TotalSizeSplit(slots[..i + 1], i);
    assert slots[..i + 1][..i] == slots[..i] && slots[..i + 1][i..] == [slots[i]];
    assert TotalSize([slots[i]]) == slots[i].size;
    if i + 1 < |slots| { OffsetIsPrefixSize(slots, i + 1, 0); } else { assert slots[..i + 1] == slots; }
  }

  lemma {:induction false} WindowsOrdered(slots: seq<Slot>, i: nat, j: nat)
    requires Distinct(slots) && i < j < |slots|
    ensures OffsetOf(slots[i], slots) + slots[i].size <= OffsetOf(slots[j], slots)
    decreases j
  {
    WindowsTile(slots, j - 1);
    if i < j - 1 { WindowsOrdered(slots, i, j - 1); }
  }

  lemma WindowInside(slots: seq<Slot>, i: nat)
    requires Distinct(slots) && i < |slots|
    ensures OffsetOf(slots[i], slots) + slots[i].size <= TotalSize(slots)
  {
    OffsetIsPrefixSize(slots, i, 0);
    TotalSizeSplit(slots, i);
  }

  predicate InWindow(slots: seq<Slot>, i: nat, b: nat)
    requires i < |slots|
  {
    OffsetOf(slots[i], slots) <= b < OffsetOf(slots[i], slots) + slots[i].size
  }

  /** Every payload byte belongs to exactly one slot. */
  lemma {:induction false} ExactlyOneOwner(slots: seq<Slot>, b: nat) returns (i: nat)
    requires Distinct(slots) && b < TotalSize(slots)
    ensures i < |slots| && InWindow(slots, i, b)
    ensures forall j | 0 <= j < |slots| && InWindow(slots, j, b) :: j == i
  {
    i := 0;
    WindowsTile(slots, 0);
    while b >= OffsetOf(slots[i], slots) + slots[i].size
      invariant i < |slots| && OffsetOf(slots[i], slots) <= b
      decreases |slots| - i
    {
      WindowsTile(slots, i);
      i := i + 1;
    }
    forall j | 0 <= j < |slots| && InWindow(slots, j, b) ensures j == i {
      if j < i { WindowsOrdered(slots, j, i); } else if i < j { WindowsOrdered(slots, i, j); }
    }
  }

  // ---------------------------------------------------------------- the buffer

  class Store {
    const slots: seq<Slot>
    const payload: array<bv8>

    ghost predicate Valid() { Distinct(slots) && payload.Length == TotalSize(slots) }

    constructor (slots: seq<Slot>)
      requires Distinct(slots)
      ensures Valid() && fresh(payload) && this.slots == slots
      ensures payload[..] == seq(TotalSize(slots), i => 0)
    {
      this.slots := slots;
      payload := new bv8[TotalSize(slots)](i => 0);
    }

    /** What get<S>() refers to. */
    ghost function Get(i: nat): seq<bv8>
      requires Valid() && i < |slots|
      reads payload
    {
      WindowInside(slots, i);
      payload[OffsetOf(slots[i], slots)..OffsetOf(slots[i], slots) + slots[i].size]
    }

    /** An assignment through get<S>(): it changes that slot and no other. */
    method Put(i: nat, data: seq<bv8>)
      requires Valid() && i < |slots| && |data| == slots[i].size
      modifies payload
      ensures Get(i) == data
      ensures forall j | 0 <= j < |slots| && j != i :: Get(j) == old(Get(j))
    {
      var at := OffsetOf(slots[i], slots);
      WindowInside(slots, i);
      forall k | 0 <= k < |data| { payload[at + k] := data[k]; }
      forall j | 0 <= j < |slots| && j != i ensures Get(j) == old(Get(j)) {
        WindowInside(slots, j);
        if j < i { WindowsOrdered(slots, j, i); } else { WindowsOrdered(slots, i, j); }
      }
    }

    /** load_defaults: afterwards every slot reads its own default, and nothing is left over. */
    method LoadDefaults()
      requires Valid()
      modifies payload
      ensures forall j | 0 <= j < |slots| :: Get(j) == slots[j].init
      ensures payload[..] == Defaults(slots)
    {
      for i := 0 to |slots|
        invariant forall j | 0 <= j < i :: Get(j) == slots[j].init
      {
        Put(i, slots[i].init);
      }
      DefaultsLength(slots);
      forall b | 0 <= b < payload.Length ensures payload[b] == Defaults(slots)[b] {
        var i := ExactlyOneOwner(slots, b);
        var at := OffsetOf(slots[i], slots);
        DefaultsInWindow(slots, i);
        assert payload[b] == Get(i)[b - at];
        assert Defaults(slots)[b] == Defaults(slots)[at..at + slots[i].size][b - at];
      }
    }
  }

  lemma {:induction false} DefaultsSplit(slots: seq<Slot>, i: nat)
    requires Distinct(slots) && i < |slots|
    ensures Defaults(slots) == Defaults(slots[..i]) + slots[i].init + Defaults(slots[i + 1..])
    decreases i
  {
    if i == 0 {
      assert slots[..i] == [];
    } else {
      var rest := slots[1..];
      DefaultsSplit(rest, i - 1);
      assert slots[..i][1..] == rest[..i - 1] && slots[i + 1..] == rest[i..];
      Regroup(slots[0].init, Defaults(rest[..i - 1]), slots[i].init, Defaults(rest[i..]));
    }
  }

  lemma Regroup(a: seq<bv8>, b: seq<bv8>, c: seq<bv8>, d: seq<bv8>)
    ensures a + (b + c + d) == (a + b) + c + d
  {
  }

  lemma {:induction false} DefaultsLength(slots: seq<Slot>)
    requires forall s | s in slots :: |s.init| == s.size
    ensures |Defaults(slots)| == TotalSize(slots)
  {
    if slots != [] { DefaultsLength(slots[1..]); }
  }

  /** The concatenated defaults hold each slot's default in its window. */
  lemma DefaultsInWindow(slots: seq<Slot>, i: nat)
    requires Distinct(slots) && i < |slots|
    ensures |Defaults(slots)| == TotalSize(slots)
    ensures var at := OffsetOf(slots[i], slots);
            at + slots[i].size <= |Defaults(slots)| && Defaults(slots)[at..at + slots[i].size] == slots[i].init
  {
    OffsetIsPrefixSize(slots, i, 0);
    DefaultsSplit(slots, i);
    DefaultsLength(slots[..i]);
    DefaultsLength(slots);
    WindowInside(slots, i);
  }

  // ---------------------------------------------------------------- the slots of this firmware

  const LIGHTING: Slot := Slot(0x0001, 12, [1, 255, 255, 0, 0, 0, 255, 0, 0, 0, 255, 0])

  const DPI: Slot := Slot(0x0002, 14, [0x20, 0x03, 0x40, 0x06, 0x60, 0x09, 0x80, 0x0C, 0x00, 0x00, 4, 1, 0, 0])

  const SLOTS: seq<Slot> := [LIGHTING, DPI]

  /** The two slots make the 26-byte payload and the default settings of the log. */
  lemma FirmwareSlots()
    ensures Distinct(SLOTS) && TotalSize(SLOTS) == 26 && Defaults(SLOTS) == DEFAULTS
  {
    var slots, lighting, dpi := SLOTS, LIGHTING, DPI;
    assert slots[1..] == [dpi];
    assert Defaults([dpi]) == dpi.init + Defaults([dpi][1..]) == dpi.init;
    assert Defaults(slots) == lighting.init + dpi.init;
    assert TotalSize([dpi]) == 14;
    assert lighting.id == 1 && dpi.id == 2;
  }
}

/** The L2 bridge ether-type table (arht_ppe.c, "L2B Ether Type Configuration").

The hardware packs sixteen slots into registers: one word holds the enable bits and
the PPPoE bits, eight words hold two 16-bit ether types each, and on AN7581 a second
bank mirrors the first.  `Table` is what the registers mean; the class `PpeRegs` is how
the driver reads and writes them. */
module L2bEtherTypes {
  import opened Words

  const MAX_INDEX := 16
  const ENOENT := 2
  const ENODEV := 19
  const EINVAL := 22
  const ENOSPC := 28

  datatype Slot = Slot(enabled: bool, pppoe: bool, etype: u16)

  const CLEARED := Slot(false, false, 0)

  type Table = t: seq<Slot> | |t| == MAX_INDEX witness seq(MAX_INDEX, i => CLEARED)

  predicate Matches(s: Slot, etype: u16, pppoe: bool) {
    s.enabled && s.etype == etype && s.pppoe == pppoe
  }

  predicate Free(s: Slot) {
    !s.enabled && s.etype == 0
  }

  /** `r` is the first slot enabled with this pair, or MAX_INDEX if there is none. */
  ghost predicate FirstMatch(t: Table, etype: u16, pppoe: bool, r: nat) {
    && r <= MAX_INDEX
    && (r < MAX_INDEX ==> Matches(t[r], etype, pppoe))
    && (forall j :: 0 <= j < r ==> !Matches(t[j], etype, pppoe))
  }

  lemma {:induction false} FirstMatchExists(t: Table, etype: u16, pppoe: bool, i: nat)
    requires i <= MAX_INDEX && forall j :: 0 <= j < i ==> !Matches(t[j], etype, pppoe)
    ensures exists r: nat :: FirstMatch(t, etype, pppoe, r)
    decreases MAX_INDEX - i
  {
    if i == MAX_INDEX || Matches(t[i], etype, pppoe) {
      assert FirstMatch(t, etype, pppoe, i);
    } else {
      FirstMatchExists(t, etype, pppoe, i + 1);
    }
  }

  ghost function Find(t: Table, etype: u16, pppoe: bool): (r: nat)
    ensures FirstMatch(t, etype, pppoe, r)
  {
    FirstMatchExists(t, etype, pppoe, 0);
    var r: nat :| FirstMatch(t, etype, pppoe, r);
    r
  }

  /** `r` is the first slot that is disabled and zero, or MAX_INDEX if there is none. */
  ghost predicate FirstFree(t: Table, r: nat) {
    && r <= MAX_INDEX
    && (r < MAX_INDEX ==> Free(t[r]))
    && (forall j :: 0 <= j < r ==> !Free(t[j]))
  }

  lemma {:induction false} FirstFreeExists(t: Table, i: nat)
    requires i <= MAX_INDEX && forall j :: 0 <= j < i ==> !Free(t[j])
    ensures exists r: nat :: FirstFree(t, r)
    decreases MAX_INDEX - i
  {
    if i == MAX_INDEX || Free(t[i]) {
      assert FirstFree(t, i);
    } else {
      FirstFreeExists(t, i + 1);
    }
  }

  ghost function FindFree(t: Table): (r: nat)
    ensures FirstFree(t, r)
  {
    FirstFreeExists(t, 0);
    var r: nat :| FirstFree(t, r);
    r
  }

  lemma FindIsLeast(t: Table, etype: u16, pppoe: bool, k: nat)
    requires k < MAX_INDEX && Matches(t[k], etype, pppoe)
    requires forall j :: 0 <= j < k ==> !Matches(t[j], etype, pppoe)
    ensures Find(t, etype, pppoe) == k
  {
    var f := Find(t, etype, pppoe);
    if f < k {
      assert false;
    }
  }

  datatype AutoResult = AutoResult(table: Table, ret: int, existed: bool)

  /** Use the slot that already holds the pair, else claim the first free slot. */
  ghost function AutoSet(t: Table, etype: u16, pppoe: bool): AutoResult {
    var found := Find(t, etype, pppoe);
    if found < MAX_INDEX then AutoResult(t, found, true)
    else
      var free := FindFree(t);
      if free == MAX_INDEX then AutoResult(t, -ENOSPC, false)
      else AutoResult(t[free := Slot(true, pppoe, etype)], free, false)
  }

  ghost function AutoClear(t: Table, etype: u16, pppoe: bool): Table {
    var found := Find(t, etype, pppoe);
    if found < MAX_INDEX then t[found := CLEARED] else t
  }

  /** No two enabled slots hold the same (ether type, PPPoE) pair. */
  ghost predicate NoDuplicates(t: Table) {
    forall i, j :: 0 <= i < j < MAX_INDEX && t[i].enabled && t[j].enabled ==> t[i] != t[j]
  }

  /** After a successful auto-set a lookup of the pair succeeds at the returned index,
      whether or not the pair was there before; at most that slot changed. */
  lemma AutoSetThenFind(t: Table, etype: u16, pppoe: bool)
    ensures var r := AutoSet(t, etype, pppoe);
            r.ret >= 0 ==> r.ret < MAX_INDEX && Find(r.table, etype, pppoe) == r.ret
                           && forall j :: 0 <= j < MAX_INDEX && j != r.ret ==> r.table[j] == t[j]
    ensures var r := AutoSet(t, etype, pppoe); r.ret < 0 ==> r.ret == -ENOSPC && r.table == t
  {
    var found := Find(t, etype, pppoe);
    var free := FindFree(t);
    if found == MAX_INDEX && free < MAX_INDEX {
      FindIsLeast(t[free := Slot(true, pppoe, etype)], etype, pppoe, free);
    }
  }

  /** "No space" is reported exactly when the pair is new and no slot is disabled and zero. */
  lemma NoSpaceExactly(t: Table, etype: u16, pppoe: bool)
    ensures AutoSet(t, etype, pppoe).ret == -ENOSPC
       <==> forall j :: 0 <= j < 16 ==>
              if t[j].enabled then t[j].etype != etype || t[j].pppoe != pppoe else t[j].etype != 0
  {
    var f := FindFree(t);
    var m := Find(t, etype, pppoe);
  }

  lemma AutoSetKeepsNoDuplicates(t: Table, etype: u16, pppoe: bool)
    requires NoDuplicates(t)
    ensures NoDuplicates(AutoSet(t, etype, pppoe).table)
  {
    var r := AutoSet(t, etype, pppoe);
    if !r.existed && r.ret >= 0 {
      assert forall j :: 0 <= j < MAX_INDEX ==> !Matches(t[j], etype, pppoe);
    }
  }

  /** What the two packed words say about slot `i`. */
  function SlotOf(en: bits, pair: u32, i: nat): Slot
    requires i < MAX_INDEX
  {
    Slot(i in en, i + 16 in en, Half(pair, i % 2 == 1))
  }

  /** Eight registers, each for two neighbouring slots. */
  type Row = r: seq<u32> | |r| == 8 witness seq(8, i => 0)

  function Unpack(en: bits, pairs: Row): Table {
    seq(MAX_INDEX, i requires 0 <= i < MAX_INDEX => SlotOf(en, pairs[i / 2], i))
  }

  /** One slot written, bit by bit: enable is bit `index`, PPPoE bit `index + 16`, and the ether
      type the low or, for an odd index, the high half of word `index / 2`. */
  ghost predicate Puts(en: bits, pairs: Row, index: nat, enable: bool, pppoe: bool, value: u32,
                       en': bits, pairs': Row)
  {
    && index < 16
    && (forall b: nat :: b < 32 ==>
          (b in en' <==> if b == index then enable else if b == index + 16 then enable && pppoe else b in en))
    && (forall r: nat :: r < 8 && r != index / 2 ==> pairs'[r] == pairs[r])
    && var was, now, half := pairs[index / 2], pairs'[index / 2], value % 0x1_0000;
       now == if index % 2 == 1 then was % 0x1_0000 + half * 0x1_0000 else was / 0x1_0000 * 0x1_0000 + half
  }

  /** One slot written: the other fifteen, and the other half-word, keep their meaning. */
  lemma PutsOneSlot(en: bits, pairs: Row, index: nat, enable: bool, pppoe: bool, value: u32,
                    en': bits, pairs': Row)
    requires Puts(en, pairs, index, enable, pppoe, value, en', pairs')
    ensures Unpack(en', pairs') == Unpack(en, pairs)[index := Slot(enable, enable && pppoe, value % TWO16)]
  {
    var t, u := Unpack(en, pairs), Unpack(en', pairs');
    var high := index % 2 == 1;
    HalfWritten(pairs[index / 2], high, value);
    assert pairs'[index / 2] == WithHalf(pairs[index / 2], high, value);
    forall j | 0 <= j < MAX_INDEX
      ensures u[j] == t[index := Slot(enable, enable && pppoe, value % TWO16)][j]
    {
    }
  }

  class PpeRegs {
    const present: bool            // glb_eth is set
    const is7581: bool
    var etypeEn0: bits      // REG_PPE_L2B_ETYPE_EN(0)
    var etypeEn1: bits      // REG_PPE_L2B_ETYPE_EN(1)
    var etypeN0: Row        // REG_PPE_L2B_ETYPE_N(0, slot)
    var etypeN1: Row        // REG_PPE_L2B_ETYPE_N(1, slot)

    constructor (present: bool, is7581: bool)
      ensures this.present == present && this.is7581 == is7581
    {
      this.present, this.is7581 := present, is7581;
    }

    function View(): Table
      reads this
    {
      Unpack(etypeEn0, etypeN0)
    }

    /** The two banks agree. */
    predicate Mirrored()
      reads this
    {
      etypeEn1 == etypeEn0 && etypeN1 == etypeN0
    }

    method GetEtherType(index: nat) returns (value: u16)
      ensures value == if present && index < MAX_INDEX then View()[index].etype else 0
    {
      if !present || index > 15 {
        return 0;
      }
      value := Half(etypeN0[index / 2], index % 2 == 1);
    }

    method IsEnabled(index: nat) returns (on: bool)
      ensures on == (present && index < MAX_INDEX && View()[index].enabled)
    {
      if !present || index > 15 {
        return false;
      }
      on := index in etypeEn0;
    }

    method IsPppoe(index: nat) returns (on: bool)
      ensures on == (present && index < MAX_INDEX && View()[index].pppoe)
    {
      if !present || index > 15 {
        return false;
      }
      on := index + 16 in etypeEn0;
    }

    method FindIndex(etype: u16, pppoe: bool) returns (idx: int)
      ensures 0 <= idx ==> present && idx == Find(View(), etype, pppoe) && idx < MAX_INDEX
      ensures idx < 0 ==> idx == -ENOENT && (present ==> Find(View(), etype, pppoe) == MAX_INDEX)
    {
      var i := 0;
      while i < MAX_INDEX
        invariant 0 <= i <= MAX_INDEX
        invariant present ==> forall j :: 0 <= j < i ==> !Matches(View()[j], etype, pppoe)
      {
        var on := IsEnabled(i);
        var value := GetEtherType(i);
        var isPppoe := IsPppoe(i);
        if on && value == etype && isPppoe == pppoe {
          assert Matches(View()[i], etype, pppoe);
          return i;
        }
        i := i + 1;
      }
      idx := -ENOENT;
    }

    method FindFreeIndex() returns (idx: int)
      ensures present ==> idx == if FindFree(View()) < MAX_INDEX then FindFree(View()) else -ENOSPC
      ensures !present ==> idx == 0
    {
      var i := 0;
      while i < MAX_INDEX
        invariant 0 <= i <= MAX_INDEX
        invariant !present ==> i == 0
        invariant present ==> forall j :: 0 <= j < i ==> !Free(View()[j])
      {
        var on := IsEnabled(i);
        var value := GetEtherType(i);
        if !on && value == 0 {
          assert present ==> Free(View()[i]);
          return i;
        }
        i := i + 1;
      }
      idx := -ENOSPC;
    }

    /** Writes one slot; the other fifteen, and the other half-word, keep their meaning. */
    method SetEtherType(index: nat, enable: bool, pppoe: bool, value: u32) returns (ret: int)
      modifies this
      ensures ret == if !present then -ENODEV else if index < MAX_INDEX then 0 else -EINVAL
      ensures View() == if ret < 0 then old(View())
                        else old(View())[index := Slot(enable, enable && pppoe, value % TWO16)]
      ensures ret == 0 ==> Puts(old(etypeEn0), old(etypeN0), index, enable, pppoe, value, etypeEn0, etypeN0)
      ensures ret != 0 ==> etypeEn0 == old(etypeEn0) && etypeN0 == old(etypeN0)
      ensures is7581 && old(Mirrored()) ==> Mirrored()
      ensures !is7581 ==> etypeEn1 == old(etypeEn1) && etypeN1 == old(etypeN1)
    {
      if !present {
        return -ENODEV;
      }
      if index > 15 {
        return -EINVAL;
      }
      var en: bits := etypeEn0;
      if enable {
        en := en + {index};
        if pppoe {
          en := en + {index + 16};
        } else {
          en := en - {index + 16};
        }
      } else {
        en := en - {index};
        en := en - {index + 16};
      }
      etypeEn0 := en;
      if is7581 {
        etypeEn1 := en;
      }
      var high := index % 2 == 1;
      var pair := WithHalf(etypeN0[index / 2], high, value);
      etypeN0 := etypeN0[index / 2 := pair];
      if is7581 {
        etypeN1 := etypeN1[index / 2 := pair];
      }
      ret := 0;
      PutsOneSlot(old(etypeEn0), old(etypeN0), index, enable, pppoe, value, etypeEn0, etypeN0);
    }

    method SetAuto(etype: u16, pppoe: bool) returns (ret: int, existed: bool)
      modifies this
      ensures !present ==> ret == -ENODEV && !existed && View() == old(View())
      ensures present ==> AutoResult(View(), ret, existed) == AutoSet(old(View()), etype, pppoe)
      ensures ret < 0 ==> View() == old(View())
      ensures is7581 && old(Mirrored()) ==> Mirrored()
    {
      existed := false;
      if !present {
        return -ENODEV, false;
      }
      ghost var before := View();
      var idx := FindIndex(etype, pppoe);
      if idx >= 0 {
        return idx, true;
      }
      idx := FindFreeIndex();
      if idx < 0 {
        return -ENOSPC, false;
      }
      ret := SetEtherType(idx, true, pppoe, etype);
      assert AutoSet(before, etype, pppoe) == AutoResult(before[idx := Slot(true, pppoe, etype)], idx, false);
      ret := idx;
    }

    method ClearAuto(etype: u16, pppoe: bool) returns (ret: int)
      modifies this
      ensures ret == if present then 0 else -ENODEV
      ensures View() == if present then AutoClear(old(View()), etype, pppoe) else old(View())
      ensures is7581 && old(Mirrored()) ==> Mirrored()
    {
      if !present {
        return -ENODEV;
      }
      var idx := FindIndex(etype, pppoe);
      if idx < 0 {
        return 0;
      }
      ret := SetEtherType(idx, false, pppoe, 0);
    }
  }
}

/** The LRO ring allocator (arht_dp_api.c, airoha_get_free_lro_ring) and the liveness test it
asks the flow table for (arht_ppe.c, ppe_entry_is_valid). */
module LroRings {
  import opened Words

  const RING_NUM := 4
  const RING_START := 0xC
  const RING_END := 0xF
  const SLOTS := 8
  const FALLBACK := 1

  datatype Slot = Slot(reserved: bool, entry: u32)
  type Slots = s: seq<Slot> | |s| == SLOTS witness seq(SLOTS, _ => Slot(false, 0))

  datatype PacketType = Ipv4Hnapt | Ipv6Route5T | OtherType

  /** What the flow table holds at an index. */
  datatype Foe = NoEntry | Entry(ptype: PacketType, invalid: bool, nbq: nat)

  type FlowTable = u32 -> Foe

  // ---- Liveness

  /** The queue number that stands for a ring in a flow entry: two rings share each. */
  function NbqOf(ring: int): int {
    if ring <= RING_END then ring else ring - RING_NUM
  }

  /** Rings 12 to 15 carry their own numbers and rings 16 to 19 the same four again. */
  lemma NbqTable(ring: int)
    requires 12 <= ring < 20
    ensures NbqOf(ring) == [12, 13, 14, 15, 12, 13, 14, 15][ring - 12]
  {
  }

  /** The entry is a bound flow whose packets go to this ring. */
  predicate Live(foe: FlowTable, entry: u32, ring: int) {
    && foe(entry).Entry?
    && foe(entry).ptype != OtherType
    && !foe(entry).invalid
    && foe(entry).nbq == NbqOf(ring)
  }

  /** ppe_entry_is_valid: despite its name it returns zero exactly for a live entry. */
  method EntryIsValid(foe: FlowTable, entry: u32, ring: int) returns (ret: int)
    ensures ret == 0 <==> Live(foe, entry, ring)
    ensures ret == 0 <==>
            var e := foe(entry);
            && e.Entry? && (e.ptype.Ipv4Hnapt? || e.ptype.Ipv6Route5T?) && !e.invalid
            && e.nbq == if ring <= 15 then ring else ring - 4
    ensures ret == -1 <==> foe(entry).NoEntry? || foe(entry).ptype == OtherType
    ensures ret in {-1, 0, 1}
  {
    var hwe := foe(entry);
    if hwe.NoEntry? {
      return -1;
    }
    var nbq := 0;
    if hwe.ptype == Ipv4Hnapt {
      nbq := hwe.nbq;
    } else if hwe.ptype == Ipv6Route5T {
      nbq := hwe.nbq;
    } else {
      return -1;
    }
    if hwe.invalid || nbq != (if ring <= RING_END then ring else ring - RING_NUM) {
      return 1;
    } else {
      return 0;
    }
  }

  // ---- Allocation

  /** Slot `i` can be given to `asker` in the first scan: it is the asker's already, or its
      holder is no longer live. */
  predicate Hit(s: Slots, foe: FlowTable, asker: u32, i: nat)
    requires i < SLOTS
  {
    s[i].reserved && (!Live(foe, s[i].entry, RING_START + i) || s[i].entry == asker)
  }

  function FirstHit(s: Slots, foe: FlowTable, asker: u32, i: nat): (k: nat)
    requires i <= SLOTS
    ensures i <= k <= SLOTS
    ensures k < SLOTS ==> Hit(s, foe, asker, k)
    ensures forall j: nat :: i <= j < k ==> !Hit(s, foe, asker, j)
    decreases SLOTS - i
  {
    if i == SLOTS || Hit(s, foe, asker, i) then i else FirstHit(s, foe, asker, i + 1)
  }

  function FirstFree(s: Slots, i: nat): (k: nat)
    requires i <= SLOTS
    ensures i <= k <= SLOTS
    ensures k < SLOTS ==> !s[k].reserved
    ensures forall j: nat :: i <= j < k ==> s[j].reserved
    decreases SLOTS - i
  {
    if i == SLOTS || !s[i].reserved then i else FirstFree(s, i + 1)
  }

  /** The slot a call takes, or none. */
  function Choice(s: Slots, foe: FlowTable, asker: u32): (k: nat)
    ensures k <= SLOTS
  {
    if FirstHit(s, foe, asker, 0) < SLOTS then FirstHit(s, foe, asker, 0) else FirstFree(s, 0)
  }

  function Ring(s: Slots, foe: FlowTable, asker: u32): nat {
    if Choice(s, foe, asker) < SLOTS then RING_START + Choice(s, foe, asker) else FALLBACK
  }

  function After(s: Slots, foe: FlowTable, asker: u32): Slots {
    var k := Choice(s, foe, asker);
    if k < SLOTS then s[k := Slot(true, asker)] else s
  }

  /** A granted ring is reserved for the asker and no other slot changes.  It is the lowest ring
      that the asker holds already or whose holder is not live, and where there is none the
      lowest that nobody holds. */
  lemma GrantIsSound(s: Slots, foe: FlowTable, asker: u32)
    requires Ring(s, foe, asker) != 1
    ensures var k, t := Ring(s, foe, asker) - 12, After(s, foe, asker);
            && 0 <= k < 8
            && t[k] == Slot(true, asker)
            && (forall j :: 0 <= j < 8 && j != k ==> t[j] == s[j])
            && (s[k].reserved ==> s[k].entry == asker || !Live(foe, s[k].entry, 12 + k))
            && (forall j: nat :: j < (if s[k].reserved then k else 8) && s[j].reserved ==>
                  s[j].entry != asker && Live(foe, s[j].entry, 12 + j))
            && (!s[k].reserved ==> forall j: nat :: j < k ==> s[j].reserved)
  {
    var k := Ring(s, foe, asker) - RING_START;
    forall j: nat | j < (if s[k].reserved then k else SLOTS) && s[j].reserved
      ensures s[j].entry != asker && Live(foe, s[j].entry, RING_START + j)
    {
      assert !Hit(s, foe, asker, j);
    }
  }

  /** The fallback ring is returned exactly when all eight rings are held, live, by others, and
      then nothing changes. */
  lemma FallbackExactly(s: Slots, foe: FlowTable, asker: u32)
    ensures Ring(s, foe, asker) == 1 <==>
            forall j: nat :: j < 8 ==> s[j].reserved && s[j].entry != asker && Live(foe, s[j].entry, 12 + j)
    ensures Ring(s, foe, asker) == 1 ==> After(s, foe, asker) == s
  {
    var k := FirstHit(s, foe, asker, 0);
    if k < SLOTS {
      assert Hit(s, foe, asker, k);
    } else if FirstFree(s, 0) == SLOTS {
      forall j: nat | j < SLOTS
        ensures s[j].reserved && s[j].entry != asker && Live(foe, s[j].entry, RING_START + j)
      {
        assert !Hit(s, foe, asker, j) && s[j].reserved;
      }
    }
  }

  // ---- One ring for one entry

  /** No entry holds two rings. */
  ghost predicate SingleHolders(s: Slots) {
    forall i: nat, j: nat :: i < j < SLOTS && s[i].reserved && s[j].reserved ==> s[i].entry != s[j].entry
  }

  /** A dead reservation in front of the asker's own. */
  ghost predicate DeadBeforeOwn(s: Slots, foe: FlowTable, asker: u32) {
    exists i: nat, j: nat :: i < j < SLOTS && s[i].reserved && s[j].reserved
                             && s[j].entry == asker && !Live(foe, s[i].entry, RING_START + i)
  }

  lemma OwnIsFirst(s: Slots, foe: FlowTable, asker: u32, j: nat)
    requires SingleHolders(s) && !DeadBeforeOwn(s, foe, asker)
    requires j < SLOTS && s[j].reserved && s[j].entry == asker
    ensures Choice(s, foe, asker) == j
  {
    assert Hit(s, foe, asker, j);
    var k := FirstHit(s, foe, asker, 0);
    assert k <= j && s[k].reserved;
  }

  /** The first scan takes a dead slot before it reaches the asker's own, so an entry ends up
      with two rings exactly when a dead reservation stands in front of its own. */
  lemma SingleHoldersExactly(s: Slots, foe: FlowTable, asker: u32)
    requires SingleHolders(s)
    ensures SingleHolders(After(s, foe, asker)) <==> !DeadBeforeOwn(s, foe, asker)
  {
    var k, t := Choice(s, foe, asker), After(s, foe, asker);
    if DeadBeforeOwn(s, foe, asker) {
      var i: nat, j: nat :| i < j < SLOTS && s[i].reserved && s[j].reserved
                            && s[j].entry == asker && !Live(foe, s[i].entry, RING_START + i);
      assert Hit(s, foe, asker, i);
      assert k <= i && t[k].entry == t[j].entry == asker;
    } else if k < SLOTS {
      forall j: nat | j < SLOTS && j != k && s[j].reserved
        ensures s[j].entry != asker
      {
        if s[j].entry == asker {
          assert Hit(s, foe, asker, j);
          OwnIsFirst(s, foe, asker, j);
        }
      }
    }
  }

  /** A concrete double reservation: slot 0's holder has expired and the asker holds slot 1. */
  lemma DoubleReservation()
    ensures exists s: Slots, foe: FlowTable, asker: u32 ::
              SingleHolders(s) && Live(foe, asker, RING_START + 1) && s[1] == Slot(true, asker)
              && After(s, foe, asker)[0] == After(s, foe, asker)[1] == Slot(true, asker)
  {
    var free := Slot(false, 0);
    var s: Slots := [Slot(true, 7), Slot(true, 9), free, free, free, free, free, free];
    var foe: FlowTable := e => if e == 9 then Entry(Ipv4Hnapt, false, RING_START + 1) else NoEntry;
    assert Hit(s, foe, 9, 0);
    assert SingleHolders(s) && Live(foe, 9, RING_START + 1) && s[1] == Slot(true, 9)
           && After(s, foe, 9)[0] == After(s, foe, 9)[1] == Slot(true, 9);
  }

  // ---- Runs

  /** A call: who asks and what the flow table holds at that moment. */
  datatype Call = Call(asker: u32, foe: FlowTable)

  ghost predicate IsRun(ss: seq<Slots>, cs: seq<Call>) {
    && |ss| == |cs| + 1
    && forall k: nat :: k < |cs| ==> ss[k + 1] == After(ss[k], cs[k].foe, cs[k].asker)
  }

  function Given(s: Slots, c: Call): nat {
    Ring(s, c.foe, c.asker)
  }

  /** Over any run a ring that was granted stays reserved for that asker until the next call
      that is granted the same ring; rings are never set free. */
  lemma {:induction false} HolderIsLastAsker(ss: seq<Slots>, cs: seq<Call>, m: nat, n: nat, i: nat)
    requires IsRun(ss, cs) && m < n <= |cs| && i < SLOTS
    requires Given(ss[m], cs[m]) == RING_START + i
    requires forall k: nat :: m < k < n ==> Given(ss[k], cs[k]) != RING_START + i
    ensures ss[n][i] == Slot(true, cs[m].asker)
    decreases n
  {
    assert ss[n - 1 + 1] == After(ss[n - 1], cs[n - 1].foe, cs[n - 1].asker);
    if n > m + 1 {
      HolderIsLastAsker(ss, cs, m, n - 1, i);
      assert Given(ss[n - 1], cs[n - 1]) != RING_START + i;
    }
  }

  /** Over any run: as long as every call finds the holder live on its ring, the ring stays with
      it and is given to nobody else. */
  lemma {:induction false} LiveHolderKeepsRing(ss: seq<Slots>, cs: seq<Call>, m: nat, n: nat, i: nat, entry: u32)
    requires IsRun(ss, cs) && m <= n <= |cs| && i < SLOTS
    requires ss[m][i] == Slot(true, entry)
    requires forall k: nat :: m <= k < n ==> Live(cs[k].foe, entry, RING_START + i)
    ensures ss[n][i] == Slot(true, entry)
    ensures forall k: nat :: m <= k < n && cs[k].asker != entry ==> Given(ss[k], cs[k]) != RING_START + i
    decreases n
  {
    if n > m {
      LiveHolderKeepsRing(ss, cs, m, n - 1, i, entry);
      var s, c := ss[n - 1], cs[n - 1];
      assert ss[n - 1 + 1] == After(s, c.foe, c.asker);
      assert Live(c.foe, entry, RING_START + i);
      if c.asker != entry {
        assert !Hit(s, c.foe, c.asker, i);
      }
    }
  }

  // ---- The driver

  class Allocator {
    var reserve: Slots

    constructor ()
      ensures forall i :: 0 <= i < SLOTS ==> !reserve[i].reserved
    {
      reserve := seq(SLOTS, _ => Slot(false, 0));
    }

    /** airoha_get_free_lro_ring. */
    method GetFreeRing(foe: FlowTable, asker: u32) returns (ring: nat)
      modifies this
      ensures ring == Ring(old(reserve), foe, asker)
      ensures reserve == After(old(reserve), foe, asker)
    {
      for i := 0 to SLOTS
        invariant reserve == old(reserve)
        invariant FirstHit(reserve, foe, asker, 0) == FirstHit(reserve, foe, asker, i)
      {
        if reserve[i].reserved {
          var dead := EntryIsValid(foe, reserve[i].entry, RING_START + i);
          if dead != 0 {
            reserve := reserve[i := reserve[i].(entry := asker)];
            return RING_START + i;
          }
        }
        if reserve[i].reserved && reserve[i].entry == asker {
          assert reserve[i := Slot(true, asker)] == reserve;
          return RING_START + i;
        }
      }
      for i := 0 to SLOTS
        invariant reserve == old(reserve)
        invariant FirstFree(reserve, 0) == FirstFree(reserve, i)
      {
        if !reserve[i].reserved {
          reserve := reserve[i := Slot(true, asker)];
          return RING_START + i;
        }
      }
      return FALLBACK;
    }
  }
}

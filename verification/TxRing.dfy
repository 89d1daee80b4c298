/** The QDMA transmit ring (arht_dp_api.c: airoha_eth_transmit_packet, qdma_wan_tx,
airoha_eth_fast_tx).

A free list of ring entries feeds a chain of descriptors: each descriptor carries the
index of the next one, the last one of a packet points at the first free entry, and the
hardware follows the chain up to the index written to the CPU_IDX register.  The three
transmit functions run the same loop; they differ in what they do when the ring is full
and in when they write CPU_IDX. */
module TxRing {
  import opened Words

  const NETDEV_TX_OK := 0
  const NETDEV_TX_BUSY := 16

  datatype Desc = Desc(len: u16, more: bool, addr: nat, next: nat, msg0: nat, msg1: nat)
  datatype Entry = Entry(skb: nat, dmaAddr: nat, dmaLen: u16)   // skb 0 is NULL

  /** Calls into the DMA API, in order. */
  datatype DmaOp = Map(addr: nat, len: nat) | Unmap(addr: nat, len: nat)

  /** The result of dma_map_single for one fragment. */
  datatype Mapping = Mapped(addr: nat) | MappingError

  /** Fragment 0 is the linear part. */
  datatype Packet = Packet(skb: nat, lens: seq<nat>, msg0: nat, msg1: nat)

  datatype Kind = EthTransmit | WanTx | FastTx

  datatype Ring = Ring(free: seq<nat>, queued: nat, entry: seq<Entry>, desc: seq<Desc>,
                       cpuIdx: nat, stopped: bool, freeThr: nat, dropped: nat, ops: seq<DmaOp>)

  ghost predicate Distinct(s: seq<nat>) {
    forall i, j :: 0 <= i < j < |s| ==> s[i] != s[j]
  }

  ghost predicate Valid(r: Ring) {
    && |r.entry| == |r.desc|
    && (forall i :: 0 <= i < |r.free| ==> r.free[i] < |r.desc|)
    && Distinct(r.free)
    && |r.free| + r.queued == |r.desc|
    && r.queued < |r.desc|
  }

  predicate HasRoom(r: Ring, n: nat) {
    r.queued + n < |r.desc|
  }

  /** The room test leaves one entry over: the head of the free list is never missing. */
  lemma RoomLeavesOne(r: Ring, n: nat)
    requires Valid(r)
    ensures HasRoom(r, n) <==> n < |r.free|
  {
  }

  function DescFor(p: Packet, k: nat, addr: nat, next: nat): Desc
    requires k < |p.lens|
  {
    Desc(p.lens[k] % TWO16, k + 1 < |p.lens|, addr, next, p.msg0, p.msg1)
  }

  function EntryFor(p: Packet, k: nat, addr: nat): Entry
    requires k < |p.lens|
  {
    Entry(if k == 0 then p.skb else 0, addr, p.lens[k] % TWO16)
  }

  ghost predicate Fits(r: Ring, p: Packet, maps: seq<Mapping>, k: nat) {
    && Valid(r) && k <= |p.lens| == |maps| && HasRoom(r, |p.lens|)
    && forall j :: 0 <= j < k ==> maps[j].Mapped?
  }

  function MapOps(p: Packet, maps: seq<Mapping>, k: nat): seq<DmaOp>
    requires k <= |p.lens| == |maps| && forall j :: 0 <= j < k ==> maps[j].Mapped?
  {
    seq(k, j requires 0 <= j < k => Map(maps[j].addr, p.lens[j]))
  }

  /** What the error path gives back: the length it passes is the 16-bit dma_len field. */
  function UnmapOps(p: Packet, maps: seq<Mapping>, k: nat): seq<DmaOp>
    requires k <= |p.lens| == |maps| && forall j :: 0 <= j < k ==> maps[j].Mapped?
  {
    seq(k, j requires 0 <= j < k => Unmap(maps[j].addr, p.lens[j] % TWO16))
  }

  /** The ring after the first `k` fragments went in: fragment j took the j-th free entry,
      whose descriptor now points at the free entry behind it. */
  ghost predicate Filled(r: Ring, p: Packet, maps: seq<Mapping>, k: nat, s: Ring)
    requires Fits(r, p, maps, k)
  {
    && |s.entry| == |s.desc| == |r.desc|
    && s.free == r.free[k..]
    && s.queued == r.queued && s.cpuIdx == r.cpuIdx && s.stopped == r.stopped
    && s.freeThr == r.freeThr && s.dropped == r.dropped
    && (forall j :: 0 <= j < k ==> s.desc[r.free[j]] == DescFor(p, j, maps[j].addr, r.free[j + 1]))
    && (forall j :: 0 <= j < k ==> s.entry[r.free[j]] == EntryFor(p, j, maps[j].addr))
    && (forall i :: 0 <= i < |r.desc| && i !in r.free[..k] ==> s.desc[i] == r.desc[i] && s.entry[i] == r.entry[i])
    && s.ops == r.ops + MapOps(p, maps, k)
  }

  /** One turn of the fragment loop. */
  function FillOne(s: Ring, p: Packet, k: nat, addr: nat): Ring
    requires |s.free| >= 2 && s.free[0] < |s.desc| == |s.entry| && k < |p.lens|
  {
    var e := s.free[0];
    s.(free := s.free[1..],
       entry := s.entry[e := EntryFor(p, k, addr)],
       desc := s.desc[e := DescFor(p, k, addr, s.free[1])],
       ops := s.ops + [Map(addr, p.lens[k])])
  }

  lemma TakeOneMore(s: seq<nat>, k: nat)
    requires k < |s|
    ensures s[k..][0] == s[k] && s[..k + 1] == s[..k] + [s[k]]
  {
  }

  lemma FillOneExtends(r: Ring, p: Packet, maps: seq<Mapping>, k: nat, s: Ring)
    requires k < |p.lens| && Fits(r, p, maps, k + 1) && Filled(r, p, maps, k, s)
    ensures |s.free| >= 2 && s.free[0] < |s.desc|
    ensures Filled(r, p, maps, k + 1, FillOne(s, p, k, maps[k].addr))
  {
    assert s.free[0] == r.free[k] && s.free[1] == r.free[k + 1];
    assert s.free[1..] == r.free[k + 1..];
    assert r.free[..k + 1] == r.free[..k] + [r.free[k]];
    var t := FillOne(s, p, k, maps[k].addr);
    assert MapOps(p, maps, k + 1) == MapOps(p, maps, k) + [Map(maps[k].addr, p.lens[k])];
  }

  /** The ring after the error path gave back the `k` entries that were taken: the taken
      entries go to the tail of the free list, one behind the other. */
  ghost predicate GivenBack(r: Ring, p: Packet, maps: seq<Mapping>, k: nat, s: Ring)
    requires Fits(r, p, maps, k)
  {
    && |s.entry| == |s.desc| == |r.desc|
    && s.free == r.free[k..] + r.free[..k]
    && s.queued == r.queued && s.cpuIdx == r.cpuIdx && s.stopped == r.stopped
    && s.freeThr == r.freeThr && s.dropped == r.dropped + 1
    && (forall j :: 0 <= j < k ==> s.desc[r.free[j]] == DescFor(p, j, maps[j].addr, r.free[j + 1]))
    && (forall j :: 0 <= j < k ==> s.entry[r.free[j]] == EntryFor(p, j, 0))
    && (forall i :: 0 <= i < |r.desc| && i !in r.free[..k] ==> s.desc[i] == r.desc[i] && s.entry[i] == r.entry[i])
    && s.ops == r.ops + MapOps(p, maps, k) + UnmapOps(p, maps, k)
  }

  /** The error path after `i` of the `k` taken entries were given back. */
  ghost predicate Returning(r: Ring, p: Packet, maps: seq<Mapping>, k: nat, i: nat, s: Ring)
    requires Fits(r, p, maps, k) && i <= k
  {
    && |s.entry| == |s.desc| == |r.desc|
    && s.free == r.free[k..] + r.free[..i]
    && s.queued == r.queued && s.cpuIdx == r.cpuIdx && s.stopped == r.stopped
    && s.freeThr == r.freeThr && s.dropped == r.dropped
    && (forall j :: 0 <= j < k ==> s.desc[r.free[j]] == DescFor(p, j, maps[j].addr, r.free[j + 1]))
    && (forall j :: 0 <= j < k ==> s.entry[r.free[j]] == EntryFor(p, j, if j < i then 0 else maps[j].addr))
    && (forall n :: 0 <= n < |r.desc| && n !in r.free[..k] ==> s.desc[n] == r.desc[n] && s.entry[n] == r.entry[n])
    && s.ops == r.ops + MapOps(p, maps, k) + UnmapOps(p, maps, i)
  }

  function ReturnOne(s: Ring, e: nat): Ring
    requires e < |s.entry|
  {
    s.(free := s.free + [e], entry := s.entry[e := s.entry[e].(dmaAddr := 0)],
       ops := s.ops + [Unmap(s.entry[e].dmaAddr, s.entry[e].dmaLen)])
  }

  lemma ReturnOneExtends(r: Ring, p: Packet, maps: seq<Mapping>, k: nat, i: nat, s: Ring)
    requires Fits(r, p, maps, k) && i < k && Returning(r, p, maps, k, i, s)
    ensures r.free[i] < |s.entry| && Returning(r, p, maps, k, i + 1, ReturnOne(s, r.free[i]))
  {
    assert r.free[..i + 1] == r.free[..i] + [r.free[i]];
    assert r.free[i] == r.free[..k][i];
    assert UnmapOps(p, maps, i + 1) == UnmapOps(p, maps, i) + [Unmap(maps[i].addr, p.lens[i] % TWO16)];
  }

  lemma ReturnedAll(r: Ring, p: Packet, maps: seq<Mapping>, k: nat, s: Ring)
    requires Fits(r, p, maps, k) && s.dropped > 0 && Returning(r, p, maps, k, k, s.(dropped := s.dropped - 1))
    ensures GivenBack(r, p, maps, k, s)
  {
  }

  /** The ring after all fragments went in and the packet was committed. */
  ghost predicate Committed(r: Ring, p: Packet, maps: seq<Mapping>, kind: Kind, doorbell: bool, s: Ring)
    requires Fits(r, p, maps, |p.lens|)
  {
    && Filled(r, p, maps, |p.lens|, s.(queued := r.queued, cpuIdx := r.cpuIdx, stopped := r.stopped))
    && s.queued == r.queued + |p.lens|
    && s.cpuIdx == (if doorbell || kind.FastTx? then r.free[|p.lens|] else r.cpuIdx)
    && s.stopped == (r.stopped || (!kind.FastTx? && |r.desc| - s.queued < r.freeThr))
  }

  /** A full ring: two variants stop the queue and hand the packet back, the third drops it. */
  ghost predicate Refused(r: Ring, kind: Kind, s: Ring) {
    if kind.FastTx? then s == r.(dropped := r.dropped + 1) else s == r.(stopped := true)
  }

  /** One transmit call; `f` is the index of the first fragment that could not be mapped, or
      the number of fragments. */
  ghost predicate Transmits(r: Ring, p: Packet, maps: seq<Mapping>, kind: Kind, doorbell: bool,
                            f: nat, s: Ring)
    requires Valid(r) && |maps| == |p.lens|
  {
    if !HasRoom(r, |p.lens|) then Refused(r, kind, s)
    else
      && f <= |p.lens|
      && (forall j :: 0 <= j < f ==> maps[j].Mapped?)
      && (f < |p.lens| ==> maps[f].MappingError?)
      && if f == |p.lens| then Committed(r, p, maps, kind, doorbell, s) else GivenBack(r, p, maps, f, s)
  }

  // ---- What a call does, path by path

  lemma RoomBelow(s: Ring, n: nat)
    requires s.queued < |s.desc|
    ensures (forall k: nat :: k < n ==> HasRoom(s, k)) <==> s.queued + n <= |s.desc|
  {
    if n > 0 && forall k: nat :: k < n ==> HasRoom(s, k) {
      assert HasRoom(s, n - 1);
    }
  }

  /** The entry and the descriptor that fragment `k`, mapped at `addr`, took. */
  predicate Taken(r: Ring, p: Packet, k: nat, addr: nat, s: Ring) {
    && k < |p.lens| && k < |r.free| && r.free[k] < |s.entry| == |s.desc|
    && var e, d := s.entry[r.free[k]], s.desc[r.free[k]];
    && e.skb == (if k == 0 then p.skb else 0) && e.dmaAddr == addr && e.dmaLen == p.lens[k] % 0x10000
    && d.len == p.lens[k] % 0x10000 && d.addr == addr && d.more == (k < |p.lens| - 1)
    && d.msg0 == p.msg0 && d.msg1 == p.msg1
  }

  /** A committed packet.  The two variants that can stop the queue do so exactly when some
      packet of fewer than `freeThr` fragments would no longer find room; the third never stops
      it.  CPU_IDX is the first free entry when it is written, and unchanged otherwise.  Each
      entry taken remembers its mapping, and the first one the packet. */
  lemma CommitMeans(r: Ring, p: Packet, maps: seq<Mapping>, kind: Kind, doorbell: bool, s: Ring)
    requires Valid(r) && |maps| == |p.lens| && HasRoom(r, |p.lens|)
    requires Transmits(r, p, maps, kind, doorbell, |p.lens|, s)
    ensures kind.FastTx? ==> s.stopped == r.stopped
    ensures !kind.FastTx? ==> (s.stopped <==> r.stopped || !forall n: nat :: n < r.freeThr ==> HasRoom(s, n))
    ensures s.free == r.free[|p.lens|..] && s.queued == r.queued + |p.lens| && s.dropped == r.dropped
    ensures s.cpuIdx == if doorbell || kind.FastTx? then s.free[0] else r.cpuIdx
    ensures |s.entry| == |s.desc| == |r.desc|
    ensures forall k: nat :: k < |p.lens| ==> Taken(r, p, k, maps[k].addr, s)
  {
    RoomBelow(s, r.freeThr);
    assert s.free == r.free[|p.lens|..] && s.free[0] == r.free[|p.lens|];
    forall k: nat | k < |p.lens|
      ensures Taken(r, p, k, maps[k].addr, s)
    {
      assert s.entry[r.free[k]] == EntryFor(p, k, maps[k].addr);
      assert s.desc[r.free[k]] == DescFor(p, k, maps[k].addr, r.free[k + 1]);
    }
  }

  /** A full ring: the packet goes back to the caller and the queue stops, or, on the fast path,
      it is dropped and the queue runs on.  Nothing else changes. */
  lemma RefusalMeans(r: Ring, p: Packet, maps: seq<Mapping>, kind: Kind, doorbell: bool, f: nat, s: Ring)
    requires Valid(r) && |maps| == |p.lens| && !HasRoom(r, |p.lens|)
    requires Transmits(r, p, maps, kind, doorbell, f, s)
    ensures s.stopped == (r.stopped || !kind.FastTx?)
    ensures s.dropped == r.dropped + if kind.FastTx? then 1 else 0
    ensures s == r.(stopped := s.stopped, dropped := s.dropped)
  {
  }

  /** A packet that cannot be mapped is dropped; the queue is neither stopped nor told. */
  lemma FailureMeans(r: Ring, p: Packet, maps: seq<Mapping>, kind: Kind, doorbell: bool, f: nat, s: Ring)
    requires Valid(r) && |maps| == |p.lens| && HasRoom(r, |p.lens|) && f < |p.lens|
    requires Transmits(r, p, maps, kind, doorbell, f, s)
    ensures s.dropped == r.dropped + 1 && s.stopped == r.stopped && s.cpuIdx == r.cpuIdx
    ensures |s.entry| == |r.desc| && forall k: nat :: k < f ==> s.entry[r.free[k]].dmaAddr == 0
  {
    forall k: nat | k < f
      ensures s.entry[r.free[k]] == EntryFor(p, k, 0)
    {
    }
  }

  // ---- What every path keeps

  lemma SplitDistinct(s: seq<nat>, k: nat)
    requires Distinct(s) && k <= |s|
    ensures Distinct(s[k..]) && Distinct(s[k..] + s[..k])
    ensures forall i :: i in s[k..] + s[..k] <==> i in s
  {
    var t := s[k..] + s[..k];
    assert forall i :: i in t <==> i in s[k..] || i in s[..k];
    assert s == s[..k] + s[k..];
  }

  /** Free plus queued stays equal to the size of the ring on every path, and the free list
      stays a list of distinct, in-range entries with at least one element. */
  lemma TransmitConserves(r: Ring, p: Packet, maps: seq<Mapping>, kind: Kind, doorbell: bool,
                          f: nat, s: Ring)
    requires Valid(r) && |maps| == |p.lens| && Transmits(r, p, maps, kind, doorbell, f, s)
    ensures Valid(s) && |s.desc| == |r.desc|
    ensures HasRoom(r, |p.lens|) && f == |p.lens| ==> s.queued == r.queued + |p.lens|
    ensures !HasRoom(r, |p.lens|) ==> s.free == r.free && s.queued == r.queued && s.desc == r.desc && s.ops == r.ops
  {
    if HasRoom(r, |p.lens|) {
      SplitDistinct(r.free, f);
    }
  }

  /** A mapping failure leaves the same entries free and the same number queued, rotated by
      the number of fragments that had been mapped. */
  lemma FailureKeepsEntries(r: Ring, p: Packet, maps: seq<Mapping>, kind: Kind, doorbell: bool,
                            f: nat, s: Ring)
    requires Valid(r) && |maps| == |p.lens| && Transmits(r, p, maps, kind, doorbell, f, s)
    requires HasRoom(r, |p.lens|) && f < |p.lens|
    ensures s.queued == r.queued && s.cpuIdx == r.cpuIdx
    ensures forall e :: e in s.free <==> e in r.free
    ensures s.free == r.free <==> f == 0
  {
    SplitDistinct(r.free, f);
    if f > 0 {
      assert s.free[0] == r.free[f] != r.free[0];
    } else {
      assert s.free == r.free;
    }
  }

  predicate Undoes(u: DmaOp, m: DmaOp) {
    u.Unmap? && m.Map? && u.addr == m.addr && u.len == m.len
  }

  /** The error path unmaps, in order, the addresses it had mapped, and hands back the same
      lengths exactly when every mapped length fits the 16-bit dma_len field. */
  lemma FailureUnmapsWhatItMapped(r: Ring, p: Packet, maps: seq<Mapping>, kind: Kind, doorbell: bool,
                                  f: nat, s: Ring)
    returns (mapped: seq<DmaOp>, unmapped: seq<DmaOp>)
    requires Valid(r) && |maps| == |p.lens| && Transmits(r, p, maps, kind, doorbell, f, s)
    requires HasRoom(r, |p.lens|) && f < |p.lens|
    ensures s.ops == r.ops + mapped + unmapped && |mapped| == |unmapped| == f
    ensures forall j :: 0 <= j < f ==> mapped[j] == Map(maps[j].addr, p.lens[j]) && unmapped[j].addr == maps[j].addr
    ensures (forall j :: 0 <= j < f ==> Undoes(unmapped[j], mapped[j]))
       <==> (forall j :: 0 <= j < f ==> p.lens[j] < TWO16)
  {
    mapped, unmapped := MapOps(p, maps, f), UnmapOps(p, maps, f);
    forall j | 0 <= j < f
      ensures Undoes(unmapped[j], mapped[j]) <==> p.lens[j] < TWO16
    {
    }
  }

  /** A first fragment of 65536 bytes, as one linear part may have, is unmapped with length 0. */
  lemma LongFragmentNotUndone(addr: nat)
    ensures var p, maps := Packet(1, [TWO16, 60], 0, 0), [Mapped(addr), MappingError];
            MapOps(p, maps, 1) == [Map(addr, TWO16)] && UnmapOps(p, maps, 1) == [Unmap(addr, 0)]
  {
  }

  // ---- Ring and hardware together

  /** The hardware walks the chain: it fetches the descriptor at `hwIdx` and moves to its
      NEXT_ID until it stands at CPU_IDX.  `pending` lists the entries submitted and not yet
      fetched, `service` those fetched and not yet completed, `visible` how many pending
      entries the last CPU_IDX write covers. */
  datatype System = System(r: Ring, hwIdx: nat, pending: seq<nat>, visible: nat, service: seq<nat>,
                           submitted: seq<Desc>, fetched: seq<Desc>)

  ghost function Descs(desc: seq<Desc>, idx: seq<nat>): seq<Desc> {
    seq(|idx|, i requires 0 <= i < |idx| => if idx[i] < |desc| then desc[idx[i]] else Desc(0, false, 0, 0, 0, 0))
  }

  ghost predicate Tx(y: System, p: Packet, maps: seq<Mapping>, kind: Kind, doorbell: bool, f: nat, z: System)
    requires Valid(y.r)
  {
    && |maps| == |p.lens| > 0
    && Transmits(y.r, p, maps, kind, doorbell, f, z.r)
    && z == if HasRoom(y.r, |p.lens|) && f == |p.lens| then
              var taken := y.r.free[..f];
              var pending := y.pending + taken;
              y.(r := z.r, pending := pending,
                 visible := if doorbell || kind.FastTx? then |pending| else y.visible,
                 submitted := y.submitted + Descs(z.r.desc, taken))
            else y.(r := z.r)
  }

  /** The hardware fetches one descriptor. */
  ghost predicate Fetch(y: System, z: System) {
    && y.hwIdx != y.r.cpuIdx && y.hwIdx < |y.r.desc|
    && var d := y.r.desc[y.hwIdx];
       z == y.(hwIdx := d.next, fetched := y.fetched + [d],
               pending := if y.pending == [] then [] else y.pending[1..],
               visible := if y.visible == 0 then 0 else y.visible - 1,
               service := y.service + [y.hwIdx])
  }

  /** Completion of a fetched entry: unmapped, its message words cleared, and appended to
      the free list. */
  ghost predicate Complete(y: System, i: nat, z: System) {
    && i < |y.service| && y.service[i] < |y.r.desc| == |y.r.entry| && y.r.queued > 0
    && var e := y.service[i];
       z == y.(service := y.service[..i] + y.service[i + 1..],
               r := y.r.(free := y.r.free + [e], queued := y.r.queued - 1,
                         entry := y.r.entry[e := y.r.entry[e].(dmaAddr := 0)],
                         desc := y.r.desc[e := y.r.desc[e].(msg0 := 0, msg1 := 0)],
                         stopped := z.r.stopped,
                         ops := y.r.ops + [Unmap(y.r.entry[e].dmaAddr, y.r.entry[e].dmaLen)]))
  }

  /** The order in which the hardware will meet the entries. */
  function Order(y: System): seq<nat> {
    y.pending + y.r.free
  }

  ghost predicate Chained(y: System)
    requires |y.r.free| > 0
  {
    var order := Order(y);
    && y.hwIdx == order[0]
    && y.visible <= |y.pending|
    && y.r.cpuIdx == order[y.visible]
    && forall i :: 0 <= i < |y.pending| ==> order[i] < |y.r.desc| && y.r.desc[order[i]].next == order[i + 1]
  }

  /** Every entry is pending, free or in service, and only one of these. */
  ghost predicate Partitioned(y: System) {
    && Distinct(Order(y) + y.service)
    && (forall e :: e in Order(y) + y.service ==> e < |y.r.desc|)
    && |y.pending| + |y.service| == y.r.queued
  }

  /** The hardware has seen what was submitted, except for what is pending. */
  ghost predicate InOrder(y: System) {
    y.submitted == y.fetched + Descs(y.r.desc, y.pending)
  }

  ghost predicate Inv(y: System) {
    Valid(y.r) && Partitioned(y) && Chained(y) && InOrder(y)
  }

  lemma RotateDistinct(s: seq<nat>, k: nat)
    requires Distinct(s) && 0 < k <= |s|
    ensures Distinct(s[1..k] + s[k..] + [s[0]])
    ensures forall e :: e in s[1..k] + s[k..] + [s[0]] ==> e in s
  {
    assert s[1..k] + s[k..] == s[1..];
  }

  lemma FetchKeepsInv(y: System, z: System)
    requires Inv(y) && Fetch(y, z)
    ensures Inv(z) && y.pending != []
  {
    var order := Order(y);
    if y.visible == 0 {
      assert false;
    }
    assert Order(z) == order[1..];
    var all, all' := order + y.service, Order(z) + z.service;
    assert all' == all[1..|order|] + all[|order|..] + [all[0]];
    RotateDistinct(all, |order|);
    assert Descs(y.r.desc, y.pending) == [y.r.desc[y.hwIdx]] + Descs(z.r.desc, z.pending);
  }

  lemma NotInService(y: System, j: nat, i: nat)
    requires Inv(y) && j < |y.pending| && i < |y.service|
    ensures y.pending[j] < |y.r.desc| && y.pending[j] != y.service[i]
  {
    var all := Order(y) + y.service;
    assert all[j] == y.pending[j];
    assert all[|Order(y)| + i] == y.service[i];
  }

  lemma CompleteKeepsChain(y: System, i: nat, z: System)
    requires Inv(y) && Complete(y, i, z) && Order(z) == Order(y) + [y.service[i]]
    ensures Chained(z)
  {
    var order := Order(y);
    forall j | 0 <= j < |z.pending|
      ensures z.r.desc[Order(z)[j]].next == Order(z)[j + 1]
    {
      NotInService(y, j, i);
      assert order[j] == y.pending[j] && order[j + 1] == Order(z)[j + 1];
    }
  }

  lemma FreeDistinct(y: System)
    requires Distinct(Order(y) + y.service)
    requires forall e :: e in Order(y) + y.service ==> e < |y.r.desc|
    ensures Distinct(y.r.free)
    ensures forall i :: 0 <= i < |y.r.free| ==> y.r.free[i] < |y.r.desc|
  {
    var all, m := Order(y) + y.service, |y.pending|;
    forall i | 0 <= i < |y.r.free|
      ensures all[m + i] == y.r.free[i] < |y.r.desc|
    {
      assert all[m + i] in all;
    }
  }

  lemma MoveDistinct(s: seq<nat>, t: seq<nat>, i: nat)
    requires Distinct(s + t) && i < |t|
    ensures Distinct(s + [t[i]] + (t[..i] + t[i + 1..]))
    ensures forall e :: e in s + [t[i]] + (t[..i] + t[i + 1..]) ==> e in s + t
  {
    var u, v := s + t, s + [t[i]] + (t[..i] + t[i + 1..]);
    ghost var at: nat -> nat :=
      n => if n < |s| then n else if n == |s| then |s| + i else if n <= |s| + i then n - 1 else n;
    forall n | 0 <= n < |v|
      ensures 0 <= at(n) < |u| && v[n] == u[at(n)]
    {
    }
    forall a, b | 0 <= a < b < |v|
      ensures v[a] != v[b]
    {
      assert at(a) != at(b);
      assert v[a] == u[at(a)] && v[b] == u[at(b)];
    }
    forall e | e in v
      ensures e in u
    {
      var n :| 0 <= n < |v| && v[n] == e;
      assert u[at(n)] == e;
    }
  }

  lemma CompleteKeepsInv(y: System, i: nat, z: System)
    requires Inv(y) && Complete(y, i, z)
    ensures Inv(z)
  {
    var order, e := Order(y), y.service[i];
    assert Order(z) == order + [e];
    assert Order(z) + z.service == order + [e] + (y.service[..i] + y.service[i + 1..]);
    MoveDistinct(order, y.service, i);
    forall x | x in Order(z) + z.service
      ensures x < |z.r.desc|
    {
      assert x in order + y.service;
    }
    FreeDistinct(z);
    forall j | 0 <= j < |y.pending|
      ensures y.pending[j] < |z.r.desc| && z.r.desc[y.pending[j]] == y.r.desc[y.pending[j]]
    {
      NotInService(y, j, i);
    }
    assert Descs(z.r.desc, z.pending) == Descs(y.r.desc, y.pending);
    CompleteKeepsChain(y, i, z);
  }

  lemma CommitKeepsPartition(y: System, p: Packet, maps: seq<Mapping>, kind: Kind, doorbell: bool, z: System)
    requires Inv(y) && Tx(y, p, maps, kind, doorbell, |p.lens|, z) && HasRoom(y.r, |p.lens|)
    ensures Order(z) == Order(y) && Partitioned(z)
  {
    assert y.r.free == y.r.free[..|p.lens|] + z.r.free;
  }

  lemma DescsAppend(before: seq<Desc>, after: seq<Desc>, s: seq<nat>, t: seq<nat>)
    requires forall i :: 0 <= i < |s| ==> s[i] < |before| && s[i] < |after| && before[s[i]] == after[s[i]]
    ensures Descs(after, s + t) == Descs(before, s) + Descs(after, t)
  {
  }

  lemma CommitKeepsOrder(y: System, p: Packet, maps: seq<Mapping>, kind: Kind, doorbell: bool, z: System)
    requires Inv(y) && Tx(y, p, maps, kind, doorbell, |p.lens|, z) && HasRoom(y.r, |p.lens|)
    requires forall i :: 0 <= i < |y.pending| ==>
               y.pending[i] < |y.r.desc| == |z.r.desc| && z.r.desc[y.pending[i]] == y.r.desc[y.pending[i]]
    ensures InOrder(z)
  {
    var taken := y.r.free[..|p.lens|];
    DescsAppend(y.r.desc, z.r.desc, y.pending, taken);
    assert z.submitted == y.fetched + Descs(y.r.desc, y.pending) + Descs(z.r.desc, taken);
  }

  lemma NotFree(y: System, i: nat, n: nat)
    requires Inv(y) && i < |y.pending| && n <= |y.r.free|
    ensures y.pending[i] < |y.r.desc| && y.pending[i] !in y.r.free[..n]
  {
    var all := Order(y) + y.service;
    assert all[i] == y.pending[i];
    forall j | 0 <= j < n
      ensures y.r.free[..n][j] != y.pending[i]
    {
      assert all[|y.pending| + j] == y.r.free[j];
    }
  }

  lemma PendingUntouched(y: System, p: Packet, maps: seq<Mapping>, kind: Kind, doorbell: bool, z: System)
    requires Inv(y) && Tx(y, p, maps, kind, doorbell, |p.lens|, z) && HasRoom(y.r, |p.lens|)
    ensures |z.r.desc| == |y.r.desc|
    ensures forall i :: 0 <= i < |y.pending| ==>
              y.pending[i] < |y.r.desc| && z.r.desc[y.pending[i]] == y.r.desc[y.pending[i]]
  {
    forall i | 0 <= i < |y.pending|
      ensures y.pending[i] < |y.r.desc| && y.pending[i] !in y.r.free[..|p.lens|]
    {
      NotFree(y, i, |p.lens|);
    }
  }

  lemma CommitKeepsChain(y: System, p: Packet, maps: seq<Mapping>, kind: Kind, doorbell: bool, z: System)
    requires Inv(y) && Valid(z.r) && Tx(y, p, maps, kind, doorbell, |p.lens|, z) && HasRoom(y.r, |p.lens|)
    requires Order(z) == Order(y)
    requires forall i :: 0 <= i < |y.pending| ==>
               y.pending[i] < |y.r.desc| == |z.r.desc| && z.r.desc[y.pending[i]] == y.r.desc[y.pending[i]]
    ensures Chained(z)
  {
    var order, m := Order(y), |y.pending|;
    forall i | 0 <= i < |z.pending|
      ensures order[i] < |z.r.desc| && z.r.desc[order[i]].next == order[i + 1]
    {
      if i >= m {
        assert order[i] == y.r.free[i - m] && order[i + 1] == y.r.free[i - m + 1];
      } else {
        assert order[i] == y.pending[i];
      }
    }
  }

  /** A successful transmit (or a refused one) keeps the chain. */
  lemma TxKeepsInv(y: System, p: Packet, maps: seq<Mapping>, kind: Kind, doorbell: bool, f: nat, z: System)
    requires Inv(y) && Tx(y, p, maps, kind, doorbell, f, z)
    requires HasRoom(y.r, |p.lens|) ==> f == |p.lens|
    ensures Inv(z)
  {
    TransmitConserves(y.r, p, maps, kind, doorbell, f, z.r);
    if HasRoom(y.r, |p.lens|) {
      CommitKeepsPartition(y, p, maps, kind, doorbell, z);
      PendingUntouched(y, p, maps, kind, doorbell, z);
      CommitKeepsChain(y, p, maps, kind, doorbell, z);
      CommitKeepsOrder(y, p, maps, kind, doorbell, z);
    } else {
      assert Order(z) == Order(y);
    }
  }

  /** A transmit that fails at fragment `f` keeps the chain exactly when `f` is 0: otherwise
      the free list was rotated and its head is no longer where the hardware goes next. */
  lemma FailureKeepsChainExactly(y: System, p: Packet, maps: seq<Mapping>, kind: Kind, doorbell: bool,
                                 f: nat, z: System)
    requires Inv(y) && Tx(y, p, maps, kind, doorbell, f, z)
    requires HasRoom(y.r, |p.lens|) && f < |p.lens|
    ensures Inv(z) <==> f == 0
  {
    TransmitConserves(y.r, p, maps, kind, doorbell, f, z.r);
    FailureKeepsEntries(y.r, p, maps, kind, doorbell, f, z.r);
    var m := |y.pending|;
    if f == 0 {
      assert z.r.desc == y.r.desc;
      assert Order(z) == Order(y);
    } else {
      assert z.r.free[0] == y.r.free[f] != y.r.free[0];
      assert Order(y)[m] == y.r.free[0] && Order(z)[m] == y.r.free[f];
      if m > 0 {
        NotFree(y, m - 1, f);
        assert z.r.desc[y.pending[m - 1]] == y.r.desc[y.pending[m - 1]];
        assert Order(y)[m - 1] == Order(z)[m - 1] == y.pending[m - 1];
        assert y.r.desc[Order(y)[m - 1]].next == Order(y)[m];
      }
    }
  }

  // ---- Runs

  datatype Event = TxEvent(p: Packet, maps: seq<Mapping>, kind: Kind, doorbell: bool, f: nat)
                 | FetchEvent
                 | CompleteEvent(i: nat)

  ghost predicate Step(y: System, e: Event, z: System)
    requires Valid(y.r)
  {
    match e
    case TxEvent(p, maps, kind, doorbell, f) => Tx(y, p, maps, kind, doorbell, f, z)
    case FetchEvent => Fetch(y, z)
    case CompleteEvent(i) => Complete(y, i, z)
  }

  predicate Commits(y: System, e: Event) {
    e.TxEvent? && HasRoom(y.r, |e.p.lens|) && e.f == |e.p.lens|
  }

  predicate Fails(y: System, e: Event) {
    e.TxEvent? && HasRoom(y.r, |e.p.lens|) && e.f < |e.p.lens|
  }

  function Rotate(s: seq<nat>, k: nat): (r: seq<nat>)
    requires k <= |s|
  {
    s[k..] + s[..k]
  }

  /** The system with its free list turned so that the entry at `o` comes first. */
  function Home(y: System, o: nat): System
    requires o <= |y.r.free|
  {
    y.(r := y.r.(free := Rotate(y.r.free, o)))
  }

  /** The invariant holds but for a rotation: the entry the chain leads to is the one at `o`. */
  ghost predicate InvAt(y: System, o: nat) {
    o < |y.r.free| && Inv(Home(y, o))
  }

  /** Place `o` of a list of `n` after the list was turned by `f`: o - f, counted round. */
  function TurnBack(o: nat, n: nat, f: nat): (k: nat)
    requires o < n && f < n
    ensures k < n
  {
    if o >= f then o - f else o + n - f
  }

  /** Where the chain's end stands after a step: a failure at fragment f turns the free list by
      f, and nothing else moves it. */
  function NextOffset(y: System, e: Event, o: nat): nat
    requires Valid(y.r)
  {
    if Fails(y, e) && o < |y.r.free| then TurnBack(o, |y.r.free|, e.f) else o
  }

  lemma InPlace(y: System)
    requires |y.r.free| > 0
    ensures InvAt(y, 0) <==> Inv(y)
  {
    assert Rotate(y.r.free, 0) == y.r.free;
  }

  lemma RotateBack(s: seq<nat>, f: nat, o: nat)
    requires f < |s| && o < |s|
    ensures Rotate(Rotate(s, f), TurnBack(o, |s|, f)) == Rotate(s, o)
  {
    var turned, k := Rotate(s, f), TurnBack(o, |s|, f);
    if o >= f {
      assert turned[k..] == s[o..] + s[..f] && turned[..k] == s[f..o];
      assert s[..o] == s[..f] + s[f..o];
    } else {
      assert turned[k..] == s[o..f] && turned[..k] == s[f..] + s[..o];
      assert s[o..] == s[o..f] + s[f..];
    }
  }

  lemma HeadDecides(y: System, z: System)
    requires Inv(y) && z == y.(r := y.r.(free := z.r.free)) && |z.r.free| > 0 && z.r.free[0] == y.r.free[0]
    ensures Chained(z) && InOrder(z)
  {
    forall i | 0 <= i <= |z.pending|
      ensures Order(z)[i] == Order(y)[i]
    {
    }
  }

  /** Where the i-th element of the reordered list stood before. */
  lemma Place(a: seq<nat>, b: seq<nat>, c: seq<nat>, b': seq<nat>, i: nat) returns (k: nat)
    requires |b'| == |b| && i < |a + b + c| && forall e :: e in b' <==> e in b
    ensures k < |a + b + c| && (a + b' + c)[i] == (a + b + c)[k]
    ensures |a| <= i < |a| + |b| <==> |a| <= k < |a| + |b|
    ensures !(|a| <= i < |a| + |b|) ==> k == i
  {
    k := i;
    if |a| <= i < |a| + |b| {
      assert b'[i - |a|] in b;
      var n :| 0 <= n < |b| && b[n] == b'[i - |a|];
      k := |a| + n;
    }
  }

  lemma PartsDistinct(a: seq<nat>, b: seq<nat>, c: seq<nat>, b': seq<nat>)
    requires Distinct(a + b + c) && Distinct(b') && |b'| == |b| && forall e :: e in b' <==> e in b
    ensures Distinct(a + b' + c)
    ensures forall e :: e in a + b' + c <==> e in a + b + c
  {
    var s, t := a + b + c, a + b' + c;
    forall i, j | 0 <= i < j < |t|
      ensures t[i] != t[j]
    {
      var i' := Place(a, b, c, b', i);
      var j' := Place(a, b, c, b', j);
      assert |a| <= i < j < |a| + |b| ==> b'[i - |a|] != b'[j - |a|];
      assert i' != j' || t[i] != t[j];
    }
  }

  /** The invariant asks of the free list only its head and its members. */
  lemma FreeReordered(y: System, free: seq<nat>)
    requires Inv(y) && |free| == |y.r.free| && free[0] == y.r.free[0]
    requires Distinct(free) && forall e :: e in free <==> e in y.r.free
    ensures Inv(y.(r := y.r.(free := free)))
  {
    var z := y.(r := y.r.(free := free));
    var all, all' := Order(y) + y.service, Order(z) + z.service;
    PartsDistinct(y.pending, y.r.free, y.service, free);
    forall e | e in all'
      ensures e < |y.r.desc|
    {
      assert e in all;
    }
    FreeDistinct(z);
    HeadDecides(y, z);
  }

  /** The descriptors of free entries do not matter to the invariant. */
  lemma FreeDescsIrrelevant(y: System, z: System)
    requires Inv(y) && |z.r.desc| == |z.r.entry| == |y.r.desc|
    requires z.r.free == y.r.free && z.r.queued == y.r.queued && z.r.cpuIdx == y.r.cpuIdx
    requires z == y.(r := z.r)
    requires forall i :: 0 <= i < |y.pending| ==>
               y.pending[i] < |y.r.desc| && z.r.desc[y.pending[i]] == y.r.desc[y.pending[i]]
    ensures Inv(z)
  {
    assert Descs(z.r.desc, z.pending) == Descs(y.r.desc, y.pending);
    forall i | 0 <= i < |z.pending|
      ensures z.r.desc[Order(z)[i]].next == Order(z)[i + 1]
    {
      assert Order(y)[i] == y.pending[i];
    }
  }

  /** `z` is `y` with its free list turned by `f` and perhaps the entries on it rewritten. */
  ghost predicate Turned(y: System, f: nat, z: System) {
    && z == y.(r := z.r) && f < |y.r.free| && z.r.free == Rotate(y.r.free, f)
    && |z.r.desc| == |z.r.entry| == |y.r.desc| && z.r.queued == y.r.queued && z.r.cpuIdx == y.r.cpuIdx
    && forall i :: 0 <= i < |y.r.desc| && i !in y.r.free ==> z.r.desc[i] == y.r.desc[i]
  }

  lemma FailureIsTurn(y: System, e: Event, z: System)
    requires Valid(y.r) && Step(y, e, z) && Fails(y, e)
    ensures Turned(y, e.f, z)
  {
    assert forall x :: x in y.r.free[..e.f] ==> x in y.r.free;
  }

  lemma SplitMembers(s: seq<nat>, k: nat)
    requires k <= |s|
    ensures forall e :: e in Rotate(s, k) <==> e in s
  {
    assert s == s[..k] + s[k..];
  }

  lemma PendingNotTurned(y: System, o: nat)
    requires InvAt(y, o)
    ensures forall i :: 0 <= i < |y.pending| ==> y.pending[i] < |y.r.desc| && y.pending[i] !in y.r.free
  {
    var h := Home(y, o);
    SplitMembers(y.r.free, o);
    forall i | 0 <= i < |y.pending|
      ensures y.pending[i] < |y.r.desc| && y.pending[i] !in y.r.free
    {
      NotFree(h, i, |h.r.free|);
      assert h.r.free[..|h.r.free|] == h.r.free;
    }
  }

  lemma TurnKeepsInvAt(y: System, f: nat, z: System, o: nat)
    requires InvAt(y, o) && Turned(y, f, z)
    ensures InvAt(z, TurnBack(o, |y.r.free|, f))
  {
    RotateBack(y.r.free, f, o);
    PendingNotTurned(y, o);
    FreeDescsIrrelevant(Home(y, o), Home(z, TurnBack(o, |y.r.free|, f)));
  }

  lemma InsertedDistinct(a: seq<nat>, b: seq<nat>, e: nat)
    requires Distinct(a + b + [e])
    ensures Distinct(a + [e] + b)
    ensures forall x :: x in a + [e] + b <==> x in a + b + [e]
  {
    var s, t := a + b + [e], a + [e] + b;
    var n := |a|;
    forall i, j | 0 <= i < j < |t|
      ensures t[i] != t[j]
    {
      var i' := if i < n then i else if i == n then |s| - 1 else i - 1;
      var j' := if j < n then j else if j == n then |s| - 1 else j - 1;
      assert t[i] == s[i'] && t[j] == s[j'] && i' != j';
    }
  }

  lemma CompleteInPlace(y: System, i: nat, z: System, o: nat)
    requires InvAt(y, o) && Complete(y, i, z)
    ensures InvAt(z, o)
  {
    var h, e := Home(y, o), y.service[i];
    var c := z.(r := z.r.(free := h.r.free + [e]));
    assert Complete(h, i, c);
    CompleteKeepsInv(h, i, c);
    var free := Rotate(z.r.free, o);
    assert z.r.free == y.r.free + [e];
    assert free == y.r.free[o..] + [e] + y.r.free[..o];
    assert free[0] == c.r.free[0];
    InsertedDistinct(y.r.free[o..], y.r.free[..o], e);
    FreeReordered(c, free);
    assert Home(z, o) == c.(r := c.r.(free := free));
  }

  /** What the chain says about the m-th pending entry. */
  lemma NextIsPending(y: System, m: nat)
    requires m < |y.pending|
    ensures Inv(y) && m == 0 ==> y.hwIdx == y.pending[0]
    ensures Inv(y) && m > 0 ==> y.pending[m - 1] < |y.r.desc| && y.r.desc[y.pending[m - 1]].next == y.pending[m]
  {
    if Inv(y) && m > 0 {
      assert Order(y)[m - 1] == y.pending[m - 1] && Order(y)[m] == y.pending[m];
    }
  }

  /** After a commit from a displaced list the chain leads past the packet's first entry. */
  lemma EndElsewhere(y: System, e: Event, z: System, o: nat)
    requires InvAt(y, o) && o > 0 && Valid(y.r) && Step(y, e, z) && Commits(y, e)
    ensures var m := |y.pending|;
            && m < |z.pending| && z.pending[m] == y.r.free[0] != y.r.free[o]
            && (m == 0 ==> z.hwIdx == y.r.free[o])
            && (m > 0 ==> z.pending[m - 1] == y.pending[m - 1] < |z.r.desc|
                          && z.r.desc[y.pending[m - 1]].next == y.r.free[o])
  {
    var h, m := Home(y, o), |y.pending|;
    assert Order(h)[m] == y.r.free[o];
    PendingNotTurned(y, o);
    if m > 0 {
      assert Order(h)[m - 1] == y.pending[m - 1];
      assert y.pending[m - 1] !in y.r.free[..|e.p.lens|];
    }
  }

  lemma DisplacedCommitBreaks(y: System, e: Event, z: System, o: nat, o': nat)
    requires InvAt(y, o) && o > 0 && Valid(y.r) && Step(y, e, z) && Commits(y, e)
    ensures !InvAt(z, o')
  {
    EndElsewhere(y, e, z, o);
    if o' < |z.r.free| {
      NextIsPending(Home(z, o'), |y.pending|);
    }
  }

  lemma CommitInPlace(y: System, e: Event, z: System)
    requires InvAt(y, 0) && Valid(y.r) && Step(y, e, z) && Commits(y, e)
    ensures InvAt(z, 0)
  {
    InPlace(y);
    TxKeepsInv(y, e.p, e.maps, e.kind, e.doorbell, e.f, z);
    InPlace(z);
  }

  /** A packet can be committed only in place: from a displaced free list no chain is left,
      whichever entry one takes for its end. */
  lemma CommitNeedsPlace(y: System, e: Event, z: System, o: nat)
    requires InvAt(y, o) && Valid(y.r) && Step(y, e, z) && Commits(y, e)
    ensures (exists o': nat :: InvAt(z, o')) <==> o == 0
  {
    if o == 0 {
      CommitInPlace(y, e, z);
    } else if o': nat :| InvAt(z, o') {
      DisplacedCommitBreaks(y, e, z, o, o');
    }
  }

  lemma FreeDescsIrrelevantWhenSame(y: System, z: System)
    requires Inv(y) && z == y.(r := y.r.(stopped := z.r.stopped, dropped := z.r.dropped))
    ensures Inv(z)
  {
    assert Order(z) == Order(y);
  }

  lemma RefusedInPlace(y: System, e: Event, z: System, o: nat)
    requires InvAt(y, o) && Valid(y.r) && Step(y, e, z) && e.TxEvent? && !HasRoom(y.r, |e.p.lens|)
    ensures InvAt(z, o)
  {
    FreeDescsIrrelevantWhenSame(Home(y, o), Home(z, o));
  }

  lemma FetchInPlace(y: System, z: System, o: nat)
    requires InvAt(y, o) && Fetch(y, z)
    ensures InvAt(z, o)
  {
    assert Fetch(Home(y, o), Home(z, o));
    FetchKeepsInv(Home(y, o), Home(z, o));
  }

  lemma RoomMeansAll(y: System, e: Event, z: System)
    requires Valid(y.r) && Step(y, e, z) && e.TxEvent? && HasRoom(y.r, |e.p.lens|) && !Fails(y, e)
    ensures Commits(y, e)
  {
  }

  lemma TxKeepsInvAt(y: System, e: Event, z: System, o: nat)
    requires InvAt(y, o) && Valid(y.r) && Step(y, e, z) && e.TxEvent?
    requires Commits(y, e) ==> o == 0
    ensures InvAt(z, NextOffset(y, e, o))
  {
    if !HasRoom(y.r, |e.p.lens|) {
      RefusedInPlace(y, e, z, o);
    } else if Fails(y, e) {
      FailureIsTurn(y, e, z);
      TurnKeepsInvAt(y, e.f, z, o);
    } else {
      RoomMeansAll(y, e, z);
      CommitInPlace(y, e, z);
    }
  }

  lemma StepKeepsInvAt(y: System, e: Event, z: System, o: nat)
    requires InvAt(y, o) && Valid(y.r) && Step(y, e, z)
    requires Commits(y, e) ==> o == 0
    ensures InvAt(z, NextOffset(y, e, o))
  {
    match e
    case FetchEvent => FetchInPlace(y, z, o);
    case CompleteEvent(i) => CompleteInPlace(y, i, z, o);
    case TxEvent(p, maps, kind, doorbell, f) => TxKeepsInvAt(y, e, z, o);
  }

  ghost predicate IsRun(ys: seq<System>, es: seq<Event>) {
    && |ys| == |es| + 1
    && forall i :: 0 <= i < |es| ==> Valid(ys[i].r) && Step(ys[i], es[i], ys[i + 1])
  }

  /** Where the chain's end stands on the free list after `n` steps of a run. */
  ghost function Offset(ys: seq<System>, es: seq<Event>, n: nat): nat
    requires IsRun(ys, es) && n <= |es|
    decreases n
  {
    if n == 0 then 0 else NextOffset(ys[n - 1], es[n - 1], Offset(ys, es, n - 1))
  }

  /** Every packet of the run is committed in place: the rotations of the failures since the
      last one add up to whole turns. */
  ghost predicate InPlaceRun(ys: seq<System>, es: seq<Event>) {
    && IsRun(ys, es)
    && forall i: nat :: i < |es| && Commits(ys[i], es[i]) ==> Offset(ys, es, i) == 0
  }

  lemma {:induction false} RunKeepsInv(ys: seq<System>, es: seq<Event>, k: nat)
    requires InPlaceRun(ys, es) && Inv(ys[0]) && k <= |es|
    ensures InvAt(ys[k], Offset(ys, es, k))
    decreases k
  {
    if k == 0 {
      InPlace(ys[0]);
    } else {
      RunKeepsInv(ys, es, k - 1);
      StepKeepsInvAt(ys[k - 1], es[k - 1], ys[k], Offset(ys, es, k - 1));
    }
  }

  lemma CaughtUp(y: System)
    requires Inv(y) && y.hwIdx == y.r.cpuIdx && y.visible == |y.pending|
    ensures y.fetched == y.submitted
  {
    var all := Order(y) + y.service;
    assert all[0] == y.hwIdx && all[y.visible] == y.r.cpuIdx;
    assert Descs(y.r.desc, y.pending) == [];
  }

  /** Over any run of transmits, fetches and completions whose packets are committed in place,
      the hardware fetches exactly the submitted descriptors, in the order of submission; once
      it has caught up with a CPU_IDX that covers everything, all of them. */
  lemma HardwareSeesSubmissionOrder(ys: seq<System>, es: seq<Event>)
    requires InPlaceRun(ys, es) && Inv(ys[0])
    ensures var y := ys[|es|];
            && y.fetched <= y.submitted
            && |y.r.free| + |y.pending| + |y.service| == |y.r.desc|
            && (y.hwIdx == y.r.cpuIdx && y.visible == |y.pending| ==> y.fetched == y.submitted)
  {
    RunKeepsInv(ys, es, |es|);
    var y, h := ys[|es|], Home(ys[|es|], Offset(ys, es, |es|));
    assert Valid(h.r) && Partitioned(h) && InOrder(h);
    if y.hwIdx == y.r.cpuIdx && y.visible == |y.pending| {
      CaughtUp(h);
    }
  }

  /** The ring as the queue initialisation leaves it. */
  function Start(ndesc: nat, freeThr: nat): System {
    System(Ring(seq(ndesc, i => i), 0, seq(ndesc, i => Entry(0, 0, 0)), seq(ndesc, i => Desc(0, false, 0, 0, 0, 0)),
                0, false, freeThr, 0, []), 0, [], 0, [], [], [])
  }

  lemma StartIsChained(ndesc: nat, freeThr: nat)
    requires ndesc > 0
    ensures Inv(Start(ndesc, freeThr))
  {
    var y := Start(ndesc, freeThr);
    assert Order(y) + y.service == y.r.free;
  }

  /** The entry reached from `i` by following NEXT_ID. */
  ghost function Follow(desc: seq<Desc>, i: nat, steps: nat): nat
    decreases steps
  {
    if steps == 0 || i >= |desc| then i else Follow(desc, desc[i].next, steps - 1)
  }

  lemma {:induction false} FollowFree(r: Ring, p: Packet, maps: seq<Mapping>, s: Ring, j: nat, k: nat)
    requires Fits(r, p, maps, |p.lens|) && j + k <= |p.lens| && |s.desc| == |r.desc|
    requires forall i :: 0 <= i < |p.lens| ==> s.desc[r.free[i]] == DescFor(p, i, maps[i].addr, r.free[i + 1])
    ensures Follow(s.desc, r.free[j], k) == r.free[j + k]
    decreases k
  {
    if k > 0 {
      FollowFree(r, p, maps, s, j + 1, k - 1);
    }
  }

  /** A packet starts where the hardware goes after everything submitted before it; NEXT_ID
      leads through its fragments in order, MORE is set on all but the last, and CPU_IDX,
      when written, is the first free entry. */
  lemma PacketIsChained(y: System, p: Packet, maps: seq<Mapping>, kind: Kind, doorbell: bool, z: System)
    requires Inv(y) && Tx(y, p, maps, kind, doorbell, |p.lens|, z) && HasRoom(y.r, |p.lens|)
    ensures y.pending == [] ==> y.hwIdx == y.r.free[0]
    ensures y.pending != [] ==> Descs(y.r.desc, y.pending)[|y.pending| - 1].next == y.r.free[0]
    ensures forall k :: 0 <= k <= |p.lens| ==> Follow(z.r.desc, y.r.free[0], k) == y.r.free[k]
    ensures forall k :: 0 <= k < |p.lens| ==>
              var d := z.r.desc[y.r.free[k]];
              d.more == (k < |p.lens| - 1) && d.addr == maps[k].addr && d.len == p.lens[k] % TWO16
    ensures z.r.free[0] == y.r.free[|p.lens|]
    ensures doorbell || kind.FastTx? ==> z.r.cpuIdx == z.r.free[0]
  {
    var m := |y.pending|;
    assert Order(y)[m] == y.r.free[0];
    if m > 0 {
      assert Order(y)[m - 1] == y.pending[m - 1];
    }
    forall k | 0 <= k <= |p.lens|
      ensures Follow(z.r.desc, y.r.free[0], k) == y.r.free[k]
    {
      FollowFree(y.r, p, maps, z.r, 0, k);
    }
    forall k | 0 <= k < |p.lens|
      ensures var d := z.r.desc[y.r.free[k]];
              d.more == (k < |p.lens| - 1) && d.addr == maps[k].addr && d.len == p.lens[k] % TWO16
    {
      assert z.r.desc[y.r.free[k]] == DescFor(p, k, maps[k].addr, y.r.free[k + 1]);
    }
  }

  /** What the rotation costs: on an idle ring, after a transmit that failed at fragment
      `f > 0`, the next packet is not where the hardware stands, and the hardware's next fetch
      is the first descriptor of the packet that was dropped and unmapped. */
  lemma DroppedPacketIsFetched(y: System, p: Packet, maps: seq<Mapping>, f: nat, z: System,
                               p': Packet, maps': seq<Mapping>, w: System, kind: Kind, x: System)
    requires Inv(y) && y.pending == []
    requires Tx(y, p, maps, kind, true, f, z) && HasRoom(y.r, |p.lens|) && 0 < f < |p.lens|
    requires Valid(z.r) && Tx(z, p', maps', kind, true, |p'.lens|, w) && |p'.lens| + f < |y.r.free|
    requires Fetch(w, x)
    ensures x.fetched == y.fetched + [DescFor(p, 0, maps[0].addr, y.r.free[1])]
    ensures w.r.desc[w.pending[0]] == DescFor(p', 0, maps'[0].addr, z.r.free[1])
    ensures w.pending[0] == y.r.free[f] != w.hwIdx
  {
    var head, n := y.r.free[0], |y.r.free|;
    assert y.hwIdx == Order(y)[0] == head;
    assert z.r.desc[head] == DescFor(p, 0, maps[0].addr, y.r.free[1]);
    assert z.r.free[n - f] == head;
    assert head !in z.r.free[..|p'.lens|];
    assert w.r.desc[head] == z.r.desc[head];
    assert z.r.free[0] == y.r.free[f];
    assert w.pending[0] == z.r.free[0];
  }

  const BLANK := Desc(0, false, 0, 0, 0, 0)
  const UNUSED := Entry(0, 0, 0)

  /** The ring of four after a packet of two fragments whose second could not be mapped. */
  function AfterLoss(p: Packet, addr: nat): Ring
    requires |p.lens| == 2
  {
    Ring([1, 2, 3, 0], 0, [EntryFor(p, 0, 0), UNUSED, UNUSED, UNUSED], [DescFor(p, 0, addr, 1), BLANK, BLANK, BLANK],
         0, false, 0, 1, [Map(addr, p.lens[0]), Unmap(addr, p.lens[0] % TWO16)])
  }

  /** The same ring after a packet of one fragment went out behind it. */
  function AfterNext(p: Packet, addr: nat, q: Packet, addr': nat): Ring
    requires |p.lens| == 2 && |q.lens| == 1
  {
    Ring([2, 3, 0], 1, [EntryFor(p, 0, 0), EntryFor(q, 0, addr'), UNUSED, UNUSED],
         [DescFor(p, 0, addr, 1), DescFor(q, 0, addr', 2), BLANK, BLANK],
         2, false, 0, 1, AfterLoss(p, addr).ops + [Map(addr', q.lens[0])])
  }

  lemma LossOnRingOfFour(p: Packet, addr: nat)
    requires |p.lens| == 2
    ensures var r := Start(4, 0).r;
            Valid(r) && HasRoom(r, 2) && GivenBack(r, p, [Mapped(addr), MappingError], 1, AfterLoss(p, addr))
  {
    var r := Start(4, 0).r;
    StartIsChained(4, 0);
    assert r.free == [0, 1, 2, 3];
    assert r.free[1..] + r.free[..1] == [1, 2, 3, 0];
    assert MapOps(p, [Mapped(addr), MappingError], 1) == [Map(addr, p.lens[0])];
    assert UnmapOps(p, [Mapped(addr), MappingError], 1) == [Unmap(addr, p.lens[0] % TWO16)];
  }

  lemma NextOnRingOfFour(p: Packet, addr: nat, q: Packet, addr': nat)
    requires |p.lens| == 2 && |q.lens| == 1
    ensures var r := AfterLoss(p, addr);
            Valid(r) && HasRoom(r, 1)
            && Committed(r, q, [Mapped(addr')], EthTransmit, true, AfterNext(p, addr, q, addr'))
  {
    var r := AfterLoss(p, addr);
    assert r.free[1..] == [2, 3, 0] && r.free[..1] == [1];
    assert MapOps(q, [Mapped(addr')], 1) == [Map(addr', q.lens[0])];
  }

  lemma OneDesc(desc: seq<Desc>, i: nat)
    requires i < |desc|
    ensures Descs(desc, [i]) == [desc[i]]
  {
  }

  /** A ring of four on which the dropped packet is fetched: the second fragment of the first
      packet cannot be mapped, the next packet goes out, and the hardware fetches the first
      one's descriptor instead of it. */
  lemma DroppedPacketOnRingOfFour(p: Packet, addr: nat, q: Packet, addr': nat) returns (z: System, w: System, x: System)
    requires |p.lens| == 2 && |q.lens| == 1
    ensures Inv(Start(4, 0)) && Tx(Start(4, 0), p, [Mapped(addr), MappingError], EthTransmit, true, 1, z)
    ensures Valid(z.r) && Tx(z, q, [Mapped(addr')], EthTransmit, true, 1, w) && Fetch(w, x)
    ensures x.fetched == [DescFor(p, 0, addr, 1)] && w.submitted == [DescFor(q, 0, addr', 2)]
    ensures x.r == AfterNext(p, addr, q, addr') && x.service == [0]
  {
    var y := Start(4, 0);
    StartIsChained(4, 0);
    LossOnRingOfFour(p, addr);
    NextOnRingOfFour(p, addr, q, addr');
    z := y.(r := AfterLoss(p, addr));
    var r := AfterNext(p, addr, q, addr');
    w := z.(r := r, pending := [1], visible := 1, submitted := [DescFor(q, 0, addr', 2)]);
    assert z.r.free[..1] == [1];
    OneDesc(r.desc, 1);
    x := w.(hwIdx := 1, fetched := [DescFor(p, 0, addr, 1)], pending := [], visible := 0, service := [0]);
  }

  /** The end of that run: completing the entry the hardware fetched puts it on the free list,
      where it already is. */
  lemma EntryFreedTwice(p: Packet, addr: nat, q: Packet, addr': nat) returns (x: System, z: System)
    requires |p.lens| == 2 && |q.lens| == 1
    ensures x.r == AfterNext(p, addr, q, addr') && x.service == [0] && Complete(x, 0, z)
    ensures z.r.free == [2, 3, 0, 0] && !Valid(z.r)
  {
    var _, _, fetched := DroppedPacketOnRingOfFour(p, addr, q, addr');
    x := fetched;
    var r, e := x.r, x.service[0];
    z := x.(service := [],
            r := r.(free := r.free + [e], queued := 0, entry := r.entry[e := r.entry[e].(dmaAddr := 0)],
                    desc := r.desc[e := r.desc[e].(msg0 := 0, msg1 := 0)],
                    ops := r.ops + [Unmap(r.entry[e].dmaAddr, r.entry[e].dmaLen)]));
    assert x.service[..0] + x.service[1..] == [];
    assert z.r.free[2] == z.r.free[3];
  }

  // ---- The driver's own code

  class TxQueue {
    const entry: array<Entry>
    const desc: array<Desc>
    const freeThr: nat
    var txList: seq<nat>
    var queued: nat
    var cpuIdx: nat         // REG_TX_CPU_IDX
    var stopped: bool       // netif_tx_stop_queue
    var dropped: nat
    var ops: seq<DmaOp>

    constructor (ndesc: nat, freeThr: nat)
      ensures fresh(entry) && fresh(desc) && entry as object != desc
      ensures View() == Start(ndesc, freeThr).r
    {
      entry := new Entry[ndesc](i => Entry(0, 0, 0));
      desc := new Desc[ndesc](i => Desc(0, false, 0, 0, 0, 0));
      this.freeThr := freeThr;
      txList := seq(ndesc, i => i);
      queued, cpuIdx, stopped, dropped, ops := 0, 0, false, 0, [];
      new;
      assert entry[..] == Start(ndesc, freeThr).r.entry && desc[..] == Start(ndesc, freeThr).r.desc;
    }

    function View(): Ring
      reads this, entry, desc
    {
      Ring(txList, queued, entry[..], desc[..], cpuIdx, stopped, freeThr, dropped, ops)
    }

    /** `mapped` counts the fragments mapped before the first failure, if any. */
    method Transmit(p: Packet, maps: seq<Mapping>, kind: Kind, doorbell: bool) returns (ret: int, mapped: nat)
      requires Valid(View()) && |maps| == |p.lens| > 0
      modifies this, entry, desc
      ensures Transmits(old(View()), p, maps, kind, doorbell, mapped, View())
      ensures ret == if HasRoom(old(View()), |p.lens|) || kind.FastTx? then 0 else if kind.EthTransmit? then 16 else -1
    {
      ghost var r := View();
      var nrFrags := |p.lens|;
      mapped := 0;
      if queued + nrFrags >= desc.Length {
        if kind.FastTx? {
          dropped := dropped + 1;
          return NETDEV_TX_OK, 0;
        }
        stopped := true;
        return if kind.EthTransmit? then NETDEV_TX_BUSY else -1, 0;
      }
      var taken, index;
      mapped, taken, index := MapFragments(p, maps);
      if mapped < nrFrags {
        GiveBack(taken, r, p, maps);
        return NETDEV_TX_OK, mapped;
      }
      queued := queued + mapped;
      if doorbell || kind.FastTx? {
        cpuIdx := index;
      }
      if !kind.FastTx? && desc.Length - queued < freeThr {
        stopped := true;
      }
      ret := NETDEV_TX_OK;
    }

    /** The fragment loop: stops at the first fragment that cannot be mapped. */
    method MapFragments(p: Packet, maps: seq<Mapping>) returns (mapped: nat, taken: seq<nat>, index: nat)
      requires Fits(View(), p, maps, 0)
      modifies this, entry, desc
      ensures Fits(old(View()), p, maps, mapped) && Filled(old(View()), p, maps, mapped, View())
      ensures taken == old(txList)[..mapped] && index == old(txList)[mapped]
      ensures mapped < |p.lens| ==> maps[mapped].MappingError?
    {
      ghost var r := View();
      var nrFrags := |p.lens|;
      mapped, taken, index := 0, [], txList[0];
      while mapped < nrFrags
        invariant mapped <= nrFrags && Fits(r, p, maps, mapped) && Filled(r, p, maps, mapped, View())
        invariant taken == r.free[..mapped] && index == txList[0]
      {
        if maps[mapped].MappingError? {
          return;
        }
        FillOneExtends(r, p, maps, mapped, View());
        TakeOneMore(r.free, mapped);
        taken := taken + [index];
        index := TakeHead(p, mapped, maps[mapped].addr);
        mapped := mapped + 1;
      }
    }

    /** One turn of the fragment loop; `index` is the new head of the free list. */
    method TakeHead(p: Packet, k: nat, addr: nat) returns (index: nat)
      requires |txList| >= 2 && txList[0] < desc.Length == entry.Length && k < |p.lens|
      modifies this, entry, desc
      ensures View() == FillOne(old(View()), p, k, addr) && index == txList[0]
    {
      var e := txList[0];
      txList := txList[1..];
      entry[e] := Entry(if k == 0 then p.skb else 0, addr, p.lens[k] % TWO16);
      ops := ops + [Map(addr, p.lens[k])];
      index := txList[0];
      desc[e] := Desc(p.lens[k] % TWO16, k < |p.lens| - 1, addr, index, p.msg0, p.msg1);
    }

    /** The error path: unmap each taken entry and move it to the tail of the free list. */
    method GiveBack(taken: seq<nat>, ghost r: Ring, ghost p: Packet, ghost maps: seq<Mapping>)
      requires Fits(r, p, maps, |taken|) && Filled(r, p, maps, |taken|, View()) && taken == r.free[..|taken|]
      modifies this, entry
      ensures GivenBack(r, p, maps, |taken|, View())
    {
      var i := 0;
      while i < |taken|
        invariant i <= |taken| && Returning(r, p, maps, |taken|, i, View())
      {
        assert taken[i] == r.free[i];
        ReturnOneExtends(r, p, maps, |taken|, i, View());
        ReturnTail(taken[i]);
        i := i + 1;
      }
      dropped := dropped + 1;
      ReturnedAll(r, p, maps, |taken|, View());
    }

    /** One turn of the error loop. */
    method ReturnTail(e: nat)
      requires e < entry.Length
      modifies this, entry
      ensures View() == ReturnOne(old(View()), e)
    {
      ops := ops + [Unmap(entry[e].dmaAddr, entry[e].dmaLen)];
      entry[e] := entry[e].(dmaAddr := 0);
      txList := txList + [e];
    }
  }
}

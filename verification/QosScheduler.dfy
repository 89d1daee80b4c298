/** The transmit scheduler of one QDMA (arht_qdma.c): per channel a mode, eight weights behind
an indirect register, and queue-close bits in write-only registers that the driver shadows
in software. */
module QosScheduler {
  import opened Words

  const EINVAL := 22
  const ETIME := 62
  const EFAULT := 14
  const CHANNELS := 32
  const QUEUES := 8
  const TYPES := 8

  type nibble = x: nat | x < 16

  /** `close` and `modes` are registers, `weights` the table behind the indirect register and
      `shadow` is TXQ_DIS_CFG_VALUE.  A mode register holds eight fields of four bits. */
  datatype Qos = Qos(close: seq<bits>, shadow: seq<bits>, weights: seq<seq<byte>>, modes: seq<seq<nibble>>)

  predicate Valid(q: Qos) {
    && |q.close| == |q.shadow| == 8
    && |q.weights| == CHANNELS && (forall c :: 0 <= c < CHANNELS ==> |q.weights[c]| == QUEUES)
    && |q.modes| == 4 && (forall r :: 0 <= r < 4 ==> |q.modes[r]| == 8)
  }

  /** Queues below this number share by weight; the others have strict priority. */
  function WeightNum(mode: nat): nat
    requires mode < TYPES
  {
    if mode == 0 then 8 else if mode == 1 then 0 else 9 - mode
  }

  function Ones(w: seq<u16>): (v: seq<u16>) {
    seq(|w|, i requires 0 <= i < |w| => if w[i] == 0 then 1 else w[i])
  }

  // ---- Reading back

  predicate Closed(q: Qos, channel: nat, queue: nat)
    requires Valid(q) && channel < CHANNELS && queue < QUEUES
  {
    queue + channel % 4 * 8 in q.shadow[channel / 4]
  }

  function Mode(q: Qos, channel: nat): nat
    requires Valid(q) && channel < CHANNELS
  {
    q.modes[channel / 8][channel % 8] % 8
  }

  function Weight(q: Qos, channel: nat, queue: nat): nat
    requires Valid(q) && channel < CHANNELS && queue < QUEUES
  {
    if q.weights[channel][queue] == 1 && Closed(q, channel, queue) then 0 else q.weights[channel][queue]
  }

  // ---- A set

  /** The shadow is what was last written to each close register. */
  predicate Shadows(q: Qos) {
    q.shadow == q.close
  }

  /** A close register after the first `n` queues of one channel were opened or closed. */
  function Closing(was: bits, lane: nat, mode: nat, w: seq<u16>, n: nat): (s: bits)
    requires mode < TYPES && |w| == QUEUES
  {
    set b | 0 <= b < 32 && (if b / 8 == lane && b % 8 < n then b % 8 < WeightNum(mode) && w[b % 8] == 0 else b in was)
  }

  /** A row of weights after the first `n` were stored in their eight bits. */
  function Storing(was: seq<byte>, w: seq<u16>, n: nat): (s: seq<byte>)
    requires |was| == |w| == QUEUES
  {
    seq(QUEUES, i requires 0 <= i < QUEUES => if i < n then w[i] % 0x100 else was[i])
  }

  /** A mode register with the three bits of field `k` replaced. */
  function WithMode(fields: seq<nibble>, k: nat, mode: nat): (r: seq<nibble>)
    requires k < |fields|
  {
    fields[k := fields[k] / 8 * 8 + mode % 8]
  }

  /** A set during which the hardware acknowledges the first `stop` weights; eight is all. */
  function Set(q: Qos, channel: nat, mode: nat, w: seq<u16>, stop: nat): (r: Qos)
    requires Valid(q) && channel < CHANNELS && mode < TYPES && |w| == QUEUES && stop <= QUEUES
    ensures Valid(r)
  {
    var word := Closing(q.shadow[channel / 4], channel % 4, mode, w, QUEUES);
    var r := q.(shadow := q.shadow[channel / 4 := word], close := q.close[channel / 4 := word]);
    if stop < QUEUES then
      r.(weights := q.weights[channel := Storing(q.weights[channel], Ones(w), stop + 1)])
    else
      r.(weights := q.weights[channel := Storing(q.weights[channel], Ones(w), QUEUES)],
         modes := q.modes[channel / 8 := WithMode(q.modes[channel / 8], channel % 8, mode)])
  }

  /** What a set weight reads back as. */
  function ReadBack(mode: nat, w: u16, queue: nat): nat
    requires mode < TYPES
  {
    if w == 0 then (if queue < WeightNum(mode) then 0 else 1) else w % 0x100
  }

  /** `q` reports this mode and, for every queue, what `w` reads back as. */
  ghost predicate Reports(q: Qos, channel: nat, mode: nat, w: seq<u16>)
    requires Valid(q) && channel < CHANNELS && mode < TYPES && |w| == QUEUES
  {
    && Mode(q, channel) == mode
    && forall i: nat :: i < QUEUES ==> Weight(q, channel, i) == ReadBack(mode, w[i], i)
  }

  lemma SetCloses(q: Qos, channel: nat, mode: nat, w: seq<u16>, stop: nat, i: nat)
    requires Valid(q) && channel < CHANNELS && mode < TYPES && |w| == QUEUES && stop <= QUEUES && i < QUEUES
    ensures Closed(Set(q, channel, mode, w, stop), channel, i) <==> i < WeightNum(mode) && w[i] == 0
  {
    var b := i + channel % 4 * 8;
    assert b / 8 == channel % 4 && b % 8 == i;
  }

  /** Which queues a mode schedules by weight, as a table: all eight in mode 0, none in mode 1,
      and one fewer from mode 2 on with each mode.  A zero weight reads back as zero on those
      queues and as one on the strict-priority ones; any other weight as its low eight bits. */
  lemma ReadBackTable(mode: nat, w: u16, queue: nat)
    requires mode < TYPES && queue < QUEUES
    ensures ReadBack(mode, 0, queue) == if queue < [8, 0, 7, 6, 5, 4, 3, 2][mode] then 0 else 1
    ensures w != 0 ==> ReadBack(mode, w, queue) == w % 256
  {
  }

  /** The close register of a channel after a set: queue `i` is bit `8 * (channel % 4) + i`, and
      the bits of the other channels are as they were. */
  ghost predicate Closes(was: seq<bits>, channel: nat, mode: nat, w: seq<u16>, now: seq<bits>)
    requires |was| == 8 && channel < 32 && mode < 8 && |w| == 8
  {
    && |now| == 8 && (forall c: nat :: c < 8 && c != channel / 4 ==> now[c] == was[c])
    && (forall i: nat :: i < 8 ==>
          (8 * (channel % 4) + i in now[channel / 4] <==> i < [8, 0, 7, 6, 5, 4, 3, 2][mode] && w[i] == 0))
    && forall b: nat :: b < 32 && b / 8 != channel % 4 ==> (b in now[channel / 4] <==> b in was[channel / 4])
  }

  /** The weights up to and including the first one not acknowledged are stored, zeros as ones. */
  ghost predicate Stores(was: seq<seq<byte>>, channel: nat, w: seq<u16>, stop: nat, now: seq<seq<byte>>)
    requires |was| == 32 && channel < 32 && |w| == 8 && |was[channel]| == 8
  {
    && |now| == 32 && (forall c: nat :: c < 32 && c != channel ==> now[c] == was[c])
    && |now[channel]| == 8
    && forall i: nat :: i < 8 ==>
         now[channel][i] == if i > stop then was[channel][i] else if w[i] == 0 then 1 else w[i] % 256
  }

  /** The mode is the low three bits of field `channel % 8` of register `channel / 8`; it is
      written only after all weights were acknowledged. */
  ghost predicate SetsMode(was: seq<seq<nibble>>, channel: nat, mode: nat, stop: nat, now: seq<seq<nibble>>)
    requires |was| == 4 && channel < 32 && |was[channel / 8]| == 8
  {
    && |now| == 4 && (forall m: nat :: m < 4 && m != channel / 8 ==> now[m] == was[m])
    && |now[channel / 8]| == 8
    && (forall k: nat :: k < 8 && k != channel % 8 ==> now[channel / 8][k] == was[channel / 8][k])
    && var field := was[channel / 8][channel % 8];
       now[channel / 8][channel % 8] == if stop < 8 then field else field / 8 * 8 + mode
  }

  lemma SetCloseBits(q: Qos, channel: nat, mode: nat, w: seq<u16>, stop: nat)
    requires Valid(q) && channel < CHANNELS && mode < TYPES && |w| == QUEUES && stop <= QUEUES
    ensures Closes(q.shadow, channel, mode, w, Set(q, channel, mode, w, stop).shadow)
  {
    var now := Set(q, channel, mode, w, stop).shadow;
    forall i: nat | i < QUEUES
      ensures 8 * (channel % 4) + i in now[channel / 4] <==> i < [8, 0, 7, 6, 5, 4, 3, 2][mode] && w[i] == 0
    {
      SetCloses(q, channel, mode, w, stop, i);
    }
  }

  lemma StoringStores(was: seq<seq<byte>>, channel: nat, w: seq<u16>, stop: nat)
    requires |was| == CHANNELS && channel < CHANNELS && |w| == QUEUES && |was[channel]| == QUEUES && stop <= QUEUES
    ensures var n := if stop < QUEUES then stop + 1 else QUEUES;
            Stores(was, channel, w, stop, was[channel := Storing(was[channel], Ones(w), n)])
  {
  }

  lemma WithModeSets(was: seq<seq<nibble>>, channel: nat, mode: nat)
    requires |was| == 4 && channel < CHANNELS && mode < TYPES && |was[channel / 8]| == 8
    ensures SetsMode(was, channel, mode, QUEUES,
                     was[channel / 8 := WithMode(was[channel / 8], channel % 8, mode)])
  {
  }

  /** A set, register by register. */
  lemma SetChanges(q: Qos, channel: nat, mode: nat, w: seq<u16>, stop: nat)
    requires Valid(q) && Shadows(q) && channel < CHANNELS && mode < TYPES && |w| == QUEUES && stop <= QUEUES
    ensures var r := Set(q, channel, mode, w, stop);
            && Shadows(r) && Closes(q.close, channel, mode, w, r.close)
            && Stores(q.weights, channel, w, stop, r.weights) && SetsMode(q.modes, channel, mode, stop, r.modes)
  {
    SetCloseBits(q, channel, mode, w, stop);
    StoringStores(q.weights, channel, w, stop);
    WithModeSets(q.modes, channel, mode);
  }

  /** After a completed set, get returns its mode and what its weights read back as. */
  lemma SetThenGet(q: Qos, channel: nat, mode: nat, w: seq<u16>)
    requires Valid(q) && channel < CHANNELS && mode < TYPES && |w| == QUEUES
    ensures Reports(Set(q, channel, mode, w, QUEUES), channel, mode, w)
  {
    var r := Set(q, channel, mode, w, QUEUES);
    forall i: nat | i < QUEUES
      ensures Weight(r, channel, i) == ReadBack(mode, w[i], i)
    {
      SetCloses(q, channel, mode, w, QUEUES, i);
    }
  }

  /** The weights survive unchanged exactly when all fit eight bits and no strict-priority
      queue was given zero. */
  lemma RoundTripExactly(mode: nat, w: seq<u16>)
    requires mode < TYPES && |w| == QUEUES
    ensures (forall i: nat :: i < QUEUES ==> ReadBack(mode, w[i], i) == w[i])
            <==> forall i: nat :: i < QUEUES ==> w[i] < 0x100 && (w[i] == 0 ==> i < WeightNum(mode))
  {
    forall i: nat | i < QUEUES
      ensures ReadBack(mode, w[i], i) == w[i] <==> w[i] < 0x100 && (w[i] == 0 ==> i < WeightNum(mode))
    {
    }
  }

  lemma OtherLane(was: bits, lane: nat, mode: nat, w: seq<u16>, b: nat)
    requires mode < TYPES && |w| == QUEUES && b < 32 && b / 8 != lane
    ensures b in Closing(was, lane, mode, w, QUEUES) <==> b in was
  {
  }

  /** A set, complete or not, leaves what every other channel reports alone. */
  lemma OtherChannelsKeep(q: Qos, channel: nat, mode: nat, w: seq<u16>, stop: nat, other: nat)
    requires Valid(q) && channel < CHANNELS && mode < TYPES && |w| == QUEUES && stop <= QUEUES
    requires other < CHANNELS && other != channel
    ensures var r := Set(q, channel, mode, w, stop);
            && Mode(r, other) == Mode(q, other)
            && forall i: nat :: i < QUEUES ==> Weight(r, other, i) == Weight(q, other, i)
  {
    var r := Set(q, channel, mode, w, stop);
    assert channel / 8 == other / 8 ==> channel % 8 != other % 8;
    assert r.weights[other] == q.weights[other];
    forall i: nat | i < QUEUES
      ensures Closed(r, other, i) <==> Closed(q, other, i)
    {
      if channel / 4 == other / 4 {
        var b := i + other % 4 * 8;
        assert b / 8 == other % 4 != channel % 4;
        OtherLane(q.shadow[channel / 4], channel % 4, mode, w, b);
      }
    }
  }

  /** A set that is not acknowledged in time has already turned the caller's zeros into ones:
      repeating it with the same record reports what was asked for exactly when no weighted
      queue was to be closed. */
  lemma RetryExactly(mode: nat, w: seq<u16>)
    requires mode < TYPES && |w| == QUEUES
    ensures (forall i: nat :: i < QUEUES ==> ReadBack(mode, Ones(w)[i], i) == ReadBack(mode, w[i], i))
            <==> forall i: nat :: i < WeightNum(mode) ==> w[i] != 0
  {
    forall i: nat | i < QUEUES
      ensures ReadBack(mode, Ones(w)[i], i) == ReadBack(mode, w[i], i) <==> (i < WeightNum(mode) ==> w[i] != 0)
    {
    }
  }

  // ---- Runs

  /** One call of set with its arguments and the number of weights acknowledged. */
  datatype Call = Call(channel: nat, mode: nat, w: seq<u16>, stop: nat)

  predicate WellFormed(c: Call) {
    |c.w| == QUEUES && c.stop <= QUEUES
  }

  function Next(q: Qos, c: Call): (r: Qos)
    requires Valid(q) && WellFormed(c)
    ensures Valid(r)
  {
    if c.channel < CHANNELS && c.mode < TYPES then Set(q, c.channel, c.mode, c.w, c.stop) else q
  }

  ghost predicate IsRun(qs: seq<Qos>, cs: seq<Call>) {
    && |qs| == |cs| + 1 && Valid(qs[0])
    && (forall k: nat :: k < |cs| ==> WellFormed(cs[k]))
    && forall k: nat :: k < |cs| ==> Valid(qs[k]) && qs[k + 1] == Next(qs[k], cs[k])
  }

  /** Over any run the shadow keeps equal to the registers. */
  lemma {:induction false} RunsKeepShadow(qs: seq<Qos>, cs: seq<Call>, n: nat)
    requires IsRun(qs, cs) && Shadows(qs[0]) && n <= |cs|
    ensures Valid(qs[n]) && Shadows(qs[n])
    decreases n
  {
    if n > 0 {
      RunsKeepShadow(qs, cs, n - 1);
      assert qs[n - 1 + 1] == Next(qs[n - 1], cs[n - 1]);
    }
  }

  /** Over any run: after a completed set and any later calls for other channels, refused and
      timed-out ones included, get still returns that set's mode and weights. */
  lemma {:induction false} LastSetIsReported(qs: seq<Qos>, cs: seq<Call>, m: nat, n: nat)
    requires IsRun(qs, cs) && m < n <= |cs|
    requires cs[m].channel < CHANNELS && cs[m].mode < TYPES && cs[m].stop == QUEUES
    requires forall k: nat :: m < k < n ==> cs[k].channel != cs[m].channel
    ensures Valid(qs[n]) && Reports(qs[n], cs[m].channel, cs[m].mode, cs[m].w)
    decreases n
  {
    var c := cs[n - 1];
    assert Valid(qs[n - 1]) && qs[n - 1 + 1] == Next(qs[n - 1], c);
    if n == m + 1 {
      SetThenGet(qs[m], c.channel, c.mode, c.w);
    } else {
      LastSetIsReported(qs, cs, m, n - 1);
      if c.channel < CHANNELS && c.mode < TYPES {
        OtherChannelsKeep(qs[n - 1], c.channel, c.mode, c.w, c.stop, cs[m].channel);
      }
    }
  }

  // ---- The driver

  /** Whether the done bit shows in one of the three reads. */
  predicate Acked(ack: nat -> bool) {
    ack(0) || ack(1) || ack(2)
  }

  /** The first of the queues from `i` on whose command is not acknowledged. */
  function StopFrom(acks: nat -> nat -> bool, i: nat): (stop: nat)
    requires i <= QUEUES
    ensures i <= stop <= QUEUES
    decreases QUEUES - i
  {
    if i == QUEUES || !Acked(acks(i)) then i else StopFrom(acks, i + 1)
  }

  lemma StopUnfolds(acks: nat -> nat -> bool, i: nat)
    requires i < QUEUES
    ensures StopFrom(acks, i) == if Acked(acks(i)) then StopFrom(acks, i + 1) else i
  {
  }

  lemma {:induction false} StopIsFirst(acks: nat -> nat -> bool, i: nat)
    requires i <= QUEUES
    ensures forall j: nat :: i <= j < StopFrom(acks, i) ==> acks(j)(0) || acks(j)(1) || acks(j)(2)
    ensures StopFrom(acks, i) < 8 ==> forall n: nat :: n < 3 ==> !acks(StopFrom(acks, i))(n)
    decreases QUEUES - i
  {
    if i < QUEUES && Acked(acks(i)) {
      StopIsFirst(acks, i + 1);
    }
  }

  function WithBit(s: bits, b: nat, on: bool): bits
    requires b < 32
  {
    if on then s + {b} else s - {b}
  }

  lemma ClosingNone(was: bits, lane: nat, mode: nat, w: seq<u16>)
    requires mode < TYPES && |w| == QUEUES
    ensures Closing(was, lane, mode, w, 0) == was
  {
  }

  lemma ClosingOneMore(was: bits, lane: nat, mode: nat, w: seq<u16>, n: nat)
    requires mode < TYPES && |w| == QUEUES && n < QUEUES && lane < 4
    ensures Closing(was, lane, mode, w, n + 1)
            == WithBit(Closing(was, lane, mode, w, n), n + lane * 8, n < WeightNum(mode) && w[n] == 0)
  {
    forall b: nat | b < 32
      ensures b == n + lane * 8 <==> b / 8 == lane && b % 8 == n
    {
    }
  }

  function Put(row: seq<byte>, i: nat, weight: byte): seq<byte>
    requires i < |row|
  {
    row[i := weight]
  }

  lemma StoringNone(was: seq<seq<byte>>, channel: nat, w: seq<u16>)
    requires channel < |was| && |was[channel]| == |w| == QUEUES
    ensures was[channel := Storing(was[channel], w, 0)] == was
  {
    assert Storing(was[channel], w, 0) == was[channel];
  }

  lemma StoringOneMore(was: seq<seq<byte>>, channel: nat, w: seq<u16>, n: nat)
    requires channel < |was| && |was[channel]| == |w| == QUEUES && n < QUEUES
    ensures var rows := was[channel := Storing(was[channel], w, n)];
            rows[channel := Put(rows[channel], n, w[n] % 0x100)] == was[channel := Storing(was[channel], w, n + 1)]
  {
    assert Put(Storing(was[channel], w, n), n, w[n] % 0x100) == Storing(was[channel], w, n + 1);
  }

  class Scheduler {
    var close: seq<bits>
    var shadow: seq<bits>
    var weights: seq<seq<byte>>
    var modes: seq<seq<nibble>>

    constructor (weights: seq<seq<byte>>, modes: seq<seq<nibble>>)
      requires |weights| == CHANNELS && forall c :: 0 <= c < CHANNELS ==> |weights[c]| == QUEUES
      requires |modes| == 4 && forall r :: 0 <= r < 4 ==> |modes[r]| == 8
      ensures Valid(View()) && Shadows(View())
    {
      close, shadow := [{}, {}, {}, {}, {}, {}, {}, {}], [{}, {}, {}, {}, {}, {}, {}, {}];
      this.weights, this.modes := weights, modes;
    }

    function View(): Qos
      reads this
    {
      Qos(close, shadow, weights, modes)
    }

    /** qdmaSetQueueClose_sw and qdmaSetQueueOpen_sw. */
    method SetQueue(channel: nat, queue: nat, closed: bool) returns (ret: int)
      requires Valid(View()) && queue < QUEUES
      modifies this`shadow, this`close
      ensures channel / 4 >= 8 ==> ret == -1 && View() == old(View())
      ensures channel / 4 < 8 ==>
                && ret == 0
                && shadow == old(shadow)[channel / 4 :=
                     WithBit(old(shadow[channel / 4]), queue + channel % 4 * 8, closed)]
                && close == old(close)[channel / 4 := shadow[channel / 4]]
    {
      var r := channel / 4;
      if r >= 8 {
        return -1;
      }
      shadow := shadow[r := WithBit(shadow[r], queue + channel % 4 * 8, closed)];
      close := close[r := shadow[r]];
      return 0;
    }

    /** qdmaIsQueueClosed_sw. */
    method IsQueueClosed(channel: nat, queue: nat) returns (closed: bool)
      requires Valid(View()) && queue < QUEUES
      ensures closed <==> channel < CHANNELS && Closed(View(), channel, queue)
    {
      var r := channel / 4;
      if r >= 8 {
        return false;
      }
      return queue + channel % 4 * 8 in shadow[r];
    }

    /** qdmaChecConfigDone. */
    method CheckDone(ack: nat -> bool) returns (ret: int)
      ensures ret == if Acked(ack) then 0 else -ETIME
      ensures ret == if exists k: nat :: k < 3 && ack(k) then 0 else -62
    {
      var retry := 3;
      while retry > 0
        invariant 0 <= retry <= 3
        invariant forall k: nat :: k < 3 - retry ==> !ack(k)
      {
        retry := retry - 1;
        if ack(2 - retry) {
          return 0;
        }
      }
      return -ETIME;
    }

    /** The first loop of qdma_set_tx_qos_upstream. */
    method CloseQueues(channel: nat, mode: nat, w: seq<u16>)
      requires Valid(View()) && Shadows(View()) && channel < CHANNELS && mode < TYPES && |w| == QUEUES
      modifies this`shadow, this`close
      ensures shadow == close
      ensures shadow == old(shadow)[channel / 4 := Closing(old(shadow[channel / 4]), channel % 4, mode, w, QUEUES)]
    {
      ghost var before := shadow[channel / 4];
      ClosingNone(before, channel % 4, mode, w);
      for i := 0 to QUEUES
        invariant Valid(View()) && shadow == close
        invariant shadow == old(shadow)[channel / 4 := Closing(before, channel % 4, mode, w, i)]
      {
        ClosingOneMore(before, channel % 4, mode, w, i);
        if i >= WeightNum(mode) {
          var _ := SetQueue(channel, i, false);
        } else if w[i] == 0 {
          var _ := SetQueue(channel, i, true);
        } else {
          var _ := SetQueue(channel, i, false);
        }
      }
    }

    /** The second loop: the caller's zeros become ones. */
    method RaiseZeros(w: seq<u16>) returns (raised: seq<u16>)
      ensures raised == Ones(w)
    {
      raised := w;
      for i := 0 to |w|
        invariant |raised| == |w|
        invariant forall k :: 0 <= k < |w| ==> raised[k] == if k < i then Ones(w)[k] else w[k]
      {
        if raised[i] == 0 {
          raised := raised[i := 1];
        }
      }
    }

    /** One command to the indirect weight register. */
    method StoreOne(channel: nat, i: nat, weight: byte, ack: nat -> bool) returns (ret: int)
      requires channel < |weights| && i < |weights[channel]|
      modifies this`weights
      ensures weights == old(weights)[channel := Put(old(weights[channel]), i, weight)]
      ensures ret == if Acked(ack) then 0 else -ETIME
    {
      weights := weights[channel := Put(weights[channel], i, weight)];
      ret := CheckDone(ack);
    }

    /** The loop of qdmaSetTxQosSchedulerUpstream. */
    method StoreRow(channel: nat, w: seq<u16>, acks: nat -> nat -> bool) returns (ret: int)
      requires Valid(View()) && channel < CHANNELS && |w| == QUEUES
      modifies this`weights
      ensures var stop := StopFrom(acks, 0);
              && ret == (if stop == QUEUES then 0 else -ETIME)
              && weights == old(weights)[channel :=
                   Storing(old(weights[channel]), w, if stop < QUEUES then stop + 1 else QUEUES)]
    {
      ghost var was, stop := weights, StopFrom(acks, 0);
      StoringNone(was, channel, w);
      for i := 0 to QUEUES
        invariant |weights| == CHANNELS && |weights[channel]| == QUEUES
        invariant weights == was[channel := Storing(was[channel], w, i)]
        invariant stop == StopFrom(acks, i)
      {
        StoringOneMore(was, channel, w, i);
        StopUnfolds(acks, i);
        var done := StoreOne(channel, i, w[i] % 0x100, acks(i));
        if done < 0 {
          return -ETIME;
        }
      }
      ret := 0;
    }

    /** qdmaSetTxQosSchedulerUpstream. */
    method StoreWeights(channel: nat, mode: nat, w: seq<u16>, acks: nat -> nat -> bool) returns (ret: int)
      requires Valid(View()) && channel < CHANNELS && mode < TYPES && |w| == QUEUES
      modifies this`weights, this`modes
      ensures var stop := StopFrom(acks, 0);
              && ret == (if stop == QUEUES then 0 else -ETIME)
              && weights == old(weights)[channel :=
                   Storing(old(weights[channel]), w, if stop < QUEUES then stop + 1 else QUEUES)]
              && modes == if stop < QUEUES then old(modes)
                          else old(modes)[channel / 8 := WithMode(old(modes[channel / 8]), channel % 8, mode)]
    {
      ret := StoreRow(channel, w, acks);
      if ret == 0 {
        modes := modes[channel / 8 := WithMode(modes[channel / 8], channel % 8, mode)];
      }
    }

    /** qdma_set_tx_qos_upstream; `left` is what the caller's record holds afterwards. */
    method SetTxQos(channel: nat, mode: nat, w: seq<u16>, acks: nat -> nat -> bool) returns (ret: int, left: seq<u16>)
      requires Valid(View()) && Shadows(View()) && |w| == QUEUES
      modifies this
      ensures Valid(View()) && Shadows(View())
      ensures View() == Next(old(View()), Call(channel, mode, w, StopFrom(acks, 0)))
      ensures ret == (if channel >= CHANNELS || mode >= TYPES then -EINVAL
                      else if StopFrom(acks, 0) < QUEUES then -ETIME else 0)
      ensures ret == -22 <==> channel >= 32 || mode >= 8
      ensures ret == -22 ==> View() == old(View()) && left == w
      ensures ret != -22 ==> |left| == 8 && forall i: nat :: i < 8 ==> left[i] == if w[i] == 0 then 1 else w[i]
      ensures ret != -22 ==>
                var stop := StopFrom(acks, 0);
                && Closes(old(close), channel, mode, w, close) && Stores(old(weights), channel, w, stop, weights)
                && SetsMode(old(modes), channel, mode, stop, modes)
    {
      if channel < CHANNELS && mode < TYPES {
        SetChanges(View(), channel, mode, w, StopFrom(acks, 0));
      }
      if channel >= CHANNELS {
        return -EINVAL, w;
      }
      if mode >= TYPES {
        return -EINVAL, w;
      }
      CloseQueues(channel, mode, w);
      left := RaiseZeros(w);
      ret := StoreWeights(channel, mode, left, acks);
    }

    /** qdma_get_tx_qos_upstream. */
    method GetTxQos(channel: nat, acks: nat -> nat -> bool) returns (ret: int, mode: nat, w: seq<nat>)
      requires Valid(View())
      ensures ret == (if channel >= CHANNELS then -EINVAL else if StopFrom(acks, 0) < QUEUES then -EFAULT else 0)
      ensures ret == 0 ==> mode == Mode(View(), channel) && |w| == QUEUES
                           && forall i: nat :: i < QUEUES ==> w[i] == Weight(View(), channel, i)
    {
      mode, w := 0, [];
      if channel >= CHANNELS {
        return -EINVAL, mode, w;
      }
      var row: seq<byte> := [];
      mode := modes[channel / 8][channel % 8] % 8;
      for i := 0 to QUEUES
        invariant row == weights[channel][..i]
        invariant StopFrom(acks, 0) == StopFrom(acks, i)
      {
        var done := CheckDone(acks(i));
        if done < 0 {
          return -EFAULT, mode, w;
        }
        row := row + [weights[channel][i]];
      }
      for i := 0 to QUEUES
        invariant |w| == i && forall k: nat :: k < i ==> w[k] == Weight(View(), channel, k)
      {
        var weight: nat := row[i];
        var closed := IsQueueClosed(channel, i);
        if weight == 1 && closed {
          weight := 0;
        }
        w := w + [weight];
      }
      ret := 0;
    }
  }
}

/** Retiring the channels of a GDM (arht_fe.c, the builds other than EN7580): enable registers
are saved, cleared, and restored around releases that poll the hardware. */
module ChannelRetire {
  import opened Words

  const ROUNDS := 10      // GDMA_CHN_RLS_TIMEOUT
  const POLLS := 10
  const DROP_POLLS := 300

  datatype Gdm = Gdm1 | Gdm2 | Gdm3 | Gdm4

  datatype Reg = Tx(gdm: Gdm) | Rx(gdm: Gdm) | Hw(gdm: Gdm) | Rls(gdm: Gdm) | Loopback | Forward | QdmaGlb

  type Regs = map<Reg, u32>

  ghost predicate Complete(regs: Regs) {
    forall r: Reg :: r in regs
  }

  /** Nothing enters or leaves the GDM. */
  ghost predicate Quiet(regs: Regs, g: Gdm) {
    Complete(regs) && regs[Tx(g)] == regs[Rx(g)] == regs[Hw(g)] == 0
  }

  function WithBit17(w: u32): u32 {
    if w / 0x2_0000 % 2 == 1 then w else w + 0x2_0000
  }

  /** Bit 17 ends set and no other bit changes. */
  lemma OnlyBit17(w: u32)
    ensures var r := WithBit17(w);
            r / 0x2_0000 % 2 == 1 && r % 0x2_0000 == w % 0x2_0000 && r / 0x4_0000 == w / 0x4_0000
  {
    var high, low := w / 0x2_0000, w % 0x2_0000;
    if high % 2 == 0 {
      assert w + 0x2_0000 == (high + 1) * 0x2_0000 + low;
    }
  }

  /** GDM2 sends into its loop back, forwards by the dropping configuration, and receives
      nothing; bit 17 of the QDMA's global configuration `glb` is set. */
  ghost predicate Draining(regs: Regs, forward: u32, glb: u32) {
    && Complete(regs)
    && regs[Tx(Gdm2)] == 0xffff && regs[Rx(Gdm2)] == regs[Hw(Gdm2)] == 0
    && regs[Loopback] == 0x4007d003 && regs[Forward] == forward && regs[QdmaGlb] == WithBit17(glb)
  }

  // ---- Polls

  /** One look at the hardware: the release status bit and the channel's valid bit. */
  datatype Poll = Poll(released: bool, valid: bool)

  type Polls = nat -> Poll

  predicate Good(p: Poll) {
    p.released && !p.valid
  }

  /** Ten good polls in a row. */
  ghost predicate Window(polls: Polls, from: nat) {
    forall k: nat :: from <= k < from + POLLS ==> Good(polls(k))
  }

  function BadBefore(polls: Polls, n: nat): nat {
    if n == 0 then 0 else BadBefore(polls, n - 1) + (if Good(polls(n - 1)) then 0 else 1)
  }

  /** What a release waits for: ten good polls in a row after at most eight bad ones. */
  ghost predicate Released(polls: Polls) {
    exists from: nat :: Window(polls, from) && BadBefore(polls, from) <= ROUNDS - 2
  }

  lemma {:induction false} BadGrows(polls: Polls, m: nat, n: nat)
    requires m <= n
    ensures BadBefore(polls, m) <= BadBefore(polls, n)
    decreases n
  {
    if m < n {
      BadGrows(polls, m, n - 1);
    }
  }

  lemma {:induction false} GoodAddNothing(polls: Polls, m: nat, n: nat)
    requires m <= n && forall k: nat :: m <= k < n ==> Good(polls(k))
    ensures BadBefore(polls, n) == BadBefore(polls, m)
    decreases n
  {
    if m < n {
      GoodAddNothing(polls, m, n - 1);
    }
  }

  /** No window has begun before poll `k`, which is where round `rounds + 1` begins. */
  ghost predicate NoneYet(polls: Polls, k: nat, rounds: nat) {
    BadBefore(polls, k) == rounds && forall p: nat :: p < k ==> !Window(polls, p)
  }

  /** A round that ends at a bad poll leaves no window begun. */
  lemma RoundFails(polls: Polls, from: nat, bad: nat, rounds: nat)
    requires NoneYet(polls, from, rounds) && from <= bad < from + POLLS
    requires (forall k: nat :: from <= k < bad ==> Good(polls(k))) && !Good(polls(bad))
    ensures NoneYet(polls, bad + 1, rounds + 1)
  {
    GoodAddNothing(polls, from, bad);
    forall p: nat | from <= p <= bad
      ensures !Window(polls, p)
    {
      assert p <= bad < p + POLLS;
    }
  }

  /** The polls before number `n` that do not show a finished release. */
  function BadPolls(polls: Polls, n: nat): set<nat> {
    set k: nat | k < n && (!polls(k).released || polls(k).valid)
  }

  lemma {:induction false} BadCounted(polls: Polls, n: nat)
    ensures BadBefore(polls, n) == |BadPolls(polls, n)|
    decreases n
  {
    if n == 0 {
      assert BadPolls(polls, 0) == {};
    } else {
      BadCounted(polls, n - 1);
      var before := BadPolls(polls, n - 1);
      assert BadPolls(polls, n) == if Good(polls(n - 1)) then before else before + {n - 1};
    }
  }

  /** In plain numbers: ten polls in a row that show the release done and the channel no longer
      valid, with at most eight polls before them that do not. */
  lemma ReleasedMeans(polls: Polls)
    ensures Released(polls) <==>
            exists from: nat ::
              && |BadPolls(polls, from)| <= 8
              && forall k: nat :: from <= k < from + 10 ==> polls(k).released && !polls(k).valid
  {
    if from: nat :| Window(polls, from) && BadBefore(polls, from) <= ROUNDS - 2 {
      BadCounted(polls, from);
      assert forall k: nat :: from <= k < from + 10 ==> Good(polls(k));
    }
    if from: nat :| |BadPolls(polls, from)| <= 8
                    && forall k: nat :: from <= k < from + 10 ==> polls(k).released && !polls(k).valid {
      BadCounted(polls, from);
      assert Window(polls, from);
    }
  }

  lemma AllRoundsFailed(polls: Polls, k: nat)
    requires NoneYet(polls, k, ROUNDS - 1)
    ensures !Released(polls)
  {
    forall p: nat | Window(polls, p)
      ensures BadBefore(polls, p) > ROUNDS - 2
    {
      BadGrows(polls, k, p);
    }
  }

  // ---- The driver

  /** An access made while a channel is being released or drained: the registers and the stop
      flag at that moment. */
  datatype Step = Step(regs: Regs, stop: bool)

  /** The drain was left after poll `last`: the first that found no channel valid, or number
      300. */
  ghost predicate Drained(busy: nat -> bool, last: int) {
    && 0 <= last <= 300
    && (forall k: nat :: k < last ==> busy(k))
    && (!busy(last) || last == 300)
  }

  /** The channels one pass releases, as the hardware numbers them. */
  function PassOrder(n: nat): (s: seq<nat>) {
    seq(n, i requires i >= 0 => i % 32)
  }

  /** Channels 0 to n - 1 were commanded, modulo 32, twice in this order and no others. */
  ghost predicate ReleasedTwice(before: seq<nat>, after: seq<nat>, channels: nat) {
    && before <= after && |after| == |before| + 2 * channels
    && forall i: nat :: i < channels ==> after[|before| + i] == after[|before| + channels + i] == i % 32
  }

  lemma TwoPasses(before: seq<nat>, after: seq<nat>, channels: nat)
    requires after == before + PassOrder(channels) + PassOrder(channels)
    ensures ReleasedTwice(before, after, channels)
  {
  }

  /** `b` is `a` and accesses made with these registers. */
  ghost predicate Extended(a: seq<Step>, b: seq<Step>, regs: Regs, stop: bool) {
    a <= b && forall k :: |a| <= k < |b| ==> b[k] == Step(regs, stop)
  }

  /** `b` is `a` and accesses made while GDM `g` is quiet. */
  ghost predicate QuietSince(a: seq<Step>, b: seq<Step>, g: Gdm, stop: bool) {
    a <= b && forall k :: |a| <= k < |b| ==> Quiet(b[k].regs, g) && b[k].stop == stop
  }

  /** `b` is `a` and accesses made while GDM2 drains. */
  ghost predicate DrainingSince(a: seq<Step>, b: seq<Step>, forward: u32, glb: u32, stop: bool) {
    a <= b && forall k :: |a| <= k < |b| ==> Draining(b[k].regs, forward, glb) && b[k].stop == stop
  }

  lemma ReleaseIsQuiet(start: seq<Step>, a: seq<Step>, b: seq<Step>, during: Regs, after: Regs, g: Gdm, stop: bool)
    requires QuietSince(start, a, g, stop) && |b| > |a| && Extended(a, b[..|b| - 1], during, stop)
    requires b[|b| - 1] == Step(after, stop) && Quiet(during, g) && Quiet(after, g)
    ensures QuietSince(start, b, g, stop)
  {
    var c := b[..|b| - 1];
    assert b == c + [Step(after, stop)];
    forall k | |start| <= k < |c|
      ensures Quiet(c[k].regs, g) && c[k].stop == stop
    {
      assert k < |a| ==> c[k] == a[k];
    }
  }

  lemma SilencedIsQuiet(r: Regs, g: Gdm)
    requires Complete(r)
    ensures Quiet(r[Hw(g) := 0][Rx(g) := 0][Tx(g) := 0], g)
  {
  }

  /** Writing the three saved values back undoes the three zeros. */
  lemma RestoringUndoes(r: Regs, g: Gdm, rls: u32)
    requires Complete(r)
    ensures r[Hw(g) := 0][Rx(g) := 0][Tx(g) := 0][Rls(g) := rls]
            [Tx(g) := r[Tx(g)]][Rx(g) := r[Rx(g)]][Hw(g) := r[Hw(g)]]
            == r[Rls(g) := rls]
  {
  }

  class FrameEngine {
    var regs: Regs
    var stop: bool            // qdma_stop_flag
    var log: seq<Step>        // every access during a release or a drain
    var commands: seq<nat>    // channels whose release was commanded

    constructor (regs: Regs)
      requires Complete(regs)
      ensures this.regs == regs && !stop && log == [] && commands == []
    {
      this.regs, stop, log, commands := regs, false, [], [];
    }

    method CommandRelease(g: Gdm, chn: nat)
      requires Complete(regs) && chn < 32
      modifies this
      ensures regs == old(regs)[Rls(g) := chn * 16 + 1] && stop == old(stop)
      ensures log == old(log) + [Step(regs, stop)] && commands == old(commands) + [chn]
    {
      regs := regs[Rls(g) := chn * 16 + 1];
      log := log + [Step(regs, stop)];
      commands := commands + [chn];
    }

    /** One round: up to ten polls, ended by a bad one. */
    method PollRound(polls: Polls, from: nat, ghost rounds: nat) returns (good: bool, next: nat)
      requires NoneYet(polls, from, rounds)
      modifies this`log
      ensures good ==> Window(polls, from) && |log| == |old(log)| + 10
      ensures !good ==> |log| > |old(log)|
      ensures !good ==> NoneYet(polls, next, rounds + 1)
      ensures Extended(old(log), log, regs, stop)
    {
      next := from;
      var value := 0;
      while value < 10
        invariant 0 <= value <= 10 && next == from + value
        invariant forall k: nat :: from <= k < next ==> Good(polls(k))
        invariant Extended(old(log), log, regs, stop) && |log| == |old(log)| + value
      {
        log := log + [Step(regs, stop)];
        if !polls(next).released || polls(next).valid {
          RoundFails(polls, from, next, rounds);
          return false, next + 1;
        }
        next := next + 1;
        value := value + 1;
      }
      good := true;
    }

    /** fe_channel_retire_one: success exactly when the polls show ten good ones in a row after
        at most eight bad ones; the release register ends at zero either way and no other
        register is touched. */
    method RetireOne(g: Gdm, channel: nat, polls: Polls) returns (ret: int)
      requires Complete(regs)
      modifies this
      ensures stop == old(stop)
      ensures g != Gdm1 && g != Gdm2 ==> ret == -1 && regs == old(regs) && log == old(log) && commands == old(commands)
      ensures g == Gdm1 || g == Gdm2 ==>
                && ret == (if Released(polls) then 0 else -1)
                && regs == old(regs)[Rls(g) := 0]
                && commands == old(commands) + [channel % 32]
                && |log| >= |old(log)| + 11 && log[|log| - 1] == Step(regs, stop)
                && Extended(old(log), log[..|log| - 1], old(regs)[Rls(g) := channel % 32 * 16 + 1], stop)
    {
      if g != Gdm1 && g != Gdm2 {
        return -1;
      }
      CommandRelease(g, channel % 32);
      ret := AwaitRelease(polls);
      EndRelease(g);
    }

    method EndRelease(g: Gdm)
      requires Complete(regs)
      modifies this`regs, this`log
      ensures regs == old(regs)[Rls(g) := 0] && log == old(log) + [Step(regs, stop)]
    {
      regs := regs[Rls(g) := 0];
      log := log + [Step(regs, stop)];
    }

    method AwaitRelease(polls: Polls) returns (ret: int)
      modifies this`log
      ensures ret == if Released(polls) then 0 else -1
      ensures Extended(old(log), log, regs, stop) && |log| >= |old(log)| + 9
    {
      var count, next, done := 0, 0, false;
      ret := 0;
      while !done
        invariant !done ==> 0 <= count < ROUNDS && NoneYet(polls, next, count)
        invariant done ==> ret == if Released(polls) then 0 else -1
        invariant !done ==> ret == 0
        invariant Extended(old(log), log, regs, stop)
        invariant |log| >= |old(log)| + if done then 9 else count
        decreases !done, ROUNDS - count
      {
        count := count + 1;
        if count < ROUNDS {
          ghost var from := next;
          done, next := PollRound(polls, next, count - 1);
          if done {
            assert Window(polls, from);
          }
        } else {
          AllRoundsFailed(polls, next);
          ret := -1;
          done := true;
        }
      }
    }

    /** fe_channel_retire: two passes over the channels with all three enables at zero; the
        enables end as they began, whatever the releases returned. */
    method Retire(g: Gdm, channels: nat, polls: nat -> nat -> Polls) returns (ret: int)
      requires Complete(regs)
      modifies this
      ensures stop == old(stop) && ret == if g == Gdm1 || g == Gdm2 then 0 else -1
      ensures g != Gdm1 && g != Gdm2 ==> regs == old(regs) && log == old(log) && commands == old(commands)
      ensures g == Gdm1 || g == Gdm2 ==>
                && |log| >= |old(log)| + 22 * channels
                && regs == old(regs)[Rls(g) := if channels == 0 then old(regs)[Rls(g)] else 0]
                && QuietSince(old(log), log, g, stop)
      ensures g == Gdm1 || g == Gdm2 ==> commands == old(commands) + PassOrder(channels) + PassOrder(channels)
    {
      if g != Gdm1 && g != Gdm2 {
        return -1;
      }
      var tx, rx, hw := regs[Tx(g)], regs[Rx(g)], regs[Hw(g)];
      regs := regs[Hw(g) := 0];
      regs := regs[Rx(g) := 0];
      regs := regs[Tx(g) := 0];
      SilencedIsQuiet(old(regs), g);
      RetireTwice(g, channels, polls);
      RestoringUndoes(old(regs), g, regs[Rls(g)]);
      regs := regs[Tx(g) := tx];
      regs := regs[Rx(g) := rx];
      regs := regs[Hw(g) := hw];
      return 0;
    }

    method RetireTwice(g: Gdm, channels: nat, polls: nat -> nat -> Polls)
      requires (g == Gdm1 || g == Gdm2) && Quiet(regs, g)
      modifies this
      ensures stop == old(stop) && QuietSince(old(log), log, g, stop) && |log| >= |old(log)| + 22 * channels
      ensures regs == old(regs)[Rls(g) := if channels == 0 then old(regs)[Rls(g)] else 0]
      ensures commands == old(commands) + PassOrder(channels) + PassOrder(channels)
    {
      var j := 0;
      while j < 2
        invariant 0 <= j <= 2 && stop == old(stop)
        invariant regs == old(regs)[Rls(g) := if j == 0 || channels == 0 then old(regs)[Rls(g)] else 0]
        invariant QuietSince(old(log), log, g, stop) && |log| >= |old(log)| + 11 * channels * j
        invariant j == 0 ==> commands == old(commands)
        invariant j == 1 ==> commands == old(commands) + PassOrder(channels)
        invariant j == 2 ==> commands == old(commands) + PassOrder(channels) + PassOrder(channels)
      {
        RetirePass(g, channels, polls(j), old(log));
        j := j + 1;
      }
    }

    method RetirePass(g: Gdm, channels: nat, polls: nat -> Polls, ghost start: seq<Step>)
      requires (g == Gdm1 || g == Gdm2) && Quiet(regs, g) && QuietSince(start, log, g, stop)
      modifies this
      ensures stop == old(stop)
      ensures regs == old(regs)[Rls(g) := if channels == 0 then old(regs)[Rls(g)] else 0]
      ensures commands == old(commands) + PassOrder(channels)
      ensures QuietSince(start, log, g, stop) && |log| >= |old(log)| + 11 * channels
    {
      for i := 0 to channels
        invariant stop == old(stop)
        invariant regs == old(regs)[Rls(g) := if i == 0 then old(regs)[Rls(g)] else 0]
        invariant commands == old(commands) + PassOrder(i)
        invariant QuietSince(start, log, g, stop) && |log| >= |old(log)| + 11 * i
      {
        ghost var before := log;
        var _ := RetireOne(g, i, polls(i));
        ReleaseIsQuiet(start, before, log, regs[Rls(g) := i % 32 * 16 + 1], regs, g, stop);
        assert PassOrder(i + 1) == PassOrder(i) + [i % 32];
      }
    }

    /** fe_channel_drop: GDM2 drains into a dropping loop back; all six registers end as they
        began, drained or not. */
    method Drop(forward: u32, busy: nat -> bool)
      requires Complete(regs)
      modifies this
      ensures regs == old(regs) && stop == old(stop) && commands == old(commands)
      ensures DrainingSince(old(log), log, forward, old(regs)[QdmaGlb], stop)
      ensures Drained(busy, |log| - |old(log)| - 1)
    {
      var tx, rx, hw := regs[Tx(Gdm2)], regs[Rx(Gdm2)], regs[Hw(Gdm2)];
      regs := regs[Tx(Gdm2) := 0xffff];
      regs := regs[Rx(Gdm2) := 0];
      regs := regs[Hw(Gdm2) := 0];
      DrainLoop(forward, busy);
      regs := regs[Tx(Gdm2) := tx];
      regs := regs[Rx(Gdm2) := rx];
      regs := regs[Hw(Gdm2) := hw];
    }

    method DrainLoop(forward: u32, busy: nat -> bool)
      requires Complete(regs) && regs[Tx(Gdm2)] == 0xffff && regs[Rx(Gdm2)] == regs[Hw(Gdm2)] == 0
      modifies this`regs, this`log
      ensures regs == old(regs)
      ensures DrainingSince(old(log), log, forward, old(regs)[QdmaGlb], stop)
      ensures Drained(busy, |log| - |old(log)| - 1)
    {
      var lpbk, fwd, glb := regs[Loopback], regs[Forward], regs[QdmaGlb];
      regs := regs[Loopback := 0x4007d003];
      regs := regs[Forward := forward];
      regs := regs[QdmaGlb := WithBit17(glb)];
      AwaitDrained(busy);
      regs := regs[Loopback := lpbk];
      regs := regs[Forward := fwd];
      regs := regs[QdmaGlb := glb];
    }

    method AwaitDrained(busy: nat -> bool)
      modifies this`log
      ensures Extended(old(log), log, regs, stop) && Drained(busy, |log| - |old(log)| - 1)
    {
      var value := 0;
      var waiting := true;
      while waiting
        invariant Extended(old(log), log, regs, stop)
        invariant 0 <= value <= DROP_POLLS + 1 && |log| == |old(log)| + value
        invariant waiting ==> value <= DROP_POLLS && forall k: nat :: k < value ==> busy(k)
        invariant !waiting ==> Drained(busy, value - 1)
        decreases waiting, DROP_POLLS - value
      {
        log := log + [Step(regs, stop)];
        waiting := busy(value) && value < DROP_POLLS;
        value := value + 1;
      }
    }

    /** fe_api_set_channel_retire_all: retiring commands the release of every channel twice, in
        order; dropping polls until the drain is done or the polls are used up.  Whichever way
        it goes, every register but the release register ends as it began, the stop flag is up
        during every access and down at the end. */
    method RetireAll(ignored: bool, retire: bool, g: Gdm, channels: nat, polls: nat -> nat -> Polls,
                     forward: u32, busy: nat -> bool)
      requires Complete(regs)
      modifies this
      ensures ignored ==> regs == old(regs) && stop == old(stop) && log == old(log) && commands == old(commands)
      ensures !ignored ==> !stop
      ensures !ignored && retire && (g == Gdm1 || g == Gdm2) ==>
                ReleasedTwice(old(commands), commands, channels) && |log| >= |old(log)| + 22 * channels
      ensures !ignored && !retire ==> commands == old(commands) && Drained(busy, |log| - |old(log)| - 1)
      ensures Complete(regs) && forall r: Reg :: r != Rls(g) ==> regs[r] == old(regs)[r]
      ensures if retire then QuietSince(old(log), log, g, true)
              else DrainingSince(old(log), log, forward, old(regs)[QdmaGlb], true)
    {
      if ignored {
        return;
      }
      stop := true;
      if !retire {
        Drop(forward, busy);
      } else {
        var _ := Retire(g, channels, polls);
        if g == Gdm1 || g == Gdm2 {
          TwoPasses(old(commands), commands, channels);
        }
      }
      stop := false;
    }
  }
}

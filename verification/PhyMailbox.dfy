/** The AN8831 PHY mailbox (arht_hsgmii.c, "IPC Layer functions").

The host writes a command word whose top bit is the parity of a counter that every PHY
shares; the device services a command when that bit is new and reports with the same bit
in its status word.  Host and device are modelled together: the device's moves and the
clock are an environment that the host's polling loops are proved against. */
module PhyMailbox {
  import opened Words

  const STS_SUCCESS := 0x4
  const STS_ERROR := 0x8
  const CMD_NOOP := 0
  const IPC_TIMEOUT := 2_000_000_000   // nanoseconds
  const TICK := 10_000_000             // mdelay(10)

  // ---- Command and status words

  type bit = x: nat | x < 2
  type bits4 = x: nat | x < 16
  type bits5 = x: nat | x < 32
  type bits6 = x: nat | x < 64

  /** [1 parity][4 reserved][5 size][6 opcode] */
  function CommandWord(opcode: int, size: int, parity: bit): u16 {
    parity * 0x8000 + size % 32 * 64 + opcode % 64
  }

  function CmdParity(w: u16): bit { w / 0x8000 }
  function CmdSize(w: u16): bits5 { w / 64 % 32 }
  function CmdOpcode(w: u16): bits6 { w % 64 }

  /** The device reads back the parity and the low bits of opcode and size. */
  lemma CommandRoundTrip(opcode: int, size: int, parity: bit)
    ensures var w := CommandWord(opcode, size, parity);
            CmdParity(w) == parity && CmdSize(w) == size % 32 && CmdOpcode(w) == opcode % 64
  {
    var a, b := size % 32, opcode % 64;
    assert (parity * 0x8000 + a * 64 + b) / 64 == parity * 512 + a;
  }

  datatype Status = Status(parity: bit, size: bits5, opcode: bits6, status: bits4)

  /** [1 parity][5 size][6 opcode][4 status] */
  function StatusWord(s: Status): u16 {
    s.parity * 0x8000 + s.size * 0x400 + s.opcode * 0x10 + s.status
  }

  /** aeon_ipc_parse_sts: clip one field after the other. */
  function ParseStatus(sts: u16): Status {
    var status, rest := sts % 16, sts / 16;
    var opcode, rest := rest % 64, rest / 64;
    var size, rest := rest % 32, rest / 32;
    Status(rest % 2, size, opcode, status)
  }

  /** Parsing and packing are inverse: every 16-bit word is some status and no two statuses
      share a word. */
  lemma StatusRoundTrip(s: Status, w: u16)
    ensures ParseStatus(StatusWord(s)) == s
    ensures StatusWord(ParseStatus(w)) == w
  {
    var v := StatusWord(s);
    assert v / 16 == s.parity * 2048 + s.size * 64 + s.opcode;
    assert v / 16 / 64 == s.parity * 32 + s.size;
  }

  // ---- The device

  /** `cmdId` numbers the command in the command register, `owner` the command that the
      status word reports on. */
  datatype Phy = Phy(cmd: u16, sts: Status, cmdId: nat, owner: nat)

  /** Take: service the command if its parity is new.  Advance: an unfinished command makes
      progress. */
  datatype Act = Take(size: bits5, status: bits4) | Advance(size: bits5, status: bits4)

  predicate Final(status: bits4) {
    status == STS_SUCCESS || status == STS_ERROR
  }

  predicate Pending(d: Phy) {
    CmdParity(d.cmd) != d.sts.parity
  }

  function Act1(d: Phy, a: Act): Phy {
    match a
    case Take(size, status) =>
      if Pending(d) then d.(sts := Status(CmdParity(d.cmd), size, CmdOpcode(d.cmd), status), owner := d.cmdId) else d
    case Advance(size, status) =>
      if Final(d.sts.status) then d else d.(sts := d.sts.(size := size, status := status))
  }

  function Acts(d: Phy, acts: seq<Act>): Phy
    decreases |acts|
  {
    if acts == [] then d else Acts(Act1(d, acts[0]), acts[1..])
  }

  /** The status word reports on the command in the register exactly when the parities agree. */
  ghost predicate Consistent(d: Phy) {
    d.owner == d.cmdId <==> !Pending(d)
  }

  lemma {:induction false} ActsKeepConsistent(d: Phy, acts: seq<Act>)
    ensures var e := Acts(d, acts);
            && e.cmd == d.cmd && e.cmdId == d.cmdId
            && (Consistent(d) ==> Consistent(e))
            && (!Pending(d) ==> !Pending(e) && e.owner == d.owner)
            && (Final(d.sts.status) && Pending(e) ==> e == d)
            && (Final(d.sts.status) && !Pending(d) ==> e == d)
    decreases |acts|
  {
    if acts != [] {
      ActsKeepConsistent(Act1(d, acts[0]), acts[1..]);
    }
  }

  lemma {:induction false} TakeServices(d: Phy, acts: seq<Act>, i: nat)
    requires i < |acts| && acts[i].Take?
    ensures !Pending(Acts(d, acts))
    decreases |acts|
  {
    if i == 0 {
      ActsKeepConsistent(Act1(d, acts[0]), acts[1..]);
    } else {
      TakeServices(Act1(d, acts[0]), acts[1..], i - 1);
    }
  }

  /** What happens before the k-th poll, and the time the host measures after it. */
  datatype Env = Env(acts: nat -> seq<Act>, elapsed: nat -> nat) {
    ghost predicate Ticks() {
      forall k: nat :: elapsed(k) >= (k + 1) * TICK
    }
  }

  // ---- The host's waits, as functions of the environment

  datatype Exit = ByGuard | ByError | ByTimeout
  datatype Waited = Waited(phy: Phy, exit: Exit)

  ghost function PollsLeft(timeout: nat, k: nat): nat {
    if k > timeout / TICK then 0 else timeout / TICK + 1 - k
  }

  lemma TimeRunsOut(env: Env, timeout: nat, k: nat)
    requires env.Ticks() && env.elapsed(k) <= timeout
    ensures PollsLeft(timeout, k + 1) < PollsLeft(timeout, k)
  {
    assert (k + 1) * TICK <= timeout;
  }

  /** aeon_ipc_wait_cmd_done from its k-th poll on. */
  ghost function WaitFrom(d: Phy, timeout: nat, env: Env, k: nat): Waited
    requires env.Ticks()
    decreases PollsLeft(timeout, k)
  {
    var e := Acts(d, env.acts(k));
    if e.sts.status == STS_ERROR then Waited(e, ByError)
    else if env.elapsed(k) > timeout then Waited(e, ByTimeout)
    else if !Pending(e) && e.sts.status == STS_SUCCESS then Waited(e, ByGuard)
    else
      TimeRunsOut(env, timeout, k);
      WaitFrom(e, timeout, env, k + 1)
  }

  /** A wait that leaves by its loop guard reports success of the command in the register,
      never of an earlier one. */
  lemma {:induction false} GuardExitIsFresh(d: Phy, timeout: nat, env: Env, k: nat)
    requires env.Ticks() && Consistent(d)
    ensures var r := WaitFrom(d, timeout, env, k);
            && r.phy.cmd == d.cmd && r.phy.cmdId == d.cmdId && Consistent(r.phy)
            && (r.exit == ByGuard ==> r.phy.owner == d.cmdId && r.phy.sts.status == STS_SUCCESS && !Pending(r.phy))
            && (r.exit == ByError ==> r.phy.sts.status == STS_ERROR)
    decreases PollsLeft(timeout, k)
  {
    var e := Acts(d, env.acts(k));
    ActsKeepConsistent(d, env.acts(k));
    if e.sts.status != STS_ERROR && env.elapsed(k) <= timeout && !(!Pending(e) && e.sts.status == STS_SUCCESS) {
      TimeRunsOut(env, timeout, k);
      GuardExitIsFresh(e, timeout, env, k + 1);
    }
  }

  /** While the status left by the last command is a success, a wait that does not time out
      is fresh whichever way it leaves. */
  lemma {:induction false} FreshAfterSuccess(d: Phy, timeout: nat, env: Env, k: nat)
    requires env.Ticks() && Consistent(d)
    requires Pending(d) ==> d.sts.status == STS_SUCCESS
    ensures WaitFrom(d, timeout, env, k).exit != ByTimeout ==> WaitFrom(d, timeout, env, k).phy.owner == d.cmdId
    decreases PollsLeft(timeout, k)
  {
    var e := Acts(d, env.acts(k));
    ActsKeepConsistent(d, env.acts(k));
    if e.sts.status != STS_ERROR && env.elapsed(k) <= timeout && !(!Pending(e) && e.sts.status == STS_SUCCESS) {
      TimeRunsOut(env, timeout, k);
      FreshAfterSuccess(e, timeout, env, k + 1);
    }
  }

  ghost predicate FreshUnlessTimeout(d: Phy, timeout: nat, env: Env)
    requires env.Ticks()
  {
    WaitFrom(d, timeout, env, 0).exit != ByTimeout ==> WaitFrom(d, timeout, env, 0).phy.owner == d.cmdId
  }

  /** The error break ignores parity.  For a newly sent command, waits that do not time out
      are fresh in every environment exactly when the status left over from before is a
      success: a left-over error is returned as the new command's own. */
  lemma FreshExactly(d: Phy, timeout: nat)
    requires Consistent(d) && Pending(d)
    ensures (forall env: Env :: env.Ticks() ==> FreshUnlessTimeout(d, timeout, env)) <==> d.sts.status == STS_SUCCESS
  {
    if d.sts.status == STS_SUCCESS {
      forall env: Env | env.Ticks()
        ensures FreshUnlessTimeout(d, timeout, env)
      {
        FreshAfterSuccess(d, timeout, env, 0);
      }
    } else {
      var env := Env(k => [Advance(0, STS_ERROR)], k => (k + 1) * TICK);
      assert env.Ticks();
      var acts := [Advance(0, STS_ERROR)];
      assert acts[1..] == [] && env.acts(0) == acts;
      var e := Acts(d, acts);
      assert Acts(Act1(d, acts[0]), []) == Act1(d, acts[0]);
      assert e == Act1(d, acts[0]);
      assert e.sts.status == STS_ERROR && e.owner == d.owner;
      assert !FreshUnlessTimeout(d, timeout, env);
    }
  }

  lemma {:induction false} NeverTaken(d: Phy, timeout: nat, env: Env, k: nat)
    requires env.Ticks() && !Pending(d)
    ensures WaitFrom(d, timeout, env, k).phy.owner == d.owner
    ensures WaitFrom(d, timeout, env, k).phy.cmd == d.cmd && !Pending(WaitFrom(d, timeout, env, k).phy)
    decreases PollsLeft(timeout, k)
  {
    var e := Acts(d, env.acts(k));
    ActsKeepConsistent(d, env.acts(k));
    if e.sts.status != STS_ERROR && env.elapsed(k) <= timeout && !(!Pending(e) && e.sts.status == STS_SUCCESS) {
      TimeRunsOut(env, timeout, k);
      NeverTaken(e, timeout, env, k + 1);
    }
  }

  predicate HasTake(acts: seq<Act>) {
    exists i :: 0 <= i < |acts| && acts[i].Take?
  }

  /** The clock lets the wait come to its n-th poll. */
  ghost predicate StillWaiting(timeout: nat, env: Env, k: nat, n: nat) {
    forall j: nat :: k <= j < n ==> env.elapsed(j) <= timeout
  }

  /** From its k-th poll on, the wait sees the device service the command before it gives up. */
  ghost predicate TakenInTime(timeout: nat, env: Env, k: nat) {
    exists n: nat :: k <= n && HasTake(env.acts(n)) && StillWaiting(timeout, env, k, n)
  }

  /** A finished status stays as it is while nothing is serviced. */
  lemma {:induction false} NoTakeNoChange(d: Phy, acts: seq<Act>)
    requires Final(d.sts.status) && !HasTake(acts)
    ensures Acts(d, acts) == d
    decreases |acts|
  {
    if acts != [] {
      assert acts[0].Advance?;
      assert forall i :: 0 <= i < |acts[1..]| ==> acts[1..][i] == acts[i + 1];
      NoTakeNoChange(d, acts[1..]);
    }
  }

  lemma TakenLater(timeout: nat, env: Env, k: nat)
    requires !HasTake(env.acts(k)) && env.elapsed(k) <= timeout
    ensures TakenInTime(timeout, env, k) <==> TakenInTime(timeout, env, k + 1)
  {
    if n: nat :| k <= n && HasTake(env.acts(n)) && StillWaiting(timeout, env, k, n) {
      assert StillWaiting(timeout, env, k + 1, n);
    }
    if n: nat :| k + 1 <= n && HasTake(env.acts(n)) && StillWaiting(timeout, env, k + 1, n) {
      assert StillWaiting(timeout, env, k, n);
    }
  }

  lemma TakenNow(d: Phy, timeout: nat, env: Env, k: nat)
    requires env.Ticks() && Consistent(d) && HasTake(env.acts(k))
    ensures WaitFrom(d, timeout, env, k).phy.owner == d.cmdId
  {
    var i :| 0 <= i < |env.acts(k)| && env.acts(k)[i].Take?;
    var e := Acts(d, env.acts(k));
    TakeServices(d, env.acts(k), i);
    ActsKeepConsistent(d, env.acts(k));
    if e.sts.status != STS_ERROR && env.elapsed(k) <= timeout {
      TimeRunsOut(env, timeout, k);
      NeverTaken(e, timeout, env, k + 1);
    }
  }

  /** The timeout break ignores parity too.  With a success left over, a wait returns the
      command's own status exactly when the device services the command at a poll that the
      clock still allows; otherwise it ends by the timeout and returns the left-over success,
      whatever else the device does and even if it would service the command later. */
  lemma {:induction false} TimeoutReturnsLeftover(d: Phy, timeout: nat, env: Env, k: nat)
    requires env.Ticks() && Consistent(d) && Pending(d) && d.sts.status == STS_SUCCESS
    ensures WaitFrom(d, timeout, env, k).phy.owner == d.cmdId <==> TakenInTime(timeout, env, k)
    ensures !TakenInTime(timeout, env, k) ==> WaitFrom(d, timeout, env, k) == Waited(d, ByTimeout)
    decreases PollsLeft(timeout, k)
  {
    if HasTake(env.acts(k)) {
      assert StillWaiting(timeout, env, k, k);
      TakenNow(d, timeout, env, k);
    } else {
      NoTakeNoChange(d, env.acts(k));
      if env.elapsed(k) <= timeout {
        TimeRunsOut(env, timeout, k);
        TakenLater(timeout, env, k);
        TimeoutReturnsLeftover(d, timeout, env, k + 1);
      }
    }
  }

  // ---- The shared counter and several PHYs

  /** `num` is ipc_cmd_num, shared by all PHYs; `sent` numbers the commands for the proofs. */
  datatype World = World(num: u32, phys: seq<Phy>, sent: nat)

  /** aeon_ipc_build_cmd and aeon_send_ipc_cmd. */
  function Send(w: World, p: nat, opcode: int, size: int): World
    requires p < |w.phys|
  {
    World((w.num + 1) % TWO32,
          w.phys[p := w.phys[p].(cmd := CommandWord(opcode, size, w.num % 2), cmdId := w.sent)],
          w.sent + 1)
  }

  /** The parity the host compares with: that of the last command built. */
  function LastParity(num: u32): bit {
    (num + 1) % 2
  }

  /** PHY `p` last serviced the parity of the last command built, so that the next command
      built for it will be new to it. */
  ghost predicate Aligned(w: World, p: nat)
    requires p < |w.phys|
  {
    w.phys[p].sts.parity == LastParity(w.num)
  }

  /** No status word reports on a command not yet sent. */
  ghost predicate Numbered(w: World) {
    forall p :: 0 <= p < |w.phys| ==> w.phys[p].owner < w.sent && w.phys[p].cmdId < w.sent
  }

  /** A command is new to the device, and the protocol is consistent afterwards, exactly when
      the host was aligned with the device; the counter may wrap. */
  lemma NewExactlyWhenAligned(w: World, p: nat, opcode: int, size: int)
    requires p < |w.phys| && Numbered(w)
    ensures var w' := Send(w, p, opcode, size);
            && Numbered(w')
            && (Pending(w'.phys[p]) <==> Aligned(w, p))
            && (Consistent(w'.phys[p]) <==> Aligned(w, p))
            && CmdParity(w'.phys[p].cmd) == LastParity(w'.num)
  {
    CommandRoundTrip(opcode, size, w.num % 2);
  }

  datatype Txn = Txn(phy: nat, opcode: int, size: int, timeout: nat, env: Env)

  ghost predicate ValidTxn(t: Txn, phys: nat) {
    t.phy < phys && t.env.Ticks()
  }

  ghost function Transact(w: World, t: Txn): World
    requires ValidTxn(t, |w.phys|)
  {
    var s := Send(w, t.phy, t.opcode, t.size);
    s.(phys := s.phys[t.phy := WaitFrom(s.phys[t.phy], t.timeout, t.env, 0).phy])
  }

  ghost function Outcome(w: World, t: Txn): Waited
    requires ValidTxn(t, |w.phys|)
  {
    WaitFrom(Send(w, t.phy, t.opcode, t.size).phys[t.phy], t.timeout, t.env, 0)
  }

  lemma {:induction false} ActsOwner(d: Phy, acts: seq<Act>)
    ensures Acts(d, acts).owner == d.owner || Acts(d, acts).owner == d.cmdId
    ensures Acts(d, acts).cmdId == d.cmdId
    decreases |acts|
  {
    if acts != [] {
      ActsOwner(Act1(d, acts[0]), acts[1..]);
    }
  }

  lemma {:induction false} OwnerKnown(d: Phy, timeout: nat, env: Env, k: nat)
    requires env.Ticks()
    ensures var e := WaitFrom(d, timeout, env, k).phy; e.owner == d.owner || e.owner == d.cmdId
    ensures WaitFrom(d, timeout, env, k).phy.cmdId == d.cmdId
    decreases PollsLeft(timeout, k)
  {
    var e := Acts(d, env.acts(k));
    ActsOwner(d, env.acts(k));
    if e.sts.status != STS_ERROR && env.elapsed(k) <= timeout && !(!Pending(e) && e.sts.status == STS_SUCCESS) {
      TimeRunsOut(env, timeout, k);
      OwnerKnown(e, timeout, env, k + 1);
    }
  }

  /** One transaction on an aligned PHY: if its wait left by the guard, the status is its own
      and the PHY is aligned again. */
  lemma TransactFresh(w: World, t: Txn)
    requires ValidTxn(t, |w.phys|) && Numbered(w) && Aligned(w, t.phy)
    ensures Outcome(w, t).phy.owner <= w.sent && Numbered(Transact(w, t)) && Transact(w, t).sent == w.sent + 1
    ensures Outcome(w, t).exit == ByGuard ==> Outcome(w, t).phy.owner == w.sent && Aligned(Transact(w, t), t.phy)
    ensures !Pending(Outcome(w, t).phy) ==> Aligned(Transact(w, t), t.phy)
  {
    NewExactlyWhenAligned(w, t.phy, t.opcode, t.size);
    var s := Send(w, t.phy, t.opcode, t.size);
    GuardExitIsFresh(s.phys[t.phy], t.timeout, t.env, 0);
    OwnerKnown(s.phys[t.phy], t.timeout, t.env, 0);
  }

  /** Worlds `ws` joined by the transactions `ts`. */
  ghost predicate IsRun(ws: seq<World>, ts: seq<Txn>) {
    && |ws| == |ts| + 1
    && forall i :: 0 <= i < |ts| ==> ValidTxn(ts[i], |ws[i].phys|) && ws[i + 1] == Transact(ws[i], ts[i])
  }

  /** Freshness over whole runs: on one aligned PHY, as long as every wait left by its guard,
      the i-th transaction returned the status of the i-th command. */
  lemma {:induction false} RunsAreFresh(ws: seq<World>, ts: seq<Txn>, p: nat, n: nat)
    requires IsRun(ws, ts) && n <= |ts| && p < |ws[0].phys| && Numbered(ws[0]) && Aligned(ws[0], p)
    requires forall i :: 0 <= i < n ==> ts[i].phy == p && Outcome(ws[i], ts[i]).exit == ByGuard
    ensures forall i :: 0 <= i < n ==> Outcome(ws[i], ts[i]).phy.owner == ws[0].sent + i
    ensures p < |ws[n].phys| && Numbered(ws[n]) && Aligned(ws[n], p) && ws[n].sent == ws[0].sent + n
    decreases n
  {
    if n > 0 {
      RunsAreFresh(ws, ts, p, n - 1);
      TransactFresh(ws[n - 1], ts[n - 1]);
    }
  }

  /** Transactions with other PHYs move the shared counter: after `n` of them the next
      command to PHY `p` is new to it exactly when `n` is even, wrap-around included. */
  lemma {:induction false} SharedCounter(ws: seq<World>, ts: seq<Txn>, p: nat, n: nat)
    requires IsRun(ws, ts) && n <= |ts| && p < |ws[0].phys| && Aligned(ws[0], p)
    requires forall i :: 0 <= i < n ==> ts[i].phy != p
    ensures p < |ws[n].phys| && ws[n].phys[p] == ws[0].phys[p]
    ensures Aligned(ws[n], p) <==> n % 2 == 0
    decreases n
  {
    if n > 0 {
      SharedCounter(ws, ts, p, n - 1);
      assert LastParity(ws[n].num) == 1 - LastParity(ws[n - 1].num);
    }
  }

  /** Out of step, a command is lost: no device activity services it, and if the PHY's last
      status was a success the first poll already reports that success for it. */
  lemma MisalignedCommandIsLost(w: World, t: Txn)
    requires ValidTxn(t, |w.phys|) && Numbered(w) && !Aligned(w, t.phy)
    ensures Outcome(w, t).phy.owner == w.phys[t.phy].owner != w.sent
    ensures w.phys[t.phy].sts.status == STS_SUCCESS && t.env.elapsed(0) <= t.timeout
            ==> Outcome(w, t).exit == ByGuard && Outcome(w, t).phy.sts == w.phys[t.phy].sts
  {
    NewExactlyWhenAligned(w, t.phy, t.opcode, t.size);
    var d := Send(w, t.phy, t.opcode, t.size).phys[t.phy];
    NeverTaken(d, t.timeout, t.env, 0);
    ActsKeepConsistent(d, t.env.acts(0));
  }

  /** The lost command itself moved the counter, so the host is back in step after it. */
  lemma LossRealigns(w: World, t: Txn)
    requires ValidTxn(t, |w.phys|) && Numbered(w) && !Aligned(w, t.phy)
    ensures Numbered(Transact(w, t)) && Aligned(Transact(w, t), t.phy)
  {
    NewExactlyWhenAligned(w, t.phy, t.opcode, t.size);
    var d := Send(w, t.phy, t.opcode, t.size).phys[t.phy];
    NeverTaken(d, t.timeout, t.env, 0);
    OwnerKnown(d, t.timeout, t.env, 0);
  }

  /** Whichever way a wait ends, the PHY is in step after a transaction exactly when it was not
      before, or its own command was serviced. */
  lemma AlignedAfterExactly(w: World, t: Txn)
    requires ValidTxn(t, |w.phys|) && Numbered(w)
    ensures Numbered(Transact(w, t))
    ensures Aligned(Transact(w, t), t.phy) <==> !Aligned(w, t.phy) || Outcome(w, t).phy.owner == w.sent
  {
    if Aligned(w, t.phy) {
      NewExactlyWhenAligned(w, t.phy, t.opcode, t.size);
      var d := Send(w, t.phy, t.opcode, t.size).phys[t.phy];
      GuardExitIsFresh(d, t.timeout, t.env, 0);
      OwnerKnown(d, t.timeout, t.env, 0);
    } else {
      LossRealigns(w, t);
    }
  }

  /** A command that is not serviced before its wait gives up costs the next command to that
      PHY as well, and no more: after that one the host is back in step. */
  lemma UnservicedCostsTwo(w: World, t: Txn, u: Txn)
    requires ValidTxn(t, |w.phys|) && ValidTxn(u, |w.phys|) && t.phy == u.phy
    requires Numbered(w) && Aligned(w, t.phy) && Outcome(w, t).phy.owner != w.sent
    ensures var v := Transact(w, t);
            && !Aligned(v, t.phy) && Outcome(v, u).phy.owner != v.sent
            && Aligned(Transact(v, u), t.phy)
  {
    AlignedAfterExactly(w, t);
    MisalignedCommandIsLost(Transact(w, t), u);
    LossRealigns(Transact(w, t), u);
  }

  // ---- Resynchronisation

  /** The polling loop of aeon_ipc_sync_parity from its k-th poll on. */
  ghost function SyncFrom(d: Phy, env: Env, k: nat): Phy
    requires env.Ticks()
    decreases PollsLeft(IPC_TIMEOUT, k)
  {
    var e := Acts(d, env.acts(k));
    if !Pending(e) || env.elapsed(k) > IPC_TIMEOUT then e
    else
      TimeRunsOut(env, IPC_TIMEOUT, k);
      SyncFrom(e, env, k + 1)
  }

  function Delay(w: World, p: nat, acts: seq<Act>): World
    requires p < |w.phys|
  {
    w.(phys := w.phys[p := Acts(w.phys[p], acts)])
  }

  /** Two NOOPs: `gap` is what the device does in the delay after the first. */
  function TwoNoops(w: World, p: nat, gap: seq<Act>): World
    requires p < |w.phys|
  {
    Send(Delay(Send(w, p, CMD_NOOP, 0), p, gap), p, CMD_NOOP, 0)
  }

  ghost function SyncParity(w: World, p: nat, gap: seq<Act>, env: Env): World
    requires p < |w.phys| && env.Ticks()
  {
    var w2 := TwoNoops(w, p, gap);
    w2.(phys := w2.phys[p := SyncFrom(w2.phys[p], env, 0)])
  }

  ghost predicate Services(env: Env, k: nat, i: nat) {
    && (forall j: nat :: j < k ==> env.elapsed(j) <= 2_000_000_000)
    && i < |env.acts(k)| && env.acts(k)[i].Take?
  }

  /** Some poll within two seconds is preceded by the device servicing what is pending. */
  ghost predicate Responsive(env: Env) {
    exists k: nat, i: nat :: Services(env, k, i)
  }

  lemma {:induction false} SyncEnds(d: Phy, env: Env, k: nat)
    requires env.Ticks()
    ensures SyncFrom(d, env, k).cmd == d.cmd && SyncFrom(d, env, k).cmdId == d.cmdId
    ensures SyncFrom(d, env, k).owner == d.owner || SyncFrom(d, env, k).owner == d.cmdId
    decreases PollsLeft(IPC_TIMEOUT, k)
  {
    var e := Acts(d, env.acts(k));
    ActsKeepConsistent(d, env.acts(k));
    ActsOwner(d, env.acts(k));
    if Pending(e) && env.elapsed(k) <= IPC_TIMEOUT {
      TimeRunsOut(env, IPC_TIMEOUT, k);
      SyncEnds(e, env, k + 1);
    }
  }

  /** Without servicing, a device does not leave the state of having a command pending. */
  lemma {:induction false} NoTakeStaysPending(d: Phy, acts: seq<Act>)
    requires Pending(d) && !HasTake(acts)
    ensures Pending(Acts(d, acts))
    decreases |acts|
  {
    if acts != [] {
      assert acts[0].Advance?;
      assert forall i :: 0 <= i < |acts[1..]| ==> acts[1..][i] == acts[i + 1];
      NoTakeStaysPending(Act1(d, acts[0]), acts[1..]);
    }
  }

  /** The loop of sync_parity ends aligned only by a service before its timeout. */
  lemma {:induction false} SyncOnlyByService(d: Phy, env: Env, k: nat)
    requires env.Ticks() && Pending(d) && !Pending(SyncFrom(d, env, k))
    ensures exists n: nat, i: nat :: n >= k && StillWaiting(IPC_TIMEOUT, env, k, n)
                                     && i < |env.acts(n)| && env.acts(n)[i].Take?
    decreases PollsLeft(IPC_TIMEOUT, k)
  {
    if HasTake(env.acts(k)) {
      var i :| 0 <= i < |env.acts(k)| && env.acts(k)[i].Take?;
      assert StillWaiting(IPC_TIMEOUT, env, k, k);
    } else {
      NoTakeStaysPending(d, env.acts(k));
      TimeRunsOut(env, IPC_TIMEOUT, k);
      SyncOnlyByService(Acts(d, env.acts(k)), env, k + 1);
      var n: nat, i: nat :| n >= k + 1 && StillWaiting(IPC_TIMEOUT, env, k + 1, n)
                            && i < |env.acts(n)| && env.acts(n)[i].Take?;
      assert StillWaiting(IPC_TIMEOUT, env, k, n);
    }
  }

  lemma {:induction false} SyncReaches(d: Phy, env: Env, k: nat, n: nat, i: nat)
    requires env.Ticks() && k <= n && Services(env, n, i)
    ensures !Pending(SyncFrom(d, env, k))
    decreases PollsLeft(IPC_TIMEOUT, k)
  {
    var e := Acts(d, env.acts(k));
    if k == n {
      TakeServices(d, env.acts(k), i);
    } else if Pending(e) {
      assert env.elapsed(k) <= IPC_TIMEOUT;
      TimeRunsOut(env, IPC_TIMEOUT, k);
      SyncReaches(e, env, k + 1, n, i);
    }
  }

  lemma SyncExactly(d: Phy, env: Env)
    requires env.Ticks()
    ensures !Pending(SyncFrom(d, env, 0)) <==> !Pending(d) || Responsive(env)
  {
    if Responsive(env) {
      var k: nat, i: nat :| Services(env, k, i);
      SyncReaches(d, env, 0, k, i);
    }
    if !Pending(d) {
      ActsKeepConsistent(d, env.acts(0));
    } else if !Pending(SyncFrom(d, env, 0)) {
      SyncOnlyByService(d, env, 0);
      var n: nat, i: nat :| StillWaiting(IPC_TIMEOUT, env, 0, n) && i < |env.acts(n)| && env.acts(n)[i].Take?;
      assert Services(env, n, i);
    }
  }

  /** In step before, with nothing serviced in the gap, the second command carries the parity last
      serviced; otherwise the gap or the first command made the second one new. */
  lemma SecondIsNewExactly(w: World, p: nat, gap: seq<Act>)
    requires p < |w.phys| && Numbered(w)
    ensures !Pending(TwoNoops(w, p, gap).phys[p]) <==> Aligned(w, p) && !HasTake(gap)
    ensures var w2 := TwoNoops(w, p, gap); Numbered(w2) && CmdParity(w2.phys[p].cmd) == LastParity(w2.num)
  {
    var w1 := Send(w, p, CMD_NOOP, 0);
    NewExactlyWhenAligned(w, p, CMD_NOOP, 0);
    ActsOwner(w1.phys[p], gap);
    ActsKeepConsistent(w1.phys[p], gap);
    var v := Delay(w1, p, gap);
    NewExactlyWhenAligned(v, p, CMD_NOOP, 0);
    if Aligned(w, p) {
      if HasTake(gap) {
        var i :| 0 <= i < |gap| && gap[i].Take?;
        TakeServices(w1.phys[p], gap, i);
      } else {
        NoTakeStaysPending(w1.phys[p], gap);
      }
    }
  }

  lemma CounterTwice(num: u32)
    ensures ((num + 1) % TWO32 + 1) % TWO32 == (num + 2) % 0x1_0000_0000
    ensures (num + 1) % TWO32 % 2 == (num + 1) % 2
  {
    if num == TWO32 - 1 {
      assert (num + 1) % TWO32 == 0;
    } else {
      assert (num + 1) % TWO32 == num + 1;
    }
  }

  /** What a resynchronisation sends: two commands, so that the counter moves by two, the second
      with opcode and size zero and the other parity than the counter it started from gives. */
  lemma TwoAreSent(w: World, p: nat, gap: seq<Act>, env: Env)
    requires p < |w.phys| && env.Ticks()
    ensures var w' := SyncParity(w, p, gap, env);
            && w'.num == (w.num + 2) % 0x1_0000_0000 && w'.sent == w.sent + 2
            && |w'.phys| == |w.phys| && (forall q: nat :: q < |w.phys| && q != p ==> w'.phys[q] == w.phys[q])
            && w'.phys[p].cmdId == w.sent + 1 && w'.phys[p].cmd == (w.num + 1) % 2 * 0x8000
  {
    CounterTwice(w.num);
    var v := Delay(Send(w, p, CMD_NOOP, 0), p, gap);
    assert v.num == (w.num + 1) % TWO32 && v.sent == w.sent + 1;
    SyncEnds(Send(v, p, CMD_NOOP, 0).phys[p], env, 0);
  }

  lemma SyncKeeps(w2: World, w': World, p: nat, env: Env)
    requires p < |w2.phys| && Numbered(w2) && env.Ticks()
    requires w' == w2.(phys := w2.phys[p := SyncFrom(w2.phys[p], env, 0)])
    requires CmdParity(w2.phys[p].cmd) == LastParity(w2.num)
    ensures Numbered(w') && (Aligned(w', p) <==> !Pending(w'.phys[p]))
    ensures !Pending(w'.phys[p]) <==> !Pending(w2.phys[p]) || Responsive(env)
  {
    SyncEnds(w2.phys[p], env, 0);
    SyncExactly(w2.phys[p], env);
  }

  /** Resynchronisation: from every counter value, every device state and whatever the device
      did in the gap, host and device end aligned, so that the next command is new, exactly when
      they were in step before and the device left the first NOOP alone in the gap, or the device
      services the second before the timeout.  The function reports success (its last parity
      test) exactly when that is so. */
  lemma Resynchronises(w: World, p: nat, gap: seq<Act>, env: Env)
    requires p < |w.phys| && Numbered(w) && env.Ticks()
    ensures var w' := SyncParity(w, p, gap, env);
            && Numbered(w')
            && w'.num == (w.num + 2) % 0x1_0000_0000 && w'.sent == w.sent + 2
            && (Aligned(w', p) <==> !Pending(w'.phys[p]))
            && (Aligned(w', p) <==> (Aligned(w, p) && !HasTake(gap)) || Responsive(env))
            && forall opcode: int, size: int :: Aligned(w', p) ==> Pending(Send(w', p, opcode, size).phys[p])
  {
    var w2, w' := TwoNoops(w, p, gap), SyncParity(w, p, gap, env);
    SecondIsNewExactly(w, p, gap);
    TwoAreSent(w, p, gap, env);
    SyncKeeps(w2, w', p, env);
    if Aligned(w', p) {
      forall opcode: int, size: int
        ensures Pending(Send(w', p, opcode, size).phys[p])
      {
        NewExactlyWhenAligned(w', p, opcode, size);
      }
    }
  }

  // ---- The driver's own code

  class IpcHost {
    var ipcCmdNum: u32
    var phys: seq<Phy>
    var sent: nat

    constructor (phys: seq<Phy>, sent: nat)
      ensures View() == World(0, phys, sent)
    {
      ipcCmdNum, this.phys, this.sent := 0, phys, sent;
    }

    function View(): World
      reads this
    {
      World(ipcCmdNum, phys, sent)
    }

    function GetPar(): bit
      reads this
    {
      ipcCmdNum % 2
    }

    method BuildCmd(opcode: int, size: int) returns (cmd: u16)
      modifies this`ipcCmdNum
      ensures cmd == CommandWord(opcode, size, old(ipcCmdNum) % 2) && ipcCmdNum == (old(ipcCmdNum) + 1) % 0x1_0000_0000
      ensures cmd >= 0x8000 <==> old(ipcCmdNum) % 2 == 1
      ensures cmd % 0x8000 < 0x800 && cmd / 0x40 % 0x20 == size % 0x20 && cmd % 0x40 == opcode % 0x40
    {
      CommandRoundTrip(opcode, size, ipcCmdNum % 2);
      cmd := size % 32 * 64 + opcode % 64;
      if GetPar() != 0 {
        cmd := cmd + 0x8000;
      }
      ipcCmdNum := (ipcCmdNum + 1) % TWO32;
    }

    method SendCmd(p: nat, cmd: u16)
      requires p < |phys|
      modifies this`phys, this`sent
      ensures phys == old(phys)[p := old(phys[p]).(cmd := cmd, cmdId := old(sent))] && sent == old(sent) + 1
    {
      phys := phys[p := phys[p].(cmd := cmd, cmdId := sent)];
      sent := sent + 1;
    }

    method BuildAndSend(p: nat, opcode: int, size: int)
      requires p < |phys|
      modifies this
      ensures View() == Send(old(View()), p, opcode, size)
      ensures CmdParity(phys[p].cmd) == LastParity(ipcCmdNum)
    {
      CommandRoundTrip(opcode, size, ipcCmdNum % 2);
      var cmd := BuildCmd(opcode, size);
      SendCmd(p, cmd);
    }

    /** Environment: PHY `p` acts while the host sleeps; the host then reads the status word. */
    method DelayAndRead(p: nat, acts: seq<Act>) returns (sts: u16)
      requires p < |phys|
      modifies this`phys
      ensures View() == Delay(old(View()), p, acts) && sts == StatusWord(phys[p].sts)
    {
      phys := phys[p := Acts(phys[p], acts)];
      sts := StatusWord(phys[p].sts);
    }

    /** aeon_ipc_wait_cmd_done, for the command it was last built for. */
    method WaitCmdDone(p: nat, timeout: nat, env: Env) returns (status: nat, retSize: nat)
      requires p < |phys| && env.Ticks()
      requires CmdParity(phys[p].cmd) == LastParity(ipcCmdNum)
      modifies this`phys
      ensures phys == old(phys)[p := WaitFrom(old(phys[p]), timeout, env, 0).phy]
      ensures status == phys[p].sts.status && retSize == phys[p].sts.size
      ensures status == 4 || status == 8 || exists k: nat :: env.elapsed(k) > timeout
    {
      var k: nat := 0;
      var par := false;
      status, retSize := 0, 0;
      ghost var target := WaitFrom(phys[p], timeout, env, 0);
      while !par || (status != STS_SUCCESS && status != STS_ERROR)
        invariant |phys| == |old(phys)| && phys == old(phys)[p := phys[p]]
        invariant CmdParity(phys[p].cmd) == LastParity(ipcCmdNum)
        invariant !par || (status != STS_SUCCESS && status != STS_ERROR)
                  ==> WaitFrom(phys[p], timeout, env, k) == target
        invariant par && (status == STS_SUCCESS || status == STS_ERROR)
                  ==> target.phy == phys[p] && status == phys[p].sts.status && retSize == phys[p].sts.size
        decreases PollsLeft(timeout, k), !par || (status != STS_SUCCESS && status != STS_ERROR)
      {
        ghost var before := phys[p];
        ActsKeepConsistent(before, env.acts(k));
        var sts := DelayAndRead(p, env.acts(k));
        StatusRoundTrip(phys[p].sts, sts);
        var parsed := ParseStatus(sts);
        status, retSize := parsed.status, parsed.size;
        par := GetPar() != parsed.parity;
        if status == STS_ERROR {
          break;
        }
        if env.elapsed(k) > timeout {
          break;
        }
        TimeRunsOut(env, timeout, k);
        k := k + 1;
      }
    }

    /** aeon_ipc_sync_parity; `synced` is its last parity test. */
    method Synchronise(p: nat, gap: seq<Act>, env: Env) returns (synced: bool)
      requires p < |phys| && env.Ticks()
      modifies this
      ensures View() == SyncParity(old(View()), p, gap, env)
      ensures ipcCmdNum == (old(ipcCmdNum) + 2) % 0x1_0000_0000 && sent == old(sent) + 2
      ensures |phys| == |old(phys)| && forall q: nat :: q < |phys| && q != p ==> phys[q] == old(phys[q])
      ensures phys[p].cmd == (old(ipcCmdNum) + 1) % 2 * 0x8000 && synced == !Pending(phys[p])
      ensures Numbered(old(View())) ==> (synced <==> (Aligned(old(View()), p) && !HasTake(gap)) || Responsive(env))
    {
      TwoAreSent(View(), p, gap, env);
      if Numbered(View()) {
        Resynchronises(View(), p, gap, env);
      }
      SendNoops(p, gap);
      synced := AwaitParity(p, env);
    }

    method SendNoops(p: nat, gap: seq<Act>)
      requires p < |phys|
      modifies this
      ensures View() == TwoNoops(old(View()), p, gap) && |phys| == |old(phys)|
      ensures CmdParity(phys[p].cmd) == LastParity(ipcCmdNum)
    {
      BuildAndSend(p, CMD_NOOP, 0);
      var _ := DelayAndRead(p, gap);
      BuildAndSend(p, CMD_NOOP, 0);
    }

    method AwaitParity(p: nat, env: Env) returns (synced: bool)
      requires p < |phys| && env.Ticks()
      requires CmdParity(phys[p].cmd) == LastParity(ipcCmdNum)
      modifies this`phys
      ensures phys == old(phys)[p := SyncFrom(old(phys[p]), env, 0)]
      ensures synced == !Pending(phys[p])
    {
      synced := false;
      var k: nat := 0;
      ghost var target := SyncFrom(phys[p], env, 0);
      while !synced
        invariant |phys| == |old(phys)| && phys == old(phys)[p := phys[p]]
        invariant CmdParity(phys[p].cmd) == LastParity(ipcCmdNum)
        invariant !synced ==> SyncFrom(phys[p], env, k) == target
        invariant synced ==> phys[p] == target && !Pending(phys[p])
        decreases PollsLeft(IPC_TIMEOUT, k), !synced
      {
        ActsKeepConsistent(phys[p], env.acts(k));
        var sts := DelayAndRead(p, env.acts(k));
        StatusRoundTrip(phys[p].sts, sts);
        synced := GetPar() != ParseStatus(sts).parity;
        if env.elapsed(k) > IPC_TIMEOUT {
          break;
        }
        TimeRunsOut(env, IPC_TIMEOUT, k);
        k := k + 1;
      }
    }
  }
}

/** The PPE shrink table (arht_ppe.c, shnkTbl).

Sixteen slots, each holding a source MAC, an IPv6 tunnel key and an IPv4 tunnel key with
its own valid and pinned flags, time stamp and bitmap of FOE users.  A lookup finds or
inserts a key and then runs the reuse sweep; the hardware keeps its own copy of the keys
in a small memory that the driver writes line by line. */
module ShrinkTable {
  import opened Words

  const SLOTS := 16
  const SMAC := 0
  const IPV6 := 1
  const IPV4 := 2
  const KINDS := 3

  const BITMAP_WORDS := 512    // BITMAP_IDX_SIZE

  datatype Cell = Cell(key: seq<u32>, valid: bool, pinned: bool, stamp: int, users: set<nat>)

  const EMPTY := Cell([], false, false, 0, {})

  /** `t[i][k]` is the part of slot i for kind k. */
  type Table = t: seq<seq<Cell>> | |t| == SLOTS && forall i :: 0 <= i < SLOTS ==> |t[i]| == KINDS
    witness seq(SLOTS, i => seq(KINDS, k => EMPTY))

  /** The update memory: `m[i][k]` holds the lines of slot i for kind k. */
  type Memory = m: seq<seq<seq<u32>>> | |m| == SLOTS && forall i :: 0 <= i < SLOTS ==> |m[i]| == KINDS
    witness seq(SLOTS, i => seq(KINDS, k => []))

  // ---- Keys and the lines they are written to

  function KeyLength(kind: nat): nat {
    if kind == SMAC then 6 else if kind == IPV6 then 8 else 2
  }

  predicate ValidKey(kind: nat, key: seq<u32>) {
    |key| == KeyLength(kind) && (kind == SMAC ==> forall i :: 0 <= i < 6 ==> key[i] < 0x100)
  }

  function LineCount(kind: nat): nat {
    if kind == IPV6 then 8 else 2
  }

  /** The memory line that receives the i-th word of a tunnel key. */
  function LineOf(kind: nat, i: nat): nat
    requires i < LineCount(kind)
  {
    if kind != IPV6 then i else if i <= 3 then 3 - i else 11 - i
  }

  function Word(kind: nat, key: seq<u32>, i: nat): u32
    requires kind < KINDS && ValidKey(kind, key) && i < LineCount(kind)
  {
    if kind == SMAC then
      if i == 0 then key[2] * 0x1000000 + key[3] * 0x10000 + key[4] * 0x100 + key[5]
      else key[0] * 0x100 + key[1]
    else key[i]
  }

  /** Line `LineOf(i)` holds word i. */
  ghost predicate Holds(kind: nat, lines: seq<u32>, key: seq<u32>)
    requires kind < KINDS
  {
    && ValidKey(kind, key) && |lines| == LineCount(kind)
    && forall i :: 0 <= i < LineCount(kind) ==> lines[LineOf(kind, i)] == Word(kind, key, i)
  }

  /** What the hardware reads back from the lines. */
  function Decode(kind: nat, lines: seq<u32>): seq<u32>
    requires kind < KINDS && |lines| == LineCount(kind)
  {
    if kind == SMAC then
      [lines[1] / 0x100, lines[1] % 0x100, lines[0] / 0x1000000, lines[0] / 0x10000 % 0x100,
       lines[0] / 0x100 % 0x100, lines[0] % 0x100]
    else if kind == IPV6 then
      [lines[3], lines[2], lines[1], lines[0], lines[7], lines[6], lines[5], lines[4]]
    else lines
  }

  lemma UnpackLast(rest: nat, d: nat)
    requires d < 0x100
    ensures (rest * 0x100 + d) / 0x100 == rest && (rest * 0x100 + d) % 0x100 == d
  {
  }

  lemma UnpackFour(a: nat, b: nat, c: nat, d: nat)
    requires a < 0x100 && b < 0x100 && c < 0x100 && d < 0x100
    ensures var w := a * 0x1000000 + b * 0x10000 + c * 0x100 + d;
            w / 0x1000000 == a && w / 0x10000 % 0x100 == b && w / 0x100 % 0x100 == c && w % 0x100 == d
  {
    var w := a * 0x1000000 + b * 0x10000 + c * 0x100 + d;
    UnpackLast(a * 0x10000 + b * 0x100 + c, d);
    UnpackLast(a * 0x100 + b, c);
    UnpackLast(a, b);
    assert w / 0x10000 == a * 0x100 + b;
  }

  /** The lines determine the key: what was written is what is read back. */
  lemma LinesDecode(kind: nat, lines: seq<u32>, key: seq<u32>)
    requires kind < KINDS && Holds(kind, lines, key)
    ensures Decode(kind, lines) == key
  {
    if kind == SMAC {
      assert lines[LineOf(kind, 0)] == lines[0] && lines[LineOf(kind, 1)] == lines[1];
      UnpackFour(key[2], key[3], key[4], key[5]);
    } else if kind == IPV6 {
      forall i | 0 <= i < 8
        ensures Decode(kind, lines)[i] == lines[LineOf(kind, i)]
      {
      }
    } else {
      assert lines[LineOf(kind, 0)] == lines[0] && lines[LineOf(kind, 1)] == lines[1];
    }
  }

  /** The lines, word by word: a source MAC's last four bytes and then its first two, an IPv6
      tunnel key with each half of its eight words back to front, an IPv4 one as it is. */
  lemma LinesAre(kind: nat, lines: seq<u32>, key: seq<u32>)
    requires kind < 3 && Holds(kind, lines, key)
    ensures kind == 0 ==> |key| == 6
    ensures kind == 0 ==>
              lines == [key[2] * 0x1000000 + key[3] * 0x10000 + key[4] * 0x100 + key[5], key[0] * 0x100 + key[1]]
    ensures kind == 1 ==> |key| == 8 && lines == [key[3], key[2], key[1], key[0], key[7], key[6], key[5], key[4]]
    ensures kind == 2 ==> lines == key
  {
    if kind == 1 {
      forall i | 0 <= i < 8
        ensures lines[if i <= 3 then 3 - i else 11 - i] == key[i]
      {
        assert lines[LineOf(kind, i)] == Word(kind, key, i);
      }
    } else {
      assert lines[LineOf(kind, 0)] == Word(kind, key, 0) && lines[LineOf(kind, 1)] == Word(kind, key, 1);
    }
  }

  // ---- Environment

  datatype FoeState = Absent | Invalid | Unbind | Bind | Fin

  /** The FOE table as the sweep sees it, and the width of the bitmap words it scans. */
  datatype Env = Env(foe: nat -> FoeState, max: nat, wordBits: nat) {
    predicate Valid() {
      wordBits == 32 || wordBits == 64
    }
  }

  /** Readings of the jiffies counter: one per slot in the lookup loop, one for the time
      stamp, one per slot and kind in the sweep. */
  datatype Clock = Clock(scan: nat -> int, now: int, sweep: (nat, nat) -> int)

  predicate Expired(c: Cell, now: int, timeout: int) {
    !c.pinned && now > c.stamp + timeout
  }

  // ---- The sweep

  /** Bitmap word `i` is not zero. */
  predicate WordSet(users: set<nat>, env: Env, i: nat)
    requires env.Valid()
  {
    exists v :: v in users && v / env.wordBits == i
  }

  /** The sweep tests user `u` only if bitmap word number u / 32 is not zero. */
  ghost predicate Tested(users: set<nat>, env: Env, u: nat)
    requires env.Valid()
  {
    u in users && u < env.max && u < 32 * BITMAP_WORDS && WordSet(users, env, u / 32)
  }

  ghost predicate KeptByUser(users: set<nat>, env: Env)
    requires env.Valid()
  {
    exists u: nat :: Tested(users, env, u) && env.foe(u) == Bind
  }

  ghost function ClearedUsers(users: set<nat>, env: Env): set<nat>
    requires env.Valid()
  {
    set u | u in users && Tested(users, env, u) && env.foe(u) == Unbind
  }

  ghost function SweepCell(c: Cell, now: int, timeout: int, env: Env): Cell
    requires env.Valid()
  {
    if Expired(c, now, timeout) then
      c.(valid := c.valid && KeptByUser(c.users, env), users := c.users - ClearedUsers(c.users, env))
    else c
  }

  ghost predicate Swept(t: Table, clock: Clock, timeout: int, env: Env, t': Table)
    requires env.Valid()
  {
    forall i, k :: 0 <= i < SLOTS && 0 <= k < KINDS ==>
      t'[i][k] == SweepCell(t[i][k], clock.sweep(i, k), timeout, env)
  }

  /** With bitmap words of 32 bits, which the scan assumes, the sweep invalidates a cell
      exactly when it is unpinned, expired and no in-range recorded user is bound, and it
      forgets exactly the in-range users that are unbound. */
  lemma SweepSafety(c: Cell, now: int, timeout: int, env: Env)
    requires env.wordBits == 32
    ensures var d := SweepCell(c, now, timeout, env);
            && (c.valid && !d.valid <==>
                  c.valid && Expired(c, now, timeout)
                  && forall u :: u in c.users && u < env.max && u < 16384 ==> env.foe(u) != Bind)
            && (forall u :: u in c.users ==>
                  (u !in d.users <==> Expired(c, now, timeout) && u < env.max && u < 16384
                                      && env.foe(u) == Unbind))
            && d.users <= c.users && d.key == c.key && d.pinned == c.pinned && d.stamp == c.stamp
  {
    forall u | u in c.users && u < env.max && u < 16384
      ensures Tested(c.users, env, u)
    {
      assert u in c.users && u / env.wordBits == u / 32;
    }
  }

  /** On a machine with 64-bit words the guarantee needs more: a bound user protects its
      cell exactly when some recorded user lies in word u / 32, that is in the 64 users from
      64 * (u / 32). */
  lemma SweepSafetyExactly(c: Cell, now: int, timeout: int, env: Env)
    requires env.Valid() && c.valid && Expired(c, now, timeout)
    ensures SweepCell(c, now, timeout, env).valid
       <==> exists u, v :: u in c.users && u < env.max && u < 32 * BITMAP_WORDS && env.foe(u) == Bind
                           && v in c.users && v / env.wordBits == u / 32
  {
    if SweepCell(c, now, timeout, env).valid {
      var u: nat :| Tested(c.users, env, u) && env.foe(u) == Bind;
      var v :| v in c.users && v / env.wordBits == u / 32;
    }
    if u, v :| u in c.users && u < env.max && u < 32 * BITMAP_WORDS && env.foe(u) == Bind
               && v in c.users && v / env.wordBits == u / 32 {
      assert Tested(c.users, env, u);
    }
  }

  /** With 64-bit words a cell whose only user is bound can be invalidated. */
  lemma SweepMissesBoundUser() returns (c: Cell, env: Env)
    ensures env.wordBits == 64 && c.valid && Expired(c, 5000, 3000)
    ensures c.users == {40} && env.foe(40) == Bind && 40 < env.max
    ensures !SweepCell(c, 5000, 3000, env).valid
  {
    c := Cell([], true, false, 0, {40});
    env := Env(u => Bind, 8192, 64);
    assert forall u: nat :: !Tested(c.users, env, u);
  }

  // ---- The lookup

  datatype State = State(tbl: Table, mem: Memory)

  predicate Hit(c: Cell, key: seq<u32>) {
    c.valid && c.key == key
  }

  /** The lookup loop's own expiry test, which does not ask who uses the cell. */
  function Aged(c: Cell, now: int, timeout: int): Cell {
    if c.valid && Expired(c, now, timeout) then c.(valid := false) else c
  }

  /** The end of a successful lookup: validate, record the user, stamp. */
  function Touched(c: Cell, user: nat, now: int, env: Env): Cell {
    c.(valid := true, stamp := now, users := if 0 < user < env.max then c.users + {user} else c.users)
  }

  /** `idx` is the slot the loop settles on: the first hit, else the first slot that is
      invalid or becomes so, else -1. */
  ghost predicate Settles(t: Table, kind: nat, key: seq<u32>, clock: Clock, timeout: int, idx: int)
    requires kind < KINDS
  {
    if idx < 0 then
      idx == -1 && forall i :: 0 <= i < SLOTS ==>
        !Hit(t[i][kind], key) && Aged(t[i][kind], clock.scan(i), timeout).valid
    else
      && idx < SLOTS
      && if Hit(t[idx][kind], key) then forall i :: 0 <= i < idx ==> !Hit(t[i][kind], key)
         else
           && (forall i :: 0 <= i < SLOTS ==> !Hit(t[i][kind], key))
           && (forall i :: 0 <= i < idx ==> Aged(t[i][kind], clock.scan(i), timeout).valid)
           && !Aged(t[idx][kind], clock.scan(idx), timeout).valid
  }

  /** The state between the lookup proper and the closing sweep. */
  ghost predicate LookedUp(s: State, kind: nat, key: seq<u32>, user: nat, clock: Clock, timeout: int, env: Env,
                           idx: int, s': State)
    requires kind < KINDS && ValidKey(kind, key) && env.Valid()
  {
    && Settles(s.tbl, kind, key, clock, timeout, idx)
    && (forall i, k :: 0 <= i < SLOTS && 0 <= k < KINDS && k != kind ==> s'.tbl[i][k] == s.tbl[i][k])
    && (forall i, k :: 0 <= i < SLOTS && 0 <= k < KINDS && (k != kind || i != idx) ==> s'.mem[i][k] == s.mem[i][k])
    && (forall i :: 0 <= i < SLOTS && i != idx ==>
          s'.tbl[i][kind] == if idx >= 0 && Hit(s.tbl[idx][kind], key) && i > idx then s.tbl[i][kind]
                             else Aged(s.tbl[i][kind], clock.scan(i), timeout))
    && (idx >= 0 ==>
          && s'.tbl[idx][kind] == Touched(s.tbl[idx][kind].(key := key), user, clock.now, env)
          && if Hit(s.tbl[idx][kind], key) then s'.mem[idx][kind] == s.mem[idx][kind]
             else Holds(kind, s'.mem[idx][kind], key))
  }

  /** Pinned cells are valid, and the hardware holds every valid key. */
  ghost predicate Sound(s: State) {
    && (forall i, k :: 0 <= i < SLOTS && 0 <= k < KINDS && s.tbl[i][k].pinned ==> s.tbl[i][k].valid)
    && (forall i, k :: 0 <= i < SLOTS && 0 <= k < KINDS && s.tbl[i][k].valid
          ==> Holds(k, s.mem[i][k], s.tbl[i][k].key))
  }

  /** No two valid cells of a kind hold the same key. */
  ghost predicate Unique(s: State, kind: nat)
    requires kind < KINDS
  {
    forall i, j :: 0 <= i < j < SLOTS && s.tbl[i][kind].valid && s.tbl[j][kind].valid
                   ==> s.tbl[i][kind].key != s.tbl[j][kind].key
  }

  lemma SweepKeepsCells(s: State, clock: Clock, timeout: int, env: Env, s': State)
    requires env.Valid() && Swept(s.tbl, clock, timeout, env, s'.tbl)
    ensures forall i, k :: 0 <= i < SLOTS && 0 <= k < KINDS ==>
              && s'.tbl[i][k].key == s.tbl[i][k].key && s'.tbl[i][k].pinned == s.tbl[i][k].pinned
              && (s'.tbl[i][k].valid ==> s.tbl[i][k].valid)
              && (s.tbl[i][k].pinned ==> s'.tbl[i][k] == s.tbl[i][k])
  {
  }

  lemma SweepKeeps(s: State, clock: Clock, timeout: int, env: Env, s': State, kind: nat)
    requires env.Valid() && Swept(s.tbl, clock, timeout, env, s'.tbl) && s'.mem == s.mem && kind < KINDS
    ensures Sound(s) ==> Sound(s')
    ensures Unique(s, kind) ==> Unique(s', kind)
  {
    SweepKeepsCells(s, clock, timeout, env, s');
  }

  lemma LookupKeepsSound(s: State, kind: nat, key: seq<u32>, user: nat, clock: Clock, timeout: int, env: Env,
                         idx: int, s': State)
    requires kind < KINDS && ValidKey(kind, key) && env.Valid() && Sound(s)
    requires LookedUp(s, kind, key, user, clock, timeout, env, idx, s')
    ensures Sound(s')
  {
    forall i | 0 <= i < SLOTS && i != idx
      ensures s'.tbl[i][kind].key == s.tbl[i][kind].key && s'.tbl[i][kind].pinned == s.tbl[i][kind].pinned
      ensures s'.tbl[i][kind].valid ==> s.tbl[i][kind].valid
      ensures s.tbl[i][kind].pinned ==> s'.tbl[i][kind].valid
    {
    }
  }

  lemma LookupKeepsUnique(s: State, kind: nat, key: seq<u32>, user: nat, clock: Clock, timeout: int, env: Env,
                          idx: int, s': State, k: nat)
    requires kind < KINDS && ValidKey(kind, key) && env.Valid() && k < KINDS && Unique(s, k)
    requires LookedUp(s, kind, key, user, clock, timeout, env, idx, s')
    ensures Unique(s', k)
  {
    if k == kind {
      forall i | 0 <= i < SLOTS && i != idx
        ensures s'.tbl[i][kind].key == s.tbl[i][kind].key
        ensures s'.tbl[i][kind].valid ==> s.tbl[i][kind].valid && s.tbl[i][kind].key != key
      {
        if idx >= 0 && i > idx && Hit(s.tbl[idx][kind], key) {
          assert s.tbl[i][kind].valid ==> s.tbl[idx][kind].key != s.tbl[i][kind].key;
        }
      }
    }
  }

  /** A returned index names a cell that, after the closing sweep, holds the requested key in
      software and in the update memory; and the cell is still valid exactly when it is
      pinned, or the clock had not moved past its fresh time stamp by more than the timeout,
      or a bound user keeps it. */
  lemma LookupFinds(s: State, kind: nat, key: seq<u32>, user: nat, clock: Clock, timeout: int, env: Env,
                    idx: int, s': State, t: Table)
    requires kind < KINDS && ValidKey(kind, key) && env.Valid() && Sound(s)
    requires LookedUp(s, kind, key, user, clock, timeout, env, idx, s') && Swept(s'.tbl, clock, timeout, env, t)
    requires idx >= 0
    ensures idx < SLOTS && t[idx][kind].key == key && Holds(kind, s'.mem[idx][kind], key)
    ensures Decode(kind, s'.mem[idx][kind]) == key
    ensures t[idx][kind].valid <==>
            s.tbl[idx][kind].pinned || clock.sweep(idx, kind) <= clock.now + timeout
            || KeptByUser(s'.tbl[idx][kind].users, env)
    ensures Unique(s, kind) ==> forall i :: 0 <= i < SLOTS && i != idx && t[i][kind].valid ==> t[i][kind].key != key
  {
    LookupKeepsSound(s, kind, key, user, clock, timeout, env, idx, s');
    LinesDecode(kind, s'.mem[idx][kind], key);
    if Unique(s, kind) {
      LookupKeepsUnique(s, kind, key, user, clock, timeout, env, idx, s', kind);
      forall i | 0 <= i < SLOTS && i != idx && t[i][kind].valid
        ensures t[i][kind].key != key
      {
        assert s'.tbl[i][kind].valid && s'.tbl[idx][kind].valid;
      }
    }
  }

  /** The slot a lookup chooses: the lowest that holds the key, and where there is none the lowest
      that is not valid or has expired.  Every other cell keeps its key, users, stamp and pin,
      and those of the other kinds their validity too. */
  lemma LookupChooses(s: State, kind: nat, key: seq<u32>, user: nat, clock: Clock, timeout: int, env: Env,
                      idx: int, s': State)
    requires kind < KINDS && ValidKey(kind, key) && env.Valid()
    requires LookedUp(s, kind, key, user, clock, timeout, env, idx, s')
    ensures idx >= 0 ==>
              var held := exists i: nat :: i < 16 && s.tbl[i][kind].valid && s.tbl[i][kind].key == key;
              var c := s.tbl[idx][kind];
              && (if held then c.valid && c.key == key
                  else !c.valid || (!c.pinned && clock.scan(idx) > c.stamp + timeout))
              && forall i: nat :: i < idx ==>
                   var d := s.tbl[i][kind];
                   && !(d.valid && d.key == key)
                   && (!held ==> d.valid && (d.pinned || clock.scan(i) <= d.stamp + timeout))
    ensures forall i: nat, k: nat :: i < 16 && k < 3 && (i != idx || k != kind) ==>
              var c, d := s.tbl[i][k], s'.tbl[i][k];
              d == c.(valid := d.valid) && (k != kind ==> d == c)
  {
    if idx >= 0 && !Hit(s.tbl[idx][kind], key) {
      forall i: nat | i < 16
        ensures !(s.tbl[i][kind].valid && s.tbl[i][kind].key == key)
      {
        assert !Hit(s.tbl[i][kind], key);
      }
      forall i: nat | i < idx
        ensures s.tbl[i][kind].valid
        ensures s.tbl[i][kind].pinned || clock.scan(i) <= s.tbl[i][kind].stamp + timeout
      {
        assert Aged(s.tbl[i][kind], clock.scan(i), timeout).valid;
      }
    } else if idx >= 0 {
      forall i: nat | i < idx
        ensures !(s.tbl[i][kind].valid && s.tbl[i][kind].key == key)
      {
        assert !Hit(s.tbl[i][kind], key);
      }
    }
  }

  /** A lookup that returns an index stamps its cell with the current time and adds the user to
      the users on record, unless it is zero or out of range; no other user is added there, and
      none anywhere else.  The closing sweep forgets the user again only if the cell has expired
      by then and the user is unbound. */
  lemma LookupRecords(s: State, kind: nat, key: seq<u32>, user: nat, clock: Clock, timeout: int, env: Env,
                      idx: int, s': State, t: Table)
    requires kind < KINDS && ValidKey(kind, key) && env.Valid()
    requires LookedUp(s, kind, key, user, clock, timeout, env, idx, s') && Swept(s'.tbl, clock, timeout, env, t)
    ensures idx >= 0 ==>
              var was, cell := s.tbl[idx][kind], s'.tbl[idx][kind];
              && cell.valid && cell.stamp == clock.now && cell.pinned == was.pinned
              && (forall u: nat :: u in cell.users <==> u in was.users || (u == user && 0 < user < env.max))
              && (0 < user < env.max && user !in t[idx][kind].users ==>
                    !was.pinned && clock.sweep(idx, kind) > clock.now + timeout && env.foe(user) == Unbind)
    ensures forall i: nat, k: nat :: i < SLOTS && k < KINDS && (i != idx || k != kind) ==>
              t[i][k].users <= s.tbl[i][k].users
  {
    forall i: nat, k: nat | i < SLOTS && k < KINDS && (i != idx || k != kind)
      ensures t[i][k].users <= s.tbl[i][k].users
    {
      assert s'.tbl[i][k].users == s.tbl[i][k].users;
    }
  }

  /** -1 is returned exactly when all sixteen cells of the kind are valid with other keys
      and each is pinned or not yet expired. */
  lemma LookupFullExactly(s: State, kind: nat, key: seq<u32>, user: nat, clock: Clock, timeout: int, env: Env,
                          idx: int, s': State)
    requires kind < KINDS && ValidKey(kind, key) && env.Valid()
    requires LookedUp(s, kind, key, user, clock, timeout, env, idx, s')
    ensures idx == -1 <==>
            forall i :: 0 <= i < 16 ==>
              var c := s.tbl[i][kind];
              c.valid && c.key != key && (c.pinned || clock.scan(i) <= c.stamp + timeout)
    ensures idx == -1 ==> s'.tbl == s.tbl && s'.mem == s.mem
  {
    if idx == -1 {
      forall i | 0 <= i < SLOTS
        ensures s'.tbl[i] == s.tbl[i] && s'.mem[i] == s.mem[i]
      {
        forall k | 0 <= k < KINDS
          ensures s'.tbl[i][k] == s.tbl[i][k]
        {
        }
      }
    }
  }

  /** Neither the lookup nor its sweep changes a pinned key or invalidates it. */
  lemma PinnedSurvives(s: State, kind: nat, key: seq<u32>, user: nat, clock: Clock, timeout: int, env: Env,
                       idx: int, s': State, t: Table, i: nat, k: nat)
    requires kind < KINDS && ValidKey(kind, key) && env.Valid() && Sound(s)
    requires LookedUp(s, kind, key, user, clock, timeout, env, idx, s') && Swept(s'.tbl, clock, timeout, env, t)
    requires i < SLOTS && k < KINDS && s.tbl[i][k].pinned
    ensures t[i][k].pinned && t[i][k].valid && t[i][k].key == s.tbl[i][k].key
  {
    if k == kind && i == idx {
      assert s.tbl[i][k].valid;
    }
  }

  /** The lookup's own expiry test does not look at users: a valid cell survives the lookup
      with its key exactly when it was not expired as the scan passed it, or the scan stopped
      at a slot that holds the key before passing it.  A cell that is taken over keeps the old
      users on record under the new key. */
  lemma LookupIgnoresUsers(s: State, kind: nat, key: seq<u32>, user: nat, clock: Clock, timeout: int, env: Env,
                           idx: int, s': State, r: nat)
    requires kind < KINDS && ValidKey(kind, key) && env.Valid()
    requires LookedUp(s, kind, key, user, clock, timeout, env, idx, s')
    requires r < SLOTS && s.tbl[r][kind].valid
    ensures s'.tbl[r][kind].valid && s'.tbl[r][kind].key == s.tbl[r][kind].key
       <==> !Expired(s.tbl[r][kind], clock.scan(r), timeout) || exists h: nat :: h <= r && Hit(s.tbl[h][kind], key)
    ensures s.tbl[r][kind].users <= s'.tbl[r][kind].users
  {
    var expired := Expired(s.tbl[r][kind], clock.scan(r), timeout);
    assert Aged(s.tbl[r][kind], clock.scan(r), timeout).valid <==> !expired;
    if h: nat :| h <= r && Hit(s.tbl[h][kind], key) {
      assert idx >= 0 && Hit(s.tbl[idx][kind], key);
      assert idx <= h;
    }
  }

  /** A cell whose only user is bound, and which the sweep would keep, is taken over by a
      lookup of another key. */
  lemma LookupDropsBoundUser() returns (s: State, clock: Clock, env: Env, s': State)
    ensures env.wordBits == 32 && env.foe(40) == Bind && 40 < env.max
    ensures s.tbl[0][IPV4].valid && s.tbl[0][IPV4].key == [1, 2] && s.tbl[0][IPV4].users == {40}
    ensures SweepCell(s.tbl[0][IPV4], 5000, 3000, env).valid
    ensures LookedUp(s, IPV4, [3, 4], 7, clock, 3000, env, 0, s') && s'.tbl[0][IPV4].key == [3, 4]
  {
    var old0 := Cell([1, 2], true, false, 0, {40});
    var new0 := Cell([3, 4], true, false, 5000, {40, 7});
    var row, row': seq<Cell> := [EMPTY, EMPTY, old0], [EMPTY, EMPTY, new0];
    var rest := seq(SLOTS - 1, i => [EMPTY, EMPTY, EMPTY]);
    var lines := seq(SLOTS, i => [[], [], [3, 4]]);
    s, s' := State([row] + rest, lines), State([row'] + rest, lines);
    clock := Clock(i => 5000, 5000, (i, k) => 5000);
    env := Env(u => Bind, 8192, 32);
    assert 40 in old0.users && 40 / env.wordBits == 40 / 32;
    assert Tested(old0.users, env, 40);
  }

  // ---- Pinning

  /** The key of slot `index` is replaced and pinned, in software and in the update memory. */
  ghost predicate Pins(s: State, index: nat, key: seq<u32>, s': State)
    requires ValidKey(SMAC, key)
  {
    if index >= SLOTS then s' == s
    else
      && (forall i, k :: 0 <= i < SLOTS && 0 <= k < KINDS && (i != index || k != SMAC) ==>
            s'.tbl[i][k] == s.tbl[i][k] && s'.mem[i][k] == s.mem[i][k])
      && s'.tbl[index][SMAC] == s.tbl[index][SMAC].(key := key, valid := true, pinned := true)
      && Holds(SMAC, s'.mem[index][SMAC], key)
  }

  ghost predicate NotHeldElsewhere(s: State, index: nat, key: seq<u32>) {
    forall i :: 0 <= i < SLOTS && i != index ==> !Hit(s.tbl[i][SMAC], key)
  }

  /** Pinning keeps keys unique exactly when no other slot holds the key: an address that a
      lookup inserted first ends up in two slots.  Everything else it keeps in any case. */
  lemma PinKeepsUniqueExactly(s: State, index: nat, key: seq<u32>, t: State)
    requires Unique(s, SMAC) && index < SLOTS && ValidKey(SMAC, key) && Pins(s, index, key, t)
    ensures Unique(t, SMAC) <==> NotHeldElsewhere(s, index, key)
    ensures Sound(s) ==> Sound(t)
  {
    if !NotHeldElsewhere(s, index, key) {
      var i :| 0 <= i < SLOTS && i != index && Hit(s.tbl[i][SMAC], key);
      assert t.tbl[i][SMAC] == s.tbl[i][SMAC];
      assert t.tbl[i][SMAC].valid && t.tbl[index][SMAC].valid && t.tbl[i][SMAC].key == t.tbl[index][SMAC].key;
    }
  }

  // ---- Runs

  datatype Event =
    | LookupEvent(kind: nat, key: seq<u32>, user: nat, clock: Clock, timeout: int, env: Env, idx: int, mid: State)
    | SweepEvent(clock: Clock, timeout: int, env: Env)
    | PinEvent(index: nat, key: seq<u32>)

  ghost predicate Step(s: State, e: Event, t: State) {
    match e
    case LookupEvent(kind, key, user, clock, timeout, env, idx, mid) =>
      && kind < KINDS && ValidKey(kind, key) && env.Valid()
      && LookedUp(s, kind, key, user, clock, timeout, env, idx, mid)
      && Swept(mid.tbl, clock, timeout, env, t.tbl) && t.mem == mid.mem
    case SweepEvent(clock, timeout, env) =>
      env.Valid() && Swept(s.tbl, clock, timeout, env, t.tbl) && t.mem == s.mem
    case PinEvent(index, key) =>
      ValidKey(SMAC, key) && Pins(s, index, key, t)
  }

  /** A run of lookups, sweeps and pins. */
  ghost predicate IsRun(ss: seq<State>, es: seq<Event>) {
    && |ss| == |es| + 1
    && forall n :: 0 <= n < |es| ==> Step(ss[n], es[n], ss[n + 1])
  }

  lemma StepKeepsSound(s: State, e: Event, t: State)
    requires Sound(s) && Step(s, e, t)
    ensures Sound(t)
  {
    match e
    case LookupEvent(kind, key, user, clock, timeout, env, idx, mid) =>
      LookupKeepsSound(s, kind, key, user, clock, timeout, env, idx, mid);
      SweepKeeps(mid, clock, timeout, env, t, kind);
    case SweepEvent(clock, timeout, env) => SweepKeeps(s, clock, timeout, env, t, SMAC);
    case PinEvent(index, key) =>
  }

  /** The step does not pin a source MAC that another slot holds. */
  ghost predicate PinsFreely(s: State, e: Event) {
    e.PinEvent? ==> NotHeldElsewhere(s, e.index, e.key)
  }

  lemma StepKeepsUnique(s: State, e: Event, t: State, k: nat)
    requires k < KINDS && Unique(s, k) && Step(s, e, t)
    requires k == SMAC ==> PinsFreely(s, e)
    ensures Unique(t, k)
  {
    match e
    case LookupEvent(kind, key, user, clock, timeout, env, idx, mid) =>
      LookupKeepsUnique(s, kind, key, user, clock, timeout, env, idx, mid, k);
      SweepKeeps(mid, clock, timeout, env, t, k);
    case SweepEvent(clock, timeout, env) => SweepKeeps(s, clock, timeout, env, t, k);
    case PinEvent(index, key) =>
  }

  function Zeroed(mem: Memory): State {
    State(seq(SLOTS, i => seq(KINDS, k => EMPTY)), mem)
  }

  lemma {:induction false} RunsKeepSound(ss: seq<State>, es: seq<Event>, n: nat)
    requires IsRun(ss, es) && n <= |es|
    requires ss[0] == Zeroed(ss[0].mem)
    ensures Sound(ss[n])
    decreases n
  {
    if n > 0 {
      RunsKeepSound(ss, es, n - 1);
      StepKeepsSound(ss[n - 1], es[n - 1], ss[n]);
    }
  }

  lemma {:induction false} RunsKeepUnique(ss: seq<State>, es: seq<Event>, n: nat, k: nat)
    requires IsRun(ss, es) && n <= |es| && k < KINDS
    requires ss[0] == Zeroed(ss[0].mem)
    requires k == SMAC ==> forall j :: 0 <= j < n ==> PinsFreely(ss[j], es[j])
    ensures Unique(ss[n], k)
    decreases n
  {
    if n > 0 {
      RunsKeepUnique(ss, es, n - 1, k);
      StepKeepsUnique(ss[n - 1], es[n - 1], ss[n], k);
    }
  }

  /** Over every run from the zeroed table, whatever the update memory held: pinned implies
      valid, and the update memory holds every valid key.  No tunnel key is held by two valid
      slots, and no source MAC either unless one was pinned while another slot held it. */
  lemma RunsKeepInv(ss: seq<State>, es: seq<Event>, n: nat)
    requires IsRun(ss, es) && n <= |es|
    requires ss[0] == Zeroed(ss[0].mem)
    ensures Sound(ss[n]) && Unique(ss[n], IPV6) && Unique(ss[n], IPV4)
    ensures (forall j :: 0 <= j < n ==> PinsFreely(ss[j], es[j])) ==> Unique(ss[n], SMAC)
  {
    RunsKeepSound(ss, es, n);
    RunsKeepUnique(ss, es, n, IPV6);
    RunsKeepUnique(ss, es, n, IPV4);
    if forall j :: 0 <= j < n ==> PinsFreely(ss[j], es[j]) {
      RunsKeepUnique(ss, es, n, SMAC);
    }
  }

  /** The cell is pinned with this key. */
  predicate PinnedWith(s: State, i: nat, k: nat, key: seq<u32>)
    requires i < SLOTS && k < KINDS
  {
    s.tbl[i][k].pinned && s.tbl[i][k].key == key
  }

  lemma PinnedStep(s: State, e: Event, t: State, i: nat, k: nat, key: seq<u32>)
    requires Sound(s) && Step(s, e, t) && i < SLOTS && k < KINDS && PinnedWith(s, i, k, key)
    requires e.PinEvent? ==> e.index != i
    ensures PinnedWith(t, i, k, key)
  {
    match e
    case LookupEvent(kind, akey, user, clock, timeout, env, idx, mid) =>
      PinnedSurvives(s, kind, akey, user, clock, timeout, env, idx, mid, t.tbl, i, k);
    case SweepEvent(clock, timeout, env) =>
      assert t.tbl[i][k] == SweepCell(s.tbl[i][k], clock.sweep(i, k), timeout, env);
    case PinEvent(index, akey) =>
      assert index < SLOTS ==> t.tbl[i][k] == s.tbl[i][k];
  }

  lemma KeyStep(ss: seq<State>, es: seq<Event>, n: nat, i: nat, k: nat, key: seq<u32>)
    requires IsRun(ss, es) && n < |es| && ss[0] == Zeroed(ss[0].mem)
    requires i < SLOTS && k < KINDS && PinnedWith(ss[n], i, k, key)
    requires es[n].PinEvent? ==> es[n].index != i
    ensures PinnedWith(ss[n + 1], i, k, key)
  {
    RunsKeepSound(ss, es, n);
    PinnedStep(ss[n], es[n], ss[n + 1], i, k, key);
  }

  lemma {:induction false} KeyStays(ss: seq<State>, es: seq<Event>, m: nat, n: nat, i: nat, k: nat, key: seq<u32>)
    requires IsRun(ss, es) && m <= n <= |es|
    requires ss[0] == Zeroed(ss[0].mem)
    requires i < SLOTS && k < KINDS && PinnedWith(ss[m], i, k, key)
    requires forall j :: m <= j < n && es[j].PinEvent? ==> es[j].index != i
    ensures PinnedWith(ss[n], i, k, key)
    decreases n
  {
    if n > m {
      KeyStays(ss, es, m, n - 1, i, k, key);
      KeyStep(ss, es, n - 1, i, k, key);
    }
  }

  /** Once pinned, a key stays valid and unchanged until its own slot is pinned again. */
  lemma PinnedStays(ss: seq<State>, es: seq<Event>, m: nat, n: nat, i: nat, k: nat)
    requires IsRun(ss, es) && m <= n <= |es|
    requires ss[0] == Zeroed(ss[0].mem)
    requires i < SLOTS && k < KINDS && ss[m].tbl[i][k].pinned
    requires forall j :: m <= j < n && es[j].PinEvent? ==> es[j].index != i
    ensures var c := ss[n].tbl[i][k];
            c.pinned && c.valid && c.key == ss[m].tbl[i][k].key && Holds(k, ss[n].mem[i][k], c.key)
  {
    RunsKeepSound(ss, es, n);
    KeyStays(ss, es, m, n, i, k, ss[m].tbl[i][k].key);
  }

  /** The bitmap scan has dealt with every user below `n`. */
  ghost predicate ScannedTo(bitmap: set<nat>, env: Env, n: nat, users: set<nat>, needReuse: bool)
    requires env.Valid()
  {
    && (forall u :: u in users <==> u in bitmap && !(u < n && Tested(bitmap, env, u) && env.foe(u) == Unbind))
    && (needReuse <==> forall u: nat :: u < n && Tested(bitmap, env, u) ==> env.foe(u) != Bind)
  }

  /** Clearing users below 32 * i leaves word `i` as it was, for either word size. */
  lemma LaterWordUntouched(bitmap: set<nat>, env: Env, i: nat, users: set<nat>, needReuse: bool)
    requires env.Valid() && ScannedTo(bitmap, env, 32 * i, users, needReuse)
    ensures WordSet(users, env, i) <==> WordSet(bitmap, env, i)
  {
    if WordSet(bitmap, env, i) {
      var v :| v in bitmap && v / env.wordBits == i;
      assert v >= 32 * i;
      assert v in users;
    }
  }

  /** The sweep has dealt with the slots before `index` and, of that slot, the kinds before
      `select`. */
  ghost predicate SweptTo(t: Table, clock: Clock, timeout: int, env: Env, index: nat, select: nat, t': Table)
    requires env.Valid()
  {
    forall i, k :: 0 <= i < SLOTS && 0 <= k < KINDS ==>
      t'[i][k] == if i < index || (i == index && k < select)
                  then SweepCell(t[i][k], clock.sweep(i, k), timeout, env) else t[i][k]
  }

  /** The lookup loop has aged the cells of `kind` before `index`. */
  ghost predicate AgedTo(t: Table, kind: nat, clock: Clock, timeout: int, index: nat, t': Table)
    requires kind < KINDS
  {
    forall i, k :: 0 <= i < SLOTS && 0 <= k < KINDS ==>
      t'[i][k] == if k == kind && i < index then Aged(t[i][k], clock.scan(i), timeout) else t[i][k]
  }

  function PutLine(mem: seq<seq<seq<u32>>>, index: nat, kind: nat, offset: nat, data: u32): seq<seq<seq<u32>>>
    requires index < |mem| && kind < |mem[index]| && offset < |mem[index][kind]|
  {
    var lines: seq<u32> := mem[index][kind][offset := data];
    mem[index := mem[index][kind := lines]]
  }

  // ---- The driver's own code

  class Ppe {
    const shnkTbl: array<seq<Cell>>
    var mem: seq<seq<seq<u32>>>   // the update memory behind REG_UPDMEM_CTRL
    var updMemData: u32           // REG_UPDMEM_DATA

    constructor ()
      ensures Valid() && fresh(shnkTbl) && View() == Zeroed(mem)
    {
      shnkTbl := new seq<Cell>[SLOTS](i => seq(KINDS, k => EMPTY));
      mem := seq(SLOTS, i => seq(KINDS, k requires 0 <= k < KINDS => seq(LineCount(k), l => 0)));
      updMemData := 0;
      new;
      assert shnkTbl[..] == Zeroed(mem).tbl;
    }

    ghost predicate Valid()
      reads this, shnkTbl
    {
      && shnkTbl.Length == SLOTS && |mem| == SLOTS
      && (forall i :: 0 <= i < SLOTS ==> |shnkTbl[i]| == KINDS && |mem[i]| == KINDS)
      && (forall i, k :: 0 <= i < SLOTS && 0 <= k < KINDS ==> |mem[i][k]| == LineCount(k))
    }

    ghost function View(): State
      requires Valid()
      reads this, shnkTbl
    {
      State(shnkTbl[..], mem)
    }

    /** Commits the data register to one line of the update memory. */
    method SetUpdateMemCtrl(kind: nat, index: nat, offset: nat)
      requires Valid() && kind < KINDS && index < SLOTS && offset < LineCount(kind)
      modifies this`mem
      ensures Valid() && mem[index][kind] == old(mem)[index][kind][offset := updMemData]
      ensures forall i, k :: 0 <= i < SLOTS && 0 <= k < KINDS && (i != index || k != kind) ==>
                mem[i][k] == old(mem)[i][k]
    {
      mem := PutLine(mem, index, kind, offset, updMemData);
    }

    method SetShrinkField(kind: nat, index: nat, key: seq<u32>)
      requires Valid() && kind < KINDS && index < SLOTS && ValidKey(kind, key)
      modifies this
      ensures Valid() && Holds(kind, mem[index][kind], key)
      ensures forall i, k :: 0 <= i < SLOTS && 0 <= k < KINDS && (i != index || k != kind) ==>
                mem[i][k] == old(mem)[i][k]
    {
      var i := 0;
      while i < LineCount(kind)
        invariant i <= LineCount(kind) && Valid()
        invariant forall j :: 0 <= j < i ==> mem[index][kind][LineOf(kind, j)] == Word(kind, key, j)
        invariant forall n, k :: 0 <= n < SLOTS && 0 <= k < KINDS && (n != index || k != kind) ==>
                    mem[n][k] == old(mem)[n][k]
      {
        if kind == SMAC {
          if i == 0 {
            updMemData := key[2] * 0x1000000 + key[3] * 0x10000 + key[4] * 0x100 + key[5];
          } else {
            updMemData := key[0] * 0x100 + key[1];
          }
          SetUpdateMemCtrl(kind, index, i);
        } else if kind == IPV4 {
          updMemData := key[i];
          SetUpdateMemCtrl(kind, index, i);
        } else {
          updMemData := key[i];
          if i <= 3 {
            SetUpdateMemCtrl(kind, index, 3 - i);
          } else {
            SetUpdateMemCtrl(kind, index, 11 - i);
          }
        }
        i := i + 1;
      }
    }

    /** The bitmap scan of one cell: clears unbound users, and finds out whether a bound one
        is there.  A zero word is skipped. */
    method ScanUsers(bitmap: set<nat>, env: Env) returns (users: set<nat>, needReuse: bool)
      requires env.Valid()
      ensures users == bitmap - ClearedUsers(bitmap, env)
      ensures needReuse == !KeptByUser(bitmap, env)
    {
      users, needReuse := bitmap, true;
      var i := 0;
      while i < BITMAP_WORDS
        invariant i <= BITMAP_WORDS
        invariant ScannedTo(bitmap, env, 32 * i, users, needReuse)
      {
        LaterWordUntouched(bitmap, env, i, users, needReuse);
        if WordSet(users, env, i) {
          var j := 0;
          while j < 32 && 32 * i + j < env.max
            invariant j <= 32
            invariant ScannedTo(bitmap, env, 32 * i + j, users, needReuse)
          {
            var idx := 32 * i + j;
            assert idx / 32 == i && (Tested(bitmap, env, idx) <==> idx in bitmap);
            if idx in users {
              if env.foe(idx) == Bind {
                needReuse := false;
              } else if env.foe(idx) == Unbind {
                users := users - {idx};
              }
            }
            j := j + 1;
          }
        }
        i := i + 1;
      }
    }

    /** reuse_shrink_table. */
    method Reuse(clock: Clock, timeout: int, env: Env)
      requires Valid() && env.Valid()
      modifies shnkTbl
      ensures Valid() && Swept(old(View()).tbl, clock, timeout, env, View().tbl)
    {
      ghost var before := View().tbl;
      var index := 0;
      while index < SLOTS
        invariant index <= SLOTS && Valid()
        invariant SweptTo(before, clock, timeout, env, index, 0, View().tbl)
      {
        var select := 0;
        while select < KINDS
          invariant select <= KINDS && Valid()
          invariant SweptTo(before, clock, timeout, env, index, select, View().tbl)
        {
          var c := shnkTbl[index][select];
          if !c.pinned && clock.sweep(index, select) > c.stamp + timeout {
            var users, needReuse := ScanUsers(c.users, env);
            shnkTbl[index] := shnkTbl[index][select := c.(users := users, valid := c.valid && !needReuse)];
          }
          select := select + 1;
        }
        index := index + 1;
      }
    }

    /** The expiry test of the lookup loop on one slot. */
    method AgeSlot(index: nat, kind: nat, clock: Clock, timeout: int) returns (valid: bool)
      requires Valid() && kind < KINDS && index < SLOTS
      modifies shnkTbl
      ensures Valid() && valid == Aged(old(shnkTbl[index])[kind], clock.scan(index), timeout).valid
      ensures shnkTbl[..] == old(shnkTbl[..])[index :=
                old(shnkTbl[index])[kind := Aged(old(shnkTbl[index])[kind], clock.scan(index), timeout)]]
    {
      var c := shnkTbl[index][kind];
      if c.valid && !c.pinned && clock.scan(index) > c.stamp + timeout {
        c := c.(valid := false);
      }
      shnkTbl[index] := shnkTbl[index][kind := c];
      valid := c.valid;
    }

    /** The first loop of the lookup: stops at the first slot that holds the key, ages the
        slots it passes, and remembers the first invalid one. */
    method ScanSlots(kind: nat, key: seq<u32>, clock: Clock, timeout: int) returns (index: nat, free: nat)
      requires Valid() && kind < KINDS
      modifies shnkTbl
      ensures Valid() && index <= SLOTS && AgedTo(old(View()).tbl, kind, clock, timeout, index, View().tbl)
      ensures forall i :: 0 <= i < index ==> !Hit(old(View()).tbl[i][kind], key)
      ensures index < SLOTS ==> Hit(old(View()).tbl[index][kind], key)
      ensures free < index || free == SLOTS
      ensures forall i :: 0 <= i < index && i < free ==> Aged(old(View()).tbl[i][kind], clock.scan(i), timeout).valid
      ensures free < SLOTS ==> !Aged(old(View()).tbl[free][kind], clock.scan(free), timeout).valid
    {
      ghost var t := View().tbl;
      free := SLOTS;
      index := 0;
      while index < SLOTS
        invariant index <= SLOTS && Valid()
        invariant AgedTo(t, kind, clock, timeout, index, View().tbl)
        invariant forall i :: 0 <= i < index ==> !Hit(t[i][kind], key)
        invariant free < index || free == SLOTS
        invariant forall i :: 0 <= i < index && i < free ==> Aged(t[i][kind], clock.scan(i), timeout).valid
        invariant free < SLOTS ==> !Aged(t[free][kind], clock.scan(free), timeout).valid
      {
        var c := shnkTbl[index][kind];
        if c.valid && c.key == key {
          return;
        }
        var valid := AgeSlot(index, kind, clock, timeout);
        if !valid && index < free {
          free := index;
        }
        index := index + 1;
      }
    }

    /** find_and_update_shrink_table; `mid` is the state before the closing sweep. */
    method FindAndUpdate(kind: nat, key: seq<u32>, user: nat, clock: Clock, timeout: int, env: Env)
      returns (index: int, ghost mid: State)
      requires Valid() && kind < KINDS && ValidKey(kind, key) && env.Valid()
      modifies this, shnkTbl
      ensures Valid() && LookedUp(old(View()), kind, key, user, clock, timeout, env, index, mid)
      ensures Swept(mid.tbl, clock, timeout, env, View().tbl) && View().mem == mid.mem
    {
      var found, free := ScanSlots(kind, key, clock, timeout);
      index := found;
      if found == SLOTS {
        if free == SLOTS {
          index := -1;
        } else {
          index := free;
          SetShrinkField(kind, free, key);
        }
      }
      if index >= 0 {
        Touch(index, kind, key, user, clock.now, env);
      }
      mid := View();
      Reuse(clock, timeout, env);
    }

    /** The common end of the hit and the insert path. */
    method Touch(index: nat, kind: nat, key: seq<u32>, user: nat, now: int, env: Env)
      requires Valid() && kind < KINDS && index < SLOTS && env.Valid()
      modifies shnkTbl
      ensures Valid()
      ensures forall i, k :: 0 <= i < SLOTS && 0 <= k < KINDS ==>
                shnkTbl[i][k] == if i == index && k == kind
                                 then Touched(old(shnkTbl[i])[k].(key := key), user, now, env)
                                 else old(shnkTbl[i])[k]
    {
      var c := shnkTbl[index][kind];
      var users := if 0 < user < env.max then c.users + {user} else c.users;
      shnkTbl[index] := shnkTbl[index][kind := c.(key := key, valid := true, users := users, stamp := now)];
    }

    /** UpdateShrinkTable. */
    method UpdateShrinkTable(index: int, key: seq<u32>)
      requires Valid() && ValidKey(SMAC, key)
      modifies shnkTbl
      ensures Valid()
      ensures shnkTbl[..] == if !(0 <= index < SLOTS) then old(shnkTbl[..])
              else old(shnkTbl[..])[index := old(shnkTbl[index])[SMAC :=
                     old(shnkTbl[index])[SMAC].(key := key, valid := true, pinned := true)]]
    {
      if 0 <= index < SLOTS {
        var c := shnkTbl[index][SMAC];
        shnkTbl[index] := shnkTbl[index][SMAC := c.(key := key, valid := true, pinned := true)];
      }
    }

    /** airoha_pon_ppe_init_upd_mem: both lines first, then the software copy. */
    method InitUpdMem(index: nat, key: seq<u32>)
      requires Valid() && ValidKey(SMAC, key) && index < SLOTS
      modifies this, shnkTbl
      ensures Valid() && Pins(old(View()), index, key, View())
    {
      updMemData := Word(SMAC, key, 0);
      SetUpdateMemCtrl(SMAC, index, 0);
      updMemData := Word(SMAC, key, 1);
      SetUpdateMemCtrl(SMAC, index, 1);
      assert Holds(SMAC, mem[index][SMAC], key);
      UpdateShrinkTable(index, key);
    }
  }
}

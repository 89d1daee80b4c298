/** The MAC-swap switch of the loopback driver (arht_loopback.c).

Turning it on puts four ether types on the L2B table, one after the other, and takes
back what it added if one of them finds no room.  Turning it off clears what it added,
by value. */
module Loopback {
  import opened Words
  import opened L2bEtherTypes

  datatype Pair = Pair(etype: u16, pppoe: bool)

  /** IPv4, IPv6, PPPoE IPv4, PPPoE IPv6, in the order they are configured. */
  const PAIRS: seq<Pair> := [Pair(0x0800, false), Pair(0x86dd, false), Pair(0x0021, true), Pair(0x0057, true)]

  const INVALID_INDEX := -1

  ghost function FindPair(t: Table, p: Pair): nat {
    Find(t, p.etype, p.pppoe)
  }

  ghost predicate Enabled(t: Table, p: Pair) {
    FindPair(t, p) < MAX_INDEX
  }

  ghost function SetPair(t: Table, p: Pair): AutoResult {
    AutoSet(t, p.etype, p.pppoe)
  }

  ghost function ClearPair(t: Table, p: Pair): Table {
    AutoClear(t, p.etype, p.pppoe)
  }

  /** What a lookup can see: the PPPoE flag of a disabled slot is invisible. */
  function Effective(s: Slot): Slot {
    if s.enabled then s else Slot(false, false, s.etype)
  }

  ghost predicate SameEffect(t: Table, u: Table) {
    forall i :: 0 <= i < MAX_INDEX ==> Effective(t[i]) == Effective(u[i])
  }

  datatype Install = Install(table: Table, ret: int, indices: seq<int>)

  /** Configure the pairs in order; when one fails, take back the earlier ones that were new.
      `indices` holds the slot of each pair that was new and INVALID_INDEX for one that was there. */
  ghost function InstallAll(t: Table, ps: seq<Pair>): Install
    decreases |ps|
  {
    if ps == [] then Install(t, 0, [])
    else
      var first := SetPair(t, ps[0]);
      if first.ret < 0 then Install(t, first.ret, [])
      else
        var rest := InstallAll(first.table, ps[1..]);
        if rest.ret < 0 then
          Install(if first.existed then rest.table else ClearPair(rest.table, ps[0]), rest.ret, [])
        else
          Install(rest.table, 0, [if first.existed then INVALID_INDEX else first.ret] + rest.indices)
  }

  /** Clear each pair whose index is not INVALID_INDEX. */
  ghost function RemoveAll(t: Table, ps: seq<Pair>, indices: seq<int>): Table
    requires |ps| == |indices|
    decreases |ps|
  {
    if ps == [] then t
    else RemoveAll(if indices[0] != INVALID_INDEX then ClearPair(t, ps[0]) else t, ps[1..], indices[1..])
  }

  /** The table with every free slot zeroed, stale PPPoE flags included. */
  function Tidied(t: Table): (u: Table) {
    seq(MAX_INDEX, i requires 0 <= i < MAX_INDEX => if Free(t[i]) then CLEARED else t[i])
  }

  ghost predicate NoStaleFree(t: Table) {
    forall i :: 0 <= i < MAX_INDEX && Free(t[i]) ==> !t[i].pppoe
  }

  lemma TidiedExactly(t: Table)
    ensures SameEffect(Tidied(t), t)
    ensures Tidied(t) == t <==> NoStaleFree(t)
  {
    if Tidied(t) == t {
      forall i | 0 <= i < MAX_INDEX && Free(t[i])
        ensures !t[i].pppoe
      {
        assert Tidied(t)[i] == CLEARED;
      }
    }
  }

  lemma ClearTidied(t: Table, p: Pair)
    requires !SetPair(t, p).existed && SetPair(t, p).ret >= 0
    ensures ClearPair(Tidied(SetPair(t, p).table), p) == Tidied(t)
  {
    AutoSetThenFind(t, p.etype, p.pppoe);
    var f, u := SetPair(t, p).ret, SetPair(t, p).table;
    assert u == t[f := Slot(true, p.pppoe, p.etype)];
    forall j | 0 <= j < f
      ensures !Matches(Tidied(u)[j], p.etype, p.pppoe)
    {
      assert !Matches(t[j], p.etype, p.pppoe);
    }
    FindIsLeast(Tidied(u), p.etype, p.pppoe, f);
    assert ClearPair(Tidied(u), p) == Tidied(u)[f := CLEARED];
  }

  /** A failed enable leaves nothing behind, whichever of the pairs failed: every free slot was
      claimed and zeroed again, so the table is as before exactly when no free slot carried a
      stale PPPoE flag, and means the same in any case. */
  lemma {:induction false} FailureRollsBack(t: Table, ps: seq<Pair>)
    requires InstallAll(t, ps).ret < 0
    ensures InstallAll(t, ps).ret == -ENOSPC
    ensures InstallAll(t, ps).table == Tidied(t)
    ensures SameEffect(InstallAll(t, ps).table, t)
    ensures InstallAll(t, ps).table == t <==> NoStaleFree(t)
    decreases |ps|
  {
    TidiedExactly(t);
    var first := SetPair(t, ps[0]);
    if first.ret < 0 {
      assert Tidied(t) == t;
    } else {
      FailureRollsBack(first.table, ps[1..]);
      if !first.existed {
        ClearTidied(t, ps[0]);
      }
    }
  }

  /** The installed table differs from the first one exactly at the recorded indices. */
  ghost predicate Overlay(t: Table, base: Table, ps: seq<Pair>, indices: seq<int>) {
    && |ps| == |indices|
    && (forall k :: 0 <= k < |ps| && indices[k] != INVALID_INDEX ==>
          0 <= indices[k] < MAX_INDEX && Free(base[indices[k]])
          && t[indices[k]] == Slot(true, ps[k].pppoe, ps[k].etype))
    && (forall i :: 0 <= i < MAX_INDEX && i !in indices ==> t[i] == base[i])
    && (forall j, k :: 0 <= j < k < |ps| && indices[j] != INVALID_INDEX ==> indices[j] != indices[k])
  }

  ghost predicate Distinct(ps: seq<Pair>) {
    forall j, k :: 0 <= j < k < |ps| ==> ps[j] != ps[k]
  }

  lemma OtherPairUnaffected(t: Table, p: Pair, q: Pair)
    requires p != q && SetPair(t, p).ret >= 0
    ensures Enabled(SetPair(t, p).table, q) == Enabled(t, q)
  {
    var u := SetPair(t, p).table;
    AutoSetThenFind(t, p.etype, p.pppoe);
    var f, g := FindPair(t, q), FindPair(u, q);
    if f < MAX_INDEX {
      assert Matches(u[f], q.etype, q.pppoe);
    }
    if g < MAX_INDEX {
      assert Matches(t[g], q.etype, q.pppoe);
    }
  }

  /** A successful enable keeps every enabled slot and ends with every pair on the table;
      the pairs with an index are those that were not there before. */
  lemma {:induction false} SuccessEnablesAll(t: Table, ps: seq<Pair>)
    requires Distinct(ps) && InstallAll(t, ps).ret >= 0
    ensures InstallAll(t, ps).ret == 0 && |InstallAll(t, ps).indices| == |ps|
    ensures forall i :: 0 <= i < MAX_INDEX && t[i].enabled ==> InstallAll(t, ps).table[i] == t[i]
    ensures forall k :: 0 <= k < |ps| ==> Enabled(InstallAll(t, ps).table, ps[k])
    ensures forall k :: 0 <= k < |ps| ==> (InstallAll(t, ps).indices[k] == INVALID_INDEX <==> Enabled(t, ps[k]))
    decreases |ps|
  {
    if ps != [] {
      var p := ps[0];
      var first := SetPair(t, p);
      AutoSetThenFind(t, p.etype, p.pppoe);
      SuccessEnablesAll(first.table, ps[1..]);
      var rest := InstallAll(first.table, ps[1..]);
      assert Matches(rest.table[first.ret], p.etype, p.pppoe);
      forall k | 1 <= k < |ps|
        ensures Enabled(first.table, ps[k]) == Enabled(t, ps[k])
        ensures Enabled(rest.table, ps[k])
      {
        assert ps[k] == ps[1..][k - 1];
        OtherPairUnaffected(t, p, ps[k]);
      }
    }
  }

  lemma OverlaySkip(t: Table, base: Table, ps: seq<Pair>, indices: seq<int>)
    requires ps != [] && Overlay(t, base, ps[1..], indices)
    ensures Overlay(t, base, ps, [INVALID_INDEX] + indices)
  {
    var all := [INVALID_INDEX] + indices;
    forall i | 0 <= i < MAX_INDEX && i !in all
      ensures t[i] == base[i]
    {
      assert all[1..] == indices;
      assert i !in indices;
    }
  }

  lemma OverlayAdd(t: Table, base: Table, ps: seq<Pair>, n: nat, indices: seq<int>)
    requires ps != [] && n < MAX_INDEX && Free(base[n])
    requires t[n] == Slot(true, ps[0].pppoe, ps[0].etype)
    requires Overlay(t, base[n := t[n]], ps[1..], indices)
    ensures Overlay(t, base, ps, [n] + indices)
  {
    var all := [n as int] + indices;
    forall i | 0 <= i < MAX_INDEX && i !in all
      ensures t[i] == base[i]
    {
      assert all[0] == n && all[1..] == indices;
      assert i != n && i !in indices;
    }
    forall k | 1 <= k < |ps| && all[k] != INVALID_INDEX
      ensures 0 <= all[k] < MAX_INDEX && all[k] != n && Free(base[all[k]])
              && t[all[k]] == Slot(true, ps[k].pppoe, ps[k].etype)
    {
      assert all[k] == indices[k - 1] && ps[k] == ps[1..][k - 1];
      assert Free(base[n := t[n]][indices[k - 1]]);
    }
  }

  /** A successful enable overlays the old table. */
  lemma {:induction false} SuccessOverlays(t: Table, ps: seq<Pair>)
    requires Distinct(ps) && InstallAll(t, ps).ret >= 0
    ensures Overlay(InstallAll(t, ps).table, t, ps, InstallAll(t, ps).indices)
    decreases |ps|
  {
    if ps != [] {
      var p := ps[0];
      var first := SetPair(t, p);
      AutoSetThenFind(t, p.etype, p.pppoe);
      SuccessOverlays(first.table, ps[1..]);
      SuccessEnablesAll(first.table, ps[1..]);
      var rest := InstallAll(first.table, ps[1..]);
      if first.existed {
        OverlaySkip(rest.table, t, ps, rest.indices);
      } else {
        OverlayAdd(rest.table, t, ps, first.ret, rest.indices);
      }
    }
  }

  lemma ClearedSlotEnablesNothing(t: Table, n: nat, p: Pair)
    requires n < MAX_INDEX && !Enabled(t, p)
    ensures !Enabled(t[n := CLEARED], p)
  {
    assert forall j :: 0 <= j < MAX_INDEX ==> !Matches(t[j], p.etype, p.pppoe);
  }

  lemma OnlyMatch(t: Table, base: Table, ps: seq<Pair>, indices: seq<int>)
    requires Distinct(ps) && Overlay(t, base, ps, indices)
    requires ps != [] && indices[0] != INVALID_INDEX && !Enabled(base, ps[0])
    ensures ClearPair(t, ps[0]) == t[indices[0] := CLEARED]
  {
    var p, n := ps[0], indices[0];
    assert Matches(t[n], p.etype, p.pppoe);
    forall j | 0 <= j < MAX_INDEX && j != n
      ensures !Matches(t[j], p.etype, p.pppoe)
    {
      if j in indices {
        var k :| 0 <= k < |indices| && indices[k] == j;
      } else {
        assert t[j] == base[j];
      }
    }
    FindIsLeast(t, p.etype, p.pppoe, n);
  }

  /** Clearing the pairs of an overlay, front to back, zeroes the recorded slots and
      leaves every other slot as it was in the base table. */
  lemma {:induction false} RemoveUncovers(t: Table, base: Table, ps: seq<Pair>, indices: seq<int>)
    requires Distinct(ps) && Overlay(t, base, ps, indices)
    requires forall k :: 0 <= k < |ps| && indices[k] != INVALID_INDEX ==> !Enabled(base, ps[k])
    ensures forall i :: 0 <= i < MAX_INDEX ==>
              RemoveAll(t, ps, indices)[i] == if i in indices then CLEARED else base[i]
    decreases |ps|
  {
    if ps == [] {
    } else if indices[0] == INVALID_INDEX {
      assert forall i :: i in indices <==> i in indices[1..] || i == INVALID_INDEX;
      RemoveUncovers(t, base, ps[1..], indices[1..]);
    } else {
      var p, n := ps[0], indices[0];
      assert forall i :: i in indices <==> i in indices[1..] || i == n;
      OnlyMatch(t, base, ps, indices);
      var base' := base[n := CLEARED];
      forall k | 0 <= k < |ps[1..]| && indices[1..][k] != INVALID_INDEX
        ensures !Enabled(base', ps[1..][k]) && Free(base'[indices[1..][k]])
      {
        ClearedSlotEnablesNothing(base, n, ps[k + 1]);
      }
      RemoveUncovers(ClearPair(t, p), base', ps[1..], indices[1..]);
    }
  }

  /** One level of the installation of `ps[k..]`. */
  lemma InstallStep(t: Table, ps: seq<Pair>, k: nat)
    requires k < |ps|
    ensures var first, r := SetPair(t, ps[k]), InstallAll(t, ps[k..]);
            if first.ret < 0 then r == Install(t, first.ret, [])
            else
              var rest := InstallAll(first.table, ps[k + 1..]);
              r == if rest.ret < 0
                   then Install(if first.existed then rest.table else ClearPair(rest.table, ps[k]), rest.ret, [])
                   else Install(rest.table, 0, [if first.existed then INVALID_INDEX else first.ret] + rest.indices)
  {
    assert ps[k..][1..] == ps[k + 1..];
  }

  ghost predicate Listed(t: Table, etype: u16, pppoe: bool) {
    exists i: nat :: i < 16 && t[i] == Slot(true, pppoe, etype)
  }

  /** IPv4, IPv6 and the same two behind PPPoE are on the table. */
  ghost predicate AllFour(t: Table) {
    Listed(t, 0x0800, false) && Listed(t, 0x86dd, false) && Listed(t, 0x0021, true) && Listed(t, 0x0057, true)
  }

  lemma EnabledIsListed(t: Table, p: Pair)
    ensures Enabled(t, p) <==> Listed(t, p.etype, p.pppoe)
  {
    var f := FindPair(t, p);
    if f < MAX_INDEX {
      assert t[f] == Slot(true, p.pppoe, p.etype);
    }
    if i: nat :| i < 16 && t[i] == Slot(true, p.pppoe, p.etype) {
      assert Matches(t[i], p.etype, p.pppoe);
    }
  }

  lemma FourAreListed(t: Table)
    ensures (forall k :: 0 <= k < |PAIRS| ==> Enabled(t, PAIRS[k])) <==> AllFour(t)
  {
    EnabledIsListed(t, PAIRS[0]);
    EnabledIsListed(t, PAIRS[1]);
    EnabledIsListed(t, PAIRS[2]);
    EnabledIsListed(t, PAIRS[3]);
  }

  lemma PairsDistinct()
    ensures Distinct(PAIRS)
  {
  }

  // ---- Theorems about one enable and one disable

  /** Enable either ends with all four ether types on the table, and nothing that was
      enabled touched, or returns an error with the table meaning what it meant before, and
      exactly as before if and only if no free slot carried a stale PPPoE flag. */
  lemma AllOrNothing(t: Table)
    ensures var r := InstallAll(t, PAIRS);
            if r.ret >= 0 then
              && r.ret == 0
              && AllFour(r.table)
              && (forall i :: 0 <= i < MAX_INDEX && t[i].enabled ==> r.table[i] == t[i])
            else r.ret == -ENOSPC && SameEffect(r.table, t) && (r.table == t <==> NoStaleFree(t))
  {
    PairsDistinct();
    var r := InstallAll(t, PAIRS);
    if r.ret >= 0 {
      SuccessEnablesAll(t, PAIRS);
      FourAreListed(r.table);
    } else {
      FailureRollsBack(t, PAIRS);
    }
  }

  /** The first `k` pairs in the first `k` slots, and the other slots free. */
  ghost predicate Filled(t: Table, ps: seq<Pair>, k: nat)
    requires k <= |ps| <= MAX_INDEX
  {
    && (forall i :: 0 <= i < k ==> t[i] == Slot(true, ps[i].pppoe, ps[i].etype))
    && forall i :: k <= i < MAX_INDEX ==> Free(t[i])
  }

  lemma ClaimKeepsFilled(t: Table, ps: seq<Pair>, k: nat)
    requires k < |ps| <= MAX_INDEX && Distinct(ps) && Filled(t, ps, k)
    ensures SetPair(t, ps[k]) == AutoResult(t[k := Slot(true, ps[k].pppoe, ps[k].etype)], k, false)
    ensures Filled(SetPair(t, ps[k]).table, ps, k + 1)
  {
    forall j | 0 <= j < MAX_INDEX
      ensures !Matches(t[j], ps[k].etype, ps[k].pppoe)
    {
      if j < k {
        assert t[j] == Slot(true, ps[j].pppoe, ps[j].etype) && ps[j] != ps[k];
      }
    }
    var f := FindFree(t);
    assert Free(t[k]) && f <= k;
  }

  ghost predicate InOrder(r: Install, t: Table, ps: seq<Pair>, k: nat)
    requires k <= |ps| <= MAX_INDEX
  {
    && r.ret == 0 && Filled(r.table, ps, |ps|)
    && |r.indices| == |ps| - k && (forall j: nat :: j < |ps| - k ==> r.indices[j] == k + j)
    && forall i :: |ps| <= i < MAX_INDEX ==> r.table[i] == t[i]
  }

  lemma {:induction false} FillsInOrder(t: Table, ps: seq<Pair>, k: nat)
    requires k <= |ps| <= MAX_INDEX && Distinct(ps) && Filled(t, ps, k)
    ensures InOrder(InstallAll(t, ps[k..]), t, ps, k)
    decreases |ps| - k
  {
    if k < |ps| {
      ClaimKeepsFilled(t, ps, k);
      InstallStep(t, ps, k);
      var u := SetPair(t, ps[k]).table;
      FillsInOrder(u, ps, k + 1);
      var r, rest := InstallAll(t, ps[k..]), InstallAll(u, ps[k + 1..]);
      assert r.indices == [k as int] + rest.indices;
    }
  }

  /** On a table with no slot in use, enable takes the first four slots, in this order. */
  lemma OnEmptyTable(t: Table)
    requires forall i :: 0 <= i < MAX_INDEX ==> Free(t[i])
    ensures var r := InstallAll(t, PAIRS);
            && r.ret == 0 && r.indices == [0, 1, 2, 3]
            && r.table[0] == Slot(true, false, 0x0800) && r.table[1] == Slot(true, false, 0x86dd)
            && r.table[2] == Slot(true, true, 0x0021) && r.table[3] == Slot(true, true, 0x0057)
            && forall i :: 4 <= i < 16 ==> r.table[i] == t[i]
  {
    PairsDistinct();
    assert PAIRS[0..] == PAIRS;
    FillsInOrder(t, PAIRS, 0);
  }

  ghost function FreeSlots(t: Table): set<nat> {
    set i | 0 <= i < MAX_INDEX && Free(t[i])
  }

  ghost function Missing(t: Table, ps: seq<Pair>): nat
    decreases |ps|
  {
    if ps == [] then 0 else (if Enabled(t, ps[0]) then 0 else 1) + Missing(t, ps[1..])
  }

  lemma {:induction false} MissingAfterSet(t: Table, p: Pair, ps: seq<Pair>)
    requires p !in ps && SetPair(t, p).ret >= 0
    ensures Missing(SetPair(t, p).table, ps) == Missing(t, ps)
    decreases |ps|
  {
    if ps != [] {
      OtherPairUnaffected(t, p, ps[0]);
      MissingAfterSet(t, p, ps[1..]);
    }
  }

  /** Enable succeeds exactly when there is a free slot for each pair that is missing. */
  lemma {:induction false} SucceedsExactly(t: Table, ps: seq<Pair>)
    requires Distinct(ps)
    ensures InstallAll(t, ps).ret >= 0 <==> Missing(t, ps) <= |FreeSlots(t)|
    decreases |ps|
  {
    if ps != [] {
      var p := ps[0];
      var first := SetPair(t, p);
      var free := FindFree(t);
      if first.ret >= 0 {
        MissingAfterSet(t, p, ps[1..]);
        SucceedsExactly(first.table, ps[1..]);
        if !first.existed {
          assert first.ret in FreeSlots(t);
          assert FreeSlots(first.table) == FreeSlots(t) - {first.ret as nat};
        }
      } else {
        assert FreeSlots(t) == {};
      }
    }
  }

  /** The number of free slots before slot `i`. */
  ghost function Rank(t: Table, i: nat): nat
    requires i < MAX_INDEX
  {
    |set j | 0 <= j < i && Free(t[j])|
  }

  lemma EmptyRank(t: Table, f: nat)
    requires f < MAX_INDEX && FirstFree(t, f)
    ensures Rank(t, f) == 0
  {
    assert (set j | 0 <= j < f && Free(t[j])) == {};
  }

  /** Claiming the first free slot moves every later free slot one place forward. */
  lemma RankAfterClaim(t: Table, f: nat, s: Slot, i: nat)
    requires f < MAX_INDEX && FirstFree(t, f) && s.enabled && i < MAX_INDEX && i != f && Free(t[i])
    ensures Rank(t, f) == 0 && Rank(t[f := s], i) == Rank(t, i) - 1
  {
    var u := t[f := s];
    var before, after := set j | 0 <= j < i && Free(t[j]), set j | 0 <= j < i && Free(u[j]);
    assert f < i && f in before;
    assert after == before - {f};
    EmptyRank(t, f);
  }

  ghost predicate Claims(t: Table, ps: seq<Pair>, i: nat)
    requires i < MAX_INDEX
  {
    Free(t[i]) && Rank(t, i) < Missing(t, ps)
  }

  /** A successful enable claims exactly the first free slots, one for each missing pair. */
  lemma {:induction false} ClaimsExactly(t: Table, ps: seq<Pair>, i: nat)
    requires Distinct(ps) && InstallAll(t, ps).ret >= 0 && i < MAX_INDEX
    ensures i in InstallAll(t, ps).indices <==> Claims(t, ps, i)
    decreases |ps|
  {
    if ps != [] {
      var p, first := ps[0], SetPair(t, ps[0]);
      MissingAfterSet(t, p, ps[1..]);
      ClaimsExactly(first.table, ps[1..], i);
      if !first.existed {
        AutoSetThenFind(t, p.etype, p.pppoe);
        var f := FindFree(t);
        if i == f {
          EmptyRank(t, f);
        } else if Free(t[i]) {
          RankAfterClaim(t, f, Slot(true, p.pppoe, p.etype), i);
        }
      }
    }
  }

  /** Enable then disable never changes what a lookup can see, and restores the registers
      themselves exactly when none of the first free slots, one for each missing pair, carried
      a stale PPPoE flag. */
  lemma EnableThenDisable(t: Table)
    requires InstallAll(t, PAIRS).ret >= 0
    ensures var r := InstallAll(t, PAIRS);
            |r.indices| == |PAIRS|
            && SameEffect(RemoveAll(r.table, PAIRS, r.indices), t)
            && (RemoveAll(r.table, PAIRS, r.indices) == t
                <==> forall i: nat :: i < MAX_INDEX && Claims(t, PAIRS, i) ==> !t[i].pppoe)
  {
    var r := InstallAll(t, PAIRS);
    PairsDistinct();
    SuccessOverlays(t, PAIRS);
    SuccessEnablesAll(t, PAIRS);
    RemoveUncovers(r.table, t, PAIRS, r.indices);
    var u := RemoveAll(r.table, PAIRS, r.indices);
    forall i: nat | i < MAX_INDEX
      ensures Effective(u[i]) == Effective(t[i])
      ensures u[i] == t[i] <==> (Claims(t, PAIRS, i) ==> !t[i].pppoe)
    {
      ClaimsExactly(t, PAIRS, i);
      if i in r.indices {
        var k :| 0 <= k < |r.indices| && r.indices[k] == i;
        assert Free(t[i]);
      }
    }
  }

  const STALE := Slot(false, true, 0)

  lemma NothingEnabled(t: Table)
    requires forall i :: 0 <= i < MAX_INDEX ==> t[i].enabled ==> t[i].etype == 1
    ensures Missing(t, PAIRS) == 4
  {
    forall p | p in PAIRS
      ensures !Enabled(t, p)
    {
      assert p.etype != 1;
    }
    assert Missing(t, PAIRS[4..]) == 0;
    assert Missing(t, PAIRS[3..]) == 1;
    assert PAIRS[2..][1..] == PAIRS[3..] && PAIRS[1..][1..] == PAIRS[2..];
    assert Missing(t, PAIRS[2..]) == 2;
    assert Missing(t, PAIRS[1..]) == 3;
  }

  lemma {:induction false} SubsetSmaller(a: set<nat>, b: set<nat>)
    requires a <= b
    ensures |a| <= |b|
    decreases |a|
  {
    if a != {} {
      var x :| x in a;
      SubsetSmaller(a - {x}, b - {x});
    }
  }

  lemma ManyFree(t: Table)
    requires forall i :: 0 <= i < MAX_INDEX ==> Free(t[i])
    ensures |FreeSlots(t)| >= 4
  {
    var four := {0 as nat, 1, 2, 3};
    assert four <= FreeSlots(t);
    SubsetSmaller(four, FreeSlots(t));
  }

  /** A table that enable and disable do not give back: its free slots carry stale flags. */
  lemma StaleFlagIsLost() returns (t: Table)
    ensures InstallAll(t, PAIRS).ret >= 0
    ensures var r := InstallAll(t, PAIRS);
            |r.indices| == |PAIRS| && RemoveAll(r.table, PAIRS, r.indices) != t
  {
    t := seq(MAX_INDEX, i => STALE);
    PairsDistinct();
    NothingEnabled(t);
    SucceedsExactly(t, PAIRS);
    ManyFree(t);
    EnableThenDisable(t);
    EmptyRank(t, 0);
    assert Claims(t, PAIRS, 0);
  }

  /** A table that a failed enable does not give back. */
  lemma StaleFlagIsLostOnFailure() returns (t: Table)
    ensures InstallAll(t, PAIRS).ret < 0 && InstallAll(t, PAIRS).table != t
  {
    t := seq(MAX_INDEX, i => if i == 0 then STALE else Slot(true, false, 1));
    PairsDistinct();
    NothingEnabled(t);
    SucceedsExactly(t, PAIRS);
    assert FreeSlots(t) == {0 as nat};
    FailureRollsBack(t, PAIRS);
    assert Free(t[0]) && t[0].pppoe;
  }

  // ---- Runs of proc writes

  datatype State = State(table: Table, on: bool, indices: seq<int>)

  const NO_INDICES: seq<int> := [INVALID_INDEX, INVALID_INDEX, INVALID_INDEX, INVALID_INDEX]

  /** The decision of the proc handler: act only on a change. */
  ghost function Write(s: State, val: bool): State
    requires |s.indices| == |PAIRS|
  {
    if val && !s.on then
      var r := InstallAll(s.table, PAIRS);
      if r.ret >= 0 && |r.indices| == |PAIRS| then State(r.table, true, r.indices)
      else State(r.table, false, NO_INDICES)
    else if !val && s.on then State(RemoveAll(s.table, PAIRS, s.indices), false, NO_INDICES)
    else s
  }

  /** Writing what the switch already is does nothing, writing zero leaves it off, and writing one
      turns it on exactly when each missing pair has a free slot. */
  lemma WriteDecides(s: State, val: bool)
    requires |s.indices| == |PAIRS|
    ensures Write(s, s.on) == s && !Write(s, false).on
    ensures Write(s, true).on <==> s.on || Missing(s.table, PAIRS) <= |FreeSlots(s.table)|
  {
    PairsDistinct();
    SucceedsExactly(s.table, PAIRS);
    if InstallAll(s.table, PAIRS).ret >= 0 {
      SuccessEnablesAll(s.table, PAIRS);
    }
  }

  ghost function Run(s: State, vals: seq<bool>): State
    requires |s.indices| == |PAIRS|
    ensures |Run(s, vals).indices| == |PAIRS|
    decreases |vals|
  {
    if vals == [] then s else Run(Write(s, vals[0]), vals[1..])
  }

  ghost predicate InstalledOver(s: State, t: Table) {
    var r := InstallAll(t, PAIRS);
    r.ret >= 0 && s.table == r.table && s.indices == r.indices && |r.indices| == |PAIRS|
  }

  /** `s` was reached from a table that looked like `base`. */
  ghost predicate Reached(s: State, base: Table) {
    if s.on then exists t :: SameEffect(t, base) && InstalledOver(s, t)
    else SameEffect(s.table, base) && s.indices == NO_INDICES
  }

  lemma WriteKeepsReached(s: State, val: bool, base: Table)
    requires |s.indices| == |PAIRS| && Reached(s, base)
    ensures Reached(Write(s, val), base)
  {
    if val && !s.on {
      PairsDistinct();
      AllOrNothing(s.table);
      if InstallAll(s.table, PAIRS).ret >= 0 {
        SuccessEnablesAll(s.table, PAIRS);
        assert InstalledOver(Write(s, val), s.table);
      }
    } else if !val && s.on {
      var t :| SameEffect(t, base) && InstalledOver(s, t);
      EnableThenDisable(t);
    }
  }

  /** No run of proc writes removes or changes a slot that was enabled at the start, and
      whenever the switch is off the table means what it meant at the start. */
  lemma {:induction false} RunsKeepTheTable(s: State, vals: seq<bool>, base: Table)
    requires |s.indices| == |PAIRS| && Reached(s, base)
    ensures var e := Run(s, vals);
            && (forall i :: 0 <= i < MAX_INDEX && base[i].enabled ==> e.table[i] == base[i])
            && (!e.on ==> SameEffect(e.table, base))
            && (e.on ==> AllFour(e.table))
    decreases |vals|
  {
    if vals == [] {
      if s.on {
        var t :| SameEffect(t, base) && InstalledOver(s, t);
        AllOrNothing(t);
        forall i | 0 <= i < MAX_INDEX && base[i].enabled
          ensures s.table[i] == base[i]
        {
          assert Effective(t[i]) == Effective(base[i]);
        }
      } else {
        forall i | 0 <= i < MAX_INDEX && base[i].enabled
          ensures s.table[i] == base[i]
        {
          assert Effective(s.table[i]) == Effective(base[i]);
        }
      }
    } else {
      WriteKeepsReached(s, vals[0], base);
      RunsKeepTheTable(Write(s, vals[0]), vals[1..], base);
    }
  }

  /** From the driver's start on: every run of proc writes keeps every slot that was enabled
      before, and the table means what it meant whenever the switch is off. */
  lemma RunsFromStart(base: Table, vals: seq<bool>)
    ensures var e := Run(State(base, false, NO_INDICES), vals);
            && (forall i :: 0 <= i < MAX_INDEX && base[i].enabled ==> e.table[i] == base[i])
            && (!e.on ==> SameEffect(e.table, base))
            && (e.on ==> AllFour(e.table))
  {
    RunsKeepTheTable(State(base, false, NO_INDICES), vals, base);
  }

  // ---- The driver's own code

  lemma PrefixKept(s: seq<int>, t: seq<int>, k: nat)
    requires k < |s| == |t| && t[..k + 1] == s[..k + 1]
    ensures t[..k] == s[..k] && t[k..] == [s[k]] + t[k + 1..]
  {
    assert t[k] == t[..k + 1][k] == s[..k + 1][k];
    assert t[..k] == t[..k + 1][..k];
    assert s[..k] == s[..k + 1][..k];
  }

  class MacSwap {
    const regs: PpeRegs
    var macSwap: bool
    var indices: seq<int>   // the four saved indices, in the order of PAIRS

    constructor (regs: PpeRegs)
      ensures this.regs == regs && !macSwap && indices == NO_INDICES
    {
      this.regs := regs;
      macSwap := false;
      indices := NO_INDICES;
    }

    ghost function View(): State
      reads this, regs
    {
      State(regs.View(), macSwap, indices)
    }

    method Enable() returns (ret: int)
      requires !macSwap && indices == NO_INDICES
      modifies this, regs
      ensures regs.present ==> ret == InstallAll(old(regs.View()), PAIRS).ret && View() == Write(old(View()), true)
      ensures regs.present ==> (ret == 0 <==> macSwap) && (macSwap ==> AllFour(regs.View())) && (ret == 0 || ret == -28)
      ensures !regs.present ==> ret == -ENODEV && View() == old(View())
      ensures regs.is7581 && old(regs.Mirrored()) ==> regs.Mirrored()
    {
      AllOrNothing(regs.View());
      assert PAIRS[0..] == PAIRS;
      ret := EnableFrom(PAIRS, 0);
      assert indices[0..] == indices;
    }

    /** The steps from `k` on.  The goto ladder of the source is written as nested calls: what
        its label for step `k` undoes is undone here on the way out of step `k`. */
    method EnableFrom(ps: seq<Pair>, k: nat) returns (ret: int)
      requires k <= |ps| == |indices| && !macSwap
      requires forall j :: k <= j < |ps| ==> indices[j] == INVALID_INDEX
      modifies this, regs
      ensures |indices| == |ps| && indices[..k] == old(indices)[..k]
      ensures ret < 0 ==> indices == old(indices)
      ensures !regs.present && k < |ps| ==> ret == -ENODEV && View() == old(View())
      ensures regs.present ==>
              var r := InstallAll(old(regs.View()), ps[k..]);
              && ret == r.ret && regs.View() == r.table && macSwap == (ret >= 0)
              && (ret >= 0 ==> indices[k..] == r.indices)
      ensures regs.is7581 && old(regs.Mirrored()) ==> regs.Mirrored()
      decreases |ps| - k
    {
      if k == |ps| {
        macSwap := true;
        return 0;
      }
      var p := ps[k];
      InstallStep(regs.View(), ps, k);
      var existed;
      ret, existed := regs.SetAuto(p.etype, p.pppoe);
      if ret < 0 {
        return;
      }
      if !existed {
        indices := indices[k := ret];
      }
      ghost var claimed := indices;
      ret := EnableFrom(ps, k + 1);
      PrefixKept(claimed, indices, k);
      if ret < 0 && !existed {
        var _ := regs.ClearAuto(p.etype, p.pppoe);
        indices := indices[k := INVALID_INDEX];
        assert indices == old(indices);
      }
    }

    method Disable()
      requires macSwap && |indices| == |PAIRS|
      modifies this, regs
      ensures View() == if regs.present then Write(old(View()), false) else State(old(regs.View()), false, NO_INDICES)
      ensures regs.is7581 && old(regs.Mirrored()) ==> regs.Mirrored()
    {
      ClearListed(PAIRS);
      macSwap := false;
    }

    /** Clears, by value, each pair whose saved index is set, and forgets the index. */
    method ClearListed(ps: seq<Pair>)
      requires |indices| == |ps|
      modifies this, regs
      ensures macSwap == old(macSwap) && |indices| == |ps|
      ensures forall j :: 0 <= j < |ps| ==> indices[j] == INVALID_INDEX
      ensures regs.View() == if regs.present then RemoveAll(old(regs.View()), ps, old(indices)) else old(regs.View())
      ensures regs.is7581 && old(regs.Mirrored()) ==> regs.Mirrored()
    {
      assert ps[0..] == ps && indices[0..] == indices;
      for k := 0 to |ps|
        invariant |indices| == |ps| && macSwap == old(macSwap)
        invariant forall j :: 0 <= j < k ==> indices[j] == INVALID_INDEX
        invariant indices[k..] == old(indices)[k..]
        invariant regs.present ==>
                    RemoveAll(regs.View(), ps[k..], indices[k..]) == RemoveAll(old(regs.View()), ps, old(indices))
        invariant !regs.present ==> regs.View() == old(regs.View())
        invariant regs.is7581 && old(regs.Mirrored()) ==> regs.Mirrored()
      {
        assert ps[k..][1..] == ps[k + 1..] && indices[k..][1..] == indices[k + 1..];
        if indices[k] != INVALID_INDEX {
          var _ := regs.ClearAuto(ps[k].etype, ps[k].pppoe);
          indices := indices[k := INVALID_INDEX];
        }
      }
    }

    /** The MAC-swap branch of the proc write handler. */
    method WriteProc(val: int) returns (ret: int)
      requires |indices| == |PAIRS| && (!macSwap ==> indices == NO_INDICES)
      modifies this, regs
      ensures regs.present ==>
                && View() == Write(old(View()), val != 0)
                && ret == if val != 0 && !old(macSwap) then InstallAll(old(regs.View()), PAIRS).ret else 0
      ensures !regs.present ==>
                && regs.View() == old(regs.View())
                && ret == if val != 0 && !old(macSwap) then -ENODEV else 0
      ensures regs.is7581 && old(regs.Mirrored()) ==> regs.Mirrored()
    {
      ret := 0;
      if val != 0 && !macSwap {
        ret := Enable();
      } else if val == 0 && macSwap {
        Disable();
      }
    }
  }
}

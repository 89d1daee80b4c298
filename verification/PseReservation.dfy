/** Buffer reservation of the packet switch engine (arht_fe.c, fe_api_pse_oq_rsv_en): per-queue
reservations behind an indirect register, their total in one register, and three thresholds
recomputed from the total after every change. */
module PseReservation {
  import opened Words

  const PORTS := 11
  const GDM2_PORT := 2
  const RSV_PAGES := 0x80
  const RSV_FIELD := 0x4000     // 14 bits
  const TOTAL_FIELD := 0x8000   // 15 bits

  type pages = x: nat | x < RSV_FIELD

  // ---- Registers

  /** Bitwise or. */
  function Or(a: nat, b: nat): nat
    decreases a
  {
    if a == 0 then b
    else (if a % 2 == 1 || b % 2 == 1 then 1 else 0) + 2 * Or(a / 2, b / 2)
  }

  function Power(n: nat): nat {
    if n == 0 then 1 else 2 * Power(n - 1)
  }

  lemma {:induction false} OrFits(a: nat, b: nat, n: nat)
    requires a < Power(n) && b < Power(n)
    ensures Or(a, b) < Power(n)
    decreases n
  {
    if n > 0 && a > 0 {
      OrFits(a / 2, b / 2, n - 1);
    }
  }

  lemma PowersOfHigh()
    ensures Power(16) == TWO16 && Power(17) == 2 * TWO16
  {
    assert Power(8) == 0x100;
  }

  /** airoha_fe_rmw on the low 15 bits: the new value is or-ed in without being cut to its
      field. */
  function RmwLow15(w: u32, v: u32): u32 {
    PowersOfHigh();
    OrFits(v / TOTAL_FIELD, w / TOTAL_FIELD, 17);
    v % TOTAL_FIELD + Or(v / TOTAL_FIELD, w / TOTAL_FIELD) * TOTAL_FIELD
  }

  function RmwLow16(w: u32, v: u32): u32 {
    PowersOfHigh();
    OrFits(v / TWO16, w / TWO16, 16);
    v % TWO16 + Or(v / TWO16, w / TWO16) * TWO16
  }

  /** The same on the high half, with the value shifted there in 32 bits. */
  function RmwHigh16(w: u32, v: u32): u32 {
    w % TWO16 + v % TWO16 * TWO16
  }

  lemma Cat14(low: nat, high: nat)
    requires low < RSV_FIELD
    ensures (low + high * RSV_FIELD) % RSV_FIELD == low && (low + high * RSV_FIELD) / RSV_FIELD == high
  {
  }

  lemma Cat15(low: nat, high: nat)
    requires low < TOTAL_FIELD
    ensures (low + high * TOTAL_FIELD) % TOTAL_FIELD == low && (low + high * TOTAL_FIELD) / TOTAL_FIELD == high
  {
  }

  lemma Cat16(low: nat, high: nat)
    requires low < TWO16
    ensures (low + high * TWO16) % TWO16 == low && (low + high * TWO16) / TWO16 == high
  {
  }

  lemma LowKept(w: u32, v: u32)
    ensures RmwLow15(w, v) % TOTAL_FIELD == v % TOTAL_FIELD
    ensures RmwLow16(w, v) % TWO16 == v % TWO16
  {
    PowersOfHigh();
    OrFits(v / TOTAL_FIELD, w / TOTAL_FIELD, 17);
    OrFits(v / TWO16, w / TWO16, 16);
    Cat15(v % TOTAL_FIELD, Or(v / TOTAL_FIELD, w / TOTAL_FIELD));
    Cat16(v % TWO16, Or(v / TWO16, w / TWO16));
  }

  lemma ModShift(x: int, n: int)
    ensures (n * TOTAL_FIELD + x) % TOTAL_FIELD == x % TOTAL_FIELD
  {
    assert n * TOTAL_FIELD + x == (n + x / TOTAL_FIELD) * TOTAL_FIELD + x % TOTAL_FIELD;
  }

  lemma HighKept(w: u32, v: u32)
    ensures RmwHigh16(w, v) % TWO16 == w % TWO16 && RmwHigh16(w, v) / TWO16 == v % TWO16
    ensures RmwHigh16(w, v) % TOTAL_FIELD == w % TOTAL_FIELD
  {
    Cat16(w % TWO16, v % TWO16);
    ModShift(w % TWO16, v % TWO16 * 2);
    ModShift(w % TWO16, w / TWO16 * 2);
  }

  // ---- State

  /** PSE_BUFF_SET holds the total in its low 15 bits and the low threshold in its upper half;
      PSE_SHARE_USED_THD holds the high threshold below the middle one. */
  datatype Pse = Pse(rsv: seq<seq<pages>>, buffSet: u32, shareUsed: u32)

  function Total(p: Pse): nat { p.buffSet % TOTAL_FIELD }
  function Low(p: Pse): u16 { p.buffSet / TWO16 }
  function High(p: Pse): u16 { p.shareUsed % TWO16 }
  function Mid(p: Pse): u16 { p.shareUsed / TWO16 }

  predicate InRange(p: Pse, port: nat, queue: nat) {
    |p.rsv| == PORTS && port < PORTS && queue < |p.rsv[port]|
  }

  /** Pages that are neither in the free-queue limit's reserve nor reserved, in 32 bits. */
  function Shared(limit: nat, total: nat, margin: nat): u32 {
    (limit - total - margin) % TWO32
  }

  /** The margins kept below the high and middle thresholds, per chip. */
  datatype Chip = En7581 | An7583

  function HighMargin(c: Chip): nat { if c == An7583 then 0x100 else 0x20 }
  function MidMargin(c: Chip): nat { if c == An7583 then 0x200 else 0x100 }

  function ThreeQuarters(x: u32): u32 { x * 3 % TWO32 / 4 }

  function WithPages(row: seq<pages>, queue: nat, val: pages): seq<pages>
    requires queue < |row|
  {
    row[queue := val]
  }

  /** The state after one queue's reservation was set and everything recomputed. */
  function Reserve(p: Pse, chip: Chip, fq: u32, port: nat, queue: nat, val: pages): Pse
    requires InRange(p, port, queue)
  {
    var limit := fq % TOTAL_FIELD;
    var buff := RmwLow15(p.buffSet, (Total(p) - p.rsv[port][queue] + val) % TWO32);
    var total := buff % TOTAL_FIELD;
    var mid := Shared(limit, total, MidMargin(chip));
    Pse(p.rsv[port := WithPages(p.rsv[port], queue, val)],
        RmwHigh16(buff, ThreeQuarters(mid)),
        RmwHigh16(RmwLow16(p.shareUsed, Shared(limit, total, HighMargin(chip))), mid))
  }

  predicate Kept(port: nat, queue: nat) {
    port == GDM2_PORT && queue <= 5
  }

  function PagesFor(enable: bool): pages {
    if enable then RSV_PAGES else 0
  }

  predicate CarriedOut(p: Pse, port: nat, queue: nat) {
    !Kept(port, queue) && InRange(p, port, queue)
  }

  /** fe_api_pse_oq_rsv_en. */
  function Next(p: Pse, chip: Chip, fq: u32, port: nat, queue: nat, enable: bool): Pse {
    if !CarriedOut(p, port, queue) then p
    else Reserve(p, chip, fq, port, queue, PagesFor(enable))
  }

  // ---- Conservation

  function RowSum(row: seq<pages>): nat
    decreases |row|
  {
    if row == [] then 0 else row[0] + RowSum(row[1..])
  }

  function Sum(rsv: seq<seq<pages>>): nat
    decreases |rsv|
  {
    if rsv == [] then 0 else RowSum(rsv[0]) + Sum(rsv[1..])
  }

  lemma {:induction false} RowUpdate(row: seq<pages>, q: nat, v: pages)
    requires q < |row|
    ensures RowSum(row[q := v]) == RowSum(row) - row[q] + v
    decreases |row|
  {
    if q == 0 {
      assert row[q := v][1..] == row[1..];
    } else {
      assert row[q := v][1..] == row[1..][q - 1 := v];
      RowUpdate(row[1..], q - 1, v);
    }
  }

  lemma {:induction false} SumUpdate(rsv: seq<seq<pages>>, p: nat, row: seq<pages>)
    requires p < |rsv|
    ensures Sum(rsv[p := row]) == Sum(rsv) - RowSum(rsv[p]) + RowSum(row)
    decreases |rsv|
  {
    if p == 0 {
      assert rsv[p := row][1..] == rsv[1..];
    } else {
      assert rsv[p := row][1..] == rsv[1..][p - 1 := row];
      SumUpdate(rsv[1..], p - 1, row);
    }
  }

  /** What the total register holds beyond the queues' reservations. */
  function Excess(p: Pse): int {
    Total(p) - Sum(p.rsv)
  }

  lemma ModTwice(x: int)
    ensures x % TWO32 % TOTAL_FIELD == x % TOTAL_FIELD
  {
    assert x == x / TWO32 * 0x2_0000 * TOTAL_FIELD + x % TWO32;
    ModShift(x % TWO32, x / TWO32 * 0x2_0000);
  }

  lemma ReserveTotals(p: Pse, chip: Chip, fq: u32, port: nat, queue: nat, val: pages)
    requires InRange(p, port, queue)
    ensures var r, sum := Reserve(p, chip, fq, port, queue, val), Total(p) - p.rsv[port][queue] + val;
            Total(r) == sum % TOTAL_FIELD && Sum(r.rsv) == Sum(p.rsv) - p.rsv[port][queue] + val
  {
    var v: u32 := (Total(p) - p.rsv[port][queue] + val) % TWO32;
    var buff := RmwLow15(p.buffSet, v);
    LowKept(p.buffSet, v);
    HighKept(buff, ThreeQuarters(Shared(fq % TOTAL_FIELD, buff % TOTAL_FIELD, MidMargin(chip))));
    ModTwice(Total(p) - p.rsv[port][queue] + val);
    RowUpdate(p.rsv[port], queue, val);
    SumUpdate(p.rsv, port, p.rsv[port][queue := val]);
  }

  /** What the total becomes when a queue is given `val` pages. */
  function NewTotal(p: Pse, port: nat, queue: nat, val: pages): int
    requires InRange(p, port, queue)
  {
    Total(p) - p.rsv[port][queue] + val
  }

  lemma WrapExactly(excess: int, sum: nat)
    ensures ((excess + sum) % TOTAL_FIELD - sum) % TOTAL_FIELD == excess % TOTAL_FIELD
    ensures (excess + sum) % TOTAL_FIELD - sum == excess <==> 0 <= excess + sum < TOTAL_FIELD
  {
    var x := excess + sum;
    ModShift(excess, -(x / TOTAL_FIELD));
    assert x % TOTAL_FIELD - sum == -(x / TOTAL_FIELD) * TOTAL_FIELD + excess;
  }

  /** No call changes the excess modulo the register's 15 bits.  A call that is carried out
      keeps it outright exactly when the new total fits the register; any other call does
      nothing. */
  lemma ExcessKept(p: Pse, chip: Chip, fq: u32, port: nat, queue: nat, enable: bool)
    ensures var r := Next(p, chip, fq, port, queue, enable);
            && Excess(r) % TOTAL_FIELD == Excess(p) % TOTAL_FIELD
            && if CarriedOut(p, port, queue)
               then Excess(r) == Excess(p) <==> 0 <= NewTotal(p, port, queue, PagesFor(enable)) < TOTAL_FIELD
               else r == p
  {
    if CarriedOut(p, port, queue) {
      ReserveTotals(p, chip, fq, port, queue, PagesFor(enable));
      WrapExactly(Excess(p), Sum(Next(p, chip, fq, port, queue, enable).rsv));
    }
  }

  lemma {:induction false} ZeroRows(rsv: seq<seq<pages>>)
    requires forall i :: 0 <= i < |rsv| ==> rsv[i] == [0]
    ensures Sum(rsv) == 0
    decreases |rsv|
  {
    if rsv != [] {
      assert rsv[0] == [0] && RowSum([0]) == 0 + RowSum([]);
      ZeroRows(rsv[1..]);
    }
  }

  lemma WrapsFrom(p: Pse)
    requires CarriedOut(p, 0, 0) && p.rsv[0][0] == RSV_PAGES && Total(p) == 0 && Sum(p.rsv) == RSV_PAGES
    ensures Excess(p) == -0x80 && Excess(Next(p, En7581, 0x7fff, 0, 0, false)) == 0x7f80
  {
    ReserveTotals(p, En7581, 0x7fff, 0, 0, 0);
  }

  /** A total below what a queue holds, as other software may leave it, wraps when that queue
      is released: here from a shortfall of 0x80 pages to an excess of 0x7f80. */
  lemma TotalWraps() returns (p: Pse)
    ensures CarriedOut(p, 0, 0) && p.rsv[0][0] == RSV_PAGES && Total(p) == 0
    ensures Excess(p) == -0x80 && Excess(Next(p, En7581, 0x7fff, 0, 0, false)) == 0x7f80
  {
    var rest: seq<seq<pages>> := seq(PORTS - 1, i => [0]);
    p := Pse([[RSV_PAGES]] + rest, 0, 0);
    ZeroRows(rest);
    assert p.rsv[1..] == rest;
    assert RowSum([RSV_PAGES]) == RSV_PAGES + RowSum([]);
    WrapsFrom(p);
  }

  /** Only the named queue can change; queues 0 to 5 of port 2 never do. */
  lemma OthersUntouched(p: Pse, chip: Chip, fq: u32, port: nat, queue: nat, enable: bool, i: nat, j: nat)
    requires InRange(p, i, j) && ((i, j) != (port, queue) || Kept(i, j))
    ensures var r := Next(p, chip, fq, port, queue, enable);
            InRange(r, i, j) && r.rsv[i][j] == p.rsv[i][j]
  {
  }

  lemma OrLowBit(a: nat, b: nat)
    ensures Or(a, b) % 2 == 1 <==> a % 2 == 1 || b % 2 == 1
  {
  }

  /** Bit 15 of a register after its low 15 bits were set. */
  lemma BitAbove(w: u32, v: u32)
    ensures RmwLow15(w, v) / 0x8000 % 2 == 1 <==> v / 0x8000 % 2 == 1 || w / 0x8000 % 2 == 1
  {
    PowersOfHigh();
    OrFits(v / TOTAL_FIELD, w / TOTAL_FIELD, 17);
    Cat15(v % TOTAL_FIELD, Or(v / TOTAL_FIELD, w / TOTAL_FIELD));
    OrLowBit(v / TOTAL_FIELD, w / TOTAL_FIELD);
  }

  lemma BitOfSum(sum: int)
    requires -0x8000 <= sum < 0x1_0000
    ensures sum % TWO32 / 0x8000 % 2 == 1 <==> !(0 <= sum < 0x8000)
  {
    if sum < 0 {
      assert sum % TWO32 == sum + TWO32;
      assert (sum + TWO32) / 0x8000 == 0x1_ffff;
    }
  }

  lemma BelowHighHalf(w: u32, v: u32)
    ensures RmwHigh16(w, v) / 0x8000 % 2 == w / 0x8000 % 2
  {
    var low, high := w % TWO16, v % TWO16;
    assert (low + high * TWO16) / 0x8000 == low / 0x8000 + high * 2;
    assert w / 0x8000 == low / 0x8000 + w / TWO16 * 2;
  }

  /** A total that does not fit its 15 bits spills into the bit above them, between the total and
      the low threshold, and stays there: that bit is set after an update exactly when it was set
      before or the new total does not fit. */
  lemma OverflowSticks(p: Pse, chip: Chip, fq: u32, port: nat, queue: nat, val: pages)
    requires InRange(p, port, queue)
    ensures Reserve(p, chip, fq, port, queue, val).buffSet / 0x8000 % 2 == 1
            <==> p.buffSet / 0x8000 % 2 == 1 || !(0 <= NewTotal(p, port, queue, val) < 0x8000)
  {
    var v: u32 := NewTotal(p, port, queue, val) % TWO32;
    var buff := RmwLow15(p.buffSet, v);
    BitAbove(p.buffSet, v);
    BitOfSum(NewTotal(p, port, queue, val));
    BelowHighHalf(buff, ThreeQuarters(Shared(fq % TOTAL_FIELD, buff % TOTAL_FIELD, MidMargin(chip))));
  }

  // ---- Thresholds

  ghost predicate Ordered(p: Pse, fq: u32) {
    Low(p) <= Mid(p) <= High(p) && High(p) + Total(p) <= fq % TOTAL_FIELD
  }

  lemma ReserveThresholds(p: Pse, chip: Chip, fq: u32, port: nat, queue: nat, val: pages)
    requires InRange(p, port, queue)
    ensures var r := Reserve(p, chip, fq, port, queue, val);
            && High(r) == Shared(fq % TOTAL_FIELD, Total(r), HighMargin(chip)) % TWO16
            && Mid(r) == Shared(fq % TOTAL_FIELD, Total(r), MidMargin(chip)) % TWO16
            && Low(r) == ThreeQuarters(Shared(fq % TOTAL_FIELD, Total(r), MidMargin(chip))) % TWO16
  {
    var v: u32 := (Total(p) - p.rsv[port][queue] + val) % TWO32;
    var buff := RmwLow15(p.buffSet, v);
    var total := buff % TOTAL_FIELD;
    var high := Shared(fq % TOTAL_FIELD, total, HighMargin(chip));
    var mid := Shared(fq % TOTAL_FIELD, total, MidMargin(chip));
    HighKept(buff, ThreeQuarters(mid));
    LowKept(p.shareUsed, high);
    HighKept(RmwLow16(p.shareUsed, high), mid);
  }

  lemma ThreeQuartersIs(d: int)
    requires -0x1_0000 < d < 0x8000
    ensures ThreeQuarters(d % TWO32) % TWO16 == 3 * d / 4 % 0x1_0000
  {
    if d < 0 {
      assert d % TWO32 == d + TWO32;
      assert (d + TWO32) * 3 == 3 * d + TWO32 + 2 * TWO32;
      assert (d + TWO32) * 3 % TWO32 == 3 * d + TWO32;
      assert (3 * d + TWO32) / 4 == 3 * d / 4 + 0x4000 * TWO16;
    } else {
      assert d % TWO32 == d;
    }
  }

  lemma CutTwice(d: int)
    requires -0x1_0000 < d < 0x8000
    ensures d % TWO32 % TWO16 == d % 0x1_0000
  {
    if d < 0 {
      assert d % TWO32 == 0xFFFF * TWO16 + (d + TWO16);
    }
  }

  lemma RoomIs(limit: nat, total: nat, margin: nat)
    requires limit < TOTAL_FIELD && total < TOTAL_FIELD && margin <= 0x200
    ensures var d, x := limit - total - margin, Shared(limit, total, margin);
            && x % TWO16 == d % 0x1_0000 && ThreeQuarters(x) % TWO16 == 3 * d / 4 % 0x1_0000
            && (d >= 0 ==> 4 * (ThreeQuarters(x) % TWO16) <= 3 * (x % TWO16) < 4 * (ThreeQuarters(x) % TWO16) + 4)
  {
    var d := limit - total - margin;
    CutTwice(d);
    ThreeQuartersIs(d);
    if d >= 0 {
      assert d % 0x1_0000 == d && 3 * d / 4 % 0x1_0000 == 3 * d / 4;
    }
  }

  /** The three thresholds after a reservation: what the limit leaves above the new total, less
      0x20 or on AN7583 0x100 pages (high), less 0x100 or 0x200 (middle), and three quarters of
      the middle one (low), each cut to sixteen bits when the limit leaves less than that. */
  lemma ThresholdsAre(p: Pse, chip: Chip, fq: u32, port: nat, queue: nat, val: pages)
    requires InRange(p, port, queue)
    ensures var r, m := Reserve(p, chip, fq, port, queue, val), if chip == An7583 then 0x200 else 0x100;
            var room := fq % 0x8000 - r.buffSet % 0x8000;
            && r.buffSet % 0x8000 == (p.buffSet % 0x8000 - p.rsv[port][queue] + val) % 0x8000
            && r.shareUsed % 0x1_0000 == (room - if chip == An7583 then 0x100 else 0x20) % 0x1_0000
            && r.shareUsed / 0x1_0000 == (room - m) % 0x1_0000
            && r.buffSet / 0x1_0000 == 3 * (room - m) / 4 % 0x1_0000
            && (room >= m ==> 4 * Low(r) <= 3 * Mid(r) < 4 * Low(r) + 4)
  {
    var r := Reserve(p, chip, fq, port, queue, val);
    ReserveTotals(p, chip, fq, port, queue, val);
    ReserveThresholds(p, chip, fq, port, queue, val);
    RoomIs(fq % TOTAL_FIELD, Total(r), HighMargin(chip));
    RoomIs(fq % TOTAL_FIELD, Total(r), MidMargin(chip));
  }

  lemma ThreeQuartersBelow(x: u32)
    requires x < TOTAL_FIELD
    ensures ThreeQuarters(x) <= x && ThreeQuarters(x) % TWO16 == ThreeQuarters(x) && x % TWO16 == x
  {
  }

  lemma SharedIs(limit: nat, total: nat, margin: nat)
    requires limit < TOTAL_FIELD && total < TOTAL_FIELD && margin <= 0x200
    ensures var s, d := Shared(limit, total, margin), limit - total - margin;
            s % TWO16 == (if d >= 0 then d else d + TWO16) && (d >= 0 ==> s == d && s < TOTAL_FIELD)
  {
    var d := limit - total - margin;
    if d < 0 {
      assert Shared(limit, total, margin) == d + TWO32;
      assert d + TWO32 == 0xFFFF * TWO16 + (d + TWO16);
    }
  }

  lemma InOrder(limit: nat, total: nat, highMargin: nat, midMargin: nat)
    requires limit < TOTAL_FIELD && total < TOTAL_FIELD && highMargin < midMargin <= 0x200
    ensures var high, mid := Shared(limit, total, highMargin) % TWO16, Shared(limit, total, midMargin);
            ThreeQuarters(mid) % TWO16 <= mid % TWO16 <= high && high + total <= limit <==> limit >= total + midMargin
  {
    SharedIs(limit, total, highMargin);
    SharedIs(limit, total, midMargin);
    if limit >= total + midMargin {
      ThreeQuartersBelow(Shared(limit, total, midMargin));
    }
  }

  /** After every update the thresholds are in order, and the high one leaves room for the
      reservations, exactly when the limit leaves the middle margin above the total that the
      update is about to write. */
  lemma OrderedExactly(p: Pse, chip: Chip, fq: u32, port: nat, queue: nat, val: pages)
    requires InRange(p, port, queue)
    ensures Ordered(Reserve(p, chip, fq, port, queue, val), fq)
       <==> fq % TOTAL_FIELD >= NewTotal(p, port, queue, val) % TOTAL_FIELD + MidMargin(chip)
  {
    var r := Reserve(p, chip, fq, port, queue, val);
    ReserveTotals(p, chip, fq, port, queue, val);
    ReserveThresholds(p, chip, fq, port, queue, val);
    InOrder(fq % TOTAL_FIELD, Total(r), HighMargin(chip), MidMargin(chip));
  }

  lemma OutOfOrderAt(r: Pse, was: int, room: int)
    requires was == 0 && r.buffSet % 0x8000 == (was + 0x80) % 0x8000 && room == 0x100 - r.buffSet % 0x8000
    requires High(r) == (room - 0x20) % 0x1_0000 && Mid(r) == (room - 0x100) % 0x1_0000
    ensures Mid(r) == 0xff80 && High(r) == 0x60
  {
  }

  lemma OutOfOrderFrom(p: Pse, chip: Chip, fq: u32, val: pages)
    requires InRange(p, 0, 0) && p.buffSet % 0x8000 - p.rsv[0][0] == 0
    requires chip == En7581 && fq % 0x8000 == 0x100 && val == 0x80
    ensures var r := Reserve(p, chip, fq, 0, 0, val); Mid(r) == 0xff80 && High(r) == 0x60
  {
    var r := Reserve(p, chip, fq, 0, 0, val);
    ThresholdsAre(p, chip, fq, 0, 0, val);
    OutOfOrderAt(r, p.buffSet % 0x8000 - p.rsv[0][0], fq % 0x8000 - r.buffSet % 0x8000);
  }

  /** With a limit of one margin, the first reservation puts the middle threshold far above the
      high one. */
  lemma ThresholdsOutOfOrder() returns (p: Pse)
    ensures CarriedOut(p, 0, 0) && Total(p) == 0
    ensures var r := Next(p, En7581, 0x100, 0, 0, true); Mid(r) == 0xff80 && High(r) == 0x60
  {
    p := Pse(seq(PORTS, i => [0]), 0, 0);
    OutOfOrderFrom(p, En7581, 0x100, RSV_PAGES);
    assert Next(p, En7581, 0x100, 0, 0, true) == Reserve(p, En7581, 0x100, 0, 0, RSV_PAGES);
  }

  // ---- Runs

  datatype Call = Call(port: nat, queue: nat, enable: bool)

  ghost predicate IsRun(ps: seq<Pse>, cs: seq<Call>, chip: Chip, fq: u32) {
    && |ps| == |cs| + 1
    && forall k: nat :: k < |cs| ==> ps[k + 1] == Next(ps[k], chip, fq, cs[k].port, cs[k].queue, cs[k].enable)
  }

  function Larger(x: pages): pages {
    if x > RSV_PAGES then x else RSV_PAGES
  }

  /** No queue of `b` has more than in `a` or than the default. */
  ghost predicate Below(b: seq<seq<pages>>, a: seq<seq<pages>>) {
    && |a| == |b|
    && (forall i: nat :: i < |a| ==> |a[i]| == |b[i]|)
    && forall i: nat, j: nat :: i < |a| && j < |a[i]| ==> b[i][j] <= Larger(a[i][j])
  }

  /** The most that the queues of a row, and of all ports, can ever reserve. */
  function RowCeiling(row: seq<pages>): nat
    decreases |row|
  {
    if row == [] then 0 else Larger(row[0]) + RowCeiling(row[1..])
  }

  function Ceiling(rsv: seq<seq<pages>>): nat
    decreases |rsv|
  {
    if rsv == [] then 0 else RowCeiling(rsv[0]) + Ceiling(rsv[1..])
  }

  lemma {:induction false} RowBelowCeiling(b: seq<pages>, a: seq<pages>)
    requires |a| == |b| && forall j: nat :: j < |a| ==> b[j] <= Larger(a[j])
    ensures RowSum(b) <= RowCeiling(a)
    decreases |a|
  {
    if a != [] {
      RowBelowCeiling(b[1..], a[1..]);
    }
  }

  lemma {:induction false} BelowCeiling(b: seq<seq<pages>>, a: seq<seq<pages>>)
    requires Below(b, a)
    ensures Sum(b) <= Ceiling(a)
    decreases |a|
  {
    if a != [] {
      RowBelowCeiling(b[0], a[0]);
      assert Below(b[1..], a[1..]);
      BelowCeiling(b[1..], a[1..]);
    }
  }

  lemma {:induction false} RunStaysBelow(ps: seq<Pse>, cs: seq<Call>, chip: Chip, fq: u32, n: nat)
    requires IsRun(ps, cs, chip, fq) && n <= |cs|
    ensures Below(ps[n].rsv, ps[0].rsv)
    decreases n
  {
    if n > 0 {
      RunStaysBelow(ps, cs, chip, fq, n - 1);
      var c := cs[n - 1];
      assert ps[n - 1 + 1] == Next(ps[n - 1], chip, fq, c.port, c.queue, c.enable);
    }
  }

  lemma SameResidue(excess: int, start: int, sum: nat)
    requires excess % TOTAL_FIELD == start % TOTAL_FIELD && 0 <= excess + sum < TOTAL_FIELD
    ensures excess == start <==> 0 <= start + sum < TOTAL_FIELD
  {
    var a, b := excess / TOTAL_FIELD, start / TOTAL_FIELD;
    assert excess - start == (a - b) * TOTAL_FIELD;
  }

  /** Over any run the excess is constant modulo 15 bits.  It is what it was at the start
      exactly when the reservations at that point fit the register with it, and so at every
      point when it starts non-negative and the ceiling on all reservations fits. */
  lemma {:induction false} RunsConserve(ps: seq<Pse>, cs: seq<Call>, chip: Chip, fq: u32, n: nat)
    requires IsRun(ps, cs, chip, fq) && n <= |cs|
    ensures Excess(ps[n]) % TOTAL_FIELD == Excess(ps[0]) % TOTAL_FIELD
    ensures Excess(ps[n]) == Excess(ps[0]) <==> 0 <= Excess(ps[0]) + Sum(ps[n].rsv) < TOTAL_FIELD
    ensures 0 <= Excess(ps[0]) && Excess(ps[0]) + Ceiling(ps[0].rsv) < TOTAL_FIELD ==> Excess(ps[n]) == Excess(ps[0])
    decreases n
  {
    if n > 0 {
      RunsConserve(ps, cs, chip, fq, n - 1);
      var c := cs[n - 1];
      assert ps[n - 1 + 1] == Next(ps[n - 1], chip, fq, c.port, c.queue, c.enable);
      ExcessKept(ps[n - 1], chip, fq, c.port, c.queue, c.enable);
    }
    SameResidue(Excess(ps[n]), Excess(ps[0]), Sum(ps[n].rsv));
    RunStaysBelow(ps, cs, chip, fq, n);
    BelowCeiling(ps[n].rsv, ps[0].rsv);
  }

  /** Over any run, queues 0 to 5 of port 2 and every queue no call names keep their pages. */
  lemma {:induction false} RunsLeaveOthers(ps: seq<Pse>, cs: seq<Call>, chip: Chip, fq: u32, n: nat, i: nat, j: nat)
    requires IsRun(ps, cs, chip, fq) && n <= |cs| && InRange(ps[0], i, j)
    requires Kept(i, j) || forall k: nat :: k < n ==> (cs[k].port, cs[k].queue) != (i, j)
    ensures InRange(ps[n], i, j) && ps[n].rsv[i][j] == ps[0].rsv[i][j]
    decreases n
  {
    if n > 0 {
      RunsLeaveOthers(ps, cs, chip, fq, n - 1, i, j);
      var c := cs[n - 1];
      assert ps[n - 1 + 1] == Next(ps[n - 1], chip, fq, c.port, c.queue, c.enable);
      OthersUntouched(ps[n - 1], chip, fq, c.port, c.queue, c.enable, i, j);
    }
  }

  // ---- The driver

  lemma LoadPages(w: u32, val: pages)
    ensures w / RSV_FIELD * RSV_FIELD + val < TWO32 && (w / RSV_FIELD * RSV_FIELD + val) % RSV_FIELD == val
  {
    Cat14(val, w / RSV_FIELD);
  }

  lemma MinusTwice(x: int)
    requires -TOTAL_FIELD < x < TOTAL_FIELD
    ensures ((x - 0x100) % TWO32 - 0x100) % TWO32 == (x - 0x200) % TWO32
  {
  }

  class FrameEngine {
    const chip: Chip
    const counts: seq<nat>    // queues per port
    const fqCfg: u32
    var rsv: seq<seq<pages>>
    var cfgVal: u32           // PSE_QUEUE_CFG_VAL
    var buffSet: u32
    var shareUsed: u32

    constructor (chip: Chip, fqCfg: u32, rsv: seq<seq<pages>>, buffSet: u32, shareUsed: u32)
      requires |rsv| == PORTS
      ensures Valid() && View() == Pse(rsv, buffSet, shareUsed) && this.chip == chip && this.fqCfg == fqCfg
    {
      this.chip, this.fqCfg := chip, fqCfg;
      this.counts := seq(|rsv|, i requires 0 <= i < |rsv| => |rsv[i]|);
      this.rsv, this.buffSet, this.shareUsed, cfgVal := rsv, buffSet, shareUsed, 0;
    }

    predicate Valid()
      reads this
    {
      |rsv| == |counts| == PORTS && forall i :: 0 <= i < PORTS ==> |rsv[i]| == counts[i]
    }

    function View(): Pse
      reads this
    {
      Pse(rsv, buffSet, shareUsed)
    }

    /** Hardware: a read command loads the named queue's pages into the value register; for a
        queue that does not exist it loads anything. */
    method SelectQueue(port: nat, queue: nat, noise: u32)
      requires Valid()
      modifies this`cfgVal
      ensures InRange(View(), port, queue) ==> cfgVal % RSV_FIELD == rsv[port][queue]
    {
      cfgVal := noise;
      if port < PORTS && queue < counts[port] {
        LoadPages(noise, rsv[port][queue]);
        cfgVal := noise / RSV_FIELD * RSV_FIELD + rsv[port][queue];
      }
    }

    method GetOqRsv(port: nat, queue: nat, noise: u32) returns (val: pages)
      requires Valid()
      modifies this`cfgVal
      ensures InRange(View(), port, queue) ==> val == rsv[port][queue]
    {
      SelectQueue(port, queue, noise);
      val := cfgVal % RSV_FIELD;
    }

    /** The value register first, then the write command. */
    method SetOqRsv(port: nat, queue: nat, val: pages)
      requires Valid() && InRange(View(), port, queue)
      modifies this`cfgVal, this`rsv
      ensures Valid() && rsv == old(rsv)[port := WithPages(old(rsv[port]), queue, val)]
    {
      LoadPages(cfgVal, val);
      cfgVal := cfgVal / RSV_FIELD * RSV_FIELD + val;
      rsv := rsv[port := WithPages(rsv[port], queue, cfgVal % RSV_FIELD)];
    }

    /** fe_set_per_oq_rsv. */
    method SetPerOqRsv(port: nat, queue: nat, val: pages, noise: u32)
      requires Valid()
      modifies this
      ensures Valid()
      ensures View() == if InRange(old(View()), port, queue) then Reserve(old(View()), chip, fqCfg, port, queue, val)
                        else old(View())
    {
      var was := GetOqRsv(port, queue, noise);
      if port >= PORTS {
        return;
      }
      if queue >= counts[port] {
        return;
      }
      SetOqRsv(port, queue, val);
      buffSet := RmwLow15(buffSet, (buffSet % TOTAL_FIELD - was + val) % TWO32);
      SetThresholds();
    }

    method SetThresholds()
      modifies this`buffSet, this`shareUsed
      ensures var limit, total := fqCfg % TOTAL_FIELD, old(buffSet) % TOTAL_FIELD;
              var mid := Shared(limit, total, MidMargin(chip));
              && buffSet == RmwHigh16(old(buffSet), ThreeQuarters(mid))
              && shareUsed == RmwHigh16(RmwLow16(old(shareUsed), Shared(limit, total, HighMargin(chip))), mid)
    {
      var tmp: u32;
      if chip == An7583 {
        tmp := (fqCfg % TOTAL_FIELD - buffSet % TOTAL_FIELD - 0x100) % TWO32;
        shareUsed := RmwLow16(shareUsed, tmp);
        MinusTwice(fqCfg % TOTAL_FIELD - buffSet % TOTAL_FIELD);
        tmp := (tmp - 0x100) % TWO32;
      } else {
        tmp := (fqCfg % TOTAL_FIELD - buffSet % TOTAL_FIELD - 0x20) % TWO32;
        shareUsed := RmwLow16(shareUsed, tmp);
        tmp := (fqCfg % TOTAL_FIELD - buffSet % TOTAL_FIELD - 0x100) % TWO32;
      }
      shareUsed := RmwHigh16(shareUsed, tmp);
      tmp := tmp * 3 % TWO32 / 4;
      buffSet := RmwHigh16(buffSet, tmp);
    }

    /** fe_api_pse_oq_rsv_en. */
    method OqRsvEn(port: nat, channel: nat, enable: bool, noise: u32)
      requires Valid()
      modifies this
      ensures Valid() && View() == Next(old(View()), chip, fqCfg, port, channel, enable)
      ensures (port == 2 && channel <= 5) || port >= 11 || channel >= counts[port] ==> View() == old(View())
      ensures port < 11 && channel < counts[port] && (port == 2 ==> channel > 5) ==>
                && rsv == old(rsv)[port := old(rsv[port])[channel := if enable then 0x80 else 0]]
                && buffSet % 0x8000
                   == (old(buffSet) % 0x8000 - old(rsv[port][channel]) + if enable then 0x80 else 0) % 0x8000
    {
      if CarriedOut(View(), port, channel) {
        ReserveTotals(View(), chip, fqCfg, port, channel, PagesFor(enable));
      }
      if port == GDM2_PORT && channel <= 5 {
        return;
      }
      if enable {
        SetPerOqRsv(port, channel, RSV_PAGES, noise);
      } else {
        SetPerOqRsv(port, channel, 0, noise);
      }
    }
  }
}

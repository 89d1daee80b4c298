/** The firmware upload over the mailbox (arht_hsgmii.c, aeon_update_flash).

The image is cut into flash sectors and each sector into messages of at most eight 16-bit
words; the device collects a sector in its memory and then copies it to flash.  The host's
messages and the device's reading of them are both modelled, so that the end result can be
stated: the flash holds the image. */
module FirmwareUpload {
  import opened Words
  import opened PhyMailbox

  const CMD_BULK_DATA := 0xA
  const CMD_BULK_WRITE := 0xC
  const CMD_FLASH_WRITE := 0xE
  const CMD_FLASH_ERASE := 0xF
  const CMD_CFG_PARAM := 0x1A
  const CFG_DIRECT := 0x4
  const CFG_NG_PHYCTRL := 1
  const PHYCTRL_PAUSED := 2
  const SECTOR_SIZE := 4096
  const SECTOR_WORDS := 2048
  const FLASH_CHIP_SIZE := 0x0020_0000
  const TEMP_MEM_ADDR := 0x33e000
  const ERASE_MODE_BLOCK := 2

  /** What reaches the device: the opcode and size fields of the command word and the data
      registers written before it. */
  datatype Msg = Msg(opcode: bits6, size: bits5, data: seq<u16>)

  /** aeon_send_ipc_msg: at most eight data registers, and five bits of size. */
  function Message(data: seq<u16>, opcode: bits6, size: nat): Msg {
    Msg(opcode, size % 32, if |data| >= 8 then data[..8] else data)
  }

  function Lo(x: u32): u16 { x % TWO16 }
  function Hi(x: u32): u16 { x / TWO16 }

  function BulkWriteMsg(addr: u32, size: u32): Msg {
    Message([Lo(addr), Hi(addr), Lo(size), Hi(size)], CMD_BULK_WRITE, 8)
  }

  function BulkDataMsg(words: seq<u16>): Msg {
    Message(words, CMD_BULK_DATA, 2 * |words|)
  }

  function FlashWriteMsg(flash: u32, mem: u32, size: u16): Msg {
    Message([Lo(flash), Hi(flash), Lo(mem), Hi(mem), size], CMD_FLASH_WRITE, 10)
  }

  /** The size the erase message carries: cut off at the end of the chip. */
  function EraseSize(addr: u32, size: u32): u32 {
    if (addr + size) % TWO32 >= FLASH_CHIP_SIZE then (FLASH_CHIP_SIZE - addr - 1) % TWO32 else size
  }

  function EraseMsg(addr: u32, size: u32, mode: u16): Msg {
    var n := EraseSize(addr, size);
    Message([Lo(addr), Hi(addr), Lo(n), Hi(n), mode], CMD_FLASH_ERASE, 10)
  }

  /** A bulk-data message carries exactly its words, with an exact size field, just when
      there are at most eight of them. */
  lemma BulkDataExactly(words: seq<u16>)
    ensures BulkDataMsg(words).data == words && BulkDataMsg(words).size == 2 * |words| <==> |words| <= 8
  {
  }

  /** A direct configuration message: the sub-command, then the parameters. */
  function CfgMsg(params: seq<u16>): Msg {
    Message([CFG_DIRECT] + params, CMD_CFG_PARAM, 2 * (|params| + 1))
  }

  /** It carries all its parameters, with an exact size field, just when there are at most
      seven of them. */
  lemma CfgExactly(params: seq<u16>)
    ensures CfgMsg(params).data == [CFG_DIRECT] + params && CfgMsg(params).size == 2 * (|params| + 1) <==> |params| <= 7
  {
    var all := [CFG_DIRECT] + params;
    if |params| == 7 {
      assert all[..8] == all;
    }
  }

  /** A pause command for one of the PHY's state machines. */
  function PauseMsg(fsm: u16): Msg {
    CfgMsg([CFG_NG_PHYCTRL, PHYCTRL_PAUSED, fsm, 0])
  }

  /** NGPHY, GPHY, CU_AN, DPC and SS are paused before an update. */
  function Pauses(): seq<Msg> {
    [PauseMsg(0x81), PauseMsg(0x8c), PauseMsg(0x8d), PauseMsg(0x8e), PauseMsg(0x91)]
  }

  // ---- The host's messages

  /** The image length padded to whole 32-bit words. */
  function ImageSize(size: nat): nat {
    (size + 3) / 4 * 4
  }

  lemma ImageSizeIs(size: nat)
    ensures size <= ImageSize(size) < size + 4 && ImageSize(size) % 4 == 0
  {
  }

  /** Memory from the first byte of the firmware's data on. */
  type Memory = nat -> byte

  /** The blob as it was loaded, and behind it whatever is there. */
  function Loaded(fw: seq<byte>, behind: Memory): Memory {
    (i: nat) => if i < |fw| then fw[i] else behind(i - |fw|)
  }

  function LittleEndian(lo: byte, hi: byte): u16 {
    lo + hi * 0x100
  }

  /** The little-endian word at byte `i`. */
  function WordAt(mem: Memory, i: nat): u16 {
    LittleEndian(mem(i), mem(i + 1))
  }

  /** `count` words of memory from byte `from`. */
  function WordsAt(mem: Memory, from: nat, count: nat): (ws: seq<u16>) {
    seq(count, i requires 0 <= i < count => WordAt(mem, from + 2 * i))
  }

  function Chunks(ws: seq<u16>): seq<Msg>
    decreases |ws|
  {
    if |ws| > 8 then [BulkDataMsg(ws[..8])] + Chunks(ws[8..])
    else if |ws| > 0 then [BulkDataMsg(ws)]
    else []
  }

  /** The messages of one sector: its words go to device memory, then a whole sector of that
      memory goes to flash. */
  function SectorMsgs(temp: u32, ws: seq<u16>, to: u32): seq<Msg> {
    [BulkWriteMsg(temp, SECTOR_SIZE)] + Chunks(ws) + [FlashWriteMsg(to, temp, SECTOR_SIZE)]
  }

  function SectorAddress(start: u32, k: nat): u32 {
    (start + k * SECTOR_SIZE) % TWO32
  }

  /** The messages of each sector, given its words. */
  function Blocks(temp: u32, start: u32, ss: seq<seq<u16>>): seq<seq<Msg>> {
    seq(|ss|, k requires 0 <= k < |ss| => SectorMsgs(temp, ss[k], SectorAddress(start, k)))
  }

  /** The first `n` of a list of lists, joined. */
  function Join<T>(ss: seq<seq<T>>, n: nat): seq<T>
    requires n <= |ss|
    decreases n
  {
    if n == 0 then [] else Join(ss, n - 1) + ss[n - 1]
  }

  function Sectors(image: nat): nat {
    (image + SECTOR_SIZE - 1) / SECTOR_SIZE
  }

  /** The words of sector `k` that belong to the padded image. */
  function SectorWords(image: nat, k: nat): nat {
    if image <= k * SECTOR_SIZE then 0
    else if (image - k * SECTOR_SIZE) / 2 > SECTOR_WORDS then SECTOR_WORDS
    else (image - k * SECTOR_SIZE) / 2
  }

  /** The words of the image, sector by sector. */
  function Cut(mem: Memory, image: nat): (ss: seq<seq<u16>>) {
    seq(Sectors(image), k requires 0 <= k < Sectors(image) => WordsAt(mem, k * SECTOR_SIZE, SectorWords(image, k)))
  }

  function Upload(mem: Memory, image: u32, start: u32): seq<Msg> {
    [EraseMsg(start, image, ERASE_MODE_BLOCK)]
    + Join(Blocks(TEMP_MEM_ADDR, start, Cut(mem, image)), Sectors(image))
  }

  // ---- What is read

  /** The upload copies whole sectors out of the firmware's data. */
  function BytesRead(size: nat): nat {
    Sectors(ImageSize(size)) * SECTOR_SIZE
  }

  lemma PaddedRest(k: nat, r: nat)
    requires r < SECTOR_SIZE
    ensures Sectors(ImageSize(k * SECTOR_SIZE + r)) == if r == 0 then k else k + 1
  {
    var padded := (r + 3) / 4 * 4;
    assert k * SECTOR_SIZE == k * 1024 * 4;
    assert (k * 1024 * 4 + (r + 3)) / 4 == k * 1024 + (r + 3) / 4;
    assert ImageSize(k * SECTOR_SIZE + r) == k * SECTOR_SIZE + padded;
    assert padded <= SECTOR_SIZE && (padded == 0 <==> r == 0);
    assert (k * SECTOR_SIZE + (padded + SECTOR_SIZE - 1)) / SECTOR_SIZE == k + (padded + SECTOR_SIZE - 1) / SECTOR_SIZE;
  }

  /** The copies stay inside the blob exactly when its size is a whole number of sectors. */
  lemma StaysInsideExactly(size: nat)
    ensures BytesRead(size) <= size <==> size % SECTOR_SIZE == 0
  {
    var k, r := size / SECTOR_SIZE, size % SECTOR_SIZE;
    assert size == k * SECTOR_SIZE + r;
    PaddedRest(k, r);
  }

  /** A firmware of one byte is read 4095 bytes past its end. */
  lemma OneByteFirmware()
    ensures ImageSize(1) == 4 && BytesRead(1) == 1 + 4095
  {
  }

  // ---- Cutting

  function Payload(msgs: seq<Msg>): seq<u16>
    decreases |msgs|
  {
    if msgs == [] then []
    else (if msgs[0].opcode == CMD_BULK_DATA then msgs[0].data else []) + Payload(msgs[1..])
  }

  lemma {:induction false} PayloadAppend(a: seq<Msg>, b: seq<Msg>)
    ensures Payload(a + b) == Payload(a) + Payload(b)
    decreases |a|
  {
    if a == [] {
      assert a + b == b;
    } else {
      assert (a + b)[1..] == a[1..] + b;
      PayloadAppend(a[1..], b);
    }
  }

  ghost predicate WellCut(m: Msg) {
    m.opcode == CMD_BULK_DATA ==> 0 < |m.data| <= 8 && m.size == 2 * |m.data|
  }

  /** The chunks of a word list carry its words in order, each message exactly. */
  lemma {:induction false} ChunksCarryWords(ws: seq<u16>)
    ensures Payload(Chunks(ws)) == ws
    ensures forall i :: 0 <= i < |Chunks(ws)| ==> WellCut(Chunks(ws)[i]) && Chunks(ws)[i].opcode == CMD_BULK_DATA
    ensures |Chunks(ws)| == (|ws| + 7) / 8
    decreases |ws|
  {
    if |ws| > 8 {
      ChunksCarryWords(ws[8..]);
      var msgs := Chunks(ws);
      assert msgs[0] == BulkDataMsg(ws[..8]) && msgs[1..] == Chunks(ws[8..]);
      assert ws == ws[..8] + ws[8..];
    } else if |ws| > 0 {
      assert Chunks(ws)[1..] == [];
    }
  }

  ghost predicate AllWellCut(msgs: seq<Msg>) {
    forall m :: m in msgs ==> WellCut(m)
  }

  lemma SectorCarriesWords(temp: u32, ws: seq<u16>, to: u32)
    ensures Payload(SectorMsgs(temp, ws, to)) == ws
    ensures AllWellCut(SectorMsgs(temp, ws, to))
  {
    var bw, fw := BulkWriteMsg(temp, SECTOR_SIZE), FlashWriteMsg(to, temp, SECTOR_SIZE);
    ChunksCarryWords(ws);
    PayloadAppend([bw] + Chunks(ws), [fw]);
    PayloadAppend([bw], Chunks(ws));
    assert Payload([bw]) == [] && Payload([fw]) == [];
  }

  lemma {:induction false} BlocksCarryWords(bs: seq<seq<Msg>>, ss: seq<seq<u16>>, n: nat)
    requires n <= |bs| == |ss|
    requires forall k :: 0 <= k < n ==> Payload(bs[k]) == ss[k]
    ensures Payload(Join(bs, n)) == Join(ss, n)
    decreases n
  {
    if n > 0 {
      BlocksCarryWords(bs, ss, n - 1);
      PayloadAppend(Join(bs, n - 1), bs[n - 1]);
    }
  }

  lemma {:induction false} BlocksWellCut(bs: seq<seq<Msg>>, n: nat)
    requires n <= |bs| && forall k :: 0 <= k < n ==> AllWellCut(bs[k])
    ensures AllWellCut(Join(bs, n))
    decreases n
  {
    if n > 0 {
      BlocksWellCut(bs, n - 1);
      assert AllWellCut(bs[n - 1]);
    }
  }

  /** Words of the padded image in its first `n` sectors. */
  function WordsBefore(image: nat, n: nat): nat {
    if n * SECTOR_SIZE <= image then n * SECTOR_WORDS else image / 2
  }

  lemma SectorBounds(image: nat, k: nat)
    requires image % 4 == 0 && k < Sectors(image)
    ensures k * SECTOR_SIZE < image && k + 1 <= Sectors(image)
    ensures WordsBefore(image, k) == k * SECTOR_WORDS
    ensures WordsBefore(image, k + 1) == k * SECTOR_WORDS + SectorWords(image, k)
  {
  }

  lemma WordsAppend(mem: Memory, m: nat, n: nat)
    ensures WordsAt(mem, 0, m) + WordsAt(mem, 2 * m, n) == WordsAt(mem, 0, m + n)
  {
  }

  /** The words of the padded image before sector `n`. */
  function Before(mem: Memory, image: nat, n: nat): seq<u16> {
    WordsAt(mem, 0, WordsBefore(image, n))
  }

  lemma BeforeNext(mem: Memory, image: nat, k: nat)
    requires image % 4 == 0 && k < Sectors(image)
    ensures Before(mem, image, k) + Cut(mem, image)[k] == Before(mem, image, k + 1)
  {
    SectorBounds(image, k);
    WordsAppend(mem, k * SECTOR_WORDS, SectorWords(image, k));
  }

  lemma {:induction false} CutFlattens(mem: Memory, image: nat, n: nat)
    requires image % 4 == 0 && n <= Sectors(image)
    ensures Join(Cut(mem, image), n) == Before(mem, image, n)
    decreases n
  {
    if n > 0 {
      BeforeNext(mem, image, n - 1);
      CutFlattens(mem, image, n - 1);
    }
  }

  /** Firmware cutting: over all sectors every bulk command carries one to eight words with an
      exact size field, and the words sent, concatenated, are the image up to its padded
      length, in order, nothing skipped or repeated. */
  lemma UploadSendsImage(mem: Memory, image: u32, start: u32)
    requires image % 4 == 0
    ensures Payload(Upload(mem, image, start)) == WordsAt(mem, 0, image / 2)
    ensures AllWellCut(Upload(mem, image, start))
  {
    var erase, n, ss := EraseMsg(start, image, ERASE_MODE_BLOCK), Sectors(image), Cut(mem, image);
    var bs := Blocks(TEMP_MEM_ADDR, start, ss);
    forall k | 0 <= k < n
      ensures Payload(bs[k]) == ss[k] && AllWellCut(bs[k])
    {
      SectorCarriesWords(TEMP_MEM_ADDR, ss[k], SectorAddress(start, k));
    }
    BlocksCarryWords(bs, ss, n);
    BlocksWellCut(bs, n);
    CutFlattens(mem, image, n);
    assert WordsBefore(image, n) == image / 2;
    PayloadAppend([erase], Join(bs, n));
    assert Payload([erase]) == [];
  }

  /** Byte `i` of a word list. */
  function ByteOf(data: seq<u16>, i: int): byte {
    if !(0 <= i < 2 * |data|) then 0 else if i % 2 == 0 then data[i / 2] % 0x100 else data[i / 2] / 0x100
  }

  lemma WordsAreBytes(mem: Memory, from: nat, count: nat, i: nat)
    requires i < 2 * count
    ensures ByteOf(WordsAt(mem, from, count), i) == mem(from + i)
  {
    var w := WordsAt(mem, from, count)[i / 2];
    assert w == WordAt(mem, from + 2 * (i / 2));
    assert from + i == from + 2 * (i / 2) + i % 2;
  }

  lemma HalvesOf(bytes: nat)
    requires bytes % 4 == 0
    ensures 2 * (bytes / 2) == bytes
  {
    var quarter := bytes / 4;
    assert bytes == 4 * quarter;
    assert bytes / 2 == 2 * quarter;
  }

  lemma DifferentWords(x: Memory, y: Memory, count: nat, i: nat)
    requires i < 2 * count && x(i) != y(i)
    ensures WordsAt(x, 0, count) != WordsAt(y, 0, count)
  {
    WordsAreBytes(x, 0, count, i);
    WordsAreBytes(y, 0, count, i);
  }

  lemma OtherByteOtherUpload(x: Memory, y: Memory, image: u32, start: u32, i: nat)
    requires image % 4 == 0 && i < image && x(i) != y(i)
    ensures Upload(x, image, start) != Upload(y, image, start)
  {
    UploadSendsImage(x, image, start);
    UploadSendsImage(y, image, start);
    HalvesOf(image);
    DifferentWords(x, y, image / 2, i);
  }

  lemma CutOfSame(x: Memory, y: Memory, image: nat)
    requires forall i: nat :: i < image ==> x(i) == y(i)
    ensures Cut(x, image) == Cut(y, image)
  {
    forall k: nat | k < Sectors(image)
      ensures Cut(x, image)[k] == Cut(y, image)[k]
    {
      forall j: nat | j < SectorWords(image, k)
        ensures WordAt(x, k * SECTOR_SIZE + 2 * j) == WordAt(y, k * SECTOR_SIZE + 2 * j)
      {
        assert k * SECTOR_SIZE + 2 * j + 1 < image;
      }
    }
  }

  /** What lies behind the blob reaches the device in the padding alone: two uploads of a blob
      are the same exactly when the memory behind it agrees up to the padded length. */
  lemma PaddingExactly(fw: seq<byte>, a: Memory, b: Memory, start: u32)
    requires |fw| < 0x8000_0000
    ensures ImageSize(|fw|) < TWO32
    ensures Upload(Loaded(fw, a), ImageSize(|fw|), start) == Upload(Loaded(fw, b), ImageSize(|fw|), start)
       <==> forall i: nat :: i < ImageSize(|fw|) - |fw| ==> a(i) == b(i)
  {
    var n, image := |fw|, ImageSize(|fw|);
    ImageSizeIs(n);
    if forall i: nat :: i < image - n ==> a(i) == b(i) {
      CutOfSame(Loaded(fw, a), Loaded(fw, b), image);
    } else {
      var i: nat :| i < image - n && a(i) != b(i);
      assert Loaded(fw, a)(n + i) != Loaded(fw, b)(n + i);
      OtherByteOtherUpload(Loaded(fw, a), Loaded(fw, b), image, start, n + i);
    }
  }

  // ---- The device

  /** Byte-addressed memory and flash; `cursor` is where the next bulk data goes. */
  datatype Device = Device(cursor: nat, ram: nat -> byte, flash: nat -> byte)

  /** Bitwise and: a write to flash can only clear bits. */
  function And(a: nat, b: nat): (r: nat)
    ensures r <= a && r <= b
    decreases a
  {
    if a == 0 || b == 0 then 0 else (if a % 2 == 1 && b % 2 == 1 then 1 else 0) + 2 * And(a / 2, b / 2)
  }

  function Ones(n: nat): nat {
    if n == 0 then 0 else 1 + 2 * Ones(n - 1)
  }

  lemma {:induction false} AndOnes(n: nat, b: nat)
    requires b <= Ones(n)
    ensures And(Ones(n), b) == b
    decreases n
  {
    if n > 0 && b > 0 {
      assert Ones(n) / 2 == Ones(n - 1) && Ones(n) % 2 == 1;
      AndOnes(n - 1, b / 2);
    }
  }

  /** Erased flash takes any byte. */
  lemma ErasedTakes(b: byte)
    ensures And(0xff, b) == b
  {
    assert Ones(4) == 0xf;
    assert Ones(8) == 0xff;
    AndOnes(8, b);
  }

  function Whole(lo: u16, hi: u16): u32 {
    lo + hi * TWO16
  }

  /** Byte `a` of the flash after `size` bytes from `from` on were erased. */
  function EraseAt(flash: nat -> byte, from: nat, size: nat, a: nat): byte {
    if from <= a < from + size && a < FLASH_CHIP_SIZE then 0xff else flash(a)
  }

  /** Byte `a` of the memory after bulk data was stored at the cursor. */
  function StoreAt(ram: nat -> byte, cursor: nat, size: nat, data: seq<u16>, a: nat): byte {
    if cursor <= a < cursor + size then ByteOf(data, a - cursor) else ram(a)
  }

  /** Byte `a` of the flash after `size` bytes of memory were written to it. */
  function WriteAt(flash: nat -> byte, to: nat, size: nat, ram: nat -> byte, from: nat, a: nat): byte {
    if to <= a < to + size && a < FLASH_CHIP_SIZE then And(flash(a), ram(from + (a - to))) else flash(a)
  }

  /** How the device is assumed to act on a message: erasing, setting the write cursor,
      storing bulk data at the cursor, and writing memory to flash.  Erasing sets all bits,
      writing clears bits, and neither goes past the end of the chip. */
  function Obey(d: Device, m: Msg): Device {
    if m.opcode == CMD_FLASH_ERASE && |m.data| >= 4 then
      var from, size := Whole(m.data[0], m.data[1]), Whole(m.data[2], m.data[3]);
      d.(flash := (a: nat) => EraseAt(d.flash, from, size, a))
    else if m.opcode == CMD_BULK_WRITE && |m.data| >= 2 then
      d.(cursor := Whole(m.data[0], m.data[1]))
    else if m.opcode == CMD_BULK_DATA && m.size <= 2 * |m.data| then
      d.(cursor := d.cursor + m.size,
         ram := (a: nat) => StoreAt(d.ram, d.cursor, m.size, m.data, a))
    else if m.opcode == CMD_FLASH_WRITE && |m.data| >= 5 then
      var to, from, size := Whole(m.data[0], m.data[1]), Whole(m.data[2], m.data[3]), m.data[4];
      d.(flash := (a: nat) => WriteAt(d.flash, to, size, d.ram, from, a))
    else d
  }

  function Run(d: Device, msgs: seq<Msg>): Device
    decreases |msgs|
  {
    if msgs == [] then d else Run(Obey(d, msgs[0]), msgs[1..])
  }

  lemma {:induction false} RunAppend(d: Device, a: seq<Msg>, b: seq<Msg>)
    ensures Run(d, a + b) == Run(Run(d, a), b)
    decreases |a|
  {
    if a == [] {
      assert a + b == b;
    } else {
      assert (a + b)[1..] == a[1..] + b;
      RunAppend(Obey(d, a[0]), a[1..], b);
    }
  }

  lemma JoinSplit(x: u32)
    ensures Whole(Lo(x), Hi(x)) == x
  {
  }

  /** These words, and nothing else, were stored from the cursor on. */
  ghost predicate Landed(d: Device, ws: seq<u16>, e: Device) {
    && e.flash == d.flash
    && forall a: nat :: e.ram(a) == StoreAt(d.ram, d.cursor, 2 * |ws|, ws, a)
  }

  lemma BulkDataLands(d: Device, words: seq<u16>)
    requires |words| <= 8
    ensures Landed(d, words, Obey(d, BulkDataMsg(words)))
    ensures Obey(d, BulkDataMsg(words)).cursor == d.cursor + 2 * |words|
  {
    BulkDataExactly(words);
  }

  lemma FlashWriteCopies(d: Device, flash: u32, mem: u32, size: u16)
    ensures Obey(d, FlashWriteMsg(flash, mem, size)).ram == d.ram
    ensures var e := Obey(d, FlashWriteMsg(flash, mem, size));
            forall a: nat :: e.flash(a) == if flash <= a < flash + size && a < FLASH_CHIP_SIZE
                                           then And(d.flash(a), d.ram(mem + (a - flash)))
                                   else d.flash(a)
  {
    JoinSplit(flash);
    JoinSplit(mem);
  }

  lemma SplitBytes(ws: seq<u16>, i: int)
    requires |ws| > 8
    ensures 0 <= i < 16 ==> ByteOf(ws, i) == ByteOf(ws[..8], i)
    ensures 16 <= i < 2 * |ws| ==> ByteOf(ws, i) == ByteOf(ws[8..], i - 16)
  {
  }

  lemma LandedAfterChunk(d: Device, ws: seq<u16>, c: Device, e: Device)
    requires |ws| > 8 && Landed(d, ws[..8], c) && c.cursor == d.cursor + 16 && Landed(c, ws[8..], e)
    ensures Landed(d, ws, e)
  {
    forall a: nat
      ensures e.ram(a) == StoreAt(d.ram, d.cursor, 2 * |ws|, ws, a)
    {
      SplitBytes(ws, a - d.cursor);
      assert e.ram(a) == StoreAt(c.ram, c.cursor, 2 * |ws[8..]|, ws[8..], a);
      assert c.ram(a) == StoreAt(d.ram, d.cursor, 2 * |ws[..8]|, ws[..8], a);
    }
  }

  lemma RunFirst(d: Device, m: Msg, rest: seq<Msg>)
    ensures Run(d, [m] + rest) == Run(Obey(d, m), rest)
  {
    assert ([m] + rest)[1..] == rest;
  }

  lemma RunOne(d: Device, m: Msg)
    ensures Run(d, [m]) == Obey(d, m)
  {
    assert [m][1..] == [];
    assert Run(Obey(d, m), []) == Obey(d, m);
  }

  /** The chunks of a word list land one behind the other at the cursor. */
  lemma {:induction false} ChunksLand(d: Device, ws: seq<u16>)
    ensures Landed(d, ws, Run(d, Chunks(ws)))
    decreases |ws|
  {
    if |ws| > 8 {
      var c := Obey(d, BulkDataMsg(ws[..8]));
      BulkDataLands(d, ws[..8]);
      ChunksLand(c, ws[8..]);
      RunFirst(d, BulkDataMsg(ws[..8]), Chunks(ws[8..]));
      LandedAfterChunk(d, ws, c, Run(c, Chunks(ws[8..])));
    } else if |ws| > 0 {
      BulkDataLands(d, ws);
      RunOne(d, BulkDataMsg(ws));
    }
  }

  lemma CursorSet(d: Device, addr: u32, size: u32)
    ensures Obey(d, BulkWriteMsg(addr, size)) == d.(cursor := addr)
  {
    JoinSplit(addr);
  }

  lemma ThreeParts(d: Device, first: Msg, middle: seq<Msg>, last: Msg)
    ensures Run(d, [first] + middle + [last]) == Obey(Run(Obey(d, first), middle), last)
  {
    RunAppend(d, [first] + middle, [last]);
    RunAppend(d, [first], middle);
    assert Run(Obey(d, first), []) == Obey(d, first);
    var e := Run(Obey(d, first), middle);
    assert Run(Obey(e, last), []) == Obey(e, last);
  }

  /** Byte `r` of the device's sector memory after these words were stored at its start. */
  function SectorByte(d: Device, ws: seq<u16>, r: nat): byte {
    if r < 2 * |ws| then ByteOf(ws, r) else d.ram(TEMP_MEM_ADDR + r)
  }

  predicate HoldsByte(d: Device, r: nat, b: byte) {
    d.ram(TEMP_MEM_ADDR + r) == b
  }

  /** At this address, if it is on the chip, `e` has what `d` had, and-ed with the byte. */
  predicate WroteByte(d: Device, e: Device, a: nat, b: byte) {
    a < FLASH_CHIP_SIZE ==> e.flash(a) == And(d.flash(a), b)
  }

  /** The words were stored in the sector memory, and all of that memory was written to flash. */
  ghost predicate Flashed(d: Device, ws: seq<u16>, to: nat, e: Device) {
    && (forall r: nat :: r < SECTOR_SIZE ==> HoldsByte(e, r, SectorByte(d, ws, r)))
    && (forall r: nat :: r < SECTOR_SIZE ==> WroteByte(d, e, to + r, SectorByte(d, ws, r)))
    && (forall a: nat :: !(to <= a < to + SECTOR_SIZE) ==> e.flash(a) == d.flash(a))
  }

  lemma MemoryReachesFlash(d: Device, m: Device, ws: seq<u16>, to: u32)
    requires m.flash == d.flash
    requires forall r: nat :: r < SECTOR_SIZE ==> HoldsByte(m, r, SectorByte(d, ws, r))
    ensures Flashed(d, ws, to, Obey(m, FlashWriteMsg(to, TEMP_MEM_ADDR, SECTOR_SIZE)))
  {
    FlashWriteCopies(m, to, TEMP_MEM_ADDR, SECTOR_SIZE);
    var e := Obey(m, FlashWriteMsg(to, TEMP_MEM_ADDR, SECTOR_SIZE));
    forall r: nat | r < SECTOR_SIZE
      ensures HoldsByte(e, r, SectorByte(d, ws, r)) && WroteByte(d, e, to + r, SectorByte(d, ws, r))
    {
      assert HoldsByte(m, r, SectorByte(d, ws, r));
    }
  }

  lemma ChunksStore(d: Device, d1: Device, ws: seq<u16>)
    requires d1 == d.(cursor := TEMP_MEM_ADDR)
    ensures Run(d1, Chunks(ws)).flash == d.flash
    ensures forall r: nat :: r < SECTOR_SIZE ==> HoldsByte(Run(d1, Chunks(ws)), r, SectorByte(d, ws, r))
  {
    ChunksLand(d1, ws);
  }

  lemma SectorReachesFlash(d: Device, ws: seq<u16>, to: u32)
    requires |ws| <= SECTOR_WORDS
    ensures Flashed(d, ws, to, Run(d, SectorMsgs(TEMP_MEM_ADDR, ws, to)))
  {
    var d1 := d.(cursor := TEMP_MEM_ADDR);
    var d2 := Run(d1, Chunks(ws));
    var bw, fw := BulkWriteMsg(TEMP_MEM_ADDR, SECTOR_SIZE), FlashWriteMsg(to, TEMP_MEM_ADDR, SECTOR_SIZE);
    ThreeParts(d, bw, Chunks(ws), fw);
    CursorSet(d, TEMP_MEM_ADDR, SECTOR_SIZE);
    ChunksStore(d, d1, ws);
    MemoryReachesFlash(d, d2, ws, to);
  }

  /** Byte `r` of the sector memory after the first `n` sectors. */
  function Stored(d: Device, ss: seq<seq<u16>>, n: nat, r: nat): byte
    requires n <= |ss|
  {
    if n == 0 then d.ram(TEMP_MEM_ADDR + r)
    else if r < 2 * |ss[n - 1]| then ByteOf(ss[n - 1], r)
    else Stored(d, ss, n - 1, r)
  }

  predicate SectorWritten(d: Device, start: nat, ss: seq<seq<u16>>, e: Device, k: nat, r: nat)
    requires k < |ss|
  {
    WroteByte(d, e, start + k * SECTOR_SIZE + r, Stored(d, ss, k + 1, r))
  }

  /** Memory and flash after the first `n` sectors. */
  ghost predicate AllFlashed(d: Device, start: nat, ss: seq<seq<u16>>, n: nat, e: Device)
    requires n <= |ss|
  {
    && (forall r: nat :: r < SECTOR_SIZE ==> HoldsByte(e, r, Stored(d, ss, n, r)))
    && (forall k: nat, r: nat :: k < n && r < SECTOR_SIZE ==> SectorWritten(d, start, ss, e, k, r))
    && (forall a: nat :: !(start <= a < start + n * SECTOR_SIZE) ==> e.flash(a) == d.flash(a))
  }

  lemma StoredNext(d: Device, ss: seq<seq<u16>>, n: nat, c: Device, r: nat)
    requires n < |ss| && r < SECTOR_SIZE && HoldsByte(c, r, Stored(d, ss, n, r))
    ensures SectorByte(c, ss[n], r) == Stored(d, ss, n + 1, r)
  {
  }

  /** A sector written earlier is not touched by the next one. */
  lemma EarlierKept(d: Device, start: nat, ss: seq<seq<u16>>, n: nat, c: Device, e: Device, k: nat, r: nat)
    requires n < |ss| && k < n && r < SECTOR_SIZE && SectorWritten(d, start, ss, c, k, r)
    requires Flashed(c, ss[n], start + n * SECTOR_SIZE, e)
    ensures SectorWritten(d, start, ss, e, k, r)
  {
    assert (k + 1) * SECTOR_SIZE <= n * SECTOR_SIZE;
    assert e.flash(start + k * SECTOR_SIZE + r) == c.flash(start + k * SECTOR_SIZE + r);
  }

  lemma LatestWritten(d: Device, start: nat, ss: seq<seq<u16>>, n: nat, c: Device, e: Device, r: nat)
    requires n < |ss| && r < SECTOR_SIZE
    requires AllFlashed(d, start, ss, n, c) && Flashed(c, ss[n], start + n * SECTOR_SIZE, e)
    ensures HoldsByte(e, r, Stored(d, ss, n + 1, r)) && SectorWritten(d, start, ss, e, n, r)
  {
    assert HoldsByte(c, r, Stored(d, ss, n, r));
    StoredNext(d, ss, n, c, r);
    assert HoldsByte(e, r, SectorByte(c, ss[n], r));
    assert WroteByte(c, e, start + n * SECTOR_SIZE + r, SectorByte(c, ss[n], r));
    assert c.flash(start + n * SECTOR_SIZE + r) == d.flash(start + n * SECTOR_SIZE + r);
  }

  lemma AllFlashedStep(d: Device, start: nat, ss: seq<seq<u16>>, n: nat, c: Device, e: Device)
    requires n < |ss| && AllFlashed(d, start, ss, n, c) && Flashed(c, ss[n], start + n * SECTOR_SIZE, e)
    ensures AllFlashed(d, start, ss, n + 1, e)
  {
    var m := n + 1;
    forall r: nat | r < SECTOR_SIZE
      ensures HoldsByte(e, r, Stored(d, ss, m, r))
    {
      LatestWritten(d, start, ss, n, c, e, r);
    }
    forall k: nat, r: nat | k < m && r < SECTOR_SIZE
      ensures SectorWritten(d, start, ss, e, k, r)
    {
      if k < n {
        EarlierKept(d, start, ss, n, c, e, k, r);
      } else {
        LatestWritten(d, start, ss, n, c, e, r);
      }
    }
  }

  /** Whatever the device holds, these messages put these words into flash at `to`. */
  ghost predicate Programs(msgs: seq<Msg>, ws: seq<u16>, to: nat) {
    forall c: Device :: Flashed(c, ws, to, Run(c, msgs))
  }

  lemma ProgramsNext(d: Device, start: nat, ss: seq<seq<u16>>, n: nat, c: Device, msgs: seq<Msg>)
    requires n < |ss| && AllFlashed(d, start, ss, n, c) && Programs(msgs, ss[n], start + n * SECTOR_SIZE)
    ensures AllFlashed(d, start, ss, n + 1, Run(c, msgs))
  {
    AllFlashedStep(d, start, ss, n, c, Run(c, msgs));
  }

  lemma RunJoined(d: Device, bs: seq<seq<Msg>>, n: nat)
    requires n < |bs|
    ensures Run(d, Join(bs, n + 1)) == Run(Run(d, Join(bs, n)), bs[n])
  {
    RunAppend(d, Join(bs, n), bs[n]);
  }

  ghost predicate Reaches(d: Device, start: nat, ss: seq<seq<u16>>, bs: seq<seq<Msg>>, n: nat)
    requires n <= |ss| == |bs|
  {
    AllFlashed(d, start, ss, n, Run(d, Join(bs, n)))
  }

  lemma ReachesNext(d: Device, start: nat, ss: seq<seq<u16>>, bs: seq<seq<Msg>>, n: nat)
    requires n < |ss| == |bs| && Reaches(d, start, ss, bs, n) && Programs(bs[n], ss[n], start + n * SECTOR_SIZE)
    ensures Reaches(d, start, ss, bs, n + 1)
  {
    RunJoined(d, bs, n);
    ProgramsNext(d, start, ss, n, Run(d, Join(bs, n)), bs[n]);
  }

  lemma ReachesNone(d: Device, start: nat, ss: seq<seq<u16>>, bs: seq<seq<Msg>>)
    requires |ss| == |bs|
    ensures Reaches(d, start, ss, bs, 0)
  {
  }

  lemma {:induction false} BlocksReachFlash(d: Device, start: nat, ss: seq<seq<u16>>, bs: seq<seq<Msg>>, n: nat)
    requires n <= |ss| == |bs|
    requires forall k: nat :: k < n ==> Programs(bs[k], ss[k], start + k * SECTOR_SIZE)
    ensures Reaches(d, start, ss, bs, n)
    decreases n
  {
    if n == 0 {
      ReachesNone(d, start, ss, bs);
    } else {
      BlocksReachFlash(d, start, ss, bs, n - 1);
      ReachesNext(d, start, ss, bs, n - 1);
    }
  }

  lemma BlocksProgram(start: u32, ss: seq<seq<u16>>)
    requires start + |ss| * SECTOR_SIZE < TWO32
    requires forall k: nat :: k < |ss| ==> |ss[k]| <= SECTOR_WORDS
    ensures forall k: nat :: k < |ss| ==> Programs(Blocks(TEMP_MEM_ADDR, start, ss)[k], ss[k], start + k * SECTOR_SIZE)
  {
    forall k: nat, c: Device | k < |ss|
      ensures Flashed(c, ss[k], start + k * SECTOR_SIZE, Run(c, Blocks(TEMP_MEM_ADDR, start, ss)[k]))
    {
      assert SectorAddress(start, k) == start + k * SECTOR_SIZE;
      SectorReachesFlash(c, ss[k], start + k * SECTOR_SIZE);
    }
  }

  /** What the sector memory still holds at offset `i` behind the image: the byte of the sector
      before, or what was there before the upload. */
  function LeftOver(d: Device, mem: Memory, i: nat): byte {
    if i >= SECTOR_SIZE then mem(i - SECTOR_SIZE) else d.ram(TEMP_MEM_ADDR + i)
  }

  /** The byte that is written to offset `i` of the image's sectors. */
  function WrittenByte(d: Device, mem: Memory, image: nat, i: nat): byte {
    if i < image then mem(i) else LeftOver(d, mem, i)
  }

  /** Every byte of the image's sectors that falls on the chip was written over what was there. */
  ghost predicate Written(d: Device, mem: Memory, image: nat, start: nat, e: Device) {
    forall i: nat :: i < Sectors(image) * SECTOR_SIZE ==> WroteByte(d, e, start + i, WrittenByte(d, mem, image, i))
  }

  lemma SectorLeft(image: nat, sector: nat)
    requires sector * SECTOR_SIZE < image
    ensures sector < Sectors(image)
  {
  }

  lemma ByteInSector(image: nat, k: nat, r: nat)
    requires image % 4 == 0 && r < SECTOR_SIZE && k * SECTOR_SIZE + r < image
    ensures k < Sectors(image) && r < 2 * SectorWords(image, k)
  {
    SectorLeft(image, k);
    HalvesOf(image - k * SECTOR_SIZE);
  }

  lemma HalfOfQuads(quads: nat)
    ensures 4 * quads / 2 == 2 * quads
  {
  }

  lemma LastSectorRest(image: nat, k: nat, r: nat)
    requires image % 4 == 0 && k * SECTOR_SIZE < image <= k * SECTOR_SIZE + r && r < SECTOR_SIZE
    ensures r >= 2 * SectorWords(image, k)
  {
    var quads := image / 4 - k * 1024;
    assert image == 4 * (image / 4);
    assert image - k * SECTOR_SIZE == 4 * quads;
    HalfOfQuads(quads);
  }

  lemma EarlierSectorFull(image: nat, k: nat)
    requires k > 0 && k * SECTOR_SIZE < image
    ensures SectorWords(image, k - 1) == SECTOR_WORDS
  {
    var left := image - (k - 1) * SECTOR_SIZE;
    assert left > SECTOR_SIZE;
    assert left / 2 >= SECTOR_WORDS;
  }

  lemma BehindImage(image: nat, k: nat, r: nat)
    requires image % 4 == 0 && r < SECTOR_SIZE && image <= k * SECTOR_SIZE + r && k < Sectors(image)
    ensures r >= 2 * SectorWords(image, k)
    ensures k > 0 ==> SectorWords(image, k - 1) == SECTOR_WORDS
  {
    SectorBounds(image, k);
    LastSectorRest(image, k, r);
    if k > 0 {
      EarlierSectorFull(image, k);
    }
  }

  lemma StoredIsWritten(d: Device, mem: Memory, image: nat, k: nat, r: nat)
    requires image % 4 == 0 && k < Sectors(image) && r < SECTOR_SIZE
    ensures Stored(d, Cut(mem, image), k + 1, r) == WrittenByte(d, mem, image, k * SECTOR_SIZE + r)
  {
    var ss := Cut(mem, image);
    if k * SECTOR_SIZE + r < image {
      ByteInSector(image, k, r);
      WordsAreBytes(mem, k * SECTOR_SIZE, SectorWords(image, k), r);
    } else {
      BehindImage(image, k, r);
      if k > 0 {
        WordsAreBytes(mem, (k - 1) * SECTOR_SIZE, SECTOR_WORDS, r);
        assert ss[k - 1] == WordsAt(mem, (k - 1) * SECTOR_SIZE, SECTOR_WORDS);
      }
    }
  }

  lemma OffsetParts(i: nat, n: nat)
    requires i < n * SECTOR_SIZE
    ensures i == i / SECTOR_SIZE * SECTOR_SIZE + i % SECTOR_SIZE && i / SECTOR_SIZE < n
  {
  }

  lemma ImageFlashed(d: Device, mem: Memory, image: nat, start: nat, e: Device)
    requires image % 4 == 0
    requires AllFlashed(d, start, Cut(mem, image), Sectors(image), e)
    ensures Written(d, mem, image, start, e)
  {
    forall i: nat | i < Sectors(image) * SECTOR_SIZE
      ensures WroteByte(d, e, start + i, WrittenByte(d, mem, image, i))
    {
      var k, r := i / SECTOR_SIZE, i % SECTOR_SIZE;
      OffsetParts(i, Sectors(image));
      StoredIsWritten(d, mem, image, k, r);
      assert SectorWritten(d, start, Cut(mem, image), e, k, r);
    }
  }

  /** The flash as the erase message leaves it. */
  function Erased(d: Device, image: u32, start: u32): Device {
    Obey(d, EraseMsg(start, image, ERASE_MODE_BLOCK))
  }

  /** The last byte of the chip is never erased. */
  predicate InErase(image: nat, start: nat, a: nat) {
    start <= a < start + image && a < FLASH_CHIP_SIZE - 1
  }

  lemma EraseReaches(d: Device, image: u32, start: u32, a: nat)
    requires start < FLASH_CHIP_SIZE && image <= 0x8000_0000
    ensures Erased(d, image, start).flash(a) == if InErase(image, start, a) then 0xff else d.flash(a)
    ensures Erased(d, image, start).ram == d.ram
  {
    JoinSplit(start);
    JoinSplit(EraseSize(start, image));
  }

  predicate HeldAt(e: Device, mem: Memory, start: nat, i: nat) {
    start + i < FLASH_CHIP_SIZE && e.flash(start + i) == mem(i)
  }

  /** The chip holds the image from `start` on. */
  ghost predicate Held(e: Device, mem: Memory, image: nat, start: nat) {
    forall i: nat :: i < image ==> HeldAt(e, mem, start, i)
  }

  /** The image fits below the chip's last byte, or ends on it and its last byte clears only
      bits that were still set there: the erase stops one byte short of the end. */
  predicate FitsChip(d: Device, mem: Memory, image: nat, start: nat) {
    || image == 0
    || start + image < FLASH_CHIP_SIZE
    || (start + image == FLASH_CHIP_SIZE && And(d.flash(FLASH_CHIP_SIZE - 1), mem(image - 1)) == mem(image - 1))
  }

  lemma SectorsBelow(image: nat)
    ensures image <= Sectors(image) * SECTOR_SIZE < image + SECTOR_SIZE
  {
  }

  lemma UploadWrites(d: Device, mem: Memory, image: u32, start: u32)
    requires image % 4 == 0 && image <= 0x8000_0000 && start < FLASH_CHIP_SIZE
    ensures var c, e := Erased(d, image, start), Run(d, Upload(mem, image, start));
            && Written(c, mem, image, start, e)
            && forall a: nat :: !(start <= a < start + Sectors(image) * SECTOR_SIZE) ==> e.flash(a) == c.flash(a)
  {
    var erase, n, ss := EraseMsg(start, image, ERASE_MODE_BLOCK), Sectors(image), Cut(mem, image);
    var c, bs := Obey(d, erase), Blocks(TEMP_MEM_ADDR, start, ss);
    RunOne(d, erase);
    RunAppend(d, [erase], Join(bs, n));
    SectorsBelow(image);
    BlocksProgram(start, ss);
    BlocksReachFlash(c, start, ss, bs, n);
    ImageFlashed(c, mem, image, start, Run(c, Join(bs, n)));
  }

  lemma ImageByteWritten(c: Device, mem: Memory, image: nat, start: nat, e: Device, i: nat)
    requires Written(c, mem, image, start, e) && i < image
    ensures WroteByte(c, e, start + i, mem(i))
  {
    SectorsBelow(image);
    assert WroteByte(c, e, start + i, WrittenByte(c, mem, image, i));
  }

  lemma ByteOverErased(d: Device, c: Device, e: Device, a: nat, erased: bool, b: byte)
    requires WroteByte(c, e, a, b) && c.flash(a) == if erased then 0xff else d.flash(a)
    ensures a < FLASH_CHIP_SIZE ==> e.flash(a) == if erased then b else And(d.flash(a), b)
  {
    ErasedTakes(b);
  }

  /** One byte of the image after the upload. */
  lemma ByteAfter(d: Device, mem: Memory, image: u32, start: u32, e: Device, i: nat)
    requires image <= 0x8000_0000 && start < FLASH_CHIP_SIZE && Written(Erased(d, image, start), mem, image, start, e)
    requires i < image
    ensures start + i < FLASH_CHIP_SIZE - 1 ==> HeldAt(e, mem, start, i)
    ensures start + i == FLASH_CHIP_SIZE - 1 ==> e.flash(start + i) == And(d.flash(start + i), mem(i))
  {
    EraseReaches(d, image, start, start + i);
    ImageByteWritten(Erased(d, image, start), mem, image, start, e, i);
    ByteOverErased(d, Erased(d, image, start), e, start + i, InErase(image, start, start + i), mem(i));
  }

  lemma HeldExactly(d: Device, mem: Memory, image: u32, start: u32, e: Device)
    requires image <= 0x8000_0000 && start < FLASH_CHIP_SIZE && Written(Erased(d, image, start), mem, image, start, e)
    ensures Held(e, mem, image, start) <==> FitsChip(d, mem, image, start)
  {
    if start + image > FLASH_CHIP_SIZE {
      assert !HeldAt(e, mem, start, image - 1);
    } else {
      forall i: nat | i < image
        ensures start + i < FLASH_CHIP_SIZE - 1 ==> HeldAt(e, mem, start, i)
        ensures start + i == FLASH_CHIP_SIZE - 1 ==> e.flash(start + i) == And(d.flash(start + i), mem(i))
      {
        ByteAfter(d, mem, image, start, e, i);
      }
      if image > 0 && Held(e, mem, image, start) {
        assert HeldAt(e, mem, start, image - 1);
      }
    }
  }

  /** Behind the image its last sector is not erased, and what is left in the sector memory is
      and-ed into it. */
  ghost predicate Littered(d: Device, mem: Memory, image: nat, start: nat, e: Device) {
    forall i: nat :: image <= i < Sectors(image) * SECTOR_SIZE ==>
      WroteByte(d, e, start + i, LeftOver(d, mem, i))
  }

  lemma BehindLittered(d: Device, mem: Memory, image: u32, start: u32, e: Device)
    requires image <= 0x8000_0000 && start < FLASH_CHIP_SIZE && Written(Erased(d, image, start), mem, image, start, e)
    ensures Littered(d, mem, image, start, e)
  {
    forall i: nat | image <= i < Sectors(image) * SECTOR_SIZE
      ensures WroteByte(d, e, start + i, LeftOver(d, mem, i))
    {
      EraseReaches(d, image, start, start + i);
      assert WroteByte(Erased(d, image, start), e, start + i, WrittenByte(Erased(d, image, start), mem, image, i));
    }
  }

  lemma OutsideKept(d: Device, image: u32, start: u32, e: Device)
    requires image <= 0x8000_0000 && start < FLASH_CHIP_SIZE
    requires forall a: nat :: !(start <= a < start + Sectors(image) * SECTOR_SIZE) ==>
               e.flash(a) == Erased(d, image, start).flash(a)
    ensures forall a: nat :: !(start <= a < start + Sectors(image) * SECTOR_SIZE) ==> e.flash(a) == d.flash(a)
  {
    SectorsBelow(image);
    forall a: nat | !(start <= a < start + Sectors(image) * SECTOR_SIZE)
      ensures e.flash(a) == d.flash(a)
    {
      EraseReaches(d, image, start, a);
    }
  }

  lemma OffChip(d: Device, mem: Memory, image: nat, start: nat, e: Device)
    requires start >= FLASH_CHIP_SIZE
    ensures Held(e, mem, image, start) <==> FitsChip(d, mem, image, start)
  {
    if image > 0 {
      assert !HeldAt(e, mem, start, 0);
    }
  }

  /** End to end, for every image and address: after the upload the chip holds the padded image
      exactly when it fits.  When `start` is on the chip, the rest of the image's last sector is
      and-ed with what the sector memory held, and nothing outside its sectors has changed. */
  lemma UploadProgramsImage(d: Device, mem: Memory, image: u32, start: u32)
    requires image % 4 == 0 && image <= 0x8000_0000
    ensures var e := Run(d, Upload(mem, image, start));
            && (Held(e, mem, image, start) <==> FitsChip(d, mem, image, start))
            && (start < FLASH_CHIP_SIZE ==>
                  && Littered(d, mem, image, start, e)
                  && forall a: nat :: !(start <= a < start + Sectors(image) * SECTOR_SIZE) ==> e.flash(a) == d.flash(a))
  {
    var e := Run(d, Upload(mem, image, start));
    if start < FLASH_CHIP_SIZE {
      UploadWrites(d, mem, image, start);
      BehindLittered(d, mem, image, start, e);
      OutsideKept(d, image, start, e);
      HeldExactly(d, mem, image, start, e);
    } else {
      OffChip(d, mem, image, start, e);
    }
  }

  /** Four bytes uploaded to the end of a chip that is zero there: the last byte is lost. */
  lemma LastByteIsLost(d: Device, mem: Memory)
    requires d.flash(FLASH_CHIP_SIZE - 1) == 0 && mem(3) != 0
    ensures !Held(Run(d, Upload(mem, 4, FLASH_CHIP_SIZE - 4)), mem, 4, FLASH_CHIP_SIZE - 4)
  {
    UploadProgramsImage(d, mem, 4, FLASH_CHIP_SIZE - 4);
  }

  // ---- The upload over the mailbox

  /** The i-th command was serviced: the status word its wait ended with is its own. */
  ghost predicate ServicedAt(ws: seq<World>, ts: seq<Txn>, i: nat)
    requires IsRun(ws, ts) && i < |ts|
  {
    Outcome(ws[i], ts[i]).phy.owner == ws[i].sent
  }

  /** Which of the commands of a run were serviced. */
  ghost function Receipts(ws: seq<World>, ts: seq<Txn>): (r: seq<bool>)
    requires IsRun(ws, ts)
  {
    seq(|ts|, i requires 0 <= i < |ts| => ServicedAt(ws, ts, i))
  }

  /** The device after the first `n` commands: it obeys the messages whose commands it
      serviced. */
  function Served(receipts: seq<bool>, msgs: seq<Msg>, d: Device, n: nat): Device
    requires n <= |receipts| == |msgs|
    decreases n
  {
    if n == 0 then d
    else
      var e := Served(receipts, msgs, d, n - 1);
      if receipts[n - 1] then Obey(e, msgs[n - 1]) else e
  }

  /** The transactions send these messages to PHY `p`, and every wait leaves by its guard. */
  ghost predicate Sends(ws: seq<World>, ts: seq<Txn>, p: nat, msgs: seq<Msg>)
    requires IsRun(ws, ts)
  {
    && |ts| == |msgs|
    && forall i :: 0 <= i < |ts| ==>
         ts[i].phy == p && ts[i].opcode == msgs[i].opcode && ts[i].size == msgs[i].size
         && Outcome(ws[i], ts[i]).exit == ByGuard
  }

  ghost predicate InStep(w: World, p: nat) {
    p < |w.phys| && Numbered(w) && Aligned(w, p)
  }

  /** From a world that is in step on, every command is serviced. */
  lemma {:induction false} StaysInStep(ws: seq<World>, ts: seq<Txn>, p: nat, msgs: seq<Msg>, m: nat, n: nat)
    requires IsRun(ws, ts) && Sends(ws, ts, p, msgs) && m <= n <= |ts| && InStep(ws[m], p)
    ensures InStep(ws[n], p)
    ensures forall i: nat :: m <= i < n ==> ServicedAt(ws, ts, i)
    decreases n
  {
    if n > m {
      StaysInStep(ws, ts, p, msgs, m, n - 1);
      TransactFresh(ws[n - 1], ts[n - 1]);
    }
  }

  lemma RunOneMore(d: Device, msgs: seq<Msg>, m: nat, n: nat)
    requires m < n <= |msgs|
    ensures Run(d, msgs[m..n]) == Obey(Run(d, msgs[m..n - 1]), msgs[n - 1])
  {
    assert msgs[m..n] == msgs[m..n - 1] + [msgs[n - 1]];
    RunAppend(d, msgs[m..n - 1], [msgs[n - 1]]);
    RunOne(Run(d, msgs[m..n - 1]), msgs[n - 1]);
  }

  lemma {:induction false} ServedInOrder(receipts: seq<bool>, msgs: seq<Msg>, d: Device, m: nat, n: nat)
    requires m <= n <= |receipts| == |msgs|
    requires forall i: nat :: m <= i < n ==> receipts[i]
    ensures Served(receipts, msgs, d, n) == Run(Served(receipts, msgs, d, m), msgs[m..n])
    decreases n
  {
    if n == m {
      assert msgs[m..m] == [];
    } else {
      ServedInOrder(receipts, msgs, d, m, n - 1);
      RunOneMore(Served(receipts, msgs, d, m), msgs, m, n);
    }
  }

  /** When every wait leaves by its guard, the device obeys all messages in order if the host
      was in step at the start, and all but the first if it was not. */
  lemma ServedExactly(ws: seq<World>, ts: seq<Txn>, p: nat, msgs: seq<Msg>, d: Device)
    requires IsRun(ws, ts) && Sends(ws, ts, p, msgs) && |msgs| > 0
    requires p < |ws[0].phys| && Numbered(ws[0])
    ensures Served(Receipts(ws, ts), msgs, d, |ts|) == Run(d, if Aligned(ws[0], p) then msgs else msgs[1..])
  {
    var r := Receipts(ws, ts);
    if Aligned(ws[0], p) {
      StaysInStep(ws, ts, p, msgs, 0, |ts|);
      ServedInOrder(r, msgs, d, 0, |ts|);
      assert msgs[0..|ts|] == msgs;
    } else {
      MisalignedCommandIsLost(ws[0], ts[0]);
      LossRealigns(ws[0], ts[0]);
      assert !r[0] && Served(r, msgs, d, 1) == d;
      StaysInStep(ws, ts, p, msgs, 1, |ts|);
      ServedInOrder(r, msgs, d, 1, |ts|);
      assert msgs[1..|ts|] == msgs[1..];
    }
  }

  lemma BlobHeld(e: Device, fw: seq<byte>, behind: Memory, start: nat)
    requires Held(e, Loaded(fw, behind), ImageSize(|fw|), start)
    ensures forall i: nat :: i < |fw| ==> e.flash(start + i) == fw[i]
  {
    ImageSizeIs(|fw|);
    forall i: nat | i < |fw|
      ensures e.flash(start + i) == fw[i]
    {
      assert HeldAt(e, Loaded(fw, behind), start, i);
    }
  }

  lemma BlobProgrammed(d: Device, fw: seq<byte>, behind: Memory, start: u32)
    requires |fw| < 0x8000_0000 && ImageSize(|fw|) < TWO32
    ensures var mem, image := Loaded(fw, behind), ImageSize(|fw|);
            var e := Run(d, Upload(mem, image, start));
            && (Held(e, mem, image, start) <==> FitsChip(d, mem, image, start))
            && (FitsChip(d, mem, image, start) ==> forall i: nat :: i < |fw| ==> e.flash(start + i) == fw[i])
  {
    var mem, image := Loaded(fw, behind), ImageSize(|fw|);
    ImageSizeIs(|fw|);
    UploadProgramsImage(d, mem, image, start);
    if FitsChip(d, mem, image, start) {
      BlobHeld(Run(d, Upload(mem, image, start)), fw, behind, start);
    }
  }

  /** Configuration messages touch neither memory nor flash. */
  lemma {:induction false} ConfigurationIgnored(d: Device, msgs: seq<Msg>)
    requires forall m :: m in msgs ==> m.opcode == CMD_CFG_PARAM
    ensures Run(d, msgs) == d
    decreases |msgs|
  {
    if msgs != [] {
      assert msgs[0] in msgs && Obey(d, msgs[0]) == d;
      ConfigurationIgnored(d, msgs[1..]);
    }
  }

  /** What is left of configuration messages and an upload, with or without the first of them,
      does what the upload does. */
  lemma LeadingMessagesAbsorb(d: Device, leading: seq<Msg>, upload: seq<Msg>, all: seq<Msg>)
    requires |leading| > 0 && forall m :: m in leading ==> m.opcode == CMD_CFG_PARAM
    requires all == leading + upload
    ensures Run(d, all) == Run(d, all[1..]) == Run(d, upload)
  {
    ConfigurationIgnored(d, leading);
    ConfigurationIgnored(d, leading[1..]);
    RunAppend(d, leading, upload);
    RunAppend(d, leading[1..], upload);
    assert all[1..] == leading[1..] + upload;
  }

  /** All messages of an update. */
  function Update(mem: Memory, image: u32, start: u32): seq<Msg> {
    Pauses() + Upload(mem, image, start)
  }

  /** Whether or not the host was in step, the device ends as the upload alone leaves it. */
  lemma ServedAfterLeading(ws: seq<World>, ts: seq<Txn>, p: nat, leading: seq<Msg>, upload: seq<Msg>, d: Device)
    requires |leading| > 0 && forall m :: m in leading ==> m.opcode == CMD_CFG_PARAM
    requires IsRun(ws, ts) && Sends(ws, ts, p, leading + upload)
    requires p < |ws[0].phys| && Numbered(ws[0])
    ensures Served(Receipts(ws, ts), leading + upload, d, |ts|) == Run(d, upload)
  {
    ServedExactly(ws, ts, p, leading + upload, d);
    LeadingMessagesAbsorb(d, leading, upload, leading + upload);
  }

  lemma UpdateIs(before: seq<Msg>, mem: Memory, image: u32, start: u32)
    ensures before + Pauses() + Upload(mem, image, start) == before + Update(mem, image, start)
  {
  }

  /** The whole path, from any state of host and device, in step or not, for a blob of any size
      and whatever lies behind it: an update whose waits end by their guards leaves the padded
      blob in flash exactly when it fits the chip.  Out of step, what is lost is a pause. */
  lemma UploadOverMailbox(ws: seq<World>, ts: seq<Txn>, p: nat, d: Device, fw: seq<byte>, behind: Memory, start: u32)
    requires |fw| < 0x8000_0000 && ImageSize(|fw|) < TWO32
    requires IsRun(ws, ts) && Sends(ws, ts, p, Update(Loaded(fw, behind), ImageSize(|fw|), start))
    requires p < |ws[0].phys| && Numbered(ws[0])
    ensures var mem, image := Loaded(fw, behind), ImageSize(|fw|);
            var e := Served(Receipts(ws, ts), Update(mem, image, start), d, |ts|);
            && (Held(e, mem, image, start) <==> FitsChip(d, mem, image, start))
            && (FitsChip(d, mem, image, start) ==> forall i: nat :: i < |fw| ==> e.flash(start + i) == fw[i])
  {
    var mem, image := Loaded(fw, behind), ImageSize(|fw|);
    ServedAfterLeading(ws, ts, p, Pauses(), Upload(mem, image, start), d);
    BlobProgrammed(d, fw, behind, start);
  }

  // ---- The host's code

  datatype Width = BW8 | BW16 | BW32

  function Clip(len: nat): nat {
    if len >= 8 then 8 else len
  }

  function SentAfter(before: seq<Msg>, bs: seq<seq<Msg>>, n: nat): seq<Msg>
    requires n <= |bs|
  {
    before + Join(bs, n)
  }

  lemma SentNext(before: seq<Msg>, bs: seq<seq<Msg>>, n: nat)
    requires n < |bs|
    ensures SentAfter(before, bs, n) + bs[n] == SentAfter(before, bs, n + 1)
  {
  }

  /** The messages that each sector of the image asks for. */
  ghost predicate Planned(mem: Memory, image: nat, start: u32, bs: seq<seq<Msg>>) {
    && |bs| == Sectors(image)
    && bs == Blocks(TEMP_MEM_ADDR, start, Cut(mem, image))
  }

  /** The messages that one sector asks for. */
  ghost predicate Asks(mem: Memory, image: nat, start: u32, k: nat, msgs: seq<Msg>) {
    msgs == SectorMsgs(TEMP_MEM_ADDR, WordsAt(mem, k * SECTOR_SIZE, SectorWords(image, k)), SectorAddress(start, k))
  }

  lemma PlannedAsks(mem: Memory, image: nat, start: u32, bs: seq<seq<Msg>>, k: nat)
    requires Planned(mem, image, start, bs) && k < |bs|
    ensures Asks(mem, image, start, k, bs[k])
  {
  }

  /** The sector buffer read as 16-bit words. */
  function BufferWords(buf: seq<byte>): (ws: seq<u16>)
    requires |buf| == SECTOR_SIZE
  {
    seq(SECTOR_WORDS, i requires 0 <= i < SECTOR_WORDS => LittleEndian(buf[2 * i], buf[2 * i + 1]))
  }

  lemma BufferIsMemory(mem: Memory, ofst: nat, buf: seq<byte>)
    requires |buf| == SECTOR_SIZE && forall i: nat :: i < SECTOR_SIZE ==> buf[i] == mem(ofst + i)
    ensures BufferWords(buf) == WordsAt(mem, ofst, SECTOR_WORDS)
  {
    forall i: nat | i < SECTOR_WORDS
      ensures BufferWords(buf)[i] == WordsAt(mem, ofst, SECTOR_WORDS)[i]
    {
      assert buf[2 * i] == mem(ofst + 2 * i) && buf[2 * i + 1] == mem(ofst + 2 * i + 1);
    }
  }

  lemma WordsPrefix(mem: Memory, from: nat, total: nat, count: nat)
    requires total <= count
    ensures WordsAt(mem, from, count)[..total] == WordsAt(mem, from, total)
  {
  }

  lemma SectorWordsFit(image: nat, k: nat)
    ensures SectorWords(image, k) <= SECTOR_WORDS
  {
  }

  lemma BufferAsks(mem: Memory, image: nat, start: u32, k: nat, buf: seq<byte>, msgs: seq<Msg>)
    requires Asks(mem, image, start, k, msgs)
    requires |buf| == SECTOR_SIZE && forall i: nat :: i < SECTOR_SIZE ==> buf[i] == mem(k * SECTOR_SIZE + i)
    ensures SectorWords(image, k) <= SECTOR_WORDS
    ensures msgs == SectorMsgs(TEMP_MEM_ADDR, BufferWords(buf)[..SectorWords(image, k)], SectorAddress(start, k))
  {
    SectorWordsFit(image, k);
    BufferIsMemory(mem, k * SECTOR_SIZE, buf);
    WordsPrefix(mem, k * SECTOR_SIZE, SectorWords(image, k), SECTOR_WORDS);
  }

  lemma UploadIs(before: seq<Msg>, mem: Memory, image: u32, start: u32, bs: seq<seq<Msg>>)
    requires Planned(mem, image, start, bs)
    ensures before + [EraseMsg(start, image, ERASE_MODE_BLOCK)] + Join(bs, |bs|) == before + Upload(mem, image, start)
  {
  }

  lemma FirstReplaced(first: seq<u16>, regs: seq<u16>, front: u16, data: seq<u16>, n: nat)
    requires |first| == |regs| && 1 <= n <= |regs| && n <= |data| + 1
    requires first[..n] == ([front] + data)[..n] && regs[..1] == [CFG_DIRECT][..1] && regs[1..] == first[1..]
    ensures regs[..n] == ([CFG_DIRECT] + data)[..n]
  {
    forall k: nat | k < n
      ensures regs[k] == ([CFG_DIRECT] + data)[k]
    {
      assert regs[..1][0] == regs[0];
      assert k > 0 ==> regs[k] == regs[1..][k - 1] == first[1..][k - 1] == first[..n][k];
    }
  }

  lemma CfgClipped(data: seq<u16>, len: nat)
    requires len <= |data|
    ensures CfgMsg(data[..len]).data == ([CFG_DIRECT] + data)[..Clip(len + 1)]
  {
    assert ([CFG_DIRECT] + data[..len])[..Clip(len + 1)] == ([CFG_DIRECT] + data)[..Clip(len + 1)];
    assert [CFG_DIRECT] + data[..len] == ([CFG_DIRECT] + data)[..len + 1];
  }

  /** The number of 16-bit words that `size` elements fill. */
  function InWords(width: Width, size: u16): u16 {
    match width
    case BW8 => (size + 1) / 2
    case BW16 => size
    case BW32 => size * 2 % TWO16
  }

  function WithChunks(sent: seq<Msg>, words: seq<u16>, from: nat, to: nat): seq<Msg>
    requires from <= to <= |words|
  {
    sent + Chunks(words[from..to])
  }

  lemma NoChunksLeft(sent: seq<Msg>, words: seq<u16>, to: nat)
    requires to <= |words|
    ensures WithChunks(sent, words, to, to) == sent
  {
    assert words[to..to] == [];
  }

  lemma ChunksUnfold(sent: seq<Msg>, words: seq<u16>, from: nat, to: nat)
    requires from < to <= |words|
    ensures var next := if to - from > 8 then from + 8 else to;
            WithChunks(sent, words, from, to)
            == WithChunks(sent + [BulkDataMsg(words[from..][..next - from])], words, next, to)
  {
    var rest := words[from..to];
    if to - from > 8 {
      assert rest[..8] == words[from..][..8] && rest[8..] == words[from + 8..to];
    } else {
      assert rest == words[from..][..to - from];
      NoChunksLeft(sent + [BulkDataMsg(rest)], words, to);
    }
  }

  lemma NoSectorLeft(image: nat, sector: nat)
    requires sector <= Sectors(image) && image <= sector * SECTOR_SIZE
    ensures sector == Sectors(image)
  {
  }

  // ---- On the wire

  /** The pauses as words: direct sub-command 4, control 1, paused 2, the state machine, mode 0. */
  predicate PausesFrom(sent: seq<Msg>, n: nat) {
    && |sent| >= n + 5
    && sent[n] == Msg(0x1a, 10, [4, 1, 2, 0x81, 0])
    && sent[n + 1] == Msg(0x1a, 10, [4, 1, 2, 0x8c, 0])
    && sent[n + 2] == Msg(0x1a, 10, [4, 1, 2, 0x8d, 0])
    && sent[n + 3] == Msg(0x1a, 10, [4, 1, 2, 0x8e, 0])
    && sent[n + 4] == Msg(0x1a, 10, [4, 1, 2, 0x91, 0])
  }

  lemma PauseIs(fsm: u16)
    ensures PauseMsg(fsm) == Msg(0x1a, 10, [4, 1, 2, fsm, 0])
  {
    CfgExactly([CFG_NG_PHYCTRL, PHYCTRL_PAUSED, fsm, 0]);
  }

  lemma PausesAre(before: seq<Msg>)
    ensures |Pauses()| == 5 && PausesFrom(before + Pauses(), |before|)
  {
    PauseIs(0x81);
    PauseIs(0x8c);
    PauseIs(0x8d);
    PauseIs(0x8e);
    PauseIs(0x91);
  }

  lemma PausesStay(lead: seq<Msg>, up: seq<Msg>, n: nat)
    requires PausesFrom(lead, n)
    ensures PausesFrom(lead + up, n)
  {
  }

  /** The erase message as words: where, how much (cut off one byte before the end of the chip),
      and the block mode. */
  predicate EraseFrom(sent: seq<Msg>, n: nat, addr: u32, size: nat) {
    var cut := if (addr + size) % 0x1_0000_0000 < 0x20_0000 then size else (0x1f_ffff - addr) % 0x1_0000_0000;
    && n < |sent| && sent[n].opcode == 0xf && sent[n].size == 10
    && sent[n].data == [addr % 0x1_0000, addr / 0x1_0000, cut % 0x1_0000, cut / 0x1_0000, 2]
  }

  lemma EraseIs(lead: seq<Msg>, up: seq<Msg>, addr: u32, size: u32)
    requires |up| > 0 && up[0] == EraseMsg(addr, size, ERASE_MODE_BLOCK)
    ensures EraseFrom(lead + up, |lead|, addr, size)
  {
    assert (lead + up)[|lead|] == up[0];
  }

  /** The messages of a sector as words: 4096 bytes announced at 0x33e000, the data, and 4096
      bytes from there written to flash. */
  predicate SectorFrom(sent: seq<Msg>, n: nat, words: nat, flash: u32) {
    var last := n + 1 + (words + 7) / 8;
    && |sent| == last + 1
    && sent[n] == Msg(0xc, 8, [0xe000, 0x33, 0x1000, 0])
    && (forall i: nat :: n < i < last ==> sent[i].opcode == 0xa && sent[i].size == 2 * |sent[i].data| <= 16)
    && sent[last] == Msg(0xe, 10, [flash % 0x1_0000, flash / 0x1_0000, 0xe000, 0x33, 0x1000])
  }

  lemma SectorIs(before: seq<Msg>, ws: seq<u16>, to: u32)
    ensures SectorFrom(before + SectorMsgs(TEMP_MEM_ADDR, ws, to), |before|, |ws|, to)
  {
    var msgs, chunks, n := SectorMsgs(TEMP_MEM_ADDR, ws, to), Chunks(ws), |before|;
    var sent := before + msgs;
    ChunksCarryWords(ws);
    var last := n + 1 + |chunks|;
    assert sent[n] == msgs[0] && sent[last] == msgs[1 + |chunks|];
    forall i: nat | n < i < last
      ensures sent[i].opcode == 0xa && sent[i].size == 2 * |sent[i].data| <= 16
    {
      var j := i - n - 1;
      assert sent[i] == msgs[1 + j] == chunks[j];
      assert WellCut(chunks[j]);
    }
  }

  lemma UploadHead(mem: Memory, image: u32, start: u32)
    ensures |Upload(mem, image, start)| > 0 && Upload(mem, image, start)[0] == EraseMsg(start, image, ERASE_MODE_BLOCK)
  {
  }

  lemma UpdateStarts(before: seq<Msg>, sent: seq<Msg>, mem: Memory, image: u32, start: u32)
    requires sent == before + Pauses() + Upload(mem, image, start)
    ensures PausesFrom(sent, |before|) && EraseFrom(sent, |before| + 5, start, image)
  {
    PausesAre(before);
    PausesStay(before + Pauses(), Upload(mem, image, start), |before|);
    UploadHead(mem, image, start);
    EraseIs(before + Pauses(), Upload(mem, image, start), start, image);
  }

  class Uploader {
    var dataRegs: seq<u16>
    var sent: seq<Msg>
    var readEnd: nat    // one past the last byte copied out of the firmware's data

    constructor ()
      ensures Valid() && sent == []
    {
      dataRegs, sent, readEnd := [0, 0, 0, 0, 0, 0, 0, 0], [], 0;
    }

    predicate Valid()
      reads this
    {
      |dataRegs| == 8
    }

    method SetDataRegs(len: nat, val: seq<u16>)
      requires Valid() && Clip(len) <= |val|
      modifies this`dataRegs
      ensures Valid() && dataRegs[..Clip(len)] == val[..Clip(len)]
      ensures dataRegs[Clip(len)..] == old(dataRegs)[Clip(len)..]
    {
      var n := len;
      if n >= 8 {
        n := 8;
      }
      for i := 0 to n
        invariant Valid() && dataRegs[..i] == val[..i] && dataRegs[i..] == old(dataRegs)[i..]
      {
        dataRegs := dataRegs[i := val[i]];
      }
    }

    /** aeon_send_ipc_msg: the data registers, then the command word. */
    method SendMsg(len: nat, val: seq<u16>, opcode: bits6, size: nat)
      requires Valid() && Clip(len) <= |val|
      modifies this`sent, this`dataRegs
      ensures Valid() && sent == old(sent) + [Msg(opcode, size % 32, val[..Clip(len)])]
    {
      SetDataRegs(len, val);
      sent := sent + [Msg(opcode, size % 32, dataRegs[..Clip(len)])];
    }

    method SendBulkWrite(addr: u32, size: u32)
      requires Valid()
      modifies this`sent, this`dataRegs
      ensures Valid() && sent == old(sent) + [BulkWriteMsg(addr, size)]
    {
      var msg := [Lo(addr), Hi(addr), Lo(size), Hi(size)];
      assert msg[..4] == msg;
      SendMsg(4, msg, CMD_BULK_WRITE, 8);
    }

    /** aeon_ipc_send_bulk_data: `size` counts elements of the given width. */
    method SendBulkData(width: Width, size: u16, data: seq<u16>)
      requires Valid() && Clip(InWords(width, size)) <= |data|
      modifies this`sent, this`dataRegs
      ensures Valid()
      ensures var n := InWords(width, size);
              && sent == old(sent) + [Msg(CMD_BULK_DATA, 2 * n % 32, data[..Clip(n)])]
              && (n <= 8 ==> sent == old(sent) + [BulkDataMsg(data[..n])])
    {
      var n := size;
      match width {
        case BW8 => n := (size + 1) / 2;
        case BW32 => n := size * 2 % TWO16;
        case BW16 =>
      }
      SendMsg(n, data, CMD_BULK_DATA, n * 2);
      if n <= 8 {
        BulkDataExactly(data[..n]);
      }
    }

    /** aeon_ipc_cfg_param_direct writes the registers from the word in front of the caller's
        data on, then overwrites the first with the sub-command, so that word is never sent. */
    method CfgParamDirect(len: nat, front: u16, data: seq<u16>)
      requires Valid() && Clip(len + 1) <= |data| + 1
      modifies this`sent, this`dataRegs
      ensures Valid()
      ensures sent == old(sent) + [Msg(CMD_CFG_PARAM, 2 * (len + 1) % 32, ([CFG_DIRECT] + data)[..Clip(len + 1)])]
      ensures len <= |data| ==> sent == old(sent) + [CfgMsg(data[..len])]
    {
      SetDataRegs(len + 1, [front] + data);
      ghost var first := dataRegs;
      SetDataRegs(1, [CFG_DIRECT]);
      FirstReplaced(first, dataRegs, front, data, Clip(len + 1));
      sent := sent + [Msg(CMD_CFG_PARAM, 2 * (len + 1) % 32, dataRegs[..Clip(len + 1)])];
      if len <= |data| {
        CfgClipped(data, len);
      }
    }

    method WriteFlash(flash: u32, mem: u32, size: u16)
      requires Valid()
      modifies this`sent, this`dataRegs
      ensures Valid() && sent == old(sent) + [FlashWriteMsg(flash, mem, size)]
    {
      var cfg := [Lo(flash), Hi(flash), Lo(mem), Hi(mem), size];
      assert cfg[..5] == cfg;
      SendMsg(5, cfg, CMD_FLASH_WRITE, 10);
    }

    method EraseFlash(addr: u32, size: u32, mode: u16)
      requires Valid()
      modifies this`sent, this`dataRegs
      ensures Valid() && sent == old(sent) + [EraseMsg(addr, size, mode)]
    {
      var n: u32 := size;
      if (addr + n) % TWO32 >= FLASH_CHIP_SIZE {
        n := (FLASH_CHIP_SIZE - addr - 1) % TWO32;
      }
      var cfg := [Lo(addr), Hi(addr), Lo(n), Hi(n), mode];
      assert cfg[..5] == cfg;
      SendMsg(5, cfg, CMD_FLASH_ERASE, 10);
    }

    /** The inner loop of aeon_update_flash: the first `total` words of the buffer. */
    method SendChunks(words: seq<u16>, total: nat)
      requires Valid() && total <= |words| && total < TWO16
      modifies this`sent, this`dataRegs
      ensures Valid() && sent == old(sent) + Chunks(words[..total])
    {
      var dlen := 0;
      ghost var target := WithChunks(sent, words, 0, total);
      while dlen < total
        invariant Valid() && 0 <= dlen <= total
        invariant WithChunks(sent, words, dlen, total) == target
      {
        ChunksUnfold(sent, words, dlen, total);
        if total - dlen > 8 {
          SendBulkData(BW16, 8, words[dlen..]);
          dlen := dlen + 8;
        } else if total - dlen > 0 {
          SendBulkData(BW16, total - dlen, words[dlen..]);
          dlen := total;
        }
      }
      NoChunksLeft(sent, words, total);
      assert words[0..total] == words[..total];
    }

    /** aeon_ipc_set_fsm_mode; `front` is the word in front of its array. */
    method SetFsmMode(fsm: u16, mode: u16, front: u16)
      requires Valid()
      modifies this`sent, this`dataRegs
      ensures Valid() && sent == old(sent) + [CfgMsg([CFG_NG_PHYCTRL, PHYCTRL_PAUSED, fsm, mode])]
    {
      var data := [CFG_NG_PHYCTRL, PHYCTRL_PAUSED, fsm, mode];
      assert data[..4] == data;
      CfgParamDirect(4, front, data);
    }

    method PauseAll(front: u16)
      requires Valid()
      modifies this`sent, this`dataRegs
      ensures Valid() && sent == old(sent) + Pauses()
    {
      SetFsmMode(0x81, 0, front);
      SetFsmMode(0x8c, 0, front);
      SetFsmMode(0x8d, 0, front);
      SetFsmMode(0x8e, 0, front);
      SetFsmMode(0x91, 0, front);
    }

    /** aeon_update_flash: `loaded` says whether the firmware file could be read, `mem` is the
        memory from its first byte.  The firmware loader gives out less than 2^31 bytes. */
    method UpdateFlash(front: u16, loaded: bool, mem: Memory, size: nat, start: u32)
      requires Valid() && (loaded ==> size < 0x8000_0000)
      modifies this
      ensures Valid()
      ensures PausesFrom(sent, |old(sent)|)
      ensures !loaded ==> |sent| == |old(sent)| + 5 && sent[..|old(sent)|] == old(sent) && readEnd == old(readEnd)
      ensures loaded ==> EraseFrom(sent, |old(sent)| + 5, start, (size + 3) / 4 * 4)
      ensures loaded ==> readEnd == BytesRead(size)
      ensures loaded ==> ImageSize(size) < TWO32 && sent == old(sent) + Update(mem, ImageSize(size), start)
    {
      ghost var before := sent;
      PauseAll(front);
      PausesAre(before);
      if loaded {
        SendImage(mem, size, start);
        UpdateStarts(before, sent, mem, ImageSize(size), start);
        UpdateIs(before, mem, ImageSize(size), start);
      }
    }

    method SendImage(mem: Memory, size: nat, start: u32)
      requires Valid() && size < 0x8000_0000
      modifies this
      ensures Valid() && readEnd == BytesRead(size)
      ensures ImageSize(size) < TWO32 && sent == old(sent) + Upload(mem, ImageSize(size), start)
    {
      ImageSizeIs(size);
      var imageSize := (size + 3) / 4 * 4;
      ghost var before, bs := sent, Blocks(TEMP_MEM_ADDR, start, Cut(mem, imageSize));
      EraseFlash(start, imageSize, ERASE_MODE_BLOCK);
      readEnd := 0;
      SendSectors(mem, imageSize, start, bs);
      UploadIs(before, mem, imageSize, start, bs);
    }

    method SendSectors(mem: Memory, imageSize: u32, start: u32, ghost bs: seq<seq<Msg>>)
      requires Valid() && Planned(mem, imageSize, start, bs) && readEnd == 0
      modifies this
      ensures Valid() && sent == old(sent) + Join(bs, |bs|) && readEnd == |bs| * SECTOR_SIZE
    {
      var sector := 0;
      ghost var before := sent;
      while sector * SECTOR_SIZE < imageSize
        invariant Valid() && 0 <= sector <= |bs| && readEnd == sector * SECTOR_SIZE
        invariant sent == SentAfter(before, bs, sector)
        decreases |bs| - sector
      {
        SectorLeft(imageSize, sector);
        PlannedAsks(mem, imageSize, start, bs, sector);
        UploadSector(mem, imageSize, start, sector, bs[sector]);
        SentNext(before, bs, sector);
        sector := sector + 1;
      }
      NoSectorLeft(imageSize, sector);
    }

    /** memcpy of one sector out of the firmware's data. */
    method CopySector(mem: Memory, ofst: nat) returns (buf: seq<byte>)
      modifies this`readEnd
      ensures |buf| == SECTOR_SIZE && (forall i: nat :: i < SECTOR_SIZE ==> buf[i] == mem(ofst + i))
      ensures readEnd == ofst + SECTOR_SIZE
    {
      buf := seq(SECTOR_SIZE, i requires i >= 0 => mem(ofst + i));
      readEnd := ofst + SECTOR_SIZE;
    }

    /** One round of the sector loop. */
    method UploadSector(mem: Memory, imageSize: u32, start: u32, sector: nat, ghost msgs: seq<Msg>)
      requires Valid() && sector * SECTOR_SIZE < imageSize && Asks(mem, imageSize, start, sector, msgs)
      modifies this
      ensures Valid() && sent == old(sent) + msgs && readEnd == sector * SECTOR_SIZE + SECTOR_SIZE
    {
      var flash := SectorAddress(start, sector);
      var total := SectorTotal(imageSize, sector);
      var buf := CopySector(mem, sector * SECTOR_SIZE);
      BufferAsks(mem, imageSize, start, sector, buf, msgs);
      SendSector(BufferWords(buf), total, flash);
    }

    /** The words of one sector to send. */
    method SectorTotal(imageSize: u32, sector: nat) returns (total: nat)
      requires sector * SECTOR_SIZE < imageSize
      ensures total == SectorWords(imageSize, sector) <= SECTOR_WORDS
    {
      total := (imageSize - sector * SECTOR_SIZE) / 2;
      if total > SECTOR_SIZE / 2 {
        total := SECTOR_SIZE / 2;
      }
    }

    method SendSector(words: seq<u16>, total: nat, flash: u32)
      requires Valid() && total <= |words| <= SECTOR_WORDS
      modifies this`sent, this`dataRegs
      ensures Valid() && sent == old(sent) + SectorMsgs(TEMP_MEM_ADDR, words[..total], flash)
      ensures SectorFrom(sent, |old(sent)|, total, flash)
    {
      SectorIs(sent, words[..total], flash);
      SendBulkWrite(TEMP_MEM_ADDR, SECTOR_SIZE);
      SendChunks(words, total);
      WriteFlash(flash, TEMP_MEM_ADDR, SECTOR_SIZE);
    }
  }
}

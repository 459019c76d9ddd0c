/** cp/gdfts.c: resumable firmware transfer.

    A receiver is a download area in flash and one persistent transfer record.  A message is
    carried out as a sequence of flash and store operations; power may fail between any two. */
module Transfer {
  import opened Bytes
  import opened LittleEndian
  import opened SpiNor

  const HEADER_SIZE := 32
  const MAGIC1 := 0xFF00FF00
  const MAGIC2 := 0x00FF00FF
  const U16 := 0x1_0000
  const U32 := 0x1_0000_0000

  /** The download area: its extent, the starts of its blocks, their size; the bytes that can
      be programmed from its start on, for the code does not check that a chunk stays in it;
      what the boot header says besides length and checksum; and the checksum, whose code is
      not modelled. */
  datatype Config = Config(span: nat, size: nat, tbl: seq<nat>, blkSize: nat, dest: nat, id: nat, crc16: seq<byte> -> nat) {
    /** The blocks make up the area, the first one at its start and clear of the others. */
    ghost predicate Valid() {
      && HEADER_SIZE <= blkSize && tbl != [] && tbl[0] == 0
      && (forall i :: 0 <= i < |tbl| ==> tbl[i] + blkSize <= span)
      && (forall i :: 0 < i < |tbl| ==> tbl[i] >= blkSize)
      && (forall a :: 0 <= a < span ==> Covered(a))
      && span <= size < U32 && dest < U32 && id < U16
    }

    ghost predicate Covered(a: nat) {
      exists i :: 0 <= i < |tbl| && tbl[i] <= a < tbl[i] + blkSize
    }

    function Crc(d: seq<byte>): nat {
      crc16(d) % U16
    }
  }

  datatype Record = Record(cnt: nat, crc: nat, reced: nat, len: nat)

  datatype State = State(area: seq<byte>, rec: Option<Record>)

  // ---- The record as it is stored ----

  const RECORD_SIZE := 12

  function RecordBytes(r: Record): (b: seq<byte>)
    ensures |b| == RECORD_SIZE
  {
    LowBytes(r.cnt, 2) + LowBytes(r.crc, 2) + LowBytes(r.reced, 4) + LowBytes(r.len, 4)
  }

  function RecordOf(b: seq<byte>): Record
    requires |b| == RECORD_SIZE
  {
    Record(Value(b[0..2]), Value(b[2..4]), Value(b[4..8]), Value(b[8..12]))
  }

  /** The record found when its header is written and only `j` of its bytes are. */
  function TornRecord(r: Record, j: nat): Record
    requires j <= RECORD_SIZE
  {
    RecordOf(RecordBytes(r)[..j] + Blank(RECORD_SIZE - j))
  }

  function Clip(k: nat, from: nat, width: nat): (j: nat)
    ensures j <= width
  {
    if k <= from then 0 else if k - from >= width then width else k - from
  }

  predicate Storable(r: Record) {
    r.cnt < U16 && r.crc < U16 && r.reced < U32 && r.len < U32
  }

  lemma FieldTorn(n: nat, all: seq<byte>, j: nat, from: nat, w: nat)
    requires from + w <= |all| && j <= |all| && all[from..from + w] == LowBytes(n, w)
    ensures Value((all[..j] + Blank(|all| - j))[from..from + w]) == Torn(n, w, Clip(j, from, w))
  {
    var i := Clip(j, from, w);
    var t := all[..j] + Blank(|all| - j);
    var found, meant := t[from..from + w], LowBytes(n, w)[..i] + Fill(w - i, 0xFF);
    forall x | 0 <= x < w
      ensures found[x] == meant[x]
    {
      assert all[from..from + w][x] == all[from + x];
    }
    assert found == meant;
    TornValue(n, w, i);
  }

  lemma FourParts(a: seq<byte>, b: seq<byte>, c: seq<byte>, d: seq<byte>)
    requires |a| == |b| == 2 && |c| == |d| == 4
    ensures var all := a + b + c + d;
            all[0..2] == a && all[2..4] == b && all[4..8] == c && all[8..12] == d
  {
  }

  /** Each field of a torn record is torn by itself. */
  lemma TornFields(r: Record, j: nat)
    requires j <= RECORD_SIZE
    ensures TornRecord(r, j) ==
            Record(Torn(r.cnt, 2, Clip(j, 0, 2)), Torn(r.crc, 2, Clip(j, 2, 2)),
                   Torn(r.reced, 4, Clip(j, 4, 4)), Torn(r.len, 4, Clip(j, 8, 4)))
  {
    var all := RecordBytes(r);
    FourParts(LowBytes(r.cnt, 2), LowBytes(r.crc, 2), LowBytes(r.reced, 4), LowBytes(r.len, 4));
    FieldTorn(r.cnt, all, j, 0, 2);
    FieldTorn(r.crc, all, j, 2, 2);
    FieldTorn(r.reced, all, j, 4, 4);
    FieldTorn(r.len, all, j, 8, 4);
  }

  /** A torn record is still one: its fields have their widths. */
  lemma TornIsStorable(r: Record, j: nat)
    requires j <= RECORD_SIZE
    ensures Storable(TornRecord(r, j))
  {
    BytePowers();
    TornFields(r, j);
    TornBelow(r.cnt, 2, Clip(j, 0, 2));
    TornBelow(r.crc, 2, Clip(j, 2, 2));
    TornBelow(r.reced, 4, Clip(j, 4, 4));
    TornBelow(r.len, 4, Clip(j, 8, 4));
  }

  /** A record whose bytes are all written is read back. */
  lemma WholeRecord(r: Record)
    requires Storable(r)
    ensures TornRecord(r, RECORD_SIZE) == r
  {
    BytePowers();
    TornFields(r, RECORD_SIZE);
    TornWhole(r.cnt, 2);
    TornWhole(r.crc, 2);
    TornWhole(r.reced, 4);
    TornWhole(r.len, 4);
  }

  // ---- The boot header ----

  lemma RoundTrip16(n: nat)
    requires n < U16
    ensures Value(LowBytes(n, 2)) == n
  {
    BytePowers();
    ReadBack(n, 2);
  }

  lemma RoundTrip32(n: nat)
    requires n < U32
    ensures Value(LowBytes(n, 4)) == n
  {
    BytePowers();
    ReadBack(n, 4);
  }

  /** struct t_iap as it is programmed: magic words first, checksum at bytes 18 and 19. */
  function Header(cfg: Config, len: nat, crc: nat): (h: seq<byte>)
    ensures |h| == HEADER_SIZE
  {
    LowBytes(MAGIC1, 4) + LowBytes(MAGIC2, 4) + LowBytes(cfg.dest, 4) + LowBytes(len, 4) +
    LowBytes(cfg.id, 2) + LowBytes(crc, 2) + Fill(12, 0)
  }

  predicate Bootable(area: seq<byte>) {
    |area| >= HEADER_SIZE && Value(area[0..4]) == MAGIC1 && Value(area[4..8]) == MAGIC2
  }

  predicate HeaderBlank(area: seq<byte>) {
    |area| >= HEADER_SIZE && area[..HEADER_SIZE] == Blank(HEADER_SIZE)
  }

  function HeaderLen(area: seq<byte>): nat
    requires |area| >= HEADER_SIZE
  {
    Value(area[12..16])
  }

  function HeaderCrc(area: seq<byte>): nat
    requires |area| >= HEADER_SIZE
  {
    Value(area[18..20])
  }

  /** Where the boot loader copies the image to, and whose image it is. */
  function HeaderDest(area: seq<byte>): nat
    requires |area| >= HEADER_SIZE
  {
    Value(area[8..12])
  }

  function HeaderId(area: seq<byte>): nat
    requires |area| >= HEADER_SIZE
  {
    Value(area[16..18])
  }

  /** A bootable header stands over an image with its checksum, and no transfer is open. */
  ghost predicate HeaderSafe(cfg: Config, s: State) {
    Bootable(s.area) ==>
      && s.rec.None?
      && HEADER_SIZE + HeaderLen(s.area) <= |s.area|
      && cfg.Crc(s.area[HEADER_SIZE..HEADER_SIZE + HeaderLen(s.area)]) == HeaderCrc(s.area)
  }

  // ---- Operations ----

  /** `Scramble` is what power failing in a block's erase leaves of it. */
  datatype Op =
    | EraseBlock(i: nat)
    | Scramble(i: nat, junk: seq<byte>)
    | Program(off: nat, data: seq<byte>)
    | Store(rec: Record)
    | Delete
    | ClearStore

  /** Byte `a` of the memory after `d` has been programmed from address `at` on: addresses
      are 32 bits wide and wrap, and what lies outside the memory is lost to it. */
  function ByteLanded(mem: seq<byte>, at: nat, d: seq<byte>, a: nat): byte
    requires a < |mem|
  {
    var i := (a - at) % U32;
    if i < |d| then AndBits(mem[a], d[i]) else mem[a]
  }

  function Landed(mem: seq<byte>, at: nat, d: seq<byte>): (r: seq<byte>)
    ensures |r| == |mem|
    ensures forall a :: 0 <= a < |mem| ==> r[a] == ByteLanded(mem, at, d, a)
  {
    seq(|mem|, a requires 0 <= a < |mem| => ByteLanded(mem, at, d, a))
  }

  /** Inside the memory that is programming at the address. */
  lemma LandedInside(mem: seq<byte>, at: nat, d: seq<byte>)
    requires at + |d| <= |mem| < U32
    ensures Landed(mem, at, d) == Programmed(mem, at, d)
  {
    var l, p := Landed(mem, at, d), Programmed(mem, at, d);
    forall a | 0 <= a < |mem|
      ensures l[a] == p[a]
    {
      if a < at {
        assert (a - at) % U32 == a - at + U32;
      } else {
        assert (a - at) % U32 == a - at;
        if a < at + |d| {
          assert mem[at..at + |d|][a - at] == mem[a];
        }
      }
    }
  }

  /** The bytes that the boot header's place holds afterwards. */
  function HeaderLanded(mem: seq<byte>, at: nat, d: seq<byte>): (g: seq<byte>)
    requires |mem| >= HEADER_SIZE
    ensures |g| == HEADER_SIZE && forall a :: 0 <= a < HEADER_SIZE ==> g[a] == ByteLanded(mem, at, d, a)
  {
    seq(HEADER_SIZE, a requires 0 <= a < HEADER_SIZE => ByteLanded(mem, at, d, a))
  }

  predicate Fits(cfg: Config, op: Op) {
    match op
    case EraseBlock(i) => i < |cfg.tbl| && cfg.tbl[i] + cfg.blkSize <= cfg.size
    case Scramble(i, junk) => i < |cfg.tbl| && cfg.tbl[i] + cfg.blkSize <= cfg.size && |junk| == cfg.blkSize
    case _ => true
  }

  function Apply(cfg: Config, s: State, op: Op): (r: State)
    requires |s.area| == cfg.size && Fits(cfg, op)
    ensures |r.area| == cfg.size
  {
    match op
    case EraseBlock(i) => s.(area := Splice(s.area, cfg.tbl[i], Blank(cfg.blkSize)))
    case Scramble(i, junk) => s.(area := Splice(s.area, cfg.tbl[i], junk))
    case Program(off, data) => s.(area := Landed(s.area, off, data))
    case Store(rec) => s.(rec := Some(rec))
    case Delete => s.(rec := None)
    case ClearStore => s.(rec := None)
  }

  predicate AllFit(cfg: Config, ops: seq<Op>) {
    forall i :: 0 <= i < |ops| ==> Fits(cfg, ops[i])
  }

  function ApplyAll(cfg: Config, s: State, ops: seq<Op>): (r: State)
    requires |s.area| == cfg.size && AllFit(cfg, ops)
    ensures |r.area| == cfg.size
    decreases |ops|
  {
    if ops == [] then s else ApplyAll(cfg, Apply(cfg, s, ops[0]), ops[1..])
  }

  // ---- Messages ----

  datatype Msg =
    | Begin(restart: bool, len: nat, crc: nat)   // TRANS with count 0
    | Chunk(cnt: nat, data: seq<byte>)           // TRANS with another count
    | Abort
    | Init
    | Other

  /** What goes wrong while a message is handled: the number of blocks erased before one
      fails, the bytes programmed before a program fails, how far a store gets before it
      fails: 0 for nowhere, 1 for the old record removed, from 2 on for the new record's
      header and that many less two of its bytes (fs/sfs/sfs.c:253-272).  `beyond` is what the
      checksum code returns for an image that runs out of the memory modelled. */
  datatype Fault = Fault(erased: nat, data: Option<nat>, header: Option<nat>, store: Option<nat>, beyond: nat)

  datatype Reply = Reply(ok: bool, reset: bool, reced: nat)

  predicate MsgOk(cfg: Config, m: Msg, f: Fault) {
    && f.erased <= |cfg.tbl| && (f.store.Some? ==> f.store.value <= RECORD_SIZE + 2)
    && match m
       case Begin(_, len, crc) => len < U32 && crc < U16
       case Chunk(cnt, data) =>
         && 0 < cnt < U16 && |data| < U16
         && (f.data.Some? ==> f.data.value <= |data|)
         && (f.header.Some? ==> f.header.value <= HEADER_SIZE)
       case _ => true
  }

  /** sfs_Write of the record: the old one goes, the header is written, then the data. */
  function StoreOps(prior: Option<Record>, rec: Record, fault: Option<nat>): seq<Op>
    requires fault.Some? ==> fault.value <= RECORD_SIZE + 2
  {
    var gone := if prior.Some? then [Delete] else [];
    match fault
    case None => gone + [Store(TornRecord(rec, 0)), Store(rec)]
    case Some(k) => if k == 0 then [] else if k == 1 then gone else gone + [Store(TornRecord(rec, k - 2))]
  }

  function EraseOps(n: nat): (r: seq<Op>)
    ensures |r| == n && forall i :: 0 <= i < n ==> r[i] == EraseBlock(i)
  {
    seq(n, (i: nat) => EraseBlock(i))
  }

  function Advanced(r: Record, n: nat): Record {
    r.(cnt := (r.cnt + 1) % U16, reced := (r.reced + n) % U32)
  }

  /** Where the next chunk goes. */
  function Place(r: Record): nat {
    (HEADER_SIZE + r.reced) % U32
  }

  /** What the checksum code makes of an image of `len` bytes. */
  function ImageCrc(cfg: Config, area: seq<byte>, len: nat, beyond: nat): (crc: nat)
    ensures crc < U16
  {
    if HEADER_SIZE + len <= |area| then cfg.Crc(area[HEADER_SIZE..HEADER_SIZE + len]) else beyond % U16
  }

  /** The image with the last chunk programmed has the announced checksum. */
  predicate Complete(cfg: Config, s: State, r: Record, data: seq<byte>, beyond: nat) {
    r.crc == ImageCrc(cfg, Landed(s.area, Place(r), data), r.len, beyond)
  }

  /** The chunk the open transfer waits for. */
  predicate Waited(s: State, m: Msg) {
    m.Chunk? && s.rec.Some? && s.rec.value.cnt == m.cnt
  }

  /** The bytes of a chunk that are programmed. */
  function Sent(m: Msg, f: Fault): seq<byte>
    requires m.Chunk? && (f.data.Some? ==> f.data.value <= |m.data|)
  {
    if f.data.Some? then m.data[..f.data.value] else m.data
  }

  /** gdfts_Handler, the password already checked: the operations a message leads to. */
  function Ops(cfg: Config, s: State, m: Msg, f: Fault): (ops: seq<Op>)
    requires |s.area| == cfg.size < U32 && MsgOk(cfg, m, f)
  {
    match m
    case Begin(restart, len, crc) =>
      if restart || s.rec.None? then
        EraseOps(f.erased) + StoreOps(s.rec, Record(1, crc, 0, len), f.store)
      else []
    case Chunk(cnt, data) =>
      if !Waited(s, m) then []
      else [Program(Place(s.rec.value), Sent(m, f))] + (if f.data.Some? then [] else ChunkOps(cfg, s, s.rec.value, data, f))
    case Abort => if s.rec.Some? then [Delete] else []
    case Init => EraseOps(f.erased) + (if f.erased == |cfg.tbl| then [ClearStore] else [])
    case Other => []
  }

  /** After a chunk is programmed: the record moves on, or the image is finished. */
  function ChunkOps(cfg: Config, s: State, r: Record, data: seq<byte>, f: Fault): seq<Op>
    requires f.header.Some? ==> f.header.value <= HEADER_SIZE
    requires f.store.Some? ==> f.store.value <= RECORD_SIZE + 2
  {
    if Advanced(r, |data|).reced < r.len then StoreOps(Some(r), Advanced(r, |data|), f.store)
    else if Complete(cfg, s, r, data, f.beyond) then [Delete, Program(0, HeaderSent(cfg, r, f))]
    else []
  }

  /** The bytes of the boot header that are programmed. */
  function HeaderSent(cfg: Config, r: Record, f: Fault): (h: seq<byte>)
    requires f.header.Some? ==> f.header.value <= HEADER_SIZE
    ensures |h| <= HEADER_SIZE
  {
    if f.header.Some? then Header(cfg, r.len, r.crc)[..f.header.value] else Header(cfg, r.len, r.crc)
  }

  lemma OpsFit(cfg: Config, s: State, m: Msg, f: Fault)
    requires cfg.Valid() && |s.area| == cfg.size && MsgOk(cfg, m, f)
    ensures AllFit(cfg, Ops(cfg, s, m, f))
  {
    hide TornRecord, HeaderSent, Complete, Place;
  }

  /** What the sender is told. */
  function ReplyTo(cfg: Config, s: State, m: Msg, f: Fault): Reply
    requires |s.area| == cfg.size < U32 && MsgOk(cfg, m, f)
  {
    match m
    case Begin(restart, _, _) =>
      if restart || s.rec.None? then Reply(f.store.None?, false, 0) else Reply(true, false, s.rec.value.reced)
    case Chunk(cnt, data) =>
      if s.rec.None? then Reply(false, false, 0)
      else
        var r := s.rec.value;
        if r.cnt != cnt || f.data.Some? then Reply(false, false, r.reced)
        else if Advanced(r, |data|).reced < r.len then Reply(true, false, Advanced(r, |data|).reced)
        else
          var done := Complete(cfg, s, r, data, f.beyond) && f.header.None?;
          Reply(done, done, Advanced(r, |data|).reced)
    case Abort => Reply(s.rec.Some?, false, 0)
    case Init => Reply(f.erased == |cfg.tbl| && f.store.None?, false, 0)
    case Other => Reply(false, false, 0)
  }

  // ---- Header safety ----

  /** No boot header while a transfer is open, and none over a wrong image. */
  ghost predicate Inv(cfg: Config, s: State) {
    && cfg.Valid() && |s.area| == cfg.size
    && HeaderSafe(cfg, s)
    && (s.rec.Some? ==> Storable(s.rec.value))
  }

  /** A header `g` does not boot, or the area holds the image it describes. */
  ghost predicate Describes(cfg: Config, area: seq<byte>, g: seq<byte>)
    requires |g| >= HEADER_SIZE
  {
    Bootable(g) ==>
      && HEADER_SIZE + HeaderLen(g) <= |area|
      && cfg.Crc(area[HEADER_SIZE..HEADER_SIZE + HeaderLen(g)]) == HeaderCrc(g)
  }

  /** Operations that keep the invariant when they are next. */
  ghost predicate Keeps(cfg: Config, s: State, op: Op)
    requires |s.area| == cfg.size
  {
    match op
    case EraseBlock(i) => i < |cfg.tbl| && (i == 0 || HeaderBlank(s.area))
    case Scramble(i, junk) =>
      && i < |cfg.tbl| && |junk| == cfg.blkSize && cfg.tbl[i] + cfg.blkSize <= cfg.size && HEADER_SIZE <= cfg.blkSize
      && (if i == 0 then ScrambleSafe(cfg, s, junk) else HeaderBlank(s.area))
    case Program(off, data) =>
      && cfg.size >= HEADER_SIZE
      && (if s.rec.Some? then !Bootable(HeaderLanded(s.area, off, data))
          else off == 0 && |data| <= HEADER_SIZE && Describes(cfg, s.area, HeaderLanded(s.area, 0, data)))
    case Store(rec) => !Bootable(s.area) && Storable(rec)
    case Delete => true
    case ClearStore => true
  }

  /** The first block left with `junk` in it: it does not boot, or it describes the image
      there and no transfer is open. */
  ghost predicate ScrambleSafe(cfg: Config, s: State, junk: seq<byte>)
    requires HEADER_SIZE <= |junk| <= |s.area|
  {
    Bootable(junk) ==> s.rec.None? && Describes(cfg, Splice(s.area, 0, junk), junk)
  }

  /** What is read of the header's length and checksum when it is cut after `k` bytes. */
  function TornLen(len: nat, k: nat): nat {
    Torn(len, 4, Clip(k, 12, 4))
  }

  function TornCrc(crc: nat, k: nat): nat {
    Torn(crc, 2, Clip(k, 18, 2))
  }

  /** A header cut after `k` bytes is safe: too short to boot, or the area holds, at the
      length it reads, an image with the checksum it reads. */
  ghost predicate TornSafe(cfg: Config, s: State, len: nat, crc: nat, k: nat)
    requires |s.area| == cfg.size
  {
    || k < 8
    || (&& HEADER_SIZE + TornLen(len, k) <= cfg.size
        && cfg.Crc(s.area[HEADER_SIZE..HEADER_SIZE + TornLen(len, k)]) == TornCrc(crc, k))
  }

  ghost predicate AllKeep(cfg: Config, s: State, ops: seq<Op>)
    requires |s.area| == cfg.size
    decreases |ops|
  {
    ops == [] || (Fits(cfg, ops[0]) && Keeps(cfg, s, ops[0]) && AllKeep(cfg, Apply(cfg, s, ops[0]), ops[1..]))
  }

  lemma BlankIsNotBootable(area: seq<byte>)
    requires HeaderBlank(area)
    ensures !Bootable(area)
  {
    assert area[0..4][0] == area[..HEADER_SIZE][0];
    assert area[0..4][..2][0] == 255;
    assert Value(area[0..4]) % 256 == 255;
  }

  lemma HeaderSlices(cfg: Config, len: nat, crc: nat)
    ensures var h := Header(cfg, len, crc);
            && |h| == HEADER_SIZE
            && h[0..4] == LowBytes(MAGIC1, 4) && h[4..8] == LowBytes(MAGIC2, 4) && h[8..12] == LowBytes(cfg.dest, 4)
            && h[12..16] == LowBytes(len, 4) && h[16..18] == LowBytes(cfg.id, 2) && h[18..20] == LowBytes(crc, 2)
            && h[20..] == Fill(12, 0)
  {
  }

  lemma ShorterPrefix(a: seq<byte>, b: seq<byte>, k: nat, j: nat)
    requires j <= k <= |a| && k <= |b| && a[..k] == b[..k]
    ensures a[..j] == b[..j]
  {
    assert a[..j] == a[..k][..j];
    assert b[..j] == b[..k][..j];
  }

  lemma SlicePrefix(a: seq<byte>, b: seq<byte>, k: nat, from: nat, to: nat)
    requires from <= to <= k <= |a| && k <= |b| && a[..k] == b[..k]
    ensures a[from..to] == b[from..to]
  {
    assert a[from..to] == a[..k][from..to];
    assert b[from..to] == b[..k][from..to];
  }

  /** The fields of a header, in place. */
  lemma HeaderFields(cfg: Config, len: nat, crc: nat, area: seq<byte>)
    requires len < U32 && crc < U16 && cfg.dest < U32 && cfg.id < U16
    requires |area| >= HEADER_SIZE && area[..20] == Header(cfg, len, crc)[..20]
    ensures Bootable(area) && HeaderLen(area) == len && HeaderCrc(area) == crc
    ensures HeaderDest(area) == cfg.dest && HeaderId(area) == cfg.id
  {
    hide Header;
    var h := Header(cfg, len, crc);
    HeaderSlices(cfg, len, crc);
    SlicePrefix(area, h, 20, 0, 4);
    SlicePrefix(area, h, 20, 4, 8);
    SlicePrefix(area, h, 20, 8, 12);
    SlicePrefix(area, h, 20, 12, 16);
    SlicePrefix(area, h, 20, 16, 18);
    SlicePrefix(area, h, 20, 18, 20);
    RoundTrip32(MAGIC1);
    RoundTrip32(MAGIC2);
    RoundTrip32(cfg.dest);
    RoundTrip16(cfg.id);
    RoundTrip32(len);
    RoundTrip16(crc);
  }

  /** Programming the first bytes of a header over a blank one. */
  lemma ProgramHeader(area: seq<byte>, d: seq<byte>)
    requires HeaderBlank(area) && |d| <= HEADER_SIZE
    ensures var r := Programmed(area, 0, d);
            && r[..|d|] == d && r[|d|..HEADER_SIZE] == Blank(HEADER_SIZE - |d|)
            && r[HEADER_SIZE..] == area[HEADER_SIZE..]
  {
    assert area[0..|d|] == Blank(|d|) by {
      assert area[0..|d|] == area[..HEADER_SIZE][..|d|];
    }
    SpliceBack(area, 0, |d|);
    ProgramBlank(area, 0, d);
    var r := Splice(area, 0, d);
    forall i | |d| <= i < HEADER_SIZE
      ensures r[i] == 0xFF
    {
      assert r[i] == area[i] == area[..HEADER_SIZE][i];
    }
  }

  /** A header cut before its eighth byte does not boot. */
  lemma ShortHeader(area: seq<byte>, k: nat)
    requires |area| >= HEADER_SIZE && k < 8 && area[k..HEADER_SIZE] == Blank(HEADER_SIZE - k)
    ensures !Bootable(area)
  {
    assert area[7] == area[k..HEADER_SIZE][7 - k] == 0xFF;
    assert area[4..8][3] == area[7];
    ValueLowBytes(area[4..8]);
    FourBytes(MAGIC2);
  }

  lemma FourBytes(n: nat)
    ensures LowBytes(n, 4)[3] == n / 256 / 256 / 256 % 256
  {
    assert LowBytes(n / 256 / 256 / 256, 1)[0] == n / 256 / 256 / 256 % 256;
    assert LowBytes(n / 256, 3)[2] == LowBytes(n / 256 / 256, 2)[1] == LowBytes(n / 256 / 256 / 256, 1)[0];
  }

  lemma EraseKeepsInv(cfg: Config, s: State, i: nat)
    requires Inv(cfg, s) && i < |cfg.tbl| && (i == 0 || HeaderBlank(s.area))
    ensures Fits(cfg, EraseBlock(i)) && Inv(cfg, Apply(cfg, s, EraseBlock(i))) && HeaderBlank(Apply(cfg, s, EraseBlock(i)).area)
  {
    var r := Apply(cfg, s, EraseBlock(i)).area;
    forall k | 0 <= k < HEADER_SIZE
      ensures r[k] == 0xFF
    {
      if i != 0 {
        assert s.area[..HEADER_SIZE][k] == s.area[k];
      }
    }
    BlankIsNotBootable(r);
  }

  /** Two memories with the same first bytes have the same header. */
  lemma SameHeader(a: seq<byte>, b: seq<byte>)
    requires |a| >= HEADER_SIZE && |b| >= HEADER_SIZE && a[..HEADER_SIZE] == b[..HEADER_SIZE]
    ensures Bootable(a) == Bootable(b) && HeaderLen(a) == HeaderLen(b) && HeaderCrc(a) == HeaderCrc(b)
  {
    SlicePrefix(a, b, HEADER_SIZE, 0, 4);
    SlicePrefix(a, b, HEADER_SIZE, 4, 8);
    SlicePrefix(a, b, HEADER_SIZE, 12, 16);
    SlicePrefix(a, b, HEADER_SIZE, 18, 20);
  }

  /** The header after programming anywhere. */
  lemma LandedHeader(mem: seq<byte>, at: nat, d: seq<byte>)
    requires |mem| >= HEADER_SIZE
    ensures var r, g := Landed(mem, at, d), HeaderLanded(mem, at, d);
            Bootable(r) == Bootable(g) && HeaderLen(r) == HeaderLen(g) && HeaderCrc(r) == HeaderCrc(g)
  {
    var r, g := Landed(mem, at, d), HeaderLanded(mem, at, d);
    assert r[..HEADER_SIZE] == g[..HEADER_SIZE];
    SameHeader(r, g);
  }

  /** With a transfer open, a chunk programmed anywhere leaves the header safe exactly when it
      does not make it bootable. */
  lemma ChunkIsSafe(cfg: Config, s: State, at: nat, d: seq<byte>)
    requires cfg.Valid() && |s.area| == cfg.size && s.rec.Some?
    ensures HeaderSafe(cfg, Apply(cfg, s, Program(at, d))) <==> !Bootable(HeaderLanded(s.area, at, d))
  {
    LandedHeader(s.area, at, d);
  }

  /** Over a blank header that takes both magic words: their zero bytes, 0, 2, 5 and 7, must
      all be programmed, and whatever is programmed must be theirs. */
  lemma MagicNeedsCover(mem: seq<byte>, at: nat, d: seq<byte>)
    requires HeaderBlank(mem)
    ensures Bootable(HeaderLanded(mem, at, d)) <==> CoversMagic(at, d)
  {
    hide AndBits, Bootable;
    var g := HeaderLanded(mem, at, d);
    forall a | 0 <= a < 8
      ensures g[a] == if (a - at) % U32 < |d| then d[(a - at) % U32] else 0xFF
    {
      BlankByte(mem, a);
      if (a - at) % U32 < |d| {
        AndErased(d[(a - at) % U32]);
      }
    }
    BootsByMagic(g);
  }

  lemma BlankByte(mem: seq<byte>, a: nat)
    requires HeaderBlank(mem) && a < HEADER_SIZE
    ensures mem[a] == 0xFF
  {
    assert mem[..HEADER_SIZE][a] == mem[a];
  }

  /** Byte `a` of the two magic words. */
  function Magic(a: nat): byte
    requires a < 8
  {
    if a == 0 || a == 2 || a == 5 || a == 7 then 0 else 0xFF
  }

  predicate CoversMagic(at: nat, d: seq<byte>) {
    forall a {:trigger Magic(a)} :: 0 <= a < 8 ==>
      var i := (a - at) % U32;
      if i < |d| then d[i] == Magic(a) else Magic(a) == 0xFF
  }

  lemma BootsByMagic(g: seq<byte>)
    requires |g| >= HEADER_SIZE
    ensures Bootable(g) <==> forall a {:trigger Magic(a)} :: 0 <= a < 8 ==> g[a] == Magic(a)
  {
    FourValue(g[0..4]);
    FourValue(g[4..8]);
    MagicBytes();
  }

  lemma FourValue(b: seq<byte>)
    requires |b| == 4
    ensures Value(b) == MAGIC1 <==> b == [0, 0xFF, 0, 0xFF]
    ensures Value(b) == MAGIC2 <==> b == [0xFF, 0, 0xFF, 0]
  {
    ValueLowBytes(b);
    MagicBytes();
    RoundTrip32(MAGIC1);
    RoundTrip32(MAGIC2);
  }

  lemma MagicBytes()
    ensures LowBytes(MAGIC1, 4) == [0, 0xFF, 0, 0xFF] && LowBytes(MAGIC2, 4) == [0xFF, 0, 0xFF, 0]
    ensures Magic(0) == Magic(2) == Magic(5) == Magic(7) == 0
    ensures Magic(1) == Magic(3) == Magic(4) == Magic(6) == 0xFF
  {
    assert LowBytes(0xFF, 1) == [0xFF] && LowBytes(0, 1) == [0];
    assert LowBytes(0xFF00, 2) == [0] + LowBytes(0xFF, 1) && LowBytes(0xFF, 2) == [0xFF] + LowBytes(0, 1);
    assert LowBytes(0xFF00FF, 3) == [0xFF] + LowBytes(0xFF00, 2) && LowBytes(0xFF00, 3) == [0] + LowBytes(0xFF, 2);
    assert LowBytes(0xFF00FF00, 4) == [0] + LowBytes(0xFF00FF, 3);
    assert LowBytes(0x00FF00FF, 4) == [0xFF] + LowBytes(0xFF00, 3);
  }

  /** An erase of the first block that power cuts short leaves a safe header exactly when what
      is left does not boot, or describes the image there with no transfer open. */
  lemma TornErase(cfg: Config, s: State, junk: seq<byte>)
    requires cfg.Valid() && |s.area| == cfg.size && |junk| == cfg.blkSize
    ensures HeaderSafe(cfg, Apply(cfg, s, Scramble(0, junk))) <==> ScrambleSafe(cfg, s, junk)
  {
    var r := Splice(s.area, 0, junk);
    assert r[..HEADER_SIZE] == junk[..HEADER_SIZE];
    SameHeader(r, junk);
  }

  /** Such an erase that keeps the header under a finished image is safe exactly when what it
      made of the image has the same checksum. */
  lemma TornEraseKeepsMagic(cfg: Config, s: State, junk: seq<byte>)
    requires Inv(cfg, s) && Bootable(s.area) && |junk| == cfg.blkSize && HEADER_SIZE <= cfg.blkSize <= |s.area|
    requires junk[..HEADER_SIZE] == s.area[..HEADER_SIZE]
    ensures HEADER_SIZE + HeaderLen(s.area) <= |s.area|
    ensures var end := HEADER_SIZE + HeaderLen(s.area);
            HeaderSafe(cfg, Apply(cfg, s, Scramble(0, junk))) <==>
            cfg.Crc(Splice(s.area, 0, junk)[HEADER_SIZE..end]) == cfg.Crc(s.area[HEADER_SIZE..end])
  {
    SameHeader(junk, s.area);
    TornErase(cfg, s, junk);
  }

  lemma ScrambleKeepsBlank(cfg: Config, s: State, i: nat, junk: seq<byte>)
    requires cfg.Valid() && |s.area| == cfg.size && HeaderBlank(s.area) && 0 < i < |cfg.tbl| && |junk| == cfg.blkSize
    ensures HeaderBlank(Apply(cfg, s, Scramble(i, junk)).area)
  {
    assert Splice(s.area, cfg.tbl[i], junk)[..HEADER_SIZE] == s.area[..HEADER_SIZE];
  }

  /** The header's fields as they read after `k` of its bytes. */
  lemma CutHeaderFields(cfg: Config, len: nat, crc: nat, k: nat, area: seq<byte>)
    requires len < U32 && crc < U16 && k <= HEADER_SIZE && |area| >= HEADER_SIZE
    requires area[..k] == Header(cfg, len, crc)[..k] && area[k..HEADER_SIZE] == Blank(HEADER_SIZE - k)
    ensures HeaderLen(area) == TornLen(len, k) && HeaderCrc(area) == TornCrc(crc, k)
  {
    var h := Header(cfg, len, crc);
    assert area[..HEADER_SIZE] == h[..k] + Blank(HEADER_SIZE - k);
    assert h[12..16] == LowBytes(len, 4) && h[18..20] == LowBytes(crc, 2);
    assert area[12..16] == area[..HEADER_SIZE][12..16] && area[18..20] == area[..HEADER_SIZE][18..20];
    FieldTorn(len, h, k, 12, 4);
    FieldTorn(crc, h, k, 18, 2);
  }

  /** A header cut after `k` bytes boots from the eighth byte on, and is safe exactly when it
      does not, or the image it then describes is there. */
  lemma TornHeader(cfg: Config, s: State, len: nat, crc: nat, k: nat)
    requires cfg.Valid() && |s.area| == cfg.size && HeaderBlank(s.area) && s.rec.None?
    requires k <= HEADER_SIZE && len < U32 && crc < U16
    ensures var s' := Apply(cfg, s, Program(0, Header(cfg, len, crc)[..k]));
            && (Bootable(s'.area) <==> k >= 8)
            && (HeaderSafe(cfg, s') <==> TornSafe(cfg, s, len, crc, k))
  {
    hide HeaderSafe, Header, Programmed, Landed, Splice, TornLen, TornCrc, HeaderLen, HeaderCrc;
    var h := Header(cfg, len, crc);
    HeaderLength(cfg, len, crc);
    LandedInside(s.area, 0, h[..k]);
    var area := Programmed(s.area, 0, h[..k]);
    ProgramHeader(s.area, h[..k]);
    if k < 8 {
      ShortHeader(area, k);
      UnbootableIsSafe(cfg, s.(area := area));
    } else {
      ShorterPrefix(area, h, k, 8);
      MagicWords(cfg, len, crc, area);
      CutHeaderFields(cfg, len, crc, k, area);
      SafeMeans(cfg, s.(area := area));
      SameImage(s.area, area, TornLen(len, k));
    }
  }

  lemma UnbootableIsSafe(cfg: Config, s: State)
    requires !Bootable(s.area)
    ensures HeaderSafe(cfg, s)
  {
  }

  lemma SameImage(a: seq<byte>, b: seq<byte>, n: nat)
    requires |a| == |b| >= HEADER_SIZE && a[HEADER_SIZE..] == b[HEADER_SIZE..]
    ensures HEADER_SIZE + n <= |a| ==> a[HEADER_SIZE..HEADER_SIZE + n] == b[HEADER_SIZE..HEADER_SIZE + n]
  {
    if HEADER_SIZE + n <= |a| {
      assert a[HEADER_SIZE..HEADER_SIZE + n] == a[HEADER_SIZE..][..n];
      assert b[HEADER_SIZE..HEADER_SIZE + n] == b[HEADER_SIZE..][..n];
    }
  }

  /** Over a complete image, in an area of less than 0xFF000020 bytes: a header cut before
      its length ends is safe only if it does not boot, one cut before its checksum ends only
      if the bytes of the checksum not yet written are 0xFF. */
  lemma TornHeaderCases(cfg: Config, s: State, len: nat, crc: nat, k: nat)
    requires |s.area| == cfg.size < 0xFF00_0020 && HEADER_SIZE + len <= cfg.size
    requires k <= HEADER_SIZE && crc < U16 && cfg.Crc(s.area[HEADER_SIZE..HEADER_SIZE + len]) == crc
    ensures TornSafe(cfg, s, len, crc, k) <==>
            k < 8 || (16 <= k <= 18 && crc == 0xFFFF) || (k == 19 && crc / 256 == 0xFF) || k >= 20
  {
    BytePowers();
    if k >= 16 {
      TornWhole(len, 4);
    }
    if k >= 20 {
      TornWhole(crc, 2);
    }
  }

  lemma SafeMeans(cfg: Config, s: State)
    requires Bootable(s.area) && s.rec.None?
    ensures HeaderSafe(cfg, s) <==>
            && HEADER_SIZE + HeaderLen(s.area) <= |s.area|
            && cfg.Crc(s.area[HEADER_SIZE..HEADER_SIZE + HeaderLen(s.area)]) == HeaderCrc(s.area)
  {
  }

  lemma MagicWords(cfg: Config, len: nat, crc: nat, area: seq<byte>)
    requires |area| >= HEADER_SIZE && area[..8] == Header(cfg, len, crc)[..8]
    ensures Bootable(area)
  {
    hide Header;
    var h := Header(cfg, len, crc);
    HeaderSlices(cfg, len, crc);
    SlicePrefix(area, h, 8, 0, 4);
    SlicePrefix(area, h, 8, 4, 8);
    RoundTrip32(MAGIC1);
    RoundTrip32(MAGIC2);
  }

  /** The boot header programmed, whole or in part, over anything: what it leaves is safe
      exactly when it describes the image there. */
  lemma HeaderIsSafe(cfg: Config, s: State, d: seq<byte>)
    requires cfg.Valid() && |s.area| == cfg.size && s.rec.None? && |d| <= HEADER_SIZE
    ensures HeaderSafe(cfg, Apply(cfg, s, Program(0, d))) <==> Describes(cfg, s.area, HeaderLanded(s.area, 0, d))
  {
    hide Landed, HeaderLanded, ByteLanded, HeaderLen, HeaderCrc;
    LandedHeader(s.area, 0, d);
    var area := Landed(s.area, 0, d);
    ImageKept(s.area, d);
    if Bootable(area) {
      SameImage(s.area, area, HeaderLen(area));
    }
  }

  lemma ImageKept(mem: seq<byte>, d: seq<byte>)
    requires HEADER_SIZE <= |mem| < U32 && |d| <= HEADER_SIZE
    ensures |Landed(mem, 0, d)| == |mem| && Landed(mem, 0, d)[HEADER_SIZE..] == mem[HEADER_SIZE..]
  {
    LandedInside(mem, 0, d);
  }

  lemma OpKeepsInv(cfg: Config, s: State, op: Op)
    requires Inv(cfg, s) && Fits(cfg, op) && Keeps(cfg, s, op)
    ensures Inv(cfg, Apply(cfg, s, op))
  {
    hide HeaderSafe, Landed, HeaderLanded, Splice, Describes, ScrambleSafe;
    match op
    case EraseBlock(i) => EraseKeepsInv(cfg, s, i);
    case Scramble(i, junk) =>
      if i == 0 {
        TornErase(cfg, s, junk);
      } else {
        ScrambleKeepsBlank(cfg, s, i, junk);
        NotBootableIsSafe(cfg, Apply(cfg, s, op));
      }
    case Program(off, data) =>
      if s.rec.Some? {
        ChunkIsSafe(cfg, s, off, data);
      } else {
        HeaderIsSafe(cfg, s, data);
      }
    case Store(rec) => UnbootableIsSafe(cfg, s.(rec := Some(rec)));
    case Delete => DeleteIsSafe(cfg, s);
    case ClearStore => DeleteIsSafe(cfg, s);
  }

  lemma NotBootableIsSafe(cfg: Config, s: State)
    requires HeaderBlank(s.area)
    ensures HeaderSafe(cfg, s)
  {
    BlankIsNotBootable(s.area);
  }

  lemma DeleteIsSafe(cfg: Config, s: State)
    requires HeaderSafe(cfg, s)
    ensures HeaderSafe(cfg, s.(rec := None))
  {
  }

  /** Power lost after any number of the operations. */
  lemma {:induction false} CutKeepsInv(cfg: Config, s: State, ops: seq<Op>, k: nat)
    requires Inv(cfg, s) && AllKeep(cfg, s, ops) && k <= |ops|
    ensures AllFit(cfg, ops[..k]) && Inv(cfg, ApplyAll(cfg, s, ops[..k]))
    decreases k
  {
    if k > 0 {
      OpKeepsInv(cfg, s, ops[0]);
      CutKeepsInv(cfg, Apply(cfg, s, ops[0]), ops[1..], k - 1);
      assert ops[..k][1..] == ops[1..][..k - 1];
    }
  }

  lemma {:induction false} AllKeepAppend(cfg: Config, s: State, a: seq<Op>, b: seq<Op>)
    requires |s.area| == cfg.size && AllFit(cfg, a) && AllKeep(cfg, s, a)
    requires AllKeep(cfg, ApplyAll(cfg, s, a), b)
    ensures AllKeep(cfg, s, a + b)
    decreases |a|
  {
    hide Keeps, Apply;
    if a == [] {
      assert a + b == b;
    } else {
      assert (a + b)[0] == a[0] && (a + b)[1..] == a[1..] + b;
      AllKeepAppend(cfg, Apply(cfg, s, a[0]), a[1..], b);
    }
  }

  /** Erasing the blocks in order, the header's first. */
  lemma {:induction false} ErasesKeep(cfg: Config, s: State, n: nat)
    requires Inv(cfg, s) && n <= |cfg.tbl|
    ensures AllFit(cfg, EraseOps(n)) && AllKeep(cfg, s, EraseOps(n))
    ensures Inv(cfg, ApplyAll(cfg, s, EraseOps(n)))
    ensures n > 0 ==> HeaderBlank(ApplyAll(cfg, s, EraseOps(n)).area)
    ensures ApplyAll(cfg, s, EraseOps(n)).rec == s.rec
    decreases n
  {
    hide Inv, HeaderBlank, Apply;
    InvSize(cfg, s);
    if n > 0 {
      ErasesKeep(cfg, s, n - 1);
      var t := ApplyAll(cfg, s, EraseOps(n - 1));
      assert EraseOps(n) == EraseOps(n - 1) + [EraseBlock(n - 1)];
      EraseKeepsInv(cfg, t, n - 1);
      AllKeepAppend(cfg, s, EraseOps(n - 1), [EraseBlock(n - 1)]);
      ApplyAllAppend(cfg, s, EraseOps(n - 1), EraseBlock(n - 1));
      EraseKeepsRecord(cfg, t, n - 1);
    }
  }

  lemma EraseKeepsRecord(cfg: Config, s: State, i: nat)
    requires |s.area| == cfg.size && Fits(cfg, EraseBlock(i))
    ensures Apply(cfg, s, EraseBlock(i)).rec == s.rec
  {
  }

  lemma InvSize(cfg: Config, s: State)
    requires Inv(cfg, s)
    ensures |s.area| == cfg.size < U32 && cfg.Valid()
  {
  }

  lemma {:induction false} ApplyAllAppend(cfg: Config, s: State, a: seq<Op>, op: Op)
    requires |s.area| == cfg.size && AllFit(cfg, a) && Fits(cfg, op)
    ensures AllFit(cfg, a + [op]) && ApplyAll(cfg, s, a + [op]) == Apply(cfg, ApplyAll(cfg, s, a), op)
    decreases |a|
  {
    if a != [] {
      assert (a + [op])[0] == a[0] && (a + [op])[1..] == a[1..] + [op];
      ApplyAllAppend(cfg, Apply(cfg, s, a[0]), a[1..], op);
    }
  }

  lemma {:induction false} ApplyAllJoin(cfg: Config, s: State, a: seq<Op>, b: seq<Op>)
    requires |s.area| == cfg.size && AllFit(cfg, a) && AllFit(cfg, b)
    ensures AllFit(cfg, a + b) && ApplyAll(cfg, s, a + b) == ApplyAll(cfg, ApplyAll(cfg, s, a), b)
    decreases |a|
  {
    if a == [] {
      assert a + b == b;
    } else {
      assert (a + b)[0] == a[0] && (a + b)[1..] == a[1..] + b;
      ApplyAllJoin(cfg, Apply(cfg, s, a[0]), a[1..], b);
    }
  }

  lemma OneOp(cfg: Config, s: State, a: Op)
    requires |s.area| == cfg.size && Fits(cfg, a)
    ensures ApplyAll(cfg, s, [a]) == Apply(cfg, s, a)
  {
    assert [a][1..] == [];
  }

  lemma TwoOps(cfg: Config, s: State, a: Op, b: Op)
    requires |s.area| == cfg.size && Fits(cfg, a) && Fits(cfg, b)
    ensures ApplyAll(cfg, s, [a, b]) == Apply(cfg, Apply(cfg, s, a), b)
  {
    assert [a, b][1..] == [b];
    OneOp(cfg, Apply(cfg, s, a), b);
  }

  /** The record found after a store that got as far as `fault` says. */
  function StoredRecord(prior: Option<Record>, rec: Record, fault: Option<nat>): Option<Record>
    requires fault.Some? ==> fault.value <= RECORD_SIZE + 2
  {
    match fault
    case None => Some(rec)
    case Some(k) => if k == 0 then prior else if k == 1 then None else Some(TornRecord(rec, k - 2))
  }

  /** A store changes the record only. */
  lemma StoreEffect(cfg: Config, s: State, rec: Record, fault: Option<nat>)
    requires |s.area| == cfg.size && (fault.Some? ==> fault.value <= RECORD_SIZE + 2)
    ensures AllFit(cfg, StoreOps(s.rec, rec, fault))
    ensures ApplyAll(cfg, s, StoreOps(s.rec, rec, fault)) == s.(rec := StoredRecord(s.rec, rec, fault))
  {
    hide TornRecord;
    var gone := if s.rec.Some? then [Delete] else [];
    var t := s.(rec := None);
    if s.rec.Some? {
      OneOp(cfg, s, Delete);
    }
    assert ApplyAll(cfg, s, gone) == t;
    if fault.None? {
      TwoOps(cfg, t, Store(TornRecord(rec, 0)), Store(rec));
      ApplyAllJoin(cfg, s, gone, [Store(TornRecord(rec, 0)), Store(rec)]);
    } else if fault.value >= 2 {
      OneOp(cfg, t, Store(TornRecord(rec, fault.value - 2)));
      ApplyAllJoin(cfg, s, gone, [Store(TornRecord(rec, fault.value - 2))]);
    }
  }

  /** A store beside a header that does not boot keeps the invariant at every step. */
  lemma StoreKeeps(cfg: Config, s: State, rec: Record, fault: Option<nat>)
    requires |s.area| == cfg.size && !Bootable(s.area) && Storable(rec)
    requires fault.Some? ==> fault.value <= RECORD_SIZE + 2
    ensures AllKeep(cfg, s, StoreOps(s.rec, rec, fault))
  {
    hide TornRecord, Bootable, Storable;
    TornIsStorable(rec, 0);
    if fault.Some? && fault.value >= 2 {
      TornIsStorable(rec, fault.value - 2);
    }
    var gone := if s.rec.Some? then [Delete] else [];
    var t := s.(rec := None);
    if s.rec.Some? {
      OneOp(cfg, s, Delete);
      assert [Delete][1..] == [];
    }
    if fault.None? {
      var first, last := Store(TornRecord(rec, 0)), Store(rec);
      assert [first, last][1..] == [last] && [last][1..] == [];
      assert AllKeep(cfg, Apply(cfg, t, first), [last]);
      assert AllKeep(cfg, t, [first, last]);
      AllKeepAppend(cfg, s, gone, [first, last]);
    } else if fault.value >= 2 {
      var last := Store(TornRecord(rec, fault.value - 2));
      assert [last][1..] == [];
      AllKeepAppend(cfg, s, gone, [last]);
    }
  }

  /** The chunk completes an image with its announced checksum. */
  predicate Finishes(cfg: Config, s: State, m: Msg, f: Fault) {
    && Waited(s, m) && f.data.None?
    && Advanced(s.rec.value, |m.data|).reced >= s.rec.value.len
    && Complete(cfg, s, s.rec.value, m.data, f.beyond)
  }

  predicate FormatsFirst(s: State, m: Msg) {
    m.Begin? && (m.restart || s.rec.None?)
  }

  /** What the safety of the header needs of a message.  One that opens a transfer erases the
      header's block or finds no boot header there; a chunk, wherever it lands, does not make
      the header bootable; and the boot header, whole or in part, over what its place holds by
      then, does not boot or describes the image. */
  ghost predicate Harmless(cfg: Config, s: State, m: Msg, f: Fault)
    requires |s.area| == cfg.size && cfg.size >= HEADER_SIZE && MsgOk(cfg, m, f)
  {
    && (FormatsFirst(s, m) ==> f.erased > 0 || !Bootable(s.area) || f.store == Some(0) || f.store == Some(1))
    && (Waited(s, m) ==> !Bootable(HeaderLanded(s.area, Place(s.rec.value), Sent(m, f))))
    && (Finishes(cfg, s, m, f) ==>
          var area := Landed(s.area, Place(s.rec.value), m.data);
          Describes(cfg, area, HeaderLanded(area, 0, HeaderSent(cfg, s.rec.value, f))))
  }

  lemma MessageKeeps(cfg: Config, s: State, m: Msg, f: Fault)
    requires Inv(cfg, s) && |s.area| == cfg.size && cfg.size >= HEADER_SIZE && MsgOk(cfg, m, f) && Harmless(cfg, s, m, f)
    ensures AllKeep(cfg, s, Ops(cfg, s, m, f))
  {
    hide HeaderSafe, Landed, HeaderLanded, Describes, Complete, StoreOps, HeaderBlank, Bootable, HeaderSent, Place;
    match m
    case Begin(restart, len, crc) =>
      if restart || s.rec.None? {
        BeginKeeps(cfg, s, m, f);
      }
    case Chunk(cnt, data) =>
      if Waited(s, m) {
        ChunkMessageKeeps(cfg, s, m, f);
      }
    case Abort =>
    case Init =>
      ErasesKeep(cfg, s, f.erased);
      AllKeepAppend(cfg, s, EraseOps(f.erased), if f.erased == |cfg.tbl| then [ClearStore] else []);
    case Other =>
  }

  lemma BeginKeeps(cfg: Config, s: State, m: Msg, f: Fault)
    requires Inv(cfg, s) && |s.area| == cfg.size && cfg.size >= HEADER_SIZE && MsgOk(cfg, m, f) && FormatsFirst(s, m)
    requires f.erased > 0 || !Bootable(s.area) || f.store == Some(0) || f.store == Some(1)
    ensures AllKeep(cfg, s, Ops(cfg, s, m, f))
  {
    hide HeaderSafe, HeaderBlank, Bootable, TornRecord;
    ErasesKeep(cfg, s, f.erased);
    var t := ApplyAll(cfg, s, EraseOps(f.erased));
    assert EraseOps(0) == [];
    if f.erased > 0 {
      BlankIsNotBootable(t.area);
    }
    var rec := Record(1, m.crc, 0, m.len);
    var stores := StoreOps(s.rec, rec, f.store);
    if f.erased > 0 || !Bootable(s.area) {
      StoreKeeps(cfg, t, rec, f.store);
    } else {
      assert stores == [] || stores == [Delete];
      assert [Delete][1..] == [];
    }
    AllKeepAppend(cfg, s, EraseOps(f.erased), stores);
  }

  lemma ChunkMessageKeeps(cfg: Config, s: State, m: Msg, f: Fault)
    requires Inv(cfg, s) && |s.area| == cfg.size && cfg.size >= HEADER_SIZE && MsgOk(cfg, m, f)
    requires Waited(s, m) && Harmless(cfg, s, m, f)
    ensures AllKeep(cfg, s, Ops(cfg, s, m, f))
  {
    hide HeaderSafe, Landed, HeaderLanded, Describes, Complete, HeaderBlank, Bootable, StoreOps, HeaderSent, Place;
    var r := s.rec.value;
    var ops := Ops(cfg, s, m, f);
    assert Keeps(cfg, s, ops[0]);
    var t := Apply(cfg, s, ops[0]);
    LandedHeader(s.area, Place(r), Sent(m, f));
    if f.data.Some? {
      assert ops[1..] == [];
    } else {
      var rest := ChunkOps(cfg, s, r, m.data, f);
      assert ops[1..] == rest;
      if Advanced(r, |m.data|).reced < r.len {
        AdvancedStorable(r, |m.data|);
        StoreKeeps(cfg, t, Advanced(r, |m.data|), f.store);
      } else if Complete(cfg, s, r, m.data, f.beyond) {
        var last := Program(0, HeaderSent(cfg, r, f));
        assert rest == [Delete, last] && rest[1..] == [last] && [last][1..] == [];
        assert AllKeep(cfg, Apply(cfg, t, Delete), [last]);
      }
      assert AllKeep(cfg, t, rest);
    }
  }

  lemma AdvancedStorable(r: Record, n: nat)
    requires Storable(r)
    ensures Storable(Advanced(r, n))
  {
  }

  /** Where a message is not harmless, power failing after some of its operations, or after
      all, leaves an unsafe header. */
  lemma HarmIsReal(cfg: Config, s: State, m: Msg, f: Fault) returns (k: nat)
    requires Inv(cfg, s) && |s.area| == cfg.size && cfg.size >= HEADER_SIZE && MsgOk(cfg, m, f) && !Harmless(cfg, s, m, f)
    ensures k <= |Ops(cfg, s, m, f)| && AllFit(cfg, Ops(cfg, s, m, f)[..k])
    ensures !HeaderSafe(cfg, ApplyAll(cfg, s, Ops(cfg, s, m, f)[..k]))
  {
    hide Landed, HeaderLanded, Describes, Complete, HeaderBlank, Bootable, HeaderSent, Place, TornRecord;
    OpsFit(cfg, s, m, f);
    var ops := Ops(cfg, s, m, f);
    if FormatsFirst(s, m) {
      assert EraseOps(0) + StoreOps(s.rec, Record(1, m.crc, 0, m.len), f.store) == ops;
      OneOp(cfg, s, ops[0]);
      assert ops[..1] == [ops[0]];
      return 1;
    }
    var r := s.rec.value;
    var t := Apply(cfg, s, ops[0]);
    LandedHeader(s.area, Place(r), Sent(m, f));
    if Bootable(HeaderLanded(s.area, Place(r), Sent(m, f))) {
      ChunkIsSafe(cfg, s, Place(r), Sent(m, f));
      OneOp(cfg, s, ops[0]);
      assert ops[..1] == [ops[0]];
      return 1;
    }
    var last := Program(0, HeaderSent(cfg, r, f));
    assert ops == [ops[0]] + [Delete, last] && ops[..3] == ops;
    OneOp(cfg, s, ops[0]);
    TwoOps(cfg, t, Delete, last);
    ApplyAllJoin(cfg, s, [ops[0]], [Delete, last]);
    HeaderIsSafe(cfg, Apply(cfg, t, Delete), HeaderSent(cfg, r, f));
    return 3;
  }

  /** A message keeps the header safe wherever power fails in it exactly when it is harmless. */
  lemma MessageIsSafe(cfg: Config, s: State, m: Msg, f: Fault)
    requires Inv(cfg, s) && |s.area| == cfg.size && cfg.size >= HEADER_SIZE && MsgOk(cfg, m, f)
    ensures AllFit(cfg, Ops(cfg, s, m, f))
    ensures Harmless(cfg, s, m, f) <==>
            forall k :: 0 <= k <= |Ops(cfg, s, m, f)| ==> SafeAfter(cfg, s, Ops(cfg, s, m, f), k)
  {
    hide Ops, AllKeep, Harmless, Inv;
    InvSize(cfg, s);
    OpsFit(cfg, s, m, f);
    var ops := Ops(cfg, s, m, f);
    if Harmless(cfg, s, m, f) {
      MessageKeeps(cfg, s, m, f);
      forall k | 0 <= k <= |ops|
        ensures SafeAfter(cfg, s, ops, k)
      {
        CutKeepsInv(cfg, s, ops, k);
        InvIsSafe(cfg, ApplyAll(cfg, s, ops[..k]));
      }
    } else {
      var k := HarmIsReal(cfg, s, m, f);
      assert !SafeAfter(cfg, s, ops, k);
    }
  }

  /** After the first `k` operations the header is safe. */
  ghost predicate SafeAfter(cfg: Config, s: State, ops: seq<Op>, k: nat)
    requires |s.area| == cfg.size && k <= |ops| && AllFit(cfg, ops)
  {
    HeaderSafe(cfg, ApplyAll(cfg, s, ops[..k]))
  }

  lemma InvIsSafe(cfg: Config, s: State)
    requires Inv(cfg, s)
    ensures HeaderSafe(cfg, s)
  {
  }

  /** With a transfer open over a blank header, a chunk leaves it safe exactly when it does not
      put both magic words there. */
  lemma ChunkOverBlank(cfg: Config, s: State, at: nat, d: seq<byte>)
    requires cfg.Valid() && |s.area| == cfg.size && s.rec.Some? && HeaderBlank(s.area)
    ensures HeaderSafe(cfg, Apply(cfg, s, Program(at, d))) <==> !CoversMagic(at, d)
  {
    hide Landed, HeaderLanded, Bootable, CoversMagic;
    MagicNeedsCover(s.area, at, d);
    ChunkIsSafe(cfg, s, at, d);
  }

  /** A record of which five bytes were written, its count of received bytes ending in 0xE0,
      still has its count of chunks and places the next one on the boot header. */
  lemma TornRecordHitsHeader(rec: Record)
    requires Storable(rec) && rec.reced % 256 == 0xE0
    ensures TornRecord(rec, 5).cnt == rec.cnt && Place(TornRecord(rec, 5)) == 0
  {
    BytePowers();
    TornFields(rec, 5);
    TornWhole(rec.cnt, 2);
  }

  lemma WordsCover()
    ensures CoversMagic(0, [0, 0xFF, 0, 0xFF, 0xFF, 0, 0xFF, 0])
  {
    var d: seq<byte> := [0, 0xFF, 0, 0xFF, 0xFF, 0, 0xFF, 0];
    forall a | 0 <= a < 8
      ensures (a - 0) % U32 == a && d[a] == Magic(a)
    {
    }
  }

  /** The chunk that then makes the header boot while the transfer is open. */
  lemma WrappedChunkBoots(cfg: Config, s: State, f: Fault)
    requires Inv(cfg, s) && HeaderBlank(s.area) && s.rec.Some? && Place(s.rec.value) == 0 && 0 < s.rec.value.cnt
    requires f.erased <= |cfg.tbl| && f.data.None? && (f.header.Some? ==> f.header.value <= HEADER_SIZE)
    requires f.store.Some? ==> f.store.value <= RECORD_SIZE + 2
    ensures var m := Chunk(s.rec.value.cnt, [0, 0xFF, 0, 0xFF, 0xFF, 0, 0xFF, 0]);
            && MsgOk(cfg, m, f) && |s.area| == cfg.size >= HEADER_SIZE
            && AllFit(cfg, Ops(cfg, s, m, f)[..1])
            && !HeaderSafe(cfg, ApplyAll(cfg, s, Ops(cfg, s, m, f)[..1]))
            && !Harmless(cfg, s, m, f)
  {
    hide HeaderSafe, Bootable, HeaderBlank, Landed, HeaderLanded, HeaderSent, Complete, Describes, TornRecord, CoversMagic,
         StoreOps;
    var m := Chunk(s.rec.value.cnt, [0, 0xFF, 0, 0xFF, 0xFF, 0, 0xFF, 0]);
    MagicNeedsCover(s.area, 0, m.data);
    WordsCover();
    var ops := Ops(cfg, s, m, f);
    ChunkIsSafe(cfg, s, 0, m.data);
    OneOp(cfg, s, ops[0]);
    assert ops[..1] == [ops[0]];
  }

  lemma HeaderLength(cfg: Config, len: nat, crc: nat)
    ensures |Header(cfg, len, crc)| == HEADER_SIZE
  {
  }

  lemma WholeHeaderSafe(cfg: Config, s: State, len: nat, crc: nat)
    requires |s.area| == cfg.size && len < U32 && crc < U16 && HEADER_SIZE + len <= cfg.size
    requires cfg.Crc(s.area[HEADER_SIZE..HEADER_SIZE + len]) == crc
    ensures TornSafe(cfg, s, len, crc, HEADER_SIZE)
  {
    BytePowers();
    TornWhole(len, 4);
    TornWhole(crc, 2);
  }

  /** What the usual course comes to: formats that erase the header's block, chunks inside the
      memory, over a blank header; and a header program that succeeds, or stops where it is
      safe to. */
  lemma UsuallyHarmless(cfg: Config, s: State, m: Msg, f: Fault)
    requires Inv(cfg, s) && |s.area| == cfg.size && cfg.size >= HEADER_SIZE && MsgOk(cfg, m, f)
    requires s.rec.Some? ==> HeaderBlank(s.area)
    requires FormatsFirst(s, m) ==> f.erased > 0 || HeaderBlank(s.area)
    requires Waited(s, m) ==> HEADER_SIZE + s.rec.value.reced + |m.data| <= cfg.size
    requires Finishes(cfg, s, m, f) && f.header.Some? ==>
               TornSafe(cfg, State(Received(s, m, f), None), s.rec.value.len, s.rec.value.crc, f.header.value)
    ensures Harmless(cfg, s, m, f)
  {
    hide HeaderSafe, Bootable, HeaderBlank, Landed, HeaderLanded, Describes, Complete, TornSafe, Header, HeaderLen, HeaderCrc;
    if FormatsFirst(s, m) && f.erased == 0 {
      BlankIsNotBootable(s.area);
    }
    if Waited(s, m) {
      var r := s.rec.value;
      assert Place(r) == HEADER_SIZE + r.reced;
      ClearOfHeader(s.area, Place(r), Sent(m, f));
      BlankIsNotBootable(Landed(s.area, Place(r), Sent(m, f)));
      LandedHeader(s.area, Place(r), Sent(m, f));
      if Finishes(cfg, s, m, f) {
        FinishIsHarmless(cfg, s, m, f);
      }
    }
  }

  lemma ClearOfHeader(mem: seq<byte>, at: nat, d: seq<byte>)
    requires HeaderBlank(mem) && HEADER_SIZE <= at && at + |d| <= |mem| < U32
    ensures HeaderBlank(Landed(mem, at, d))
  {
    LandedInside(mem, at, d);
    assert Programmed(mem, at, d)[..HEADER_SIZE] == mem[..HEADER_SIZE];
  }

  lemma FinishIsHarmless(cfg: Config, s: State, m: Msg, f: Fault)
    requires Inv(cfg, s) && |s.area| == cfg.size && cfg.size >= HEADER_SIZE && MsgOk(cfg, m, f) && Finishes(cfg, s, m, f)
    requires HEADER_SIZE + s.rec.value.reced + |m.data| <= cfg.size && HeaderBlank(Received(s, m, f))
    requires f.header.Some? ==>
               TornSafe(cfg, State(Received(s, m, f), None), s.rec.value.len, s.rec.value.crc, f.header.value)
    ensures Describes(cfg, Received(s, m, f), HeaderLanded(Received(s, m, f), 0, HeaderSent(cfg, s.rec.value, f)))
  {
    hide HeaderSafe, Bootable, HeaderBlank, Landed, HeaderLanded, Describes, TornSafe, Header;
    var r := s.rec.value;
    var t := State(Received(s, m, f), None);
    HeaderLength(cfg, r.len, r.crc);
    var k := if f.header.Some? then f.header.value else HEADER_SIZE;
    assert Header(cfg, r.len, r.crc)[..HEADER_SIZE] == Header(cfg, r.len, r.crc);
    if f.header.None? {
      WholeHeaderSafe(cfg, t, r.len, r.crc);
    }
    TornHeader(cfg, t, r.len, r.crc, k);
    HeaderIsSafe(cfg, t, HeaderSent(cfg, r, f));
  }

  // ---- Runs with power loss ----

  /** A message, what goes wrong, after how many operations power fails, and, if it fails in
      the erase of a block, what that leaves of the block. */
  datatype Event = Event(m: Msg, f: Fault, cut: nat, junk: Option<seq<byte>>)

  predicate EventOk(cfg: Config, e: Event) {
    MsgOk(cfg, e.m, e.f) && (e.junk.Some? ==> |e.junk.value| == cfg.blkSize)
  }

  /** Power fails in the erase of a block. */
  predicate Tears(cfg: Config, s: State, e: Event)
    requires |s.area| == cfg.size < U32 && EventOk(cfg, e)
  {
    var ops := Ops(cfg, s, e.m, e.f);
    e.junk.Some? && e.cut < |ops| && ops[e.cut].EraseBlock?
  }

  function Done(cfg: Config, s: State, e: Event): seq<Op>
    requires |s.area| == cfg.size < U32 && EventOk(cfg, e)
  {
    var ops := Ops(cfg, s, e.m, e.f);
    if Tears(cfg, s, e) then ops[..e.cut] + [Scramble(ops[e.cut].i, e.junk.value)]
    else if e.cut < |ops| then ops[..e.cut]
    else ops
  }

  function After(cfg: Config, s: State, e: Event): (r: State)
    requires |s.area| == cfg.size < U32 && EventOk(cfg, e) && AllFit(cfg, Done(cfg, s, e))
    ensures |r.area| == cfg.size
  {
    ApplyAll(cfg, s, Done(cfg, s, e))
  }

  /** The message is harmless, and so is a torn erase of the header's block. */
  ghost predicate HarmlessEvent(cfg: Config, s: State, e: Event)
    requires |s.area| == cfg.size < U32 && HEADER_SIZE <= cfg.blkSize <= cfg.size && EventOk(cfg, e)
  {
    && Harmless(cfg, s, e.m, e.f)
    && (Tears(cfg, s, e) && e.cut == 0 ==> ScrambleSafe(cfg, s, e.junk.value))
  }

  ghost predicate HarmlessRun(cfg: Config, s: State, run: seq<Event>)
    requires |s.area| == cfg.size
    decreases |run|
  {
    run == [] ||
    (&& HEADER_SIZE <= cfg.blkSize <= cfg.size < U32 && EventOk(cfg, run[0]) && HarmlessEvent(cfg, s, run[0])
     && AllFit(cfg, Done(cfg, s, run[0]))
     && HarmlessRun(cfg, After(cfg, s, run[0]), run[1..]))
  }

  ghost function RunAll(cfg: Config, s: State, run: seq<Event>): (r: State)
    requires |s.area| == cfg.size && HarmlessRun(cfg, s, run)
    ensures |r.area| == cfg.size
    decreases |run|
  {
    if run == [] then s else RunAll(cfg, After(cfg, s, run[0]), run[1..])
  }

  /** Only a format erases, its blocks in order. */
  lemma TearsInFormat(cfg: Config, s: State, e: Event)
    requires |s.area| == cfg.size < U32 && EventOk(cfg, e) && Tears(cfg, s, e)
    ensures e.m.Init? || FormatsFirst(s, e.m)
    ensures e.cut < e.f.erased && Ops(cfg, s, e.m, e.f)[..e.cut] == EraseOps(e.cut)
    ensures Ops(cfg, s, e.m, e.f)[e.cut] == EraseBlock(e.cut)
    ensures Done(cfg, s, e) == EraseOps(e.cut) + [Scramble(e.cut, e.junk.value)]
  {
    hide Complete, HeaderSent, Place, TornRecord;
    var ops := Ops(cfg, s, e.m, e.f);
    assert ops[e.cut] in ops;
  }

  lemma EventKeepsInv(cfg: Config, s: State, e: Event)
    requires Inv(cfg, s) && HEADER_SIZE <= cfg.blkSize <= cfg.size && |s.area| == cfg.size < U32
    requires EventOk(cfg, e) && HarmlessEvent(cfg, s, e)
    ensures |s.area| == cfg.size < U32 && AllFit(cfg, Done(cfg, s, e)) && Inv(cfg, After(cfg, s, e))
  {
    hide Inv, Ops, AllKeep, Harmless, MsgOk, ScrambleSafe;
    InvSize(cfg, s);
    var ops := Ops(cfg, s, e.m, e.f);
    if Tears(cfg, s, e) {
      TearsInFormat(cfg, s, e);
      MsgSize(cfg, e.m, e.f);
      TornEraseKeeps(cfg, s, e.cut, e.junk.value);
    } else {
      MessageKeeps(cfg, s, e.m, e.f);
      var k := if e.cut < |ops| then e.cut else |ops|;
      assert ops[..|ops|] == ops;
      CutKeepsInv(cfg, s, ops, k);
    }
  }

  lemma MsgSize(cfg: Config, m: Msg, f: Fault)
    requires MsgOk(cfg, m, f)
    ensures f.erased <= |cfg.tbl|
  {
  }

  lemma TornEraseKeeps(cfg: Config, s: State, i: nat, junk: seq<byte>)
    requires Inv(cfg, s) && |s.area| == cfg.size < U32 && HEADER_SIZE <= cfg.blkSize <= cfg.size
    requires i < |cfg.tbl| && |junk| == cfg.blkSize && (i == 0 ==> ScrambleSafe(cfg, s, junk))
    ensures AllFit(cfg, EraseOps(i) + [Scramble(i, junk)])
    ensures Inv(cfg, ApplyAll(cfg, s, EraseOps(i) + [Scramble(i, junk)]))
  {
    hide HeaderSafe, HeaderBlank, ScrambleSafe;
    ErasesKeep(cfg, s, i);
    var t := ApplyAll(cfg, s, EraseOps(i));
    assert EraseOps(0) == [];
    OpKeepsInv(cfg, t, Scramble(i, junk));
    ApplyAllAppend(cfg, s, EraseOps(i), Scramble(i, junk));
  }

  /** Over any run of messages, faults and power losses, a boot header stands only over an
      image with its checksum, and never beside a transfer record. */
  lemma {:induction false} RunKeepsHeaderSafe(cfg: Config, s: State, run: seq<Event>)
    requires Inv(cfg, s) && |s.area| == cfg.size && HarmlessRun(cfg, s, run)
    ensures Inv(cfg, RunAll(cfg, s, run)) && HeaderSafe(cfg, RunAll(cfg, s, run))
    decreases |run|
  {
    hide HeaderSafe, EventOk, HarmlessEvent, After, Done;
    if run != [] {
      EventKeepsInv(cfg, s, run[0]);
      RunKeepsHeaderSafe(cfg, After(cfg, s, run[0]), run[1..]);
    }
  }

  // ---- When the receiver resets ----

  /** A header that says where the image goes, whose it is, how long it is and its checksum,
      over the image of record `r`. */
  ghost predicate Released(cfg: Config, s: State, r: Record)
    requires |s.area| == cfg.size
  {
    && Bootable(s.area) && s.rec.None?
    && HeaderDest(s.area) == cfg.dest && HeaderId(s.area) == cfg.id
    && HeaderLen(s.area) == r.len && HeaderCrc(s.area) == r.crc
    && HEADER_SIZE + r.len <= cfg.size
    && cfg.Crc(s.area[HEADER_SIZE..HEADER_SIZE + r.len]) == r.crc
  }

  /** The memory once the chunk of a message, if it is waited for, is programmed. */
  function Received(s: State, m: Msg, f: Fault): (r: seq<byte>)
    requires m.Chunk? && f.data.Some? ==> f.data.value <= |m.data|
    ensures |r| == |s.area|
  {
    if Waited(s, m) then Landed(s.area, Place(s.rec.value), Sent(m, f)) else s.area
  }

  /** The sender is told to expect a reset exactly when the chunk finishes the image and the
      header program succeeds.  If the chunk leaves the header's place blank, that is exactly
      when this message made the area bootable by a program that succeeded, and the header
      then carries the place to copy the image to, the receiver's identifier, and the announced
      length and checksum of the image. */
  lemma ResetExactly(cfg: Config, s: State, m: Msg, f: Fault)
    requires Inv(cfg, s) && MsgOk(cfg, m, f)
    ensures |s.area| == cfg.size < U32 && AllFit(cfg, Ops(cfg, s, m, f))
    ensures ReplyTo(cfg, s, m, f).reset <==> Finishes(cfg, s, m, f) && f.header.None?
    ensures var s' := ApplyAll(cfg, s, Ops(cfg, s, m, f));
            (Waited(s, m) ==> HeaderBlank(Received(s, m, f))) ==>
              && (ReplyTo(cfg, s, m, f).reset <==> !Bootable(s.area) && Bootable(s'.area) && f.header.None?)
              && (ReplyTo(cfg, s, m, f).reset && HEADER_SIZE + s.rec.value.len <= cfg.size ==>
                    Released(cfg, s', s.rec.value))
  {
    hide HeaderSafe, HeaderBlank, Bootable, Landed, Header, HeaderSent, Complete, Released, Place;
    InvSize(cfg, s);
    OpsFit(cfg, s, m, f);
    match m
    case Begin(restart, len, crc) =>
      if restart || s.rec.None? {
        ErasesDoNotBoot(cfg, s, f.erased);
        BeginEffect(cfg, s, m, f);
      }
    case Chunk(cnt, data) =>
      if Waited(s, m) && HeaderBlank(Received(s, m, f)) {
        ChunkResets(cfg, s, m, f);
      }
    case Abort =>
    case Init =>
      ErasesDoNotBoot(cfg, s, f.erased);
      if f.erased == |cfg.tbl| {
        ApplyAllAppend(cfg, s, EraseOps(f.erased), ClearStore);
      } else {
        assert EraseOps(f.erased) + [] == EraseOps(f.erased);
      }
    case Other =>
  }

  lemma ErasesDoNotBoot(cfg: Config, s: State, n: nat)
    requires Inv(cfg, s) && n <= |cfg.tbl|
    ensures |s.area| == cfg.size && AllFit(cfg, EraseOps(n))
    ensures Bootable(ApplyAll(cfg, s, EraseOps(n)).area) ==> Bootable(s.area)
  {
    ErasesKeep(cfg, s, n);
    if n > 0 {
      BlankIsNotBootable(ApplyAll(cfg, s, EraseOps(n)).area);
    }
  }

  lemma ChunkResets(cfg: Config, s: State, m: Msg, f: Fault)
    requires Inv(cfg, s) && MsgOk(cfg, m, f) && Waited(s, m) && |s.area| == cfg.size < U32
    requires HeaderBlank(Received(s, m, f)) && AllFit(cfg, Ops(cfg, s, m, f))
    ensures var s' := ApplyAll(cfg, s, Ops(cfg, s, m, f));
            && !Bootable(s.area)
            && (Finishes(cfg, s, m, f) && f.header.None? <==> Bootable(s'.area) && f.header.None?)
            && (Finishes(cfg, s, m, f) && f.header.None? && HEADER_SIZE + s.rec.value.len <= cfg.size ==>
                  Released(cfg, s', s.rec.value))
  {
    hide HeaderBlank, Bootable, Landed, Header, Released, Place, StoreOps;
    var r := s.rec.value;
    OpenIsNotBootable(cfg, s);
    var ops := Ops(cfg, s, m, f);
    var t := Apply(cfg, s, ops[0]);
    BlankIsNotBootable(t.area);
    if f.data.Some? {
      OneOp(cfg, s, ops[0]);
      assert ops == [ops[0]];
    } else {
      var rest := ChunkOps(cfg, s, r, m.data, f);
      assert ops[1..] == rest;
      if Advanced(r, |m.data|).reced < r.len {
        StoreEffect(cfg, t, Advanced(r, |m.data|), f.store);
      } else if Complete(cfg, s, r, m.data, f.beyond) && f.header.None? {
        ReleaseWrites(cfg, t, r);
      } else {
        assert f.header.Some? || rest == [];
      }
    }
  }

  lemma OpenIsNotBootable(cfg: Config, s: State)
    requires Inv(cfg, s) && s.rec.Some?
    ensures !Bootable(s.area)
  {
  }

  /** A begin message that formats: what was erased, and the record as it was stored. */
  lemma BeginEffect(cfg: Config, s: State, m: Msg, f: Fault)
    requires |s.area| == cfg.size < U32 && cfg.Valid() && MsgOk(cfg, m, f)
    requires m.Begin? && (m.restart || s.rec.None?)
    ensures AllFit(cfg, Ops(cfg, s, m, f)) && AllFit(cfg, EraseOps(f.erased))
    ensures ApplyAll(cfg, s, Ops(cfg, s, m, f)) ==
            ApplyAll(cfg, s, EraseOps(f.erased)).(rec := StoredRecord(s.rec, Record(1, m.crc, 0, m.len), f.store))
  {
    hide StoreOps, StoredRecord;
    var t := ApplyAll(cfg, s, EraseOps(f.erased));
    ErasesKeepRecord(cfg, s, f.erased);
    StoreEffect(cfg, t, Record(1, m.crc, 0, m.len), f.store);
    ApplyAllJoin(cfg, s, EraseOps(f.erased), StoreOps(s.rec, Record(1, m.crc, 0, m.len), f.store));
  }

  lemma {:induction false} ErasesKeepRecord(cfg: Config, s: State, n: nat)
    requires |s.area| == cfg.size && cfg.Valid() && n <= |cfg.tbl|
    ensures AllFit(cfg, EraseOps(n)) && ApplyAll(cfg, s, EraseOps(n)).rec == s.rec
    decreases n
  {
    if n > 0 {
      ErasesKeepRecord(cfg, s, n - 1);
      assert EraseOps(n) == EraseOps(n - 1) + [EraseBlock(n - 1)];
      ApplyAllAppend(cfg, s, EraseOps(n - 1), EraseBlock(n - 1));
    }
  }

  /** What a chunk that is waited for is answered, as long as a store does not stop half-way:
      OK exactly when it moved the record on or released the image, and the count of bytes the
      record holds, unless a program that succeeded did not move the record. */
  lemma ChunkReply(cfg: Config, s: State, data: seq<byte>, f: Fault)
    requires Inv(cfg, s) && s.rec.Some? && MsgOk(cfg, Chunk(s.rec.value.cnt, data), f)
    requires f.store.None? || f.store == Some(0)
    ensures var m := Chunk(s.rec.value.cnt, data);
            && |s.area| == cfg.size < U32 && AllFit(cfg, Ops(cfg, s, m, f))
            && var s', reply := ApplyAll(cfg, s, Ops(cfg, s, m, f)), ReplyTo(cfg, s, m, f);
               && (f.store.None? && f.header.None? ==> (reply.ok <==> s'.rec != s.rec))
               && (s'.rec.Some? ==> (reply.reced == s'.rec.value.reced <==>
                                     s'.rec != s.rec || f.data.Some? || data == []))
  {
    hide HeaderSafe, HeaderBlank, Landed, Header, HeaderSent, Complete, StoreOps, Place;
    InvSize(cfg, s);
    var r, m := s.rec.value, Chunk(s.rec.value.cnt, data);
    OpsFit(cfg, s, m, f);
    var ops := Ops(cfg, s, m, f);
    var t := Apply(cfg, s, ops[0]);
    if f.data.Some? {
      OneOp(cfg, s, ops[0]);
      assert ops == [ops[0]];
    } else {
      var rest := ChunkOps(cfg, s, r, data, f);
      assert ops[1..] == rest;
      if Advanced(r, |data|).reced < r.len {
        StoreEffect(cfg, t, Advanced(r, |data|), f.store);
      } else if Complete(cfg, s, r, data, f.beyond) {
        TwoOps(cfg, t, Delete, rest[1]);
      }
    }
  }

  /** The answer to a begin message is an error exactly when a fresh record cannot be stored.
      Otherwise it tells the sender where to go on: at the start of the fresh record, or where
      the open transfer stands, which is then left alone. */
  lemma BeginReply(cfg: Config, s: State, m: Msg, f: Fault)
    requires Inv(cfg, s) && m.Begin? && MsgOk(cfg, m, f)
    ensures |s.area| == cfg.size < U32 && AllFit(cfg, Ops(cfg, s, m, f))
    ensures var s', reply := ApplyAll(cfg, s, Ops(cfg, s, m, f)), ReplyTo(cfg, s, m, f);
            && (reply.ok <==> f.store.None? || (!m.restart && s.rec.Some?))
            && (reply.ok ==> s'.rec.Some? && reply.reced == s'.rec.value.reced)
            && (m.restart || s.rec.None? ==> reply.ok ==> s'.rec == Some(Record(1, m.crc, 0, m.len)))
            && (!m.restart && s.rec.Some? ==> s' == s)
  {
    hide HeaderSafe, HeaderBlank, StoreOps;
    InvSize(cfg, s);
    if m.restart || s.rec.None? {
      BeginEffect(cfg, s, m, f);
    }
  }

  /** A chunk the transfer waits for, inside the memory, with more to come and no fault: its
      bytes are programmed behind those received, the count moves on and wraps at 16 bits. */
  lemma ChunkTaken(cfg: Config, s: State, data: seq<byte>, f: Fault)
    requires Inv(cfg, s) && s.rec.Some? && MsgOk(cfg, Chunk(s.rec.value.cnt, data), f)
    requires f.data.None? && f.store.None?
    requires s.rec.value.reced + |data| < s.rec.value.len && HEADER_SIZE + s.rec.value.reced + |data| <= cfg.size
    ensures var r, m := s.rec.value, Chunk(s.rec.value.cnt, data);
            && |s.area| == cfg.size < U32 && AllFit(cfg, Ops(cfg, s, m, f))
            && ApplyAll(cfg, s, Ops(cfg, s, m, f)) ==
               State(Programmed(s.area, HEADER_SIZE + r.reced, data),
                     Some(Record(if r.cnt == 0xFFFF then 0 else r.cnt + 1, r.crc, r.reced + |data|, r.len)))
            && ReplyTo(cfg, s, m, f) == Reply(true, false, r.reced + |data|)
  {
    hide HeaderSafe, HeaderBlank, Landed, Programmed, StoreOps;
    InvSize(cfg, s);
    var r, m := s.rec.value, Chunk(s.rec.value.cnt, data);
    OpsFit(cfg, s, m, f);
    PlaceInside(cfg, r, |data|);
    LandedInside(s.area, HEADER_SIZE + r.reced, data);
    var ops := Ops(cfg, s, m, f);
    assert ops[1..] == ChunkOps(cfg, s, r, data, f);
    StoreEffect(cfg, Apply(cfg, s, ops[0]), Advanced(r, |data|), f.store);
  }

  lemma PlaceInside(cfg: Config, r: Record, n: nat)
    requires HEADER_SIZE + r.reced + n <= cfg.size < U32
    ensures Place(r) == HEADER_SIZE + r.reced && Advanced(r, n).reced == r.reced + n
  {
  }

  /** A chunk that brings the announced length, inside the memory and with no fault: the image
      is released exactly when its checksum is the announced one, and the record stays where
      it was otherwise. */
  lemma ImageReleased(cfg: Config, s: State, data: seq<byte>, f: Fault)
    requires Inv(cfg, s) && s.rec.Some? && MsgOk(cfg, Chunk(s.rec.value.cnt, data), f)
    requires f.data.None? && f.header.None?
    requires s.rec.value.len <= s.rec.value.reced + |data| && HEADER_SIZE + s.rec.value.reced + |data| <= cfg.size
    ensures var r, m := s.rec.value, Chunk(s.rec.value.cnt, data);
            var got := Programmed(s.area, HEADER_SIZE + r.reced, data);
            var whole := cfg.Crc(got[HEADER_SIZE..HEADER_SIZE + r.len]) == r.crc;
            && |s.area| == cfg.size < U32 && AllFit(cfg, Ops(cfg, s, m, f))
            && ApplyAll(cfg, s, Ops(cfg, s, m, f)) ==
               (if whole then State(Programmed(got, 0, Header(cfg, r.len, r.crc)), None) else State(got, s.rec))
            && ReplyTo(cfg, s, m, f) == Reply(whole, whole, r.reced + |data|)
  {
    hide HeaderSafe, HeaderBlank, Landed, Programmed, Header;
    InvSize(cfg, s);
    var r, m := s.rec.value, Chunk(s.rec.value.cnt, data);
    OpsFit(cfg, s, m, f);
    PlaceInside(cfg, r, |data|);
    LandedInside(s.area, HEADER_SIZE + r.reced, data);
    var ops := Ops(cfg, s, m, f);
    var t := Apply(cfg, s, ops[0]);
    var rest := ChunkOps(cfg, s, r, data, f);
    assert ops[1..] == rest;
    if Complete(cfg, s, r, data, f.beyond) {
      HeaderLength(cfg, r.len, r.crc);
      TwoOps(cfg, t, Delete, rest[1]);
      LandedInside(t.area, 0, Header(cfg, r.len, r.crc));
    }
  }

  /** Abort removes the record and touches nothing else; there being none is its one error. */
  lemma AbortEnds(cfg: Config, s: State, f: Fault)
    requires Inv(cfg, s) && MsgOk(cfg, Abort, f)
    ensures |s.area| == cfg.size < U32 && AllFit(cfg, Ops(cfg, s, Abort, f))
    ensures ApplyAll(cfg, s, Ops(cfg, s, Abort, f)) == State(s.area, None)
    ensures ReplyTo(cfg, s, Abort, f) == Reply(s.rec.Some?, false, 0)
  {
    hide HeaderSafe;
    InvSize(cfg, s);
    if s.rec.Some? {
      OneOp(cfg, s, Delete);
    }
  }

  /** Init formats the area block by block and forgets the record if no block fails; a failed
      format is an error and leaves the record. */
  lemma InitClears(cfg: Config, s: State, f: Fault)
    requires Inv(cfg, s) && MsgOk(cfg, Init, f)
    ensures |s.area| == cfg.size < U32 && AllFit(cfg, Ops(cfg, s, Init, f)) && AllFit(cfg, EraseOps(f.erased))
    ensures var s' := ApplyAll(cfg, s, Ops(cfg, s, Init, f));
            && s'.area == ApplyAll(cfg, s, EraseOps(f.erased)).area
            && s'.rec == (if f.erased < |cfg.tbl| then s.rec else None)
    ensures ReplyTo(cfg, s, Init, f) == Reply(f.erased == |cfg.tbl| && f.store.None?, false, 0)
  {
    hide HeaderSafe;
    InvSize(cfg, s);
    ErasesKeepRecord(cfg, s, f.erased);
    if f.erased == |cfg.tbl| {
      ApplyAllAppend(cfg, s, EraseOps(f.erased), ClearStore);
    } else {
      assert EraseOps(f.erased) + [] == EraseOps(f.erased);
    }
  }

  lemma ReleaseWrites(cfg: Config, t: State, r: Record)
    requires cfg.Valid() && |t.area| == cfg.size && t.rec == Some(r) && Storable(r) && HeaderBlank(t.area)
    ensures AllFit(cfg, [Delete, Program(0, Header(cfg, r.len, r.crc))])
    ensures var s' := ApplyAll(cfg, t, [Delete, Program(0, Header(cfg, r.len, r.crc))]);
            && Bootable(s'.area)
            && (HEADER_SIZE + r.len <= cfg.size && cfg.Crc(t.area[HEADER_SIZE..HEADER_SIZE + r.len]) == r.crc ==>
                  Released(cfg, s', r))
  {
    hide HeaderSafe, Programmed, Landed, Header, Splice;
    var h := Header(cfg, r.len, r.crc);
    HeaderLength(cfg, r.len, r.crc);
    TwoOps(cfg, t, Delete, Program(0, h));
    LandedInside(t.area, 0, h);
    ProgramHeader(t.area, h);
    var area := Programmed(t.area, 0, h);
    assert area[..HEADER_SIZE] == h == h[..HEADER_SIZE];
    ShorterPrefix(area, h, HEADER_SIZE, 20);
    HeaderFields(cfg, r.len, r.crc, area);
    ProgrammedLength(t.area, 0, h);
    SameImage(t.area, area, r.len);
  }

  // ---- Where header safety ends ----

  /** The format at the start of a transfer is not checked.  However many blocks it erases,
      the new transfer opens with a safe header exactly if the header's block was among them
      or no boot header was there. */
  lemma FailedFormat(cfg: Config, s: State, m: Msg, f: Fault)
    requires Inv(cfg, s) && m.Begin? && (m.restart || s.rec.None?) && MsgOk(cfg, m, f) && f.store.None?
    ensures |s.area| == cfg.size < U32 && AllFit(cfg, Ops(cfg, s, m, f))
    ensures HeaderSafe(cfg, ApplyAll(cfg, s, Ops(cfg, s, m, f))) <==> f.erased > 0 || !Bootable(s.area)
  {
    hide HeaderBlank, Bootable, StoreOps;
    InvSize(cfg, s);
    BeginEffect(cfg, s, m, f);
    ErasesKeep(cfg, s, f.erased);
    if f.erased > 0 {
      BlankIsNotBootable(ApplyAll(cfg, s, EraseOps(f.erased)).area);
    } else {
      assert EraseOps(0) == [];
    }
  }

  // ---- The handler as it runs ----

  class Receiver {
    const cfg: Config
    var area: seq<byte>
    var rec: Option<Record>
    /** Every flash and store operation carried out, oldest first. */
    ghost var trace: seq<Op>

    ghost function Now(): State
      reads this
    {
      State(area, rec)
    }

    ghost predicate Valid()
      reads this
    {
      cfg.Valid() && |area| == cfg.size
    }

    constructor (cfg: Config, area: seq<byte>, rec: Option<Record>)
      requires cfg.Valid() && |area| == cfg.size
      ensures Valid() && Now() == State(area, rec) && this.cfg == cfg && trace == []
    {
      this.cfg, this.area, this.rec, this.trace := cfg, area, rec, [];
    }

    /** flash_Erase of one block. */
    method EraseOne(i: nat)
      requires Valid() && i < |cfg.tbl|
      modifies this`area, this`trace
      ensures Valid() && Now() == Apply(cfg, old(Now()), EraseBlock(i)) && trace == old(trace) + [EraseBlock(i)]
    {
      area := Splice(area, cfg.tbl[i], Blank(cfg.blkSize));
      trace := trace + [EraseBlock(i)];
    }

    /** flash_Program; on failure only the first `fault` bytes are programmed. */
    method ProgramSome(off: nat, data: seq<byte>, fault: Option<nat>) returns (ok: bool)
      requires Valid() && (fault.Some? ==> fault.value <= |data|)
      modifies this`area, this`trace
      ensures var done := if fault.Some? then data[..fault.value] else data;
              && Valid() && Now() == Apply(cfg, old(Now()), Program(off, done))
              && trace == old(trace) + [Program(off, done)]
      ensures ok == fault.None?
    {
      ghost var done := if fault.Some? then data[..fault.value] else data;
      area := Landed(area, off, if fault.Some? then data[..fault.value] else data);
      trace := trace + [Program(off, done)];
      ok := fault.None?;
    }

    /** sfs_Write of the record: `fault` says how far it gets. */
    method StoreRecord(r: Record, fault: Option<nat>) returns (ok: bool)
      requires Valid() && (fault.Some? ==> fault.value <= RECORD_SIZE + 2)
      modifies this`rec, this`trace
      ensures Valid() && Now() == old(Now()).(rec := StoredRecord(old(rec), r, fault))
      ensures trace == old(trace) + StoreOps(old(rec), r, fault) && ok == fault.None?
    {
      if fault == Some(0) {
        return false;
      }
      if rec.Some? {
        rec := None;
        trace := trace + [Delete];
      }
      if fault == Some(1) {
        return false;
      }
      var written := if fault.Some? then fault.value - 2 else 0;
      rec := Some(TornRecord(r, written));
      trace := trace + [Store(rec.value)];
      if fault.None? {
        rec := Some(r);
        trace := trace + [Store(r)];
      }
      ok := fault.None?;
    }

    /** gdfts_DataFormat: erase block after block, stopping at the first failure. */
    method DataFormat(good: nat) returns (ok: bool)
      requires Valid() && good <= |cfg.tbl|
      modifies this`area, this`trace
      ensures Valid() && AllFit(cfg, EraseOps(good)) && Now() == ApplyAll(cfg, old(Now()), EraseOps(good))
      ensures trace == old(trace) + EraseOps(good) && ok == (good == |cfg.tbl|)
    {
      hide Splice, Apply;
      var i := 0;
      while i < |cfg.tbl|
        invariant 0 <= i <= good && Valid()
        invariant AllFit(cfg, EraseOps(i)) && Now() == ApplyAll(cfg, old(Now()), EraseOps(i))
        invariant trace == old(trace) + EraseOps(i)
      {
        if i == good {
          break;
        }
        assert EraseOps(i + 1) == EraseOps(i) + [EraseBlock(i)];
        ApplyAllAppend(cfg, old(Now()), EraseOps(i), EraseBlock(i));
        EraseOne(i);
        i := i + 1;
      }
      ok := i == |cfg.tbl|;
    }

    /** The record deleted and the boot header programmed. */
    method ReleaseImage(r: Record, fault: Option<nat>) returns (ok: bool)
      requires Valid() && (fault.Some? ==> fault.value <= HEADER_SIZE)
      modifies this`area, this`rec, this`trace
      ensures var h := if fault.Some? then Header(cfg, r.len, r.crc)[..fault.value] else Header(cfg, r.len, r.crc);
              && Valid() && Now() == Apply(cfg, Apply(cfg, old(Now()), Delete), Program(0, h))
              && trace == old(trace) + [Delete, Program(0, h)]
      ensures ok == fault.None?
    {
      hide Landed, Header;
      HeaderLength(cfg, r.len, r.crc);
      rec := None;
      trace := trace + [Delete];
      ok := ProgramSome(0, Header(cfg, r.len, r.crc), fault);
    }

    /** The TRANS case with a count: a chunk of the image. */
    method HandleChunk(cnt: nat, data: seq<byte>, f: Fault) returns (reply: Reply)
      requires Valid() && MsgOk(cfg, Chunk(cnt, data), f)
      modifies this`area, this`rec, this`trace
      ensures Valid() && AllFit(cfg, old(Ops(cfg, Now(), Chunk(cnt, data), f)))
      ensures Now() == ApplyAll(cfg, old(Now()), old(Ops(cfg, Now(), Chunk(cnt, data), f)))
      ensures trace == old(trace) + old(Ops(cfg, Now(), Chunk(cnt, data), f))
      ensures reply == old(ReplyTo(cfg, Now(), Chunk(cnt, data), f))
    {
      hide Landed, Splice, Header, TornRecord, StoreOps, StoredRecord, Place;
      ghost var s, m := Now(), Chunk(cnt, data);
      ghost var ops := Ops(cfg, s, m, f);
      OpsFit(cfg, s, m, f);
      if rec.None? || rec.value.cnt != cnt {
        return Reply(false, false, if rec.None? then 0 else rec.value.reced);
      }
      var r := rec.value;
      var ok := ProgramSome(Place(r), data, f.data);
      ghost var t := Now();
      assert ops[0] == Program(Place(r), Sent(m, f)) && t == Apply(cfg, s, ops[0]);
      if !ok {
        OneOp(cfg, s, ops[0]);
        assert ops == [ops[0]];
        return Reply(false, false, r.reced);
      }
      ghost var rest := ChunkOps(cfg, s, r, data, f);
      assert ops[1..] == rest && ops == [ops[0]] + rest;
      assert ApplyAll(cfg, s, ops) == ApplyAll(cfg, t, rest);
      var r' := r.(cnt := (r.cnt + 1) % U16, reced := (r.reced + |data|) % U32);
      reply := Reply(false, false, r'.reced);
      if r'.reced < r.len {
        StoreEffect(cfg, t, r', f.store);
        var _ := StoreRecord(r', f.store);
        reply := reply.(ok := true);
      } else {
        var crc := if HEADER_SIZE + r.len <= |area| then cfg.Crc(area[HEADER_SIZE..HEADER_SIZE + r.len]) else f.beyond % U16;
        if r.crc == crc {
          TwoOps(cfg, t, Delete, rest[1]);
          ok := ReleaseImage(r, f.header);
          if ok {
            reply := reply.(ok := true, reset := true);
          }
        }
      }
    }

    /** gdfts_Handler; a wrong password reaches no operation. */
    method Handle(auth: bool, m: Msg, f: Fault) returns (reply: Reply)
      requires Valid() && MsgOk(cfg, m, f)
      modifies this`area, this`rec, this`trace
      ensures Valid()
      ensures !auth ==> Now() == old(Now()) && trace == old(trace) && !reply.ok && !reply.reset
      ensures auth ==> AllFit(cfg, old(Ops(cfg, Now(), m, f)))
      ensures auth ==> Now() == ApplyAll(cfg, old(Now()), old(Ops(cfg, Now(), m, f)))
      ensures auth ==> trace == old(trace) + old(Ops(cfg, Now(), m, f)) && reply == old(ReplyTo(cfg, Now(), m, f))
    {
      hide Landed, Splice, Header, ChunkOps, Place, StoreOps, StoredRecord, TornRecord;
      if !auth {
        return Reply(false, false, 0);
      }
      ghost var s := Now();
      match m {
        case Begin(restart, len, crc) =>
          if restart || rec.None? {
            var _ := DataFormat(f.erased);
            ErasesKeepRecord(cfg, s, f.erased);
            BeginEffect(cfg, s, m, f);
            var stored := StoreRecord(Record(1, crc, 0, len), f.store);
            reply := Reply(stored, false, 0);
          } else {
            reply := Reply(true, false, rec.value.reced);
          }
        case Chunk(cnt, data) =>
          reply := HandleChunk(cnt, data, f);
        case Abort =>
          reply := Reply(rec.Some?, false, 0);
          if rec.Some? {
            rec := None;
            trace := trace + [Delete];
            assert [Delete][1..] == [];
          }
        case Init =>
          var ok := DataFormat(f.erased);
          if ok {
            rec := None;
            trace := trace + [ClearStore];
            ApplyAllAppend(cfg, s, EraseOps(f.erased), ClearStore);
          } else {
            assert EraseOps(f.erased) + [] == EraseOps(f.erased);
          }
          reply := Reply(ok && f.store.None?, false, 0);
        case Other =>
          reply := Reply(false, false, 0);
      }
    }
  }
}

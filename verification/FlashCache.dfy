/** mtd/flash.c: one sector buffer in front of the internal flash and the SPI flash.

    `State` holds the buffer and both memories as values; the functions below say what each
    call makes of it, and the class FlashBuffer runs the calls on the buffer and the chips.
    The memory a caller sees, `View`, is the device with the buffered sector laid over it. */
module FlashCache {
  import opened Bytes
  import opened Multiples
  import opened SpiNor
  import opened FlashJournal

  datatype Dev = Null | Int | Spi

  /** Board constants: the internal flash, the SPI sectors and the reserved shadow sector. */
  datatype Config = Config(intBase: nat, intSize: nat, intBlk: nat, spiSecs: nat, protect: Option<nat>) {
    ghost predicate Valid() {
      && 0 < intBlk <= SECTOR
      && Aligned(intBase, intBlk) && Aligned(intSize, intBlk)
      && (protect.Some? ==> protect.value < spiSecs)
    }

    function Blk(dev: Dev): nat {
      if dev == Int then intBlk else SECTOR
    }

    /** The sector number the code computes for an address, and the offset in it. */
    function Sec(dev: Dev, adr: nat): nat
      requires Blk(dev) > 0
    {
      adr / Blk(dev)
    }

    function Off(dev: Dev, adr: nat): nat
      requires Blk(dev) > 0
    {
      adr % Blk(dev)
    }

    function Base(dev: Dev): nat {
      if dev == Int then intBase else 0
    }

    function Size(dev: Dev): nat {
      match dev
      case Null => 0
      case Int => intSize
      case Spi => spiSecs * SECTOR
    }
  }

  predicate Aligned(a: nat, b: nat)
    requires b > 0
  {
    a % b == 0
  }

  datatype State = State(dev: Dev, sec: int, dirty: nat, fbuf: seq<byte>,
                         intm: seq<byte>, spi: seq<byte>, rec: Option<int>)

  function Mem(s: State, dev: Dev): seq<byte> {
    match dev
    case Null => []
    case Int => s.intm
    case Spi => s.spi
  }

  /** Where sector `sec` starts in the memory of its device. */
  function Start(cfg: Config, dev: Dev, sec: int): int {
    sec * cfg.Blk(dev) - cfg.Base(dev)
  }

  ghost predicate HasSec(cfg: Config, dev: Dev, sec: int) {
    && dev != Null && sec >= 0
    && 0 <= Start(cfg, dev, sec) && Start(cfg, dev, sec) + cfg.Blk(dev) <= cfg.Size(dev)
    && (dev == Spi ==> cfg.protect != Some(sec))
  }

  ghost predicate Wf(cfg: Config, s: State) {
    && cfg.Valid()
    && |s.fbuf| == SECTOR
    && |s.intm| == cfg.intSize && |s.spi| == cfg.spiSecs * SECTOR
    && (if s.dev == Null then s.sec == -1 else HasSec(cfg, s.dev, s.sec))
  }

  /** A buffer marked clean holds what its device holds. */
  ghost predicate Synced(cfg: Config, s: State)
    requires Wf(cfg, s)
  {
    s.dev != Null && s.dirty == 0 ==> View(cfg, s, s.dev) == Visible(cfg, s.dev, Mem(s, s.dev))
  }

  /** The shadow sector is no part of the memory callers see. */
  function Visible(cfg: Config, dev: Dev, m: seq<byte>): (r: seq<byte>)
    ensures |r| == |m|
  {
    if dev == Spi && cfg.protect.Some? && cfg.protect.value * SECTOR + SECTOR <= |m| then
      Splice(m, cfg.protect.value * SECTOR, Blank(SECTOR))
    else m
  }

  /** The memory of a device as callers see it. */
  ghost function View(cfg: Config, s: State, dev: Dev): (v: seq<byte>)
    requires Wf(cfg, s)
    ensures |v| == cfg.Size(dev)
  {
    if s.dev == dev && dev != Null then
      Visible(cfg, dev, Splice(Mem(s, dev), Start(cfg, dev, s.sec), s.fbuf[..cfg.Blk(dev)]))
    else Visible(cfg, dev, Mem(s, dev))
  }

  /** The bytes callers see at `adr` of a device. */
  ghost function ViewAt(cfg: Config, s: State, dev: Dev, adr: nat, n: nat): seq<byte>
    requires Wf(cfg, s) && InRange(cfg, dev, adr, n)
  {
    View(cfg, s, dev)[adr - cfg.Base(dev)..adr - cfg.Base(dev) + n]
  }

  // ---- _flash_Flush ----

  predicate FlushDue(s: State, delay: nat, now: nat) {
    s.sec != -1 && s.dirty != 0 && (delay == 0 || s.dirty > now || now - s.dirty >= delay)
  }

  ghost function WriteBack(cfg: Config, s: State): State
    requires Wf(cfg, s)
  {
    match s.dev
    case Null => s
    case Int =>
      if cfg.intBase <= s.sec * cfg.intBlk < cfg.intBase + cfg.intSize then
        s.(intm := Splice(s.intm, Start(cfg, Int, s.sec), s.fbuf[..cfg.intBlk]))
      else s
    case Spi =>
      var t := s.sec * SECTOR;
      match cfg.protect
      case Some(p) => s.(spi := Splice(Splice(s.spi, p * SECTOR, s.fbuf), t, s.fbuf), rec := None)
      case None => s.(spi := Splice(s.spi, t, s.fbuf))
  }

  ghost function Flush(cfg: Config, s: State, delay: nat, now: nat): (r: State)
    requires Wf(cfg, s)
    ensures Wf(cfg, r)
  {
    if FlushDue(s, delay, now) then WriteBack(cfg, s).(dirty := 0) else s
  }

  // ---- Reads and writes, one sector at a time ----

  function Min(a: nat, b: nat): nat {
    if a < b then a else b
  }

  /** The `n` bytes at `adr` do not cross the end of a sector. */
  predicate OneSector(cfg: Config, dev: Dev, adr: nat, n: nat) {
    cfg.Blk(dev) > 0 && cfg.Off(dev, adr) + n <= cfg.Blk(dev)
  }

  /** How much of `n` bytes at `adr` the sector of `adr` can take. */
  function Chunk(cfg: Config, dev: Dev, adr: nat, n: nat): (k: nat)
    requires cfg.Blk(dev) > 0 && n > 0
    ensures 0 < k <= n && OneSector(cfg, dev, adr, k)
  {
    Min(cfg.Blk(dev) - cfg.Off(dev, adr), n)
  }

  /** Addresses callers may use: on the device and clear of the shadow sector. */
  ghost predicate InRange(cfg: Config, dev: Dev, adr: nat, n: nat) {
    && dev != Null
    && cfg.Base(dev) <= adr && adr + n <= cfg.Base(dev) + cfg.Size(dev)
    && (dev == Spi && cfg.protect.Some? ==>
          adr + n <= cfg.protect.value * SECTOR || cfg.protect.value * SECTOR + SECTOR <= adr)
  }

  /** Bring a sector into the buffer, writing back the one there. */
  ghost function Load(cfg: Config, s: State, dev: Dev, sec: int, now: nat): (r: State)
    requires Wf(cfg, s) && HasSec(cfg, dev, sec)
    ensures Wf(cfg, r) && r.dev == dev && r.sec == sec
  {
    var f := Flush(cfg, s, 0, now);
    var at := Start(cfg, dev, sec);
    f.(fbuf := Splice(f.fbuf, 0, Mem(f, dev)[at..at + cfg.Blk(dev)]), sec := sec, dev := dev)
  }

  ghost function WriteChunk(cfg: Config, s: State, dev: Dev, adr: nat, d: seq<byte>, now: nat): (r: State)
    requires Wf(cfg, s) && InRange(cfg, dev, adr, |d|) && d != []
    requires OneSector(cfg, dev, adr, |d|)
    ensures Wf(cfg, r)
  {
    SectorOf(cfg, dev, adr, |d|);
    var sec := cfg.Sec(dev, adr);
    var l := if s.dev != dev || s.sec != sec then Load(cfg, s, dev, sec, now) else s;
    l.(fbuf := Splice(l.fbuf, cfg.Off(dev, adr), d), dirty := now)
  }

  ghost function Write(cfg: Config, s: State, dev: Dev, adr: nat, d: seq<byte>, now: nat): (r: State)
    requires Wf(cfg, s) && InRange(cfg, dev, adr, |d|)
    ensures Wf(cfg, r)
    decreases |d|
  {
    if d == [] then s
    else
      var n := Chunk(cfg, dev, adr, |d|);
      Write(cfg, WriteChunk(cfg, s, dev, adr, d[..n], now), dev, adr + n, d[n..], now)
  }

  /** An address range inside one block lies in the sector the code computes for it. */
  lemma SectorOf(cfg: Config, dev: Dev, adr: nat, n: nat)
    requires cfg.Valid() && InRange(cfg, dev, adr, n) && n > 0
    requires OneSector(cfg, dev, adr, n)
    ensures HasSec(cfg, dev, cfg.Sec(dev, adr))
    ensures Start(cfg, dev, cfg.Sec(dev, adr)) + cfg.Off(dev, adr) == adr - cfg.Base(dev)
  {
    hide Start, Aligned;
    if dev == Int {
      IntSectorOf(cfg, adr);
    } else {
      SpiSectorOf(cfg, adr);
    }
  }

  lemma SpiSectorOf(cfg: Config, adr: nat)
    requires InRange(cfg, Spi, adr, 1)
    ensures HasSec(cfg, Spi, adr / SECTOR)
    ensures Start(cfg, Spi, adr / SECTOR) + adr % SECTOR == adr
  {
  }

  lemma IntSectorOf(cfg: Config, adr: nat)
    requires cfg.Valid() && cfg.intBase <= adr < cfg.intBase + cfg.intSize
    ensures 0 <= Start(cfg, Int, adr / cfg.intBlk) && Start(cfg, Int, adr / cfg.intBlk) + cfg.intBlk <= cfg.intSize
    ensures Start(cfg, Int, adr / cfg.intBlk) + adr % cfg.intBlk == adr - cfg.intBase
  {
    var b := cfg.intBlk;
    Splits(adr, b);
    Splits(cfg.intBase, b);
    Splits(cfg.intSize, b);
    BlockInside(adr / b, adr % b, cfg.intBase / b, cfg.intSize / b, b);
  }

  lemma MulMonotone(x: int, y: int, b: nat)
    requires x <= y
    ensures x * b <= y * b
  {
    var d: nat := y - x;
    assert y * b == x * b + d * b;
  }

  /** An address inside the blocks lo .. lo + n lies in one of them. */
  lemma BlockInside(q: nat, r: nat, lo: nat, n: nat, b: nat)
    requires r < b && lo * b <= q * b + r < lo * b + n * b
    ensures lo * b <= q * b && q * b + b <= lo * b + n * b
  {
    assert (q + 1) * b == q * b + b && (lo + n) * b == lo * b + n * b;
    if q < lo {
      MulMonotone(q + 1, lo, b);
    } else if lo + n < q + 1 {
      MulMonotone(lo + n, q, b);
    } else {
      MulMonotone(lo, q, b);
      MulMonotone(q + 1, lo + n, b);
    }
  }

  ghost function ReadChunk(cfg: Config, s: State, dev: Dev, adr: nat, n: nat): seq<byte>
    requires Wf(cfg, s) && InRange(cfg, dev, adr, n) && OneSector(cfg, dev, adr, n)
  {
    if s.dev == dev && s.sec == cfg.Sec(dev, adr) then s.fbuf[cfg.Off(dev, adr)..cfg.Off(dev, adr) + n]
    else Mem(s, dev)[adr - cfg.Base(dev)..adr - cfg.Base(dev) + n]
  }

  ghost function Read(cfg: Config, s: State, dev: Dev, adr: nat, n: nat): seq<byte>
    requires Wf(cfg, s) && InRange(cfg, dev, adr, n)
    decreases n
  {
    if n == 0 then []
    else
      var k := Chunk(cfg, dev, adr, n);
      ReadChunk(cfg, s, dev, adr, k) + Read(cfg, s, dev, adr + k, n - k)
  }

  /** spif_Fill: writes of at most 64 bytes. */
  ghost function WriteFill(cfg: Config, s: State, adr: nat, val: byte, n: nat, now: nat): (r: State)
    requires Wf(cfg, s) && InRange(cfg, Spi, adr, n)
    ensures Wf(cfg, r)
    decreases n
  {
    if n == 0 then s
    else
      var k := Min(64, n);
      WriteFill(cfg, Write(cfg, s, Spi, adr, Fill(k, val), now), adr + k, val, n - k, now)
  }

  // ---- What they do to the memory callers see ----

  lemma VisibleSplice(cfg: Config, dev: Dev, m: seq<byte>, at: nat, d: seq<byte>)
    requires at + |d| <= |m| == cfg.Size(dev) && cfg.Valid()
    requires dev == Spi && cfg.protect.Some? ==>
               at + |d| <= cfg.protect.value * SECTOR || cfg.protect.value * SECTOR + SECTOR <= at
    ensures Visible(cfg, dev, Splice(m, at, d)) == Splice(Visible(cfg, dev, m), at, d)
  {
    hide Aligned, Config.Sec, Config.Off, Start, Splice;
    if dev == Spi && cfg.protect.Some? {
      SpliceCommute(m, at, d, cfg.protect.value * SECTOR, Blank(SECTOR));
    }
  }

  /** Writing the shadow sector is invisible. */
  lemma ShadowIsInvisible(cfg: Config, m: seq<byte>, d: seq<byte>)
    requires cfg.Valid() && cfg.protect.Some? && |m| == cfg.Size(Spi) && |d| == SECTOR
    ensures Visible(cfg, Spi, Splice(m, cfg.protect.value * SECTOR, d)) == Visible(cfg, Spi, m)
  {
    hide Aligned, Config.Sec, Config.Off, Start, Splice;
    SpliceOver(m, cfg.protect.value * SECTOR, d, Blank(SECTOR));
  }

  lemma SpiStart(cfg: Config, sec: int)
    ensures Start(cfg, Spi, sec) == sec * SECTOR
  {
  }

  lemma IntInside(cfg: Config, s: State)
    requires Wf(cfg, s) && s.dev == Int
    ensures cfg.intBase <= s.sec * cfg.intBlk < cfg.intBase + cfg.intSize
  {
  }

  lemma OneByteFits(cfg: Config, dev: Dev, adr: nat)
    requires cfg.Valid()
    ensures cfg.Blk(dev) > 0 && OneSector(cfg, dev, adr, 1)
  {
  }

  /** Writing back never changes what callers see. */
  lemma FlushKeepsView(cfg: Config, s: State, delay: nat, now: nat, dev: Dev)
    requires Wf(cfg, s)
    ensures View(cfg, Flush(cfg, s, delay, now), dev) == View(cfg, s, dev)
    ensures Synced(cfg, s) ==> Synced(cfg, Flush(cfg, s, delay, now))
    ensures FlushDue(s, delay, now) && s.dev == dev ==>
              View(cfg, s, dev) == Visible(cfg, dev, Mem(Flush(cfg, s, delay, now), dev))
  {
    hide Aligned, Config.Sec, Config.Off, Start, Splice, Visible;
    SpiStart(cfg, s.sec);
    if FlushDue(s, delay, now) {
      var at := Start(cfg, s.dev, s.sec);
      var fb := s.fbuf[..cfg.Blk(s.dev)];
      SpliceOver(Mem(s, s.dev), at, fb, fb);
      if s.dev == Int {
        IntInside(cfg, s);
      }
      if s.dev == Spi {
        assert fb == s.fbuf;
        if p :| cfg.protect == Some(p) {
          SpliceCommute(s.spi, p * SECTOR, fb, at, fb);
          ShadowIsInvisible(cfg, Splice(s.spi, at, fb), fb);
          SpliceOver(Splice(s.spi, p * SECTOR, fb), at, fb, fb);
        }
      }
    }
  }

  /** After a forced write-back a synced buffer hides nothing. */
  lemma FlushSettles(cfg: Config, s: State, now: nat, dev: Dev)
    requires Wf(cfg, s) && Synced(cfg, s)
    ensures View(cfg, s, dev) == Visible(cfg, dev, Mem(Flush(cfg, s, 0, now), dev))
  {
    FlushKeepsView(cfg, s, 0, now, dev);
  }

  lemma LoadKeepsView(cfg: Config, s: State, dev: Dev, sec: int, now: nat, d: Dev)
    requires Wf(cfg, s) && HasSec(cfg, dev, sec) && Synced(cfg, s)
    ensures View(cfg, Load(cfg, s, dev, sec, now), d) == View(cfg, s, d)
  {
    hide Aligned, Config.Sec, Config.Off, Start, Visible, Flush;
    var f := Flush(cfg, s, 0, now);
    var at := Start(cfg, dev, sec);
    var b := cfg.Blk(dev);
    FlushSettles(cfg, s, now, d);
    SpliceBack(Mem(f, dev), at, b);
    assert Splice(f.fbuf, 0, Mem(f, dev)[at..at + b])[..b] == Mem(f, dev)[at..at + b];
  }

  lemma WriteChunkView(cfg: Config, s: State, dev: Dev, adr: nat, d: seq<byte>, now: nat, x: Dev)
    requires Wf(cfg, s) && Synced(cfg, s) && InRange(cfg, dev, adr, |d|) && d != []
    requires OneSector(cfg, dev, adr, |d|)
    ensures var r := WriteChunk(cfg, s, dev, adr, d, now);
            && View(cfg, r, x) == (if x == dev then Splice(View(cfg, s, x), adr - cfg.Base(dev), d) else View(cfg, s, x))
            && (now != 0 ==> Synced(cfg, r))
  {
    hide Aligned, Config.Sec, Config.Off, View, Visible, Load, Start;
    SectorOf(cfg, dev, adr, |d|);
    var sec := cfg.Sec(dev, adr);
    if s.dev != dev || s.sec != sec {
      LoadKeepsView(cfg, s, dev, sec, now, x);
      BufferWriteView(cfg, Load(cfg, s, dev, sec, now), adr, d, now, x);
    } else {
      BufferWriteView(cfg, s, adr, d, now, x);
    }
  }

  /** Writing into the buffered sector. */
  lemma BufferWriteView(cfg: Config, l: State, adr: nat, d: seq<byte>, now: nat, x: Dev)
    requires Wf(cfg, l) && InRange(cfg, l.dev, adr, |d|) && d != []
    requires l.sec == cfg.Sec(l.dev, adr) && OneSector(cfg, l.dev, adr, |d|)
    ensures var r := l.(fbuf := Splice(l.fbuf, cfg.Off(l.dev, adr), d), dirty := now);
            && Wf(cfg, r)
            && View(cfg, r, x) == (if x == l.dev then Splice(View(cfg, l, x), adr - cfg.Base(x), d) else View(cfg, l, x))
            && (now != 0 ==> Synced(cfg, r))
  {
    hide Aligned, Config.Sec, Config.Off, Visible, Start, Splice, View, InRange, HasSec, OneSector,
         Config.Base, Config.Size, Config.Blk, Config.Valid;
    RangeIsClear(cfg, l.dev, adr, |d|);
    BufferedView(cfg, l);
    var b, off := cfg.Blk(l.dev), cfg.Off(l.dev, adr);
    SectorOf(cfg, l.dev, adr, |d|);
    var r := l.(fbuf := Splice(l.fbuf, off, d), dirty := now);
    BufferedView(cfg, r);
    if x == l.dev {
      var at := Start(cfg, x, l.sec);
      PrefixNested(Mem(l, x), at, l.fbuf, b, off, d);
      VisibleSplice(cfg, x, Splice(Mem(l, x), at, l.fbuf[..b]), at + off, d);
    } else {
      UnbufferedView(cfg, l, x);
      UnbufferedView(cfg, r, x);
    }
  }

  /** Copying into the first `b` bytes of a buffer, seen through the memory it covers. */
  lemma PrefixNested(m: seq<byte>, at: nat, f: seq<byte>, b: nat, off: nat, d: seq<byte>)
    requires b <= |f| && off + |d| <= b && at + b <= |m|
    ensures Splice(m, at, Splice(f, off, d)[..b]) == Splice(Splice(m, at, f[..b]), at + off, d)
  {
    hide Splice;
    SplicePrefix(f, off, d, b);
    SpliceNested(m, at, f[..b], off, d);
  }

  lemma UnbufferedView(cfg: Config, s: State, x: Dev)
    requires Wf(cfg, s) && s.dev != x
    ensures View(cfg, s, x) == Visible(cfg, x, Mem(s, x))
  {
  }

  /** `r` is `s` with `d` written, as device `x` is seen. */
  ghost predicate Wrote(cfg: Config, s: State, r: State, dev: Dev, adr: nat, d: seq<byte>, x: Dev)
    requires Wf(cfg, s) && Wf(cfg, r) && InRange(cfg, dev, adr, |d|)
  {
    && Synced(cfg, r)
    && View(cfg, r, x) == Over(View(cfg, s, x), x == dev, adr - cfg.Base(dev), d)
  }

  /** `v` with `d` at `at`, where it is meant for this memory at all. */
  function Over(v: seq<byte>, here: bool, at: int, d: seq<byte>): seq<byte> {
    if here && 0 <= at && at + |d| <= |v| then Splice(v, at, d) else v
  }

  lemma OverJoin(v: seq<byte>, here: bool, at: int, d: seq<byte>, e: seq<byte>)
    requires here ==> 0 <= at && at + |d| + |e| <= |v|
    ensures Over(Over(v, here, at, d), here, at + |d|, e) == Over(v, here, at, d + e)
  {
    hide Splice;
    if here {
      SpliceLength(v, at, d);
      SpliceJoin(v, at, d, e);
    }
  }

  lemma SpliceLength(v: seq<byte>, at: nat, d: seq<byte>)
    requires at + |d| <= |v|
    ensures |Splice(v, at, d)| == |v|
  {
  }

  lemma WroteNothing(cfg: Config, s: State, dev: Dev, adr: nat, x: Dev)
    requires Wf(cfg, s) && Synced(cfg, s) && InRange(cfg, dev, adr, 0)
    ensures Wrote(cfg, s, s, dev, adr, [], x)
  {
    hide Aligned, Config.Sec, Config.Off, Start, View, Synced;
    ViewLength(cfg, s, dev);
    SpliceNothing(View(cfg, s, dev), adr - cfg.Base(dev));
  }

  lemma WroteJoin(cfg: Config, s: State, c: State, r: State, dev: Dev, adr: nat, d: seq<byte>, e: seq<byte>, x: Dev)
    requires Wf(cfg, s) && Wf(cfg, c) && Wf(cfg, r)
    requires InRange(cfg, dev, adr, |d|) && InRange(cfg, dev, adr + |d|, |e|) && InRange(cfg, dev, adr, |d + e|)
    requires Wrote(cfg, s, c, dev, adr, d, x) && Wrote(cfg, c, r, dev, adr + |d|, e, x)
    ensures Wrote(cfg, s, r, dev, adr, d + e, x)
  {
    hide Aligned, View, Synced, Splice, Over, Wf, HasSec, InRange, Start, Config.Base, Config.Size, Config.Blk, Config.Valid;
    RangeInView(cfg, s, dev, adr, |d + e|);
    OverJoin(View(cfg, s, x), x == dev, adr - cfg.Base(dev), d, e);
  }

  lemma RangeInView(cfg: Config, s: State, dev: Dev, adr: nat, n: nat)
    requires Wf(cfg, s) && InRange(cfg, dev, adr, n)
    ensures cfg.Base(dev) <= adr && adr - cfg.Base(dev) + n <= |View(cfg, s, dev)|
  {
  }

  lemma {:induction false} WriteIsWrote(cfg: Config, s: State, dev: Dev, adr: nat, d: seq<byte>, now: nat, x: Dev)
    requires Wf(cfg, s) && Synced(cfg, s) && InRange(cfg, dev, adr, |d|) && now != 0
    ensures Wf(cfg, Write(cfg, s, dev, adr, d, now)) && Wrote(cfg, s, Write(cfg, s, dev, adr, d, now), dev, adr, d, x)
    decreases |d|
  {
    hide Wrote, Aligned, Config.Sec, Config.Off, Start, View, Write, WriteChunk, InRange, Splice, Wf, HasSec,
         Synced, OneSector, Config.Blk, Config.Base, Config.Size, Config.Valid;
    if d == [] {
      WriteNothing(cfg, s, dev, adr, now);
      WroteNothing(cfg, s, dev, adr, x);
    } else {
      var first, rest, c := WriteUnfolds(cfg, s, dev, adr, d, now);
      WroteChunk(cfg, s, dev, adr, first, now, x);
      WriteIsWrote(cfg, c, dev, adr + |first|, rest, now, x);
      WroteJoin(cfg, s, c, Write(cfg, c, dev, adr + |first|, rest, now), dev, adr, first, rest, x);
    }
  }

  lemma WroteChunk(cfg: Config, s: State, dev: Dev, adr: nat, d: seq<byte>, now: nat, x: Dev)
    requires Wf(cfg, s) && Synced(cfg, s) && InRange(cfg, dev, adr, |d|) && d != [] && now != 0
    requires OneSector(cfg, dev, adr, |d|)
    ensures var c := WriteChunk(cfg, s, dev, adr, d, now);
            Wf(cfg, c) && Synced(cfg, c) && Wrote(cfg, s, c, dev, adr, d, x)
  {
    hide Aligned, Config.Sec, Config.Off, Start, View, WriteChunk, Splice, Synced, OneSector;
    RangeInView(cfg, s, dev, adr, |d|);
    WriteChunkWf(cfg, s, dev, adr, d, now);
    WriteChunkView(cfg, s, dev, adr, d, now, x);
  }

  /** A write of any length changes exactly its range of its device. */
  lemma WriteView(cfg: Config, s: State, dev: Dev, adr: nat, d: seq<byte>, now: nat, x: Dev)
    requires Wf(cfg, s) && Synced(cfg, s) && InRange(cfg, dev, adr, |d|) && now != 0
    ensures Synced(cfg, Write(cfg, s, dev, adr, d, now))
    ensures View(cfg, Write(cfg, s, dev, adr, d, now), x) ==
            if x == dev then Splice(View(cfg, s, x), adr - cfg.Base(dev), d) else View(cfg, s, x)
  {
    hide Aligned, View, Write, Splice, Synced, Wf, HasSec, InRange, Config.Base, Config.Size, Config.Blk, Config.Valid;
    RangeInView(cfg, s, dev, adr, |d|);
    WriteIsWrote(cfg, s, dev, adr, d, now, x);
  }

  lemma SpliceNothing(m: seq<byte>, at: nat)
    requires at <= |m|
    ensures Splice(m, at, []) == m
  {
  }

  lemma WriteNothing(cfg: Config, s: State, dev: Dev, adr: nat, now: nat)
    requires Wf(cfg, s) && InRange(cfg, dev, adr, 0)
    ensures Write(cfg, s, dev, adr, [], now) == s
    ensures cfg.Base(dev) <= adr && adr - cfg.Base(dev) <= |View(cfg, s, dev)|
  {
  }

  /** A write is a write into its first sector, then the rest. */
  lemma WriteUnfolds(cfg: Config, s: State, dev: Dev, adr: nat, d: seq<byte>, now: nat)
    returns (first: seq<byte>, rest: seq<byte>, c: State)
    requires Wf(cfg, s) && InRange(cfg, dev, adr, |d|) && d != []
    ensures d == first + rest && first != []
    ensures cfg.Blk(dev) > 0 && |first| == Chunk(cfg, dev, adr, |d|) && first == d[..|first|] && rest == d[|first|..]
    ensures cfg.Base(dev) <= adr && adr - cfg.Base(dev) + |d| <= |View(cfg, s, dev)|
    ensures cfg.Blk(dev) > 0 && OneSector(cfg, dev, adr, |first|)
    ensures InRange(cfg, dev, adr, |first|) && InRange(cfg, dev, adr + |first|, |rest|)
    ensures c == WriteChunk(cfg, s, dev, adr, first, now) && Wf(cfg, c)
    ensures Write(cfg, s, dev, adr, d, now) == Write(cfg, c, dev, adr + |first|, rest, now)
  {
    hide Aligned, Config.Sec, Config.Off, Start, View, WriteChunk, Splice, Wf, InRange, Chunk, OneSector,
         HasSec, Config.Blk, Config.Base, Config.Size;
    ViewLength(cfg, s, dev);
    BlkPositive(cfg, s, dev);
    ChunkFits(cfg, dev, adr, |d|);
    var n := Chunk(cfg, dev, adr, |d|);
    InRangeSplit(cfg, dev, adr, |d|, n);
    first, rest, c := d[..n], d[n..], WriteChunk(cfg, s, dev, adr, d[..n], now);
    WriteChunkWf(cfg, s, dev, adr, first, now);
  }

  lemma ChunkFits(cfg: Config, dev: Dev, adr: nat, n: nat)
    requires cfg.Blk(dev) > 0 && n > 0
    ensures var k := Chunk(cfg, dev, adr, n);
            0 < k <= n && OneSector(cfg, dev, adr, k)
  {
  }

  lemma WriteChunkWf(cfg: Config, s: State, dev: Dev, adr: nat, d: seq<byte>, now: nat)
    requires Wf(cfg, s) && InRange(cfg, dev, adr, |d|) && d != [] && OneSector(cfg, dev, adr, |d|)
    ensures Wf(cfg, WriteChunk(cfg, s, dev, adr, d, now))
  {
  }

  lemma ViewLength(cfg: Config, s: State, dev: Dev)
    requires Wf(cfg, s)
    ensures |View(cfg, s, dev)| == cfg.Size(dev)
  {
  }

  lemma BlkPositive(cfg: Config, s: State, dev: Dev)
    requires Wf(cfg, s)
    ensures cfg.Blk(dev) > 0
  {
  }

  lemma InRangeSplit(cfg: Config, dev: Dev, adr: nat, n: nat, k: nat)
    requires InRange(cfg, dev, adr, n) && k <= n
    ensures InRange(cfg, dev, adr, k) && InRange(cfg, dev, adr + k, n - k)
    ensures cfg.Base(dev) <= adr && adr + n <= cfg.Base(dev) + cfg.Size(dev)
  {
  }

  lemma VisibleSlice(cfg: Config, dev: Dev, m: seq<byte>, at: nat, n: nat)
    requires at + n <= |m| == cfg.Size(dev) && cfg.Valid()
    requires dev == Spi && cfg.protect.Some? ==>
               at + n <= cfg.protect.value * SECTOR || cfg.protect.value * SECTOR + SECTOR <= at
    ensures Visible(cfg, dev, m)[at..at + n] == m[at..at + n]
  {
  }

  lemma SliceOutside(m: seq<byte>, at: nat, d: seq<byte>, a: nat, n: nat)
    requires at + |d| <= |m| && a + n <= |m|
    requires a + n <= at || at + |d| <= a
    ensures Splice(m, at, d)[a..a + n] == m[a..a + n]
  {
  }

  lemma SliceInside(m: seq<byte>, at: nat, d: seq<byte>, off: nat, n: nat)
    requires at + |d| <= |m| && off + n <= |d|
    ensures Splice(m, at, d)[at + off..at + off + n] == d[off..off + n]
  {
  }

  lemma ReadChunkView(cfg: Config, s: State, dev: Dev, adr: nat, n: nat)
    requires Wf(cfg, s) && InRange(cfg, dev, adr, n) && n > 0 && OneSector(cfg, dev, adr, n)
    ensures ReadChunk(cfg, s, dev, adr, n) == ViewAt(cfg, s, dev, adr, n)
  {
    hide Aligned, Config.Sec, Config.Off, View, Mem, Start;
    SectorOf(cfg, dev, adr, n);
    if s.dev == dev {
      BufferedDeviceSlice(cfg, s, adr, n);
    } else {
      OtherDeviceSlice(cfg, s, dev, adr, n);
    }
  }

  /** The same for the SPI flash, whose sectors are of fixed size. */
  lemma SpiChunk(cfg: Config, s: State, adr: nat, n: nat)
    requires Wf(cfg, s) && InRange(cfg, Spi, adr, n) && OneSector(cfg, Spi, adr, n) && n > 0
    ensures HasSec(cfg, Spi, adr / SECTOR)
    ensures adr / SECTOR * SECTOR + adr % SECTOR == adr && adr % SECTOR + n <= SECTOR == |s.fbuf|
    ensures adr + n <= |s.spi|
    ensures ReadChunk(cfg, s, Spi, adr, n) ==
            if s.dev == Spi && s.sec == adr / SECTOR then s.fbuf[adr % SECTOR..adr % SECTOR + n] else s.spi[adr..adr + n]
  {
    hide Aligned;
    SpiSectorOf(cfg, adr);
  }

  lemma OtherDeviceSlice(cfg: Config, s: State, dev: Dev, adr: nat, n: nat)
    requires Wf(cfg, s) && s.dev != dev && InRange(cfg, dev, adr, n)
    ensures View(cfg, s, dev)[adr - cfg.Base(dev)..adr - cfg.Base(dev) + n] ==
            Mem(s, dev)[adr - cfg.Base(dev)..adr - cfg.Base(dev) + n]
  {
    hide Aligned, Config.Sec, Config.Off, Start, Visible;
    VisibleSlice(cfg, dev, Mem(s, dev), adr - cfg.Base(dev), n);
  }

  lemma BufferedView(cfg: Config, s: State)
    requires Wf(cfg, s) && s.dev != Null
    ensures cfg.Valid() && |s.fbuf| == SECTOR && 0 < cfg.Blk(s.dev) <= SECTOR
    ensures |Mem(s, s.dev)| == cfg.Size(s.dev)
    ensures 0 <= Start(cfg, s.dev, s.sec) && Start(cfg, s.dev, s.sec) + cfg.Blk(s.dev) <= cfg.Size(s.dev)
    ensures View(cfg, s, s.dev) == Visible(cfg, s.dev, Splice(Mem(s, s.dev), Start(cfg, s.dev, s.sec), s.fbuf[..cfg.Blk(s.dev)]))
  {
  }

  lemma RangeIsClear(cfg: Config, dev: Dev, adr: nat, n: nat)
    requires InRange(cfg, dev, adr, n)
    ensures dev != Null && cfg.Base(dev) <= adr && adr - cfg.Base(dev) + n <= cfg.Size(dev)
    ensures dev == Spi && cfg.protect.Some? ==>
              || adr - cfg.Base(dev) + n <= cfg.protect.value * SECTOR
              || cfg.protect.value * SECTOR + SECTOR <= adr - cfg.Base(dev)
    ensures OneSector(cfg, dev, adr, n) ==> cfg.Off(dev, adr) + n <= cfg.Blk(dev)
  {
  }

  lemma BufferedDeviceSlice(cfg: Config, s: State, adr: nat, n: nat)
    requires Wf(cfg, s) && InRange(cfg, s.dev, adr, n) && n > 0 && OneSector(cfg, s.dev, adr, n)
    ensures View(cfg, s, s.dev)[adr - cfg.Base(s.dev)..adr - cfg.Base(s.dev) + n] == ReadChunk(cfg, s, s.dev, adr, n)
  {
    hide Aligned, Config.Sec, Config.Off, Splice, Visible, Start, View, Mem, Wf, HasSec, InRange, OneSector,
         Config.Base, Config.Size, Config.Blk, Config.Valid;
    RangeIsClear(cfg, s.dev, adr, n);
    BufferedView(cfg, s);
    var dev, b, off := s.dev, cfg.Blk(s.dev), cfg.Off(s.dev, adr);
    SectorOf(cfg, dev, adr, n);
    var at := Start(cfg, dev, s.sec);
    VisibleSlice(cfg, dev, Splice(Mem(s, dev), at, s.fbuf[..b]), adr - cfg.Base(dev), n);
    if s.sec == cfg.Sec(dev, adr) {
      SliceInside(Mem(s, dev), at, s.fbuf[..b], off, n);
      assert s.fbuf[..b][off..off + n] == s.fbuf[off..off + n];
    } else {
      StartsApart(cfg, dev, s.sec, cfg.Sec(dev, adr));
      SliceOutside(Mem(s, dev), at, s.fbuf[..b], adr - cfg.Base(dev), n);
    }
  }

  /** Different sectors of a device do not overlap. */
  lemma StartsApart(cfg: Config, dev: Dev, p: int, q: int)
    requires p != q
    ensures var b := cfg.Blk(dev);
            Start(cfg, dev, p) + b <= Start(cfg, dev, q) || Start(cfg, dev, q) + b <= Start(cfg, dev, p)
  {
    var b := cfg.Blk(dev);
    if p < q {
      MulMonotone(p + 1, q, b);
    } else {
      MulMonotone(q + 1, p, b);
    }
  }

  /** A read of any length returns the slice of the memory callers see. */
  lemma {:induction false} ReadView(cfg: Config, s: State, dev: Dev, adr: nat, n: nat)
    requires Wf(cfg, s) && InRange(cfg, dev, adr, n)
    ensures Read(cfg, s, dev, adr, n) == ViewAt(cfg, s, dev, adr, n)
    decreases n
  {
    hide Aligned, Config.Sec, Config.Off, Start, View, ReadChunk, InRange, Chunk, Wf, HasSec, OneSector;
    InRangeSplit(cfg, dev, adr, n, 0);
    BlkPositive(cfg, s, dev);
    if n > 0 {
      var k := Chunk(cfg, dev, adr, n);
      InRangeSplit(cfg, dev, adr, n, k);
      ReadChunkView(cfg, s, dev, adr, k);
      ReadView(cfg, s, dev, adr + k, n - k);
    }
  }

  lemma {:induction false} FillIsWrote(cfg: Config, s: State, adr: nat, val: byte, n: nat, now: nat, x: Dev)
    requires Wf(cfg, s) && Synced(cfg, s) && InRange(cfg, Spi, adr, n) && now != 0
    ensures Wrote(cfg, s, WriteFill(cfg, s, adr, val, n, now), Spi, adr, Fill(n, val), x)
    decreases n
  {
    hide Wrote, Aligned, Write, InRange, Wf, Synced;
    if n == 0 {
      assert Fill(0, val) == [];
      WroteNothing(cfg, s, Spi, adr, x);
    } else {
      var k := Min(64, n);
      InRangeSplit(cfg, Spi, adr, n, k);
      var c := Write(cfg, s, Spi, adr, Fill(k, val), now);
      WriteIsWrote(cfg, s, Spi, adr, Fill(k, val), now, x);
      WriteView(cfg, s, Spi, adr, Fill(k, val), now, x);
      FillIsWrote(cfg, c, adr + k, val, n - k, now, x);
      WroteFill(cfg, s, c, WriteFill(cfg, c, adr + k, val, n - k, now), adr, val, k, n, x);
    }
  }

  lemma WroteFill(cfg: Config, s: State, c: State, r: State, adr: nat, val: byte, k: nat, n: nat, x: Dev)
    requires Wf(cfg, s) && Wf(cfg, c) && Wf(cfg, r) && k <= n
    requires InRange(cfg, Spi, adr, k) && InRange(cfg, Spi, adr + k, n - k) && InRange(cfg, Spi, adr, n)
    requires Wrote(cfg, s, c, Spi, adr, Fill(k, val), x) && Wrote(cfg, c, r, Spi, adr + k, Fill(n - k, val), x)
    ensures Wrote(cfg, s, r, Spi, adr, Fill(n, val), x)
  {
    hide Wrote, Aligned, Wf, InRange;
    assert Fill(k, val) + Fill(n - k, val) == Fill(n, val);
    WroteJoin(cfg, s, c, r, Spi, adr, Fill(k, val), Fill(n - k, val), x);
  }

  /** A fill changes exactly its range. */
  lemma FillView(cfg: Config, s: State, adr: nat, val: byte, n: nat, now: nat, x: Dev)
    requires Wf(cfg, s) && Synced(cfg, s) && InRange(cfg, Spi, adr, n) && now != 0
    ensures Synced(cfg, WriteFill(cfg, s, adr, val, n, now))
    ensures View(cfg, WriteFill(cfg, s, adr, val, n, now), x) ==
            if x == Spi then Splice(View(cfg, s, x), adr, Fill(n, val)) else View(cfg, s, x)
  {
    hide Aligned, View, WriteFill, Splice, Synced, Wf, InRange, HasSec;
    RangeInView(cfg, s, Spi, adr, n);
    FillIsWrote(cfg, s, adr, val, n, now, x);
  }

  // ---- Whole-sector writes ----

  predicate BlankWord(d: seq<byte>, w: nat)
    requires 4 * w + 4 <= |d|
  {
    d[4 * w..4 * w + 4] == Blank(4)
  }

  const WORDS := 1024

  /** The first word from `w` on that is not blank, WORDS if there is none. */
  function FirstWord(d: seq<byte>, w: nat): (r: nat)
    requires |d| == SECTOR && w <= WORDS
    ensures w <= r <= WORDS
    ensures forall i :: w <= i < r ==> BlankWord(d, i)
    ensures r < WORDS ==> !BlankWord(d, r)
    decreases WORDS - w
  {
    if w == WORDS || !BlankWord(d, w) then w else FirstWord(d, w + 1)
  }

  /** spif_SecWrite: the scan steps past the word it stops at before comparing with the end. */
  ghost function SecWrite(cfg: Config, s: State, sec: nat, d: seq<byte>, now: nat): (r: State)
    requires Wf(cfg, s) && HasSec(cfg, Spi, sec) && |d| == SECTOR
    ensures Wf(cfg, r)
  {
    if s.dev == Spi && s.sec == sec then s.(fbuf := d, dirty := now)
    else if FirstWord(d, 0) + 1 < WORDS then
      Flush(cfg, s, 0, now).(fbuf := d, sec := sec, dev := Spi, dirty := now)
    else s.(spi := Splice(s.spi, sec * SECTOR, Blank(SECTOR)))
  }

  /** Data a whole-sector write stores even when the sector is not buffered: something
      before the last word, or nothing at all. */
  ghost predicate Storable(d: seq<byte>)
    requires |d| == SECTOR
  {
    BlankWord(d, WORDS - 1) || exists w :: 0 <= w < WORDS - 1 && !BlankWord(d, w)
  }

  lemma AllBlank(d: seq<byte>)
    requires |d| == SECTOR && forall w :: 0 <= w < WORDS ==> BlankWord(d, w)
    ensures d == Blank(SECTOR)
  {
    forall i | 0 <= i < SECTOR
      ensures d[i] == 0xFF
    {
      assert BlankWord(d, i / 4);
      assert d[4 * (i / 4)..4 * (i / 4) + 4][i % 4] == 0xFF;
    }
  }

  /** A whole-sector write touches that sector only; it leaves the data there exactly when
      the sector was buffered or the data is storable. */
  lemma SecWriteView(cfg: Config, s: State, sec: nat, d: seq<byte>, now: nat, x: Dev)
    requires Wf(cfg, s) && Synced(cfg, s) && HasSec(cfg, Spi, sec) && |d| == SECTOR && now != 0
    ensures var r := SecWrite(cfg, s, sec, d, now);
            && Synced(cfg, r)
            && (x != Spi ==> View(cfg, r, x) == View(cfg, s, x))
            && (exists e: seq<byte> {:trigger Splice(View(cfg, s, Spi), sec * SECTOR, e)} ::
                  |e| == SECTOR && View(cfg, r, Spi) == Splice(View(cfg, s, Spi), sec * SECTOR, e))
            && (View(cfg, r, Spi) == Splice(View(cfg, s, Spi), sec * SECTOR, d) <==>
                (s.dev == Spi && s.sec == sec) || Storable(d))
  {
    hide Aligned, Config.Sec, Config.Off, Start, View, SecWrite, Storable, Splice;
    SpiStart(cfg, sec);
    var stored := (s.dev == Spi && s.sec == sec) || FirstWord(d, 0) + 1 < WORDS;
    SecWriteStores(cfg, s, sec, d, now, x);
    SecWriteStores(cfg, s, sec, d, now, Spi);
    StorableIff(d);
    if !stored {
      SpliceInjective(View(cfg, s, Spi), sec * SECTOR, d, Blank(SECTOR));
    }
  }

  lemma SpliceInjective(m: seq<byte>, at: nat, d: seq<byte>, e: seq<byte>)
    requires at + |d| <= |m| && |e| == |d|
    ensures Splice(m, at, d) == Splice(m, at, e) ==> d == e
  {
    assert Splice(m, at, d)[at..at + |d|] == d;
    assert Splice(m, at, e)[at..at + |d|] == e;
  }

  lemma StorableIff(d: seq<byte>)
    requires |d| == SECTOR
    ensures FirstWord(d, 0) + 1 < WORDS ==> Storable(d)
    ensures FirstWord(d, 0) + 1 >= WORDS ==> (Storable(d) <==> d == Blank(SECTOR))
  {
    hide FirstWord, BlankWord;
    FirstWordIs(d);
    BlankWords();
    if FirstWord(d, 0) == WORDS {
      AllBlank(d);
    }
  }

  lemma FirstWordIs(d: seq<byte>)
    requires |d| == SECTOR
    ensures 0 <= FirstWord(d, 0) <= WORDS
    ensures forall i :: 0 <= i < FirstWord(d, 0) ==> BlankWord(d, i)
    ensures FirstWord(d, 0) < WORDS ==> !BlankWord(d, FirstWord(d, 0))
  {
  }

  lemma BlankWords()
    ensures forall w :: 0 <= w < WORDS ==> BlankWord(Blank(SECTOR), w)
  {
  }

  lemma SecWriteStores(cfg: Config, s: State, sec: nat, d: seq<byte>, now: nat, x: Dev)
    requires Wf(cfg, s) && Synced(cfg, s) && HasSec(cfg, Spi, sec) && |d| == SECTOR && now != 0
    ensures var r := SecWrite(cfg, s, sec, d, now);
            var stored := (s.dev == Spi && s.sec == sec) || FirstWord(d, 0) + 1 < WORDS;
            && Synced(cfg, r)
            && View(cfg, r, x) ==
               if x == Spi then Splice(View(cfg, s, x), sec * SECTOR, if stored then d else Blank(SECTOR))
               else View(cfg, s, x)
  {
    hide Aligned, Config.Sec, Config.Off, Start, View, Splice, Flush;
    if s.dev == Spi && s.sec == sec {
      SecWriteBuffered(cfg, s, sec, d, now, x);
    } else if FirstWord(d, 0) + 1 < WORDS {
      SecWriteEvicts(cfg, s, sec, d, now, x);
    } else {
      SecEraseView(cfg, s, sec, x);
    }
  }

  lemma SecWriteBuffered(cfg: Config, s: State, sec: nat, d: seq<byte>, now: nat, x: Dev)
    requires Wf(cfg, s) && s.dev == Spi && s.sec == sec && |d| == SECTOR && now != 0
    ensures var r := s.(fbuf := d, dirty := now);
            && Synced(cfg, r)
            && View(cfg, r, x) == if x == Spi then Splice(View(cfg, s, x), sec * SECTOR, d) else View(cfg, s, x)
  {
    hide Aligned, Config.Sec, Config.Off, Start, Visible, Splice;
    SpiStart(cfg, sec);
    var at := sec * SECTOR;
    assert s.fbuf[..SECTOR] == s.fbuf && d[..SECTOR] == d;
    VisibleSplice(cfg, Spi, s.spi, at, s.fbuf);
    VisibleSplice(cfg, Spi, s.spi, at, d);
    SpliceOver(Visible(cfg, Spi, s.spi), at, s.fbuf, d);
  }

  lemma SecWriteEvicts(cfg: Config, s: State, sec: nat, d: seq<byte>, now: nat, x: Dev)
    requires Wf(cfg, s) && Synced(cfg, s) && HasSec(cfg, Spi, sec) && |d| == SECTOR && now != 0
    ensures var r := Flush(cfg, s, 0, now).(fbuf := d, sec := sec, dev := Spi, dirty := now);
            && Synced(cfg, r)
            && View(cfg, r, x) == if x == Spi then Splice(View(cfg, s, x), sec * SECTOR, d) else View(cfg, s, x)
  {
    hide Aligned, Config.Sec, Config.Off, Start, Visible, Splice, Flush;
    SpiStart(cfg, sec);
    assert d[..SECTOR] == d;
    FlushSettles(cfg, s, now, x);
    VisibleSplice(cfg, Spi, Flush(cfg, s, 0, now).spi, sec * SECTOR, d);
  }

  /** Erasing a sector that is not in the buffer. */
  lemma SecEraseView(cfg: Config, s: State, sec: nat, x: Dev)
    requires Wf(cfg, s) && Synced(cfg, s) && HasSec(cfg, Spi, sec) && !(s.dev == Spi && s.sec == sec)
    ensures var r := s.(spi := Splice(s.spi, sec * SECTOR, Blank(SECTOR)));
            && Synced(cfg, r)
            && View(cfg, r, x) == if x == Spi then Splice(View(cfg, s, x), sec * SECTOR, Blank(SECTOR)) else View(cfg, s, x)
  {
    hide Aligned, Config.Sec, Config.Off, Start, Visible, Splice;
    SpiStart(cfg, sec);
    SpiStart(cfg, s.sec);
    var at := sec * SECTOR;
    VisibleSplice(cfg, Spi, s.spi, at, Blank(SECTOR));
    if s.dev == Spi {
      assert s.fbuf[..SECTOR] == s.fbuf;
      StartsApart(cfg, Spi, sec, s.sec);
      var t := s.sec * SECTOR;
      SpliceCommute(s.spi, at, Blank(SECTOR), t, s.fbuf);
      VisibleSplice(cfg, Spi, Splice(s.spi, t, s.fbuf), at, Blank(SECTOR));
    }
  }

  /** The case that is lost: blank but for the last word, sector not in the buffer. */
  lemma LastWordIsLost(cfg: Config, s: State, sec: nat, now: nat)
    requires Wf(cfg, s) && Synced(cfg, s) && HasSec(cfg, Spi, sec) && now != 0
    requires !(s.dev == Spi && s.sec == sec)
    ensures var d: seq<byte> := Fill(SECTOR - 1, 0xFF) + [0];
            View(cfg, SecWrite(cfg, s, sec, d, now), Spi) != Splice(View(cfg, s, Spi), sec * SECTOR, d)
  {
    hide Aligned, Config.Sec, Config.Off, Start, View, SecWrite, Splice, HasSec;
    SpiStart(cfg, sec);
    var d: seq<byte> := Fill(SECTOR - 1, 0xFF) + [0];
    forall w | 0 <= w < WORDS - 1
      ensures BlankWord(d, w)
    {
    }
    assert d[4 * (WORDS - 1)..4 * (WORDS - 1) + 4][3] == 0 != Blank(4)[3];
    assert !Storable(d);
    SecWriteView(cfg, s, sec, d, now, Spi);
  }

  // ---- The time of the last write ----

  lemma {:induction false} WriteIsDated(cfg: Config, s: State, dev: Dev, adr: nat, d: seq<byte>, now: nat)
    requires Wf(cfg, s) && InRange(cfg, dev, adr, |d|)
    ensures Write(cfg, s, dev, adr, d, now).dirty == if d == [] then s.dirty else now
    decreases |d|
  {
    hide Aligned, Write, WriteChunk, Chunk, InRange, OneSector, Wf;
    if d == [] {
      WriteNothing(cfg, s, dev, adr, now);
    } else {
      var first, rest, c := WriteUnfolds(cfg, s, dev, adr, d, now);
      ChunkIsDated(cfg, s, dev, adr, first, now);
      WriteIsDated(cfg, c, dev, adr + |first|, rest, now);
    }
  }

  lemma ChunkIsDated(cfg: Config, s: State, dev: Dev, adr: nat, d: seq<byte>, now: nat)
    requires Wf(cfg, s) && InRange(cfg, dev, adr, |d|) && d != [] && OneSector(cfg, dev, adr, |d|)
    ensures WriteChunk(cfg, s, dev, adr, d, now).dirty == now
  {
    hide Aligned, Load, Splice, Config.Sec, Config.Off, Start;
    SectorOf(cfg, dev, adr, |d|);
  }

  lemma {:induction false} FillIsDated(cfg: Config, s: State, adr: nat, val: byte, n: nat, now: nat)
    requires Wf(cfg, s) && InRange(cfg, Spi, adr, n)
    ensures WriteFill(cfg, s, adr, val, n, now).dirty == if n == 0 then s.dirty else now
    decreases n
  {
    hide Aligned, Write, InRange, Wf;
    if n > 0 {
      var k := Min(64, n);
      InRangeSplit(cfg, Spi, adr, n, k);
      WriteIsDated(cfg, s, Spi, adr, Fill(k, val), now);
      FillIsDated(cfg, Write(cfg, s, Spi, adr, Fill(k, val), now), adr + k, val, n - k, now);
    }
  }

  /** Every call that leaves data in the buffer leaves the time of it there: a write or fill of
      at least one byte, a sector write unless it erases directly.  A flush or a read brings no
      other time but zero. */
  lemma CallIsDated(cfg: Config, s: State, op: Op)
    requires Wf(cfg, s) && Placed(cfg, op)
    ensures var r := Do(cfg, s, op).0;
            && (op.DoRead? || op.DoSecRead? ==> r == s)
            && (op.DoWrite? ==> r.dirty == if op.data == [] then s.dirty else op.now)
            && (op.DoFill? ==> r.dirty == if op.n == 0 then s.dirty else op.now)
            && (op.DoSecWrite? ==>
                  if (s.dev == Spi && s.sec == op.sec) || (exists w :: 0 <= w < WORDS - 1 && !BlankWord(op.data, w)) then
                    r.dirty == op.now && r.dev == Spi && r.sec == op.sec && r.fbuf == op.data
                  else r.dirty == s.dirty && r.dev == s.dev && r.sec == s.sec && r.fbuf == s.fbuf)
            && (op.DoFlush? ==> r.dirty == s.dirty || r.dirty == 0)
  {
    hide Aligned, Write, WriteFill, Read, ReadChunk, Splice, Start, FirstWord, BlankWord, WriteBack;
    match op
    case DoWrite(dev, adr, data, now) => WriteIsDated(cfg, s, dev, adr, data, now);
    case DoFill(adr, val, n, now) => FillIsDated(cfg, s, adr, val, n, now);
    case DoSecWrite(sec, data, now) => FirstWordIs(data);
    case _ =>
  }

  // ---- Durability of flash_Flush ----

  /** After flash_Flush(delay) everything callers see is on the devices, or the last write
      is younger than `delay` by the clock.  A clock set back forces the write-back. */
  lemma FlushDurability(cfg: Config, s: State, delay: nat, now: nat)
    requires Wf(cfg, s) && Synced(cfg, s)
    ensures var f := Flush(cfg, s, delay, now);
            || (forall x: Dev :: View(cfg, s, x) == Visible(cfg, x, Mem(f, x)))
            || (0 < f.dirty <= now && now - f.dirty < delay && f == s)
    ensures s.dirty > now ==> forall x: Dev :: View(cfg, s, x) == Visible(cfg, x, Mem(Flush(cfg, s, delay, now), x))
  {
    hide Aligned, Config.Sec, Config.Off, Start, View, Visible;
    if FlushDue(s, delay, now) || s.dirty == 0 || s.dirty > now || s.dev == Null {
      forall x: Dev
        ensures View(cfg, s, x) == Visible(cfg, x, Mem(Flush(cfg, s, delay, now), x))
      {
        FlushKeepsView(cfg, s, delay, now, x);
        CleanIsSettled(cfg, s, x);
      }
    }
  }

  lemma CleanIsSettled(cfg: Config, s: State, x: Dev)
    requires Wf(cfg, s) && Synced(cfg, s)
    ensures s.dirty == 0 || s.dev != x || s.dev == Null ==> View(cfg, s, x) == Visible(cfg, x, Mem(s, x))
  {
  }

  // ---- The clock value zero ----

  /** `dirty` is both a time and a flag, so a write survives being evicted, whatever its
      data, exactly when the clock did not read zero. */
  lemma WriteSurvivesEviction(cfg: Config, s: State, dev: Dev, adr: nat, now: nat, dev2: Dev, sec2: int, now2: nat)
    requires Wf(cfg, s) && Synced(cfg, s) && InRange(cfg, dev, adr, 1)
    requires HasSec(cfg, dev2, sec2) && !(dev2 == dev && sec2 == cfg.Sec(dev, adr))
    ensures (forall b: byte :: View(cfg, Load(cfg, Write(cfg, s, dev, adr, [b], now), dev2, sec2, now2), dev) ==
                               Splice(View(cfg, s, dev), adr - cfg.Base(dev), [b]))
            <==> now != 0
  {
    hide Aligned, Config.Sec, Config.Off, Start, View, Load, WriteChunk, Splice;
    if now != 0 {
      forall b: byte
        ensures View(cfg, Load(cfg, Write(cfg, s, dev, adr, [b], now), dev2, sec2, now2), dev) ==
                Splice(View(cfg, s, dev), adr - cfg.Base(dev), [b])
      {
        WriteView(cfg, s, dev, adr, [b], now, dev);
        LoadKeepsView(cfg, Write(cfg, s, dev, adr, [b], now), dev2, sec2, now2, dev);
      }
    } else {
      var b := ClockZeroLoses(cfg, s, dev, adr, dev2, sec2, now2);
    }
  }

  /** A byte that a write at clock zero loses. */
  lemma ClockZeroLoses(cfg: Config, s: State, dev: Dev, adr: nat, dev2: Dev, sec2: int, now2: nat) returns (b: byte)
    requires Wf(cfg, s) && InRange(cfg, dev, adr, 1)
    requires HasSec(cfg, dev2, sec2) && !(dev2 == dev && sec2 == cfg.Sec(dev, adr))
    ensures View(cfg, Load(cfg, Write(cfg, s, dev, adr, [b], 0), dev2, sec2, now2), dev) !=
            Splice(View(cfg, s, dev), adr - cfg.Base(dev), [b])
  {
    hide Aligned, Config.Sec, Config.Off, View, Visible, Splice, Load, Write, Start, HasSec;
    var a := adr - cfg.Base(dev);
    OneByteFits(cfg, dev, adr);
    SectorOf(cfg, dev, adr, 1);
    var l := if s.dev != dev || s.sec != cfg.Sec(dev, adr) then Load(cfg, s, dev, cfg.Sec(dev, adr), 0) else s;
    b := OtherByte(Mem(l, dev)[a]);
    var w := Write(cfg, s, dev, adr, [b], 0);
    WriteOneByte(cfg, s, dev, adr, b, 0);
    UnflushedIsDropped(cfg, w, dev2, sec2, now2, dev);
    VisibleSlice(cfg, dev, Mem(w, dev), a, 1);
    assert Mem(w, dev) == Mem(l, dev);
    OneByteSlice(Mem(l, dev), a);
    assert Visible(cfg, dev, Mem(w, dev))[a..a + 1] == [Mem(l, dev)[a]];
    SliceInside(View(cfg, s, dev), a, [b], 0, 1);
    assert Splice(View(cfg, s, dev), a, [b])[a..a + 1] == [b];
  }

  lemma OneByteSlice(m: seq<byte>, a: nat)
    requires a < |m|
    ensures m[a..a + 1] == [m[a]]
  {
  }

  function OtherByte(b: byte): (r: byte)
    ensures r != b
  {
    if b == 0 then 1 else 0
  }

  lemma WriteOneByte(cfg: Config, s: State, dev: Dev, adr: nat, b: byte, now: nat)
    requires Wf(cfg, s) && InRange(cfg, dev, adr, 1)
    ensures HasSec(cfg, dev, cfg.Sec(dev, adr))
    ensures var l := if s.dev != dev || s.sec != cfg.Sec(dev, adr) then Load(cfg, s, dev, cfg.Sec(dev, adr), now) else s;
            Write(cfg, s, dev, adr, [b], now) == l.(fbuf := Splice(l.fbuf, cfg.Off(dev, adr), [b]), dirty := now)
  {
    hide Aligned, Config.Sec, Config.Off, Start, Load, Splice;
    OneByteFits(cfg, dev, adr);
    SectorOf(cfg, dev, adr, 1);
    assert [b][..1] == [b] && [b][1..] == [];
  }

  /** A buffer whose dirty time is zero is dropped by the next load. */
  lemma UnflushedIsDropped(cfg: Config, w: State, dev2: Dev, sec2: int, now: nat, x: Dev)
    requires Wf(cfg, w) && w.dirty == 0 && HasSec(cfg, dev2, sec2)
    ensures View(cfg, Load(cfg, w, dev2, sec2, now), x) == Visible(cfg, x, Mem(w, x))
  {
    hide Aligned, Config.Sec, Config.Off, Start, Visible;
    var at, b := Start(cfg, dev2, sec2), cfg.Blk(dev2);
    SpliceBack(Mem(w, dev2), at, b);
    assert Splice(w.fbuf, 0, Mem(w, dev2)[at..at + b])[..b] == Mem(w, dev2)[at..at + b];
  }

  // ---- Every run refines two flat byte arrays ----

  datatype Op =
    | DoRead(dev: Dev, adr: nat, n: nat)
    | DoWrite(dev: Dev, adr: nat, data: seq<byte>, now: nat)
    | DoFill(adr: nat, val: byte, n: nat, now: nat)
    | DoSecRead(sec: nat)
    | DoSecWrite(sec: nat, data: seq<byte>, now: nat)
    | DoFlush(delay: nat, now: nat)

  /** The call stays on its device and off the shadow sector. */
  ghost predicate Placed(cfg: Config, op: Op) {
    match op
    case DoRead(dev, adr, n) => InRange(cfg, dev, adr, n)
    case DoWrite(dev, adr, data, _) => InRange(cfg, dev, adr, |data|)
    case DoFill(adr, _, n, _) => InRange(cfg, Spi, adr, n)
    case DoSecRead(sec) => HasSec(cfg, Spi, sec)
    case DoSecWrite(sec, data, _) => HasSec(cfg, Spi, sec) && |data| == SECTOR
    case DoFlush(_, _) => true
  }

  /** Calls that do what they are for: the clock does not read zero, and a whole sector is in
      the buffer or storable. */
  ghost predicate Allowed(cfg: Config, s: State, op: Op) {
    && Placed(cfg, op)
    && match op
       case DoWrite(_, _, _, now) => now != 0
       case DoFill(_, _, _, now) => now != 0
       case DoSecWrite(sec, data, now) => now != 0 && (Storable(data) || (s.dev == Spi && s.sec == sec))
       case _ => true
  }

  /** The new state and the bytes returned. */
  ghost function Do(cfg: Config, s: State, op: Op): (r: (State, seq<byte>))
    requires Wf(cfg, s) && Placed(cfg, op)
    ensures Wf(cfg, r.0)
  {
    match op
    case DoRead(dev, adr, n) => (s, Read(cfg, s, dev, adr, n))
    case DoWrite(dev, adr, data, now) => (Write(cfg, s, dev, adr, data, now), [])
    case DoFill(adr, val, n, now) => (WriteFill(cfg, s, adr, val, n, now), [])
    case DoSecRead(sec) =>
      SectorRange(cfg, sec);
      (s, ReadChunk(cfg, s, Spi, sec * SECTOR, SECTOR))
    case DoSecWrite(sec, data, now) => (SecWrite(cfg, s, sec, data, now), [])
    case DoFlush(delay, now) => (Flush(cfg, s, delay, now), [])
  }

  lemma SectorRange(cfg: Config, sec: nat)
    requires cfg.Valid() && HasSec(cfg, Spi, sec)
    ensures InRange(cfg, Spi, sec * SECTOR, SECTOR) && OneSector(cfg, Spi, sec * SECTOR, SECTOR)
  {
  }

  /** The specification: two byte arrays, no buffer. */
  datatype Memory = Memory(intm: seq<byte>, spi: seq<byte>)

  ghost function Seen(cfg: Config, s: State): Memory
    requires Wf(cfg, s)
  {
    Memory(View(cfg, s, Int), View(cfg, s, Spi))
  }

  ghost predicate Sized(cfg: Config, m: Memory) {
    |m.intm| == cfg.intSize && |m.spi| == cfg.Size(Spi)
  }

  function Slice(m: Memory, dev: Dev): seq<byte> {
    match dev
    case Null => []
    case Int => m.intm
    case Spi => m.spi
  }

  function Put(m: Memory, dev: Dev, v: seq<byte>): Memory {
    match dev
    case Null => m
    case Int => m.(intm := v)
    case Spi => m.(spi := v)
  }

  ghost function Spec(cfg: Config, m: Memory, op: Op): (r: (Memory, seq<byte>))
    requires cfg.Valid() && Sized(cfg, m) && Placed(cfg, op)
    ensures Sized(cfg, r.0)
  {
    match op
    case DoRead(dev, adr, n) => (m, Slice(m, dev)[adr - cfg.Base(dev)..adr - cfg.Base(dev) + n])
    case DoWrite(dev, adr, data, _) => (Put(m, dev, Splice(Slice(m, dev), adr - cfg.Base(dev), data)), [])
    case DoFill(adr, val, n, _) => (m.(spi := Splice(m.spi, adr, Fill(n, val))), [])
    case DoSecRead(sec) => (m, m.spi[sec * SECTOR..sec * SECTOR + SECTOR])
    case DoSecWrite(sec, data, _) => (m.(spi := Splice(m.spi, sec * SECTOR, data)), [])
    case DoFlush(_, _) => (m, [])
  }

  lemma DoRefines(cfg: Config, s: State, op: Op)
    requires Wf(cfg, s) && Synced(cfg, s) && Allowed(cfg, s, op)
    ensures var (s', out) := Do(cfg, s, op);
            Synced(cfg, s') && Spec(cfg, Seen(cfg, s), op) == (Seen(cfg, s'), out)
  {
    hide Aligned, Config.Sec, Config.Off, Start, View, Splice, Read, Write, WriteFill, SecWrite, ReadChunk,
         Flush, Storable;
    match op
    case DoRead(dev, adr, n) =>
      ReadView(cfg, s, dev, adr, n);
    case DoWrite(dev, adr, data, now) =>
      WriteView(cfg, s, dev, adr, data, now, Int);
      WriteView(cfg, s, dev, adr, data, now, Spi);
    case DoFill(adr, val, n, now) =>
      FillView(cfg, s, adr, val, n, now, Int);
      FillView(cfg, s, adr, val, n, now, Spi);
    case DoSecRead(sec) =>
      SectorRange(cfg, sec);
      ReadChunkView(cfg, s, Spi, sec * SECTOR, SECTOR);
    case DoSecWrite(sec, data, now) =>
      SecWriteView(cfg, s, sec, data, now, Int);
    case DoFlush(delay, now) =>
      FlushKeepsView(cfg, s, delay, now, Int);
      FlushKeepsView(cfg, s, delay, now, Spi);
  }

  /** Every call is allowed in the state it finds. */
  ghost predicate AllowedRun(cfg: Config, s: State, ops: seq<Op>)
    requires Wf(cfg, s)
    decreases |ops|
  {
    ops == [] || (Allowed(cfg, s, ops[0]) && AllowedRun(cfg, Do(cfg, s, ops[0]).0, ops[1..]))
  }

  ghost predicate PlacedRun(cfg: Config, ops: seq<Op>) {
    forall i :: 0 <= i < |ops| ==> Placed(cfg, ops[i])
  }

  lemma {:induction false} AllowedIsPlaced(cfg: Config, s: State, ops: seq<Op>)
    requires Wf(cfg, s) && AllowedRun(cfg, s, ops)
    ensures PlacedRun(cfg, ops)
    decreases |ops|
  {
    hide Placed, Do, Wf;
    if ops != [] {
      AllowedIsPlaced(cfg, Do(cfg, s, ops[0]).0, ops[1..]);
      assert ops == [ops[0]] + ops[1..];
    }
  }

  ghost function RunTo(cfg: Config, s: State, ops: seq<Op>): (r: State)
    requires Wf(cfg, s) && PlacedRun(cfg, ops)
    ensures Wf(cfg, r)
    decreases |ops|
  {
    if ops == [] then s else RunTo(cfg, Do(cfg, s, ops[0]).0, ops[1..])
  }

  ghost function Outputs(cfg: Config, s: State, ops: seq<Op>): seq<seq<byte>>
    requires Wf(cfg, s) && PlacedRun(cfg, ops)
    decreases |ops|
  {
    if ops == [] then [] else
      var (s', out) := Do(cfg, s, ops[0]);
      [out] + Outputs(cfg, s', ops[1..])
  }

  ghost function SpecTo(cfg: Config, m: Memory, ops: seq<Op>): (r: Memory)
    requires cfg.Valid() && Sized(cfg, m) && PlacedRun(cfg, ops)
    ensures Sized(cfg, r)
    decreases |ops|
  {
    if ops == [] then m else SpecTo(cfg, Spec(cfg, m, ops[0]).0, ops[1..])
  }

  ghost function SpecOutputs(cfg: Config, m: Memory, ops: seq<Op>): seq<seq<byte>>
    requires cfg.Valid() && Sized(cfg, m) && PlacedRun(cfg, ops)
    decreases |ops|
  {
    if ops == [] then [] else
      var (m', out) := Spec(cfg, m, ops[0]);
      [out] + SpecOutputs(cfg, m', ops[1..])
  }

  /** Whatever is read, written, filled and flushed, on either device, across sectors and
      evictions, callers see what two plain byte arrays would show them. */
  lemma {:induction false} RunRefinesMemory(cfg: Config, s: State, ops: seq<Op>)
    requires Wf(cfg, s) && Synced(cfg, s) && AllowedRun(cfg, s, ops)
    ensures PlacedRun(cfg, ops)
    ensures Outputs(cfg, s, ops) == SpecOutputs(cfg, Seen(cfg, s), ops)
    ensures Synced(cfg, RunTo(cfg, s, ops)) && Seen(cfg, RunTo(cfg, s, ops)) == SpecTo(cfg, Seen(cfg, s), ops)
    decreases |ops|
  {
    AllowedIsPlaced(cfg, s, ops);
    if ops != [] {
      hide Aligned, Seen, Do, Spec, Allowed, Placed;
      DoRefines(cfg, s, ops[0]);
      RunRefinesMemory(cfg, Do(cfg, s, ops[0]).0, ops[1..]);
    }
  }
}

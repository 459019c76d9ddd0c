/** drivers/spiflash.c: sector programming of SPI NOR chips.

    A chip is a memory that erases to ones and whose programming can only clear
    bits, driven by command frames.  The driver sends frames; `Exec` is what the
    chip makes of one. */
module SpiNor {
  import opened Bytes

  const PAGE := 256
  const SECTOR := 4096
  const CHIP_SECTORS := 1024
  const CHIP := 4194304   // CHIP_SECTORS * SECTOR

  const CMD_WRITE_EN: byte := 0x06
  const CMD_WRITE_DIS: byte := 0x04
  const CMD_PAGE_PROG: byte := 0x02
  const CMD_ERASE_4KB: byte := 0x20
  const CMD_WRITE_AAI: byte := 0xAD
  const CMD_READ_HS: byte := 0x0B

  datatype ProgramKind = PagePrograms | AutoIncrement

  /** `aai` is the address counter of a running auto-increment program; `kind` says which of
      the two program commands the chip takes. */
  datatype Chip = Chip(mem: seq<byte>, wel: bool, aai: Option<nat>, kind: ProgramKind)

  // ---- Addresses on the wire ----

  function LowByte(n: nat): byte {
    n % 256
  }

  function AddressBytes(adr: nat): (r: seq<byte>)
    ensures |r| == 3
  {
    [LowByte(adr / 65536), LowByte(adr / 256), LowByte(adr)]
  }

  function Address(b: seq<byte>): nat
    requires |b| == 3
  {
    var hi: nat, mid: nat, lo: nat := b[0], b[1], b[2];
    hi * 65536 + mid * 256 + lo
  }

  /** The chip decodes the address the driver meant exactly when it fits in three bytes. */
  lemma AddressRoundTrip(adr: nat)
    ensures Address(AddressBytes(adr)) == adr <==> adr < 0x100_0000
  {
    Base256Digits(adr);
  }

  lemma Base256Digits(n: nat)
    ensures n / 65536 % 256 * 65536 + n / 256 % 256 * 256 + n % 256 == n % 0x100_0000
  {
    var a := n / 256;
    var h := a / 256;
    var t := h / 256;
    assert n == 256 * a + n % 256;
    assert a == 256 * h + a % 256;
    assert h == 256 * t + h % 256;
    assert h == n / 65536;
    assert t == n / 0x100_0000;
  }

  // ---- What a chip does with a frame ----

  function Blank(n: nat): seq<byte> {
    Fill(n, 0xFF)
  }

  /** Bitwise and. */
  function AndBits(x: nat, y: nat): (r: nat)
    ensures r <= x
  {
    if x == 0 then 0 else (if x % 2 == 1 && y % 2 == 1 then 1 else 0) + 2 * AndBits(x / 2, y / 2)
  }

  predicate AllOnes(x: nat) {
    x == 0 || (x % 2 == 1 && AllOnes(x / 2))
  }

  lemma {:induction false} AndAllOnes(x: nat, y: nat)
    requires AllOnes(x) && y <= x
    ensures AndBits(x, y) == y
  {
    if x != 0 {
      AndAllOnes(x / 2, y / 2);
    }
  }

  lemma AndErased(b: byte)
    ensures AndBits(0xFF, b) == b
  {
    assert AllOnes(15) && AllOnes(255 / 2 / 2 / 2 / 2);
    assert AllOnes(127);
    AndAllOnes(0xFF, b);
  }

  function And(a: seq<byte>, b: seq<byte>): (r: seq<byte>)
    requires |a| == |b|
    ensures |r| == |a|
    ensures forall i :: 0 <= i < |a| ==> r[i] == AndBits(a[i], b[i])
  {
    seq(|a|, i requires 0 <= i < |a| => AndBits(a[i], b[i]))
  }

  function ProgramByte(mem: seq<byte>, a: nat, b: byte): (r: seq<byte>)
    ensures |r| == |mem|
  {
    if a < |mem| then mem[a := AndBits(mem[a], b)] else mem
  }

  /** Page program: the address wraps inside its 256-byte page. */
  function ProgramPage(mem: seq<byte>, page: nat, off: nat, d: seq<byte>): (r: seq<byte>)
    ensures |r| == |mem|
    decreases |d|
  {
    if d == [] then mem
    else ProgramPage(ProgramByte(mem, page + off % PAGE, d[0]), page, off + 1, d[1..])
  }

  function ProgramWord(mem: seq<byte>, a: nat, b0: byte, b1: byte): (r: seq<byte>)
    ensures |r| == |mem|
  {
    ProgramByte(ProgramByte(mem, a, b0), a + 1, b1)
  }

  function EraseSector(mem: seq<byte>, a: nat): (r: seq<byte>)
    ensures |r| == |mem|
  {
    var s := a / SECTOR * SECTOR;
    if s + SECTOR <= |mem| then Splice(mem, s, Blank(SECTOR)) else mem
  }

  function Exec(c: Chip, f: seq<byte>): Chip {
    if f == [] then c
    else if f[0] == CMD_WRITE_EN then c.(wel := true)
    else if f[0] == CMD_WRITE_DIS then c.(wel := false, aai := None)
    else if !c.wel then c
    else if f[0] == CMD_PAGE_PROG && c.kind == PagePrograms && |f| >= 4 then
      var a := Address(f[1..4]);
      c.(mem := ProgramPage(c.mem, a / PAGE * PAGE, a % PAGE, f[4..]), wel := false)
    else if f[0] == CMD_ERASE_4KB && |f| == 4 then
      c.(mem := EraseSector(c.mem, Address(f[1..4])), wel := false)
    else if f[0] == CMD_WRITE_AAI && c.kind == AutoIncrement && c.aai.None? && |f| == 6 then
      var a := Address(f[1..4]);
      c.(mem := ProgramWord(c.mem, a, f[4], f[5]), aai := Some(a + 2))
    else if f[0] == CMD_WRITE_AAI && c.kind == AutoIncrement && c.aai.Some? && |f| == 3 then
      c.(mem := ProgramWord(c.mem, c.aai.value, f[1], f[2]), aai := Some(c.aai.value + 2))
    else c
  }

  // ---- The one meaning of both program loops ----

  /** Memory after `d` has been programmed at `a`: old and new bits, ANDed. */
  function Programmed(mem: seq<byte>, a: nat, d: seq<byte>): (r: seq<byte>)
    requires a + |d| <= |mem|
    ensures |r| == |mem|
  {
    Splice(mem, a, And(mem[a..a + |d|], d))
  }

  lemma ProgrammedJoin(mem: seq<byte>, a: nat, d: seq<byte>, e: seq<byte>)
    requires a + |d| + |e| <= |mem|
    ensures Programmed(Programmed(mem, a, d), a + |d|, e) == Programmed(mem, a, d + e)
  {
  }

  lemma ProgramOne(mem: seq<byte>, a: nat, b: byte)
    requires a < |mem|
    ensures ProgramByte(mem, a, b) == Programmed(mem, a, [b])
  {
    assert And(mem[a..a + 1], [b]) == [AndBits(mem[a], b)];
  }

  /** A page program that stays inside its page does not wrap. */
  lemma {:induction false} ProgramPageStraight(mem: seq<byte>, page: nat, off: nat, d: seq<byte>)
    requires off + |d| <= PAGE && page + off + |d| <= |mem|
    ensures ProgramPage(mem, page, off, d) == Programmed(mem, page + off, d)
    decreases |d|
  {
    hide Programmed;
    if d == [] {
      ProgramNothing(mem, page + off);
    } else {
      assert off % PAGE == off;
      ProgramOne(mem, page + off, d[0]);
      ProgramPageStraight(Programmed(mem, page + off, [d[0]]), page, off + 1, d[1..]);
      ProgrammedJoin(mem, page + off, [d[0]], d[1..]);
      assert [d[0]] + d[1..] == d;
    }
  }

  lemma ProgrammedLength(mem: seq<byte>, a: nat, d: seq<byte>)
    requires a + |d| <= |mem|
    ensures |Programmed(mem, a, d)| == |mem|
  {
  }

  lemma ProgramNothing(mem: seq<byte>, a: nat)
    requires a <= |mem|
    ensures Programmed(mem, a, []) == mem
  {
  }

  /** A page program that runs over the end of its page comes back to the page's start. */
  lemma PageWraps(mem: seq<byte>, page: nat, off: nat, d: seq<byte>, e: seq<byte>)
    requires page % PAGE == 0 && page + PAGE <= |mem|
    requires off + |d| == PAGE && |e| <= off
    ensures ProgramPage(mem, page, off, d + e) == Programmed(Programmed(mem, page + off, d), page, e)
  {
    ProgramPageSplit(mem, page, off, d, e);
    ProgramPageStraight(mem, page, off, d);
    ProgramPageMod(Programmed(mem, page + off, d), page, PAGE, 0, e);
    ProgramPageStraight(Programmed(mem, page + off, d), page, 0, e);
  }

  lemma {:induction false} ProgramPageSplit(mem: seq<byte>, page: nat, off: nat, d: seq<byte>, e: seq<byte>)
    ensures ProgramPage(mem, page, off, d + e) ==
            ProgramPage(ProgramPage(mem, page, off, d), page, off + |d|, e)
    decreases |d|
  {
    if d == [] {
      assert d + e == e;
    } else {
      assert (d + e)[1..] == d[1..] + e;
      ProgramPageSplit(ProgramByte(mem, page + off % PAGE, d[0]), page, off + 1, d[1..], e);
    }
  }

  lemma {:induction false} ProgramPageMod(mem: seq<byte>, page: nat, off: nat, off': nat, e: seq<byte>)
    requires off % PAGE == off' % PAGE
    ensures ProgramPage(mem, page, off, e) == ProgramPage(mem, page, off', e)
    decreases |e|
  {
    if e != [] {
      ProgramPageMod(ProgramByte(mem, page + off % PAGE, e[0]), page, off + 1, off' + 1, e[1..]);
    }
  }

  /** Programming an erased area leaves exactly the data. */
  lemma ProgramBlank(mem: seq<byte>, a: nat, d: seq<byte>)
    requires a + |d| <= |mem|
    ensures Programmed(Splice(mem, a, Blank(|d|)), a, d) == Splice(mem, a, d)
  {
    var m := Splice(mem, a, Blank(|d|));
    assert m[a..a + |d|] == Blank(|d|);
    forall i | 0 <= i < |d|
      ensures And(Blank(|d|), d)[i] == d[i]
    {
      AndErased(d[i]);
    }
    assert And(Blank(|d|), d) == d;
    SpliceOver(mem, a, Blank(|d|), d);
  }

  // ---- What the driver's frames do ----

  /** Write enable and one page-program frame of a page-aligned address. */
  lemma PageFrame(c: Chip, adr: nat, d: seq<byte>)
    requires c.kind == PagePrograms
    requires adr % PAGE == 0 && |d| <= PAGE && adr + |d| <= |c.mem| && adr < 0x100_0000
    ensures Exec(Exec(c, [CMD_WRITE_EN]), [CMD_PAGE_PROG] + AddressBytes(adr) + d) ==
            c.(mem := Programmed(c.mem, adr, d), wel := false)
  {
    hide Programmed, ProgramPage;
    var f := [CMD_PAGE_PROG] + AddressBytes(adr) + d;
    assert f[1..4] == AddressBytes(adr) && f[4..] == d;
    AddressRoundTrip(adr);
    ProgramPageStraight(c.mem, adr, 0, d);
  }

  /** The addressed first frame of an auto-increment program. */
  lemma FirstPairFrame(c: Chip, adr: nat, b0: byte, b1: byte)
    requires c.kind == AutoIncrement && c.aai.None? && adr + 2 <= |c.mem| && adr < 0x100_0000
    ensures Exec(Exec(c, [CMD_WRITE_EN]), [CMD_WRITE_AAI] + AddressBytes(adr) + [b0, b1]) ==
            c.(mem := Programmed(c.mem, adr, [b0, b1]), wel := true, aai := Some(adr + 2))
  {
    hide Programmed, ProgramWord;
    var f := [CMD_WRITE_AAI] + AddressBytes(adr) + [b0, b1];
    assert f[1..4] == AddressBytes(adr) && f[4] == b0 && f[5] == b1;
    AddressRoundTrip(adr);
    ProgramPair(c.mem, adr, b0, b1);
  }

  lemma NextPairFrame(c: Chip, b0: byte, b1: byte)
    requires c.kind == AutoIncrement && c.wel && c.aai.Some? && c.aai.value + 2 <= |c.mem|
    ensures Exec(c, [CMD_WRITE_AAI, b0, b1]) ==
            c.(mem := Programmed(c.mem, c.aai.value, [b0, b1]), aai := Some(c.aai.value + 2))
  {
    hide Programmed, ProgramWord;
    ProgramPair(c.mem, c.aai.value, b0, b1);
  }

  lemma WriteDisable(c: Chip)
    ensures Exec(c, [CMD_WRITE_DIS]) == c.(wel := false, aai := None)
  {
  }

  lemma ProgramPair(mem: seq<byte>, a: nat, b0: byte, b1: byte)
    requires a + 2 <= |mem|
    ensures ProgramWord(mem, a, b0, b1) == Programmed(mem, a, [b0, b1])
  {
    hide Programmed;
    ProgramOne(mem, a, b0);
    ProgramOne(ProgramByte(mem, a, b0), a + 1, b1);
    ProgrammedJoin(mem, a, [b0], [b1]);
    assert [b0] + [b1] == [b0, b1];
  }

  // ---- Probing ----

  /** A recognised chip: its select line, program command and number of sectors. */
  datatype Part = Part(csid: nat, kind: ProgramKind, sectors: nat)

  predicate KnownSize(n: nat) {
    n == 512 || n == 1024 || n == 2048
  }

  function Identify(csid: nat, jedec: nat): Option<Part> {
    if jedec % 65536 == 0x20C2 then
      Some(Part(csid, PagePrograms, if jedec == 0x1720C2 then 2048 else if jedec == 0x1620C2 then 1024 else 512))
    else if jedec % 65536 == 0x25BF then
      Some(Part(csid, AutoIncrement, if jedec == 0x4A25BF then 1024 else 512))
    else None
  }

  /** The chips known by their identifiers: Macronix ones program pages, SST ones pairs of
      bytes; what is not known by all three bytes has 512 sectors. */
  lemma KnownChips(csid: nat, jedec: nat)
    ensures Identify(csid, 0x1720C2) == Some(Part(csid, PagePrograms, 2048))
    ensures Identify(csid, 0x1620C2) == Some(Part(csid, PagePrograms, 1024))
    ensures Identify(csid, 0x4A25BF) == Some(Part(csid, AutoIncrement, 1024))
    ensures jedec % 0x1_0000 == 0x20C2 && jedec !in {0x1720C2, 0x1620C2} ==>
              Identify(csid, jedec) == Some(Part(csid, PagePrograms, 512))
    ensures jedec % 0x1_0000 == 0x25BF && jedec != 0x4A25BF ==>
              Identify(csid, jedec) == Some(Part(csid, AutoIncrement, 512))
    ensures Identify(csid, jedec).None? <==> jedec % 0x1_0000 !in {0x20C2, 0x25BF}
  {
  }

  function Probed(tbl: seq<nat>, jedec: seq<nat>): (parts: seq<Part>)
    requires |tbl| == |jedec|
    ensures forall k :: 0 <= k < |parts| ==> KnownSize(parts[k].sectors)
  {
    if tbl == [] then []
    else
      var last := |tbl| - 1;
      var rest := Probed(tbl[..last], jedec[..last]);
      match Identify(tbl[last], jedec[last])
      case Some(p) => rest + [p]
      case None => rest
  }

  lemma ProbeNone()
    ensures Probed([], []) == [] && Size([]) == 0
  {
  }

  lemma ProbeOne(tbl: seq<nat>, jedec: seq<nat>, i: nat)
    requires i < |tbl| == |jedec|
    ensures Probed(tbl[..i + 1], jedec[..i + 1]) ==
            Probed(tbl[..i], jedec[..i]) +
            (match Identify(tbl[i], jedec[i]) case Some(p) => [p] case None => [])
    ensures Size(Probed(tbl[..i + 1], jedec[..i + 1])) ==
            Size(Probed(tbl[..i], jedec[..i])) +
            (match Identify(tbl[i], jedec[i]) case Some(p) => p.sectors case None => 0)
  {
    assert tbl[..i + 1][..i] == tbl[..i] && jedec[..i + 1][..i] == jedec[..i];
    var before := Probed(tbl[..i], jedec[..i]);
    if p :| Identify(tbl[i], jedec[i]) == Some(p) {
      assert (before + [p])[..|before|] == before;
    }
  }

  function Size(parts: seq<Part>): nat {
    if parts == [] then 0 else Size(parts[..|parts| - 1]) + parts[|parts| - 1].sectors
  }

  lemma {:induction false} SizeAtLeast(parts: seq<Part>, k: nat, each: nat)
    requires k <= |parts| && forall i :: k <= i < |parts| ==> parts[i].sectors >= each
    ensures Size(parts) >= Size(parts[..k]) + (|parts| - k) * each
    decreases |parts|
  {
    if k == |parts| {
      assert parts[..k] == parts;
    } else {
      var init := parts[..|parts| - 1];
      SizeAtLeast(init, k, each);
      assert init[..k] == parts[..k];
      OneMore(|init| - k, each);
    }
  }

  lemma OneMore(n: nat, each: nat)
    ensures (n + 1) * each == n * each + each
  {
  }

  lemma {:induction false} SizeExact(parts: seq<Part>)
    requires forall i :: 0 <= i < |parts| ==> parts[i].sectors == CHIP_SECTORS
    ensures Size(parts) == |parts| * CHIP_SECTORS
  {
    if parts != [] {
      SizeExact(parts[..|parts| - 1]);
    }
  }

  /** Sector number `s` reaches a sector that its chip has. */
  predicate Reached(parts: seq<Part>, s: nat) {
    s / CHIP_SECTORS < |parts| && s % CHIP_SECTORS < parts[s / CHIP_SECTORS].sectors
  }

  /** Chips of the size the sector map is built for, the last one possibly smaller. */
  predicate MapFits(parts: seq<Part>) {
    && (forall k :: 0 <= k < |parts| - 1 ==> parts[k].sectors == CHIP_SECTORS)
    && (parts != [] ==> parts[|parts| - 1].sectors <= CHIP_SECTORS)
  }

  /** Every sector below the reported size can be addressed exactly when all chips but the
      last have 1024 sectors and the last has no more: a 512- or 2048-sector chip in any
      other place, which probing accepts, breaks the map. */
  lemma SizeIsAddressable(parts: seq<Part>)
    requires forall k :: 0 <= k < |parts| ==> KnownSize(parts[k].sectors)
    ensures (forall s :: 0 <= s < Size(parts) ==> Reached(parts, s)) <==> MapFits(parts)
  {
    if MapFits(parts) {
      if parts != [] {
        SizeExact(parts[..|parts| - 1]);
      }
    } else if forall s :: 0 <= s < Size(parts) ==> Reached(parts, s) {
      var n := |parts|;
      BeyondLastChip(parts);
      forall k | 0 <= k < n - 1
        ensures parts[k].sectors >= CHIP_SECTORS
      {
        AddressedChipIsFull(parts, k);
      }
      SizeAtLeast(parts[..n - 1], 0, CHIP_SECTORS);
      if k :| 0 <= k < n - 1 && parts[k].sectors > CHIP_SECTORS {
        OversizeChip(parts, k);
      }
    }
  }

  lemma BeyondLastChip(parts: seq<Part>)
    ensures !Reached(parts, |parts| * CHIP_SECTORS)
  {
  }

  lemma {:induction false} AddressedChipIsFull(parts: seq<Part>, k: nat)
    requires k < |parts| - 1
    requires forall i :: 0 <= i < |parts| ==> parts[i].sectors >= 512
    requires forall s :: 0 <= s < Size(parts) ==> Reached(parts, s)
    ensures parts[k].sectors >= CHIP_SECTORS
    decreases k
  {
    forall i | 0 <= i < k
      ensures parts[i].sectors >= CHIP_SECTORS
    {
      AddressedChipIsFull(parts, i);
    }
    SizeAtLeast(parts[..k], 0, CHIP_SECTORS);
    SizeAtLeast(parts, k, 512);
    var s := k * CHIP_SECTORS + CHIP_SECTORS - 1;
    assert (|parts| - k) * 512 >= 1024;
    assert Reached(parts, s);
    assert s / CHIP_SECTORS == k && s % CHIP_SECTORS == CHIP_SECTORS - 1;
  }

  lemma OversizeChip(parts: seq<Part>, k: nat)
    requires k < |parts| - 1 && parts[k].sectors >= 2 * CHIP_SECTORS
    requires forall i :: 0 <= i < |parts| - 1 ==> parts[i].sectors >= CHIP_SECTORS
    requires parts[|parts| - 1].sectors > 0
    ensures Size(parts) > |parts| * CHIP_SECTORS
  {
    var init := parts[..|parts| - 1];
    SizeAtLeast(init, k + 1, CHIP_SECTORS);
    SizeAtLeast(init[..k], 0, CHIP_SECTORS);
    assert init[..k + 1][..k] == init[..k];
  }

  /** A board that probing accepts and whose map is broken: a 512-sector chip, then one of
      1024.  Sector 600 is below the reported size and on no chip. */
  lemma SmallChipFirst()
    ensures var parts := Probed([0, 1], [0x1520C2, 0x1620C2]);
            && parts == [Part(0, PagePrograms, 512), Part(1, PagePrograms, 1024)]
            && 600 < Size(parts) && !Reached(parts, 600) && !MapFits(parts)
  {
    hide Identify, Probed, Size;
    var tbl, jedec := [0, 1], [0x1520C2, 0x1620C2];
    assert tbl[..0] == [] && jedec[..0] == [] && tbl[..2] == tbl && jedec[..2] == jedec;
    KnownChips(0, 0x1520C2);
    KnownChips(1, 0x1620C2);
    ProbeNone();
    ProbeOne(tbl, jedec, 0);
    ProbeOne(tbl, jedec, 1);
  }

  // ---- The flat memory behind the sector map ----

  ghost function Length(chips: seq<Chip>, csid: seq<nat>): nat
    requires Contiguous(chips, csid)
  {
    if csid == [] then 0 else (|csid| - 1) * CHIP + |chips[csid[|csid| - 1]].mem|
  }

  /** Logical chips laid end to end: the sector map of spif_ReadLen, _SecErase and _Program. */
  ghost function Flat(chips: seq<Chip>, csid: seq<nat>): (r: seq<byte>)
    requires Contiguous(chips, csid)
    ensures |r| == Length(chips, csid)
  {
    seq(Length(chips, csid), a requires 0 <= a < Length(chips, csid) => chips[csid[a / CHIP]].mem[a % CHIP])
  }

  /** Every logical chip has a select line of its own and CHIP_SECTORS sectors, the last one
      possibly fewer. */
  ghost predicate Contiguous(chips: seq<Chip>, csid: seq<nat>) {
    && (forall k :: 0 <= k < |csid| ==> csid[k] < |chips| && |chips[csid[k]].mem| <= CHIP)
    && (forall k :: 0 <= k < |csid| - 1 ==> |chips[csid[k]].mem| == CHIP)
    && (forall k :: 0 <= k < |csid| ==> |chips[csid[k]].mem| % SECTOR == 0)
    && (forall k, l :: 0 <= k < l < |csid| ==> csid[k] != csid[l])
  }

  lemma PlaceInside(chips: seq<Chip>, csid: seq<nat>, k: nat, at: nat, n: nat)
    requires Contiguous(chips, csid) && k < |csid| && at + n <= |chips[csid[k]].mem|
    ensures k * CHIP + at + n <= Length(chips, csid)
  {
  }

  /** Every sector of the flat memory is on the chip the map computes. */
  lemma SectorInside(chips: seq<Chip>, csid: seq<nat>, sec: nat)
    requires Contiguous(chips, csid)
    ensures sec * SECTOR + SECTOR <= Length(chips, csid) <==> OnBoard(chips, csid, sec)
  {
    SectorPlace(sec);
  }

  /** Writing inside one chip writes the same range of the flat memory and nothing else. */
  lemma FlatSplice(chips: seq<Chip>, csid: seq<nat>, k: nat, c: Chip, at: nat, d: seq<byte>)
    requires Contiguous(chips, csid) && k < |csid| && at + |d| <= |chips[csid[k]].mem|
    requires c.mem == Splice(chips[csid[k]].mem, at, d)
    ensures Contiguous(chips[csid[k] := c], csid)
    ensures k * CHIP + at + |d| <= Length(chips, csid)
    ensures Flat(chips[csid[k] := c], csid) == Splice(Flat(chips, csid), k * CHIP + at, d)
  {
    PlaceInside(chips, csid, k, at, |d|);
    var l := Flat(chips[csid[k] := c], csid);
    var r := Splice(Flat(chips, csid), k * CHIP + at, d);
    forall a | 0 <= a < Length(chips, csid)
      ensures l[a] == r[a]
    {
      if a / CHIP != k {
        assert csid[a / CHIP] != csid[k];
      }
    }
  }

  lemma FlatSlice(chips: seq<Chip>, csid: seq<nat>, k: nat, at: nat, n: nat)
    requires Contiguous(chips, csid) && k < |csid| && at + n <= |chips[csid[k]].mem|
    ensures k * CHIP + at + n <= Length(chips, csid)
    ensures Flat(chips, csid)[k * CHIP + at..k * CHIP + at + n] == chips[csid[k]].mem[at..at + n]
  {
    PlaceInside(chips, csid, k, at, n);
    var l := Flat(chips, csid)[k * CHIP + at..k * CHIP + at + n];
    var r := chips[csid[k]].mem[at..at + n];
    forall i | 0 <= i < n
      ensures l[i] == r[i]
    {
      if n > 0 {
        assert (k * CHIP + at + i) / CHIP == k;
      }
    }
  }

  /** Programming inside one chip programs the same range of the flat memory. */
  lemma FlatProgrammed(chips: seq<Chip>, csid: seq<nat>, k: nat, c: Chip, at: nat, d: seq<byte>)
    requires Contiguous(chips, csid) && k < |csid| && at + |d| <= |chips[csid[k]].mem|
    requires c.mem == Programmed(chips[csid[k]].mem, at, d)
    ensures Contiguous(chips[csid[k] := c], csid)
    ensures k * CHIP + at + |d| <= Length(chips, csid)
    ensures Flat(chips[csid[k] := c], csid) == Programmed(Flat(chips, csid), k * CHIP + at, d)
  {
    hide Flat, Splice, Length;
    FlatSplice(chips, csid, k, c, at, And(chips[csid[k]].mem[at..at + |d|], d));
    FlatSlice(chips, csid, k, at, |d|);
  }

  // ---- A probed board ----

  /** Distinct select lines, each chip found there of the size and kind its identification says. */
  ghost predicate Board(tbl: seq<nat>, jedec: seq<nat>, chips: seq<Chip>) {
    && |tbl| == |jedec|
    && (forall i, j :: 0 <= i < j < |tbl| ==> tbl[i] != tbl[j])
    && (forall i :: 0 <= i < |tbl| ==> tbl[i] < |chips|)
    && (forall i :: 0 <= i < |tbl| ==>
          Identify(tbl[i], jedec[i]).Some? ==> IsPart(chips[tbl[i]], Identify(tbl[i], jedec[i]).value))
  }

  predicate IsPart(c: Chip, p: Part) {
    |c.mem| == p.sectors * SECTOR && c.kind == p.kind
  }

  /** The logical chips probing finds: on lines of the table, distinct, of the stated size. */
  predicate FoundOn(parts: seq<Part>, tbl: seq<nat>, chips: seq<Chip>) {
    && (forall k :: 0 <= k < |parts| ==> parts[k].csid in tbl && parts[k].csid < |chips|)
    && (forall k :: 0 <= k < |parts| ==>
          parts[k].csid < |chips| && IsPart(chips[parts[k].csid], parts[k]))
    && (forall k, l :: 0 <= k < l < |parts| ==> parts[k].csid != parts[l].csid)
  }

  lemma {:induction false} ProbedOnBoard(tbl: seq<nat>, jedec: seq<nat>, chips: seq<Chip>)
    requires Board(tbl, jedec, chips)
    ensures |tbl| == |jedec| && FoundOn(Probed(tbl, jedec), tbl, chips)
  {
    if tbl != [] {
      var last := |tbl| - 1;
      hide Identify, FoundOn;
      ProbedOnBoard(tbl[..last], jedec[..last], chips);
      FoundNext(Probed(tbl[..last], jedec[..last]), tbl, chips);
      if p :| Identify(tbl[last], jedec[last]) == Some(p) {
        IdentifiedLine(tbl[last], jedec[last]);
        FoundAppend(Probed(tbl[..last], jedec[..last]), p, tbl, chips);
      }
    } else {
      FoundNone(chips);
    }
  }

  lemma FoundNone(chips: seq<Chip>)
    ensures FoundOn([], [], chips)
  {
  }

  lemma IdentifiedLine(csid: nat, jedec: nat)
    ensures Identify(csid, jedec).Some? ==> Identify(csid, jedec).value.csid == csid
  {
  }

  lemma FoundAppend(rest: seq<Part>, p: Part, tbl: seq<nat>, chips: seq<Chip>)
    requires FoundOn(rest, tbl, chips) && p.csid in tbl && p.csid < |chips|
    requires IsPart(chips[p.csid], p)
    requires forall k :: 0 <= k < |rest| ==> rest[k].csid != p.csid
    ensures FoundOn(rest + [p], tbl, chips)
  {
  }

  lemma FoundNext(rest: seq<Part>, tbl: seq<nat>, chips: seq<Chip>)
    requires tbl != [] && FoundOn(rest, tbl[..|tbl| - 1], chips)
    requires forall i, j :: 0 <= i < j < |tbl| ==> tbl[i] != tbl[j]
    ensures FoundOn(rest, tbl, chips)
    ensures forall k :: 0 <= k < |rest| ==> rest[k].csid != tbl[|tbl| - 1]
  {
    forall k | 0 <= k < |rest|
      ensures rest[k].csid != tbl[|tbl| - 1] && rest[k].csid in tbl
    {
      var i :| 0 <= i < |tbl| - 1 && tbl[..|tbl| - 1][i] == rest[k].csid;
      assert tbl[i] == rest[k].csid;
    }
  }

  /** The logical chips of `parts` are in place. */
  ghost predicate InPlace(parts: seq<Part>, csid: seq<nat>, chips: seq<Chip>) {
    && |csid| == |parts|
    && (forall k :: 0 <= k < |parts| ==> KnownSize(parts[k].sectors))
    && (forall k :: 0 <= k < |parts| ==> csid[k] < |chips| && |chips[csid[k]].mem| == parts[k].sectors * SECTOR)
    && (forall k, l :: 0 <= k < l < |parts| ==> csid[k] != csid[l])
  }

  /** The driver reaches exactly the sectors of its map. */
  lemma ReachedIsOnBoard(parts: seq<Part>, csid: seq<nat>, chips: seq<Chip>, sec: nat)
    requires InPlace(parts, csid, chips)
    ensures Reached(parts, sec) <==> OnBoard(chips, csid, sec)
  {
  }

  /** They make one flat memory, of the reported size, exactly when the map fits the chips. */
  lemma BoardIsMapped(parts: seq<Part>, csid: seq<nat>, chips: seq<Chip>)
    requires InPlace(parts, csid, chips)
    ensures MapFits(parts) <==> Contiguous(chips, csid)
    ensures MapFits(parts) ==> Length(chips, csid) == Size(parts) * SECTOR
  {
    if MapFits(parts) && parts != [] {
      SizeExact(parts[..|parts| - 1]);
    }
    if Contiguous(chips, csid) {
      forall k | 0 <= k < |parts| - 1
        ensures parts[k].sectors == CHIP_SECTORS
      {
        assert |chips[csid[k]].mem| == CHIP;
      }
    }
  }

  lemma BoardIsFound(tbl: seq<nat>, jedec: seq<nat>, csid: seq<nat>, chips: seq<Chip>)
    requires Board(tbl, jedec, chips)
    requires |csid| == |Probed(tbl, jedec)|
    requires forall k :: 0 <= k < |csid| ==> csid[k] == Probed(tbl, jedec)[k].csid
    ensures var parts := Probed(tbl, jedec);
            && (forall k :: 0 <= k < |csid| ==> csid[k] < |chips| && chips[csid[k]].kind == parts[k].kind)
            && (forall k, l :: 0 <= k < l < |csid| ==> csid[k] != csid[l])
            && (forall sec: nat :: OnBoard(chips, csid, sec) <==> Reached(parts, sec))
            && (Contiguous(chips, csid) <==> MapFits(parts))
            && (Contiguous(chips, csid) ==> |Flat(chips, csid)| == Size(parts) * SECTOR)
  {
    hide Board, Probed, Reached, OnBoard, MapFits, Contiguous, Flat;
    ProbedOnBoard(tbl, jedec, chips);
    var parts := Probed(tbl, jedec);
    ProbedSizes(tbl, jedec);
    BoardIsMapped(parts, csid, chips);
    forall sec: nat
      ensures OnBoard(chips, csid, sec) <==> Reached(parts, sec)
    {
      ReachedIsOnBoard(parts, csid, chips, sec);
    }
    if Contiguous(chips, csid) {
      FlatLength(chips, csid);
    }
  }

  lemma ProbedSizes(tbl: seq<nat>, jedec: seq<nat>)
    requires |tbl| == |jedec|
    ensures forall k :: 0 <= k < |Probed(tbl, jedec)| ==> KnownSize(Probed(tbl, jedec)[k].sectors)
  {
  }

  lemma FlatLength(chips: seq<Chip>, csid: seq<nat>)
    requires Contiguous(chips, csid)
    ensures |Flat(chips, csid)| == Length(chips, csid)
  {
  }

  /** The chip the map computes for sector `sec` exists and has it. */
  predicate OnBoard(chips: seq<Chip>, csid: seq<nat>, sec: nat) {
    && sec / CHIP_SECTORS < |csid|
    && csid[sec / CHIP_SECTORS] < |chips|
    && sec % CHIP_SECTORS * SECTOR + SECTOR <= |chips[csid[sec / CHIP_SECTORS]].mem|
  }

  /** Every logical chip has its own select line and the kind noted for it, and no chip is
      mid-program. */
  ghost predicate Wired(chips: seq<Chip>, csid: seq<nat>, kinds: seq<ProgramKind>) {
    && |csid| == |kinds|
    && (forall k :: 0 <= k < |csid| ==> csid[k] < |chips| && chips[csid[k]].kind == kinds[k])
    && (forall k, l :: 0 <= k < l < |csid| ==> csid[k] != csid[l])
    && (forall c :: 0 <= c < |chips| ==> chips[c].aai.None? && |chips[c].mem| <= 0x100_0000)
  }

  lemma StaysWired(chips: seq<Chip>, csid: seq<nat>, kinds: seq<ProgramKind>, c: nat, chip: Chip)
    requires Wired(chips, csid, kinds) && c < |chips|
    requires chip.aai.None? && chip.kind == chips[c].kind && |chip.mem| == |chips[c].mem|
    ensures Wired(chips[c := chip], csid, kinds)
  {
  }

  lemma WiredChip(chips: seq<Chip>, csid: seq<nat>, kinds: seq<ProgramKind>, k: nat)
    requires Wired(chips, csid, kinds) && k < |csid| && csid[k] < |chips|
    ensures |csid| == |kinds| && chips[csid[k]].kind == kinds[k]
    ensures chips[csid[k]].aai.None? && |chips[csid[k]].mem| <= 0x100_0000
  {
  }

  // ---- The driver ----

  /** `chips` is indexed by select line; `csid` and `kinds` by logical chip. */
  class SpiFlash {
    var chips: seq<Chip>
    var csid: seq<nat>
    var kinds: seq<ProgramKind>
    var sel: nat
    var size: nat

    ghost predicate Valid()
      reads this
    {
      |csid| == |kinds| && Wired(chips, csid, kinds)
    }

    ghost predicate Flattens()
      reads this
    {
      Valid() && Contiguous(chips, csid)
    }

    /** Sector number `sec` names a sector that exists on its chip. */
    ghost predicate HasSector(sec: nat)
      reads this
    {
      OnBoard(chips, csid, sec)
    }

    /** spif_Init: `jedec[i]` is what probing select line `tbl[i]` reads. */
    method Init(tbl: seq<nat>, jedec: seq<nat>)
      requires |tbl| == |jedec|
      modifies this`csid, this`kinds, this`size, this`sel
      ensures var parts := Probed(tbl, jedec);
              && |csid| == |kinds| == |parts|
              && (forall k :: 0 <= k < |parts| ==> csid[k] == parts[k].csid && kinds[k] == parts[k].kind)
              && size == Size(parts)
      ensures Board(tbl, jedec, chips) &&
              (forall c :: 0 <= c < |chips| ==> chips[c].aai.None? && |chips[c].mem| <= 0x100_0000) ==>
                var parts := Probed(tbl, jedec);
                && Valid()
                && (forall sec: nat :: HasSector(sec) <==> Reached(parts, sec))
                && (Flattens() <==> MapFits(parts))
                && (Flattens() ==> |Flat(chips, csid)| == size * SECTOR)
    {
      hide Probed, Size, Reached, OnBoard, MapFits, Contiguous, Flat, Board;
      ProbeNone();
      csid, kinds, size := [], [], 0;
      var i := 0;
      while i < |tbl|
        invariant 0 <= i <= |tbl|
        invariant tbl[..0] == jedec[..0] == []
        invariant var parts := Probed(tbl[..i], jedec[..i]);
                  && |csid| == |kinds| == |parts|
                  && (forall k :: 0 <= k < |parts| ==> csid[k] == parts[k].csid && kinds[k] == parts[k].kind)
                  && size == Size(parts)
      {
        sel := tbl[i];
        var id := jedec[i];
        ProbeOne(tbl, jedec, i);
        if id % 65536 == 0x20C2 {
          size := size + (if id == 0x1720C2 then 2048 else if id == 0x1620C2 then 1024 else 512);
          csid, kinds := csid + [tbl[i]], kinds + [PagePrograms];
        }
        if id % 65536 == 0x25BF {
          size := size + (if id == 0x4A25BF then 1024 else 512);
          csid, kinds := csid + [tbl[i]], kinds + [AutoIncrement];
        }
        i := i + 1;
      }
      assert tbl[..i] == tbl && jedec[..i] == jedec;
      if Board(tbl, jedec, chips) {
        BoardIsFound(tbl, jedec, csid, chips);
      }
    }

    method Send(f: seq<byte>)
      requires sel < |chips|
      modifies this`chips
      ensures chips == old(chips)[sel := Exec(old(chips)[sel], f)]
    {
      chips := chips[sel := Exec(chips[sel], f)];
    }

    /** _spif_Program_PP: one page-program frame for every 256 bytes. */
    method ProgramPagewise(adr0: nat, data: seq<byte>)
      requires sel < |chips| && chips[sel].kind == PagePrograms && adr0 % PAGE == 0 && |data| % PAGE == 0 && data != []
      requires adr0 + |data| <= |chips[sel].mem| <= 0x100_0000
      modifies this`chips
      ensures chips == old(chips)[sel := old(chips)[sel].(mem := Programmed(old(chips)[sel].mem, adr0, data), wel := false)]
    {
      hide Exec, Programmed, AddressBytes;
      var adr, p := adr0, 0;
      ghost var c0 := chips[sel];
      ProgramNothing(c0.mem, adr0);
      while p < |data|
        invariant 0 <= p <= |data| && p % PAGE == 0 && adr == adr0 + p
        invariant |chips| == |old(chips)| && chips == old(chips)[sel := chips[sel]]
        invariant p == 0 ==> chips[sel] == c0
        invariant p > 0 ==> chips[sel] == c0.(mem := Programmed(c0.mem, adr0, data[..p]), wel := false)
      {
        ghost var c, p0 := chips[sel], p;
        assert c.mem == Programmed(c0.mem, adr0, data[..p0]);
        Send([CMD_WRITE_EN]);
        var frame := [CMD_PAGE_PROG] + AddressBytes(adr);
        ghost var head := frame;
        var pageEnd := p + PAGE;
        while p < pageEnd
          invariant p0 <= p <= pageEnd
          invariant frame == head + data[p0..p]
        {
          frame := frame + [data[p]];
          p := p + 1;
        }
        Send(frame);
        PageFrame(c, adr, data[p0..p]);
        ProgrammedJoin(c0.mem, adr0, data[..p0], data[p0..p]);
        assert data[..p0] + data[p0..p] == data[..p];
        adr := adr + PAGE;
      }
      assert data[..p] == data;
    }

    /** _spif_Program_AAI: an addressed first pair, then one frame a pair. */
    method ProgramAutoIncrement(adr: nat, data: seq<byte>)
      requires sel < |chips| && chips[sel].kind == AutoIncrement && chips[sel].aai.None?
      requires |data| >= 2 && |data| % 2 == 0
      requires adr + |data| <= |chips[sel].mem| <= 0x100_0000
      modifies this`chips
      ensures chips == old(chips)[sel := old(chips)[sel].(mem := Programmed(old(chips)[sel].mem, adr, data), wel := false)]
    {
      hide Exec, Programmed, AddressBytes;
      ghost var c0 := chips[sel];
      Send([CMD_WRITE_EN]);
      Send([CMD_WRITE_AAI] + AddressBytes(adr) + [data[0], data[1]]);
      FirstPairFrame(c0, adr, data[0], data[1]);
      assert data[..2] == [data[0], data[1]];
      var p := 2;
      while p < |data|
        invariant 2 <= p <= |data| && p % 2 == 0
        invariant chips == old(chips)[sel := c0.(mem := Programmed(c0.mem, adr, data[..p]), wel := true, aai := Some(adr + p))]
      {
        NextPairFrame(chips[sel], data[p], data[p + 1]);
        ProgrammedJoin(c0.mem, adr, data[..p], [data[p], data[p + 1]]);
        assert data[..p] + [data[p], data[p + 1]] == data[..p + 2];
        Send([CMD_WRITE_AAI, data[p], data[p + 1]]);
        p := p + 2;
      }
      assert data[..p] == data;
      WriteDisable(chips[sel]);
      Send([CMD_WRITE_DIS]);
    }

    method SecErase(sec: nat)
      requires Valid() && HasSector(sec)
      modifies this`chips, this`sel
      ensures Valid()
      ensures var c, a := csid[sec / CHIP_SECTORS], sec % CHIP_SECTORS * SECTOR;
              chips == old(chips)[c := old(chips)[c].(mem := Splice(old(chips)[c].mem, a, Blank(SECTOR)), wel := false)]
      ensures old(Flattens()) ==>
                && Flattens()
                && sec * SECTOR + SECTOR <= |old(Flat(chips, csid))|
                && Flat(chips, csid) == Splice(old(Flat(chips, csid)), sec * SECTOR, Blank(SECTOR))
    {
      hide Exec, AddressBytes, Wired, Contiguous, Splice, Flat, Length;
      sel := csid[sec / CHIP_SECTORS];
      WiredChip(chips, csid, kinds, sec / CHIP_SECTORS);
      var a := sec % CHIP_SECTORS * SECTOR;
      ghost var c := chips[sel];
      Send([CMD_WRITE_EN]);
      Send([CMD_ERASE_4KB] + AddressBytes(a));
      EraseFrame(c, a);
      assert chips == old(chips)[sel := c.(mem := Splice(c.mem, a, Blank(SECTOR)), wel := false)];
      StaysWired(old(chips), csid, kinds, sel, chips[sel]);
      SectorPlace(sec);
      if old(Flattens()) {
        FlatSplice(old(chips), csid, sec / CHIP_SECTORS, chips[sel], a, Blank(SECTOR));
        FlatLength(old(chips), csid);
      }
    }

    method Program(sec: nat, data: seq<byte>)
      requires Valid() && HasSector(sec) && |data| == SECTOR
      modifies this`chips, this`sel
      ensures Valid()
      ensures var c, a := csid[sec / CHIP_SECTORS], sec % CHIP_SECTORS * SECTOR;
              chips == old(chips)[c := old(chips)[c].(mem := Programmed(old(chips)[c].mem, a, data), wel := false)]
      ensures old(Flattens()) ==>
                && Flattens()
                && sec * SECTOR + SECTOR <= |old(Flat(chips, csid))|
                && Flat(chips, csid) == Programmed(old(Flat(chips, csid)), sec * SECTOR, data)
    {
      hide Programmed, Flat, Wired, Contiguous, Splice, Length;
      var k := sec / CHIP_SECTORS;
      SectorPlace(sec);
      sel := csid[k];
      WiredChip(chips, csid, kinds, sec / CHIP_SECTORS);
      var a := sec % CHIP_SECTORS * SECTOR;
      if kinds[k] == PagePrograms {
        ProgramPagewise(a, data);
      } else {
        ProgramAutoIncrement(a, data);
      }
      assert chips == old(chips)[sel := old(chips)[sel].(mem := Programmed(old(chips)[sel].mem, a, data), wel := false)];
      ProgrammedLength(old(chips)[sel].mem, a, data);
      StaysWired(old(chips), csid, kinds, sel, chips[sel]);
      if old(Flattens()) {
        FlatProgrammed(old(chips), csid, k, chips[sel], a, data);
        FlatLength(old(chips), csid);
      }
    }

    /** spif_ReadLen: a read command and what the chip answers. */
    method ReadLen(sec: nat, off: nat, n: nat) returns (data: seq<byte>)
      requires Valid() && HasSector(sec) && off + n <= SECTOR
      modifies this`sel
      ensures Valid() && (old(Flattens()) ==> Flattens())
      ensures data == chips[csid[sec / CHIP_SECTORS]].mem[sec % CHIP_SECTORS * SECTOR + off..][..n]
      ensures Flattens() ==> data == Flat(chips, csid)[sec * SECTOR + off..sec * SECTOR + off + n]
    {
      hide Flat, AddressBytes, Answer, Wired, Contiguous, Length;
      sel := csid[sec / CHIP_SECTORS];
      var a := sec % CHIP_SECTORS * SECTOR + off;
      data := Answer(chips[sel], [CMD_READ_HS] + AddressBytes(a) + [0], n);
      Answered(chips[sel], a, n);
      if Flattens() {
        FlatSlice(chips, csid, sec / CHIP_SECTORS, a, n);
        SectorPlace(sec);
      }
    }
  }

  /** The `n` bytes a chip sends back after a fast-read frame (one dummy byte after the address). */
  function Answer(c: Chip, f: seq<byte>, n: nat): seq<byte> {
    if |f| == 5 && f[0] == CMD_READ_HS && Address(f[1..4]) + n <= |c.mem| then
      c.mem[Address(f[1..4])..Address(f[1..4]) + n]
    else Blank(n)
  }

  lemma Answered(c: Chip, adr: nat, n: nat)
    requires adr + n <= |c.mem| && adr < 0x100_0000
    ensures Answer(c, [CMD_READ_HS] + AddressBytes(adr) + [0], n) == c.mem[adr..adr + n]
  {
    var f := [CMD_READ_HS] + AddressBytes(adr) + [0];
    assert f[1..4] == AddressBytes(adr);
    AddressRoundTrip(adr);
  }

  lemma EraseFrame(c: Chip, adr: nat)
    requires adr % SECTOR == 0 && adr + SECTOR <= |c.mem| && adr < 0x100_0000
    ensures Exec(Exec(c, [CMD_WRITE_EN]), [CMD_ERASE_4KB] + AddressBytes(adr)) ==
            c.(mem := Splice(c.mem, adr, Blank(SECTOR)), wel := false)
  {
    var f := [CMD_ERASE_4KB] + AddressBytes(adr);
    assert f[1..4] == AddressBytes(adr);
    AddressRoundTrip(adr);
  }

  /** The chip and local sector of a sector number give its place in the flat memory. */
  lemma SectorPlace(sec: nat)
    ensures sec / CHIP_SECTORS * CHIP + sec % CHIP_SECTORS * SECTOR == sec * SECTOR
    ensures sec % CHIP_SECTORS * SECTOR + SECTOR <= CHIP
  {
  }
}

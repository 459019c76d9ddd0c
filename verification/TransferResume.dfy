/** cp/gdfts.c: what a transfer has received survives faults and power loss. */
module TransferResume {
  import opened Bytes
  import opened LittleEndian
  import opened SpiNor
  import opened Transfer

  /** The sender's plan: chunk k is sent with count k + 1, again and again until it is taken. */
  type Plan = seq<seq<byte>>

  function Joined(c: Plan): seq<byte> {
    if c == [] then [] else Joined(c[..|c| - 1]) + c[|c| - 1]
  }

  predicate PlanFits(cfg: Config, c: Plan) {
    |c| < U16 - 1 && HEADER_SIZE + |Joined(c)| <= cfg.span
  }

  lemma {:induction false} JoinedPrefix(c: Plan, k: nat)
    requires k <= |c|
    ensures |Joined(c[..k])| <= |Joined(c)|
    ensures k < |c| ==> Joined(c[..k + 1]) == Joined(c[..k]) + c[k] && |Joined(c[..k])| + |c[k]| <= |Joined(c)|
    decreases |c|
  {
    if k < |c| {
      var init := c[..|c| - 1];
      assert c[..k + 1][..k] == c[..k];
      if k < |c| - 1 {
        JoinedPrefix(init, k);
        assert init[..k] == c[..k] && init[..k + 1] == c[..k + 1];
        JoinedPrefix(init, k + 1);
      } else {
        assert c[..k + 1] == c;
      }
    } else {
      assert c[..k] == c;
    }
  }

  /** Beyond the received bytes the area, which ends at `end`, is blank, but for bits of the
      chunk that is next. */
  ghost predicate Pending(area: seq<byte>, end: nat, off: nat, c: Plan, k: nat)
    requires end <= |area|
  {
    forall i :: off <= i < end ==>
      area[i] == 0xFF || (k < |c| && i - off < |c[k]| && area[i] == c[k][i - off])
  }

  /** An open transfer has received the first cnt - 1 chunks of the plan, in order, and
      nothing else; its record never claims a finished image. */
  ghost predicate Resumes(cfg: Config, s: State, c: Plan) {
    && |s.area| == cfg.size < U32 && cfg.span <= cfg.size && PlanFits(cfg, c)
    && (s.rec.Some? ==>
          var r := s.rec.value;
          && 1 <= r.cnt <= |c| + 1
          && r.reced == |Joined(c[..r.cnt - 1])| && HEADER_SIZE + r.reced <= cfg.span
          && s.area[HEADER_SIZE..HEADER_SIZE + r.reced] == Joined(c[..r.cnt - 1])
          && (r.len > 0 ==> r.reced < r.len)
          && Pending(s.area, cfg.span, HEADER_SIZE + r.reced, c, r.cnt - 1))
  }

  // ---- Programming the chunk that is next ----

  lemma {:induction false} AndSame(x: nat)
    ensures AndBits(x, x) == x
  {
    if x != 0 {
      AndSame(x / 2);
    }
  }

  /** Programming all or part of the pending chunk, however often, only brings it nearer. */
  lemma ProgramPending(area: seq<byte>, end: nat, off: nat, c: Plan, k: nat, n: nat)
    requires k < |c| && n <= |c[k]| && off + |c[k]| <= end <= |area| && Pending(area, end, off, c, k)
    ensures var r := Programmed(area, off, c[k][..n]);
            && Pending(r, end, off, c, k)
            && r[..off] == area[..off]
            && r[off..off + n] == c[k][..n]
            && (forall i :: off + |c[k]| <= i < end ==> r[i] == 0xFF)
  {
    var d := c[k][..n];
    var r := Programmed(area, off, d);
    forall i | 0 <= i < n
      ensures And(area[off..off + n], d)[i] == d[i]
    {
      assert area[off..off + n][i] == area[off + i];
      AndErased(d[i]);
      AndSame(d[i]);
    }
    assert And(area[off..off + n], d) == d;
    assert r == Splice(area, off, d);
  }

  /** Where a transfer of this kind puts its next chunk. */
  lemma NextPlace(cfg: Config, s: State, c: Plan)
    requires Resumes(cfg, s, c) && s.rec.Some? && s.rec.value.cnt - 1 < |c|
    ensures Place(s.rec.value) == HEADER_SIZE + s.rec.value.reced
    ensures HEADER_SIZE + s.rec.value.reced + |c[s.rec.value.cnt - 1]| <= cfg.span
  {
    hide Joined, Pending;
    JoinedPrefix(c, s.rec.value.cnt - 1);
  }

  lemma ProgramKeepsResumes(cfg: Config, s: State, c: Plan, n: nat)
    requires Resumes(cfg, s, c) && s.rec.Some? && s.rec.value.cnt - 1 < |c|
    requires n <= |c[s.rec.value.cnt - 1]|
    ensures Resumes(cfg, Apply(cfg, s, Program(Place(s.rec.value), c[s.rec.value.cnt - 1][..n])), c)
  {
    hide Programmed, Landed, Joined, Pending, Place;
    var r := s.rec.value;
    var k, off := r.cnt - 1, HEADER_SIZE + r.reced;
    NextPlace(cfg, s, c);
    LandedInside(s.area, off, c[k][..n]);
    ProgramPending(s.area, cfg.span, off, c, k, n);
    var area := Programmed(s.area, off, c[k][..n]);
    assert area[HEADER_SIZE..off] == area[..off][HEADER_SIZE..];
    assert s.area[HEADER_SIZE..off] == s.area[..off][HEADER_SIZE..];
  }

  /** The whole chunk programmed and the record moved on: one more chunk received. */
  lemma AdvanceResumes(cfg: Config, s: State, c: Plan)
    requires Resumes(cfg, s, c) && s.rec.Some? && s.rec.value.cnt - 1 < |c|
    requires var r := s.rec.value; Advanced(r, |c[r.cnt - 1]|).reced < r.len
    ensures var r := s.rec.value;
            var t := Apply(cfg, s, Program(Place(r), c[r.cnt - 1]));
            Resumes(cfg, t.(rec := Some(Advanced(r, |c[r.cnt - 1]|))), c)
  {
    hide Programmed, Landed, Joined, Place;
    var r := s.rec.value;
    var k, off := r.cnt - 1, HEADER_SIZE + r.reced;
    NextPlace(cfg, s, c);
    JoinedPrefix(c, k);
    LandedInside(s.area, off, c[k]);
    assert c[k][..|c[k]|] == c[k];
    ProgramPending(s.area, cfg.span, off, c, k, |c[k]|);
    ReceivedMore(s.area, Programmed(s.area, off, c[k]), off, c[k]);
  }

  lemma ReceivedMore(m: seq<byte>, r: seq<byte>, off: nat, d: seq<byte>)
    requires HEADER_SIZE <= off && off + |d| <= |m| == |r| && r[..off] == m[..off] && r[off..off + |d|] == d
    ensures r[HEADER_SIZE..off + |d|] == m[HEADER_SIZE..off] + d
  {
    assert r[HEADER_SIZE..off] == r[..off][HEADER_SIZE..] == m[..off][HEADER_SIZE..] == m[HEADER_SIZE..off];
    assert r[HEADER_SIZE..off + |d|] == r[HEADER_SIZE..off] + r[off..off + |d|];
  }

  // ---- Formatting ----

  /** Erasing blocks keeps what was received exactly where that was blank already. */
  lemma {:induction false} ErasesBlankOut(cfg: Config, s: State, n: nat)
    requires cfg.Valid() && |s.area| == cfg.size && n <= |cfg.tbl|
    ensures AllFit(cfg, EraseOps(n))
    ensures var t := ApplyAll(cfg, s, EraseOps(n));
            && t.rec == s.rec
            && forall a :: 0 <= a < cfg.size ==> t.area[a] == if Erased(cfg, n, a) then 0xFF else s.area[a]
    decreases n
  {
    if n > 0 {
      ErasesBlankOut(cfg, s, n - 1);
      assert EraseOps(n) == EraseOps(n - 1) + [EraseBlock(n - 1)];
      ApplyAllAppend(cfg, s, EraseOps(n - 1), EraseBlock(n - 1));
      var t := ApplyAll(cfg, s, EraseOps(n - 1));
      var u := Apply(cfg, t, EraseBlock(n - 1));
      forall a | 0 <= a < cfg.size
        ensures u.area[a] == if Erased(cfg, n, a) then 0xFF else s.area[a]
      {
        ErasedStep(cfg, n, a);
      }
    }
  }

  /** Address `a` lies in one of the first `n` blocks. */
  ghost predicate Erased(cfg: Config, n: nat, a: nat) {
    exists i :: 0 <= i < n && i < |cfg.tbl| && cfg.tbl[i] <= a < cfg.tbl[i] + cfg.blkSize
  }

  lemma ErasedStep(cfg: Config, n: nat, a: nat)
    requires 0 < n <= |cfg.tbl|
    ensures Erased(cfg, n, a) <==> Erased(cfg, n - 1, a) || cfg.tbl[n - 1] <= a < cfg.tbl[n - 1] + cfg.blkSize
  {
  }

  lemma FormatBlanks(cfg: Config, s: State)
    requires cfg.Valid() && |s.area| == cfg.size
    ensures AllFit(cfg, EraseOps(|cfg.tbl|))
    ensures forall a :: 0 <= a < cfg.span ==> ApplyAll(cfg, s, EraseOps(|cfg.tbl|)).area[a] == 0xFF
  {
    ErasesBlankOut(cfg, s, |cfg.tbl|);
    forall a | 0 <= a < cfg.span
      ensures Erased(cfg, |cfg.tbl|, a)
    {
      assert cfg.Covered(a);
    }
  }

  /** A format cut short under an open transfer: the record still claims what it claimed, so
      the transfer can be resumed exactly when the erased part of it was blank. */
  lemma InterruptedFormat(cfg: Config, s: State, c: Plan, n: nat)
    requires cfg.Valid() && Resumes(cfg, s, c) && s.rec.Some? && n <= |cfg.tbl|
    ensures AllFit(cfg, EraseOps(n))
    ensures Resumes(cfg, ApplyAll(cfg, s, EraseOps(n)), c) <==>
            forall a :: HEADER_SIZE <= a < HEADER_SIZE + s.rec.value.reced && Erased(cfg, n, a) ==> s.area[a] == 0xFF
  {
    hide Joined, Erased, ApplyAll;
    ErasesBlankOut(cfg, s, n);
    var r := s.rec.value;
    var t := ApplyAll(cfg, s, EraseOps(n));
    var was, now := s.area[HEADER_SIZE..HEADER_SIZE + r.reced], t.area[HEADER_SIZE..HEADER_SIZE + r.reced];
    if forall a :: HEADER_SIZE <= a < HEADER_SIZE + r.reced && Erased(cfg, n, a) ==> s.area[a] == 0xFF {
      assert was == now;
    } else {
      var a :| HEADER_SIZE <= a < HEADER_SIZE + r.reced && Erased(cfg, n, a) && s.area[a] != 0xFF;
      assert was[a - HEADER_SIZE] != now[a - HEADER_SIZE];
    }
  }

  /** The first `n` blocks erased, no byte of the area after the header is left unblank. */
  ghost predicate StartsBlank(cfg: Config, s: State, n: nat)
    requires |s.area| == cfg.size && cfg.span <= cfg.size
  {
    forall a :: HEADER_SIZE <= a < cfg.span && !Erased(cfg, n, a) ==> s.area[a] == 0xFF
  }

  /** Received bytes of an open transfer among the first `n` blocks were blank. */
  ghost predicate NothingLost(cfg: Config, s: State, n: nat)
    requires |s.area| == cfg.size && cfg.span <= cfg.size
  {
    s.rec.Some? ==>
      forall a :: HEADER_SIZE <= a < HEADER_SIZE + s.rec.value.reced && a < cfg.span && Erased(cfg, n, a) ==>
        s.area[a] == 0xFF
  }

  /** A format that stops after `n` blocks, and a record of nothing received stored all the
      same: every plan can start on it exactly when what was not erased was blank. */
  lemma OpenedOverStale(cfg: Config, s: State, rec: Record, n: nat)
    requires cfg.Valid() && |s.area| == cfg.size && n <= |cfg.tbl| && rec.cnt == 1 && rec.reced == 0
    ensures AllFit(cfg, EraseOps(n))
    ensures var t := ApplyAll(cfg, s, EraseOps(n)).(rec := Some(rec));
            (forall c | PlanFits(cfg, c) :: Resumes(cfg, t, c)) <==> StartsBlank(cfg, s, n)
  {
    hide Erased, ApplyAll;
    ErasesBlankOut(cfg, s, n);
    var t := ApplyAll(cfg, s, EraseOps(n)).(rec := Some(rec));
    if StartsBlank(cfg, s, n) {
      forall c | PlanFits(cfg, c)
        ensures Resumes(cfg, t, c)
      {
        FreshResumes(cfg, t, c);
      }
    } else {
      var a :| HEADER_SIZE <= a < cfg.span && !Erased(cfg, n, a) && s.area[a] != 0xFF;
      assert t.area[a] != 0xFF;
      assert PlanFits(cfg, []) && !Resumes(cfg, t, []);
    }
  }

  /** A record of nothing received over a blank area starts any plan. */
  lemma FreshResumes(cfg: Config, s: State, c: Plan)
    requires |s.area| == cfg.size < U32 && cfg.span <= cfg.size && PlanFits(cfg, c)
    requires forall a :: HEADER_SIZE <= a < cfg.span ==> s.area[a] == 0xFF
    requires s.rec.Some? && s.rec.value.cnt == 1 && s.rec.value.reced == 0
    ensures Resumes(cfg, s, c)
  {
    assert c[..0] == [];
    assert s.area[HEADER_SIZE..HEADER_SIZE + 0] == [];
  }

  /** An input that fails it.  Two blocks of 32 bytes hold zeroes, the format stops after the
      first, the transfer opens, and a chunk 0x01 is answered OK: the record counts one byte
      received, and that byte reads 0x00. */
  lemma PartialFormatCorrupts(crc16: seq<byte> -> nat)
    ensures var cfg := Config(64, 64, [0, 32], 32, 0, 0, crc16);
            var s := State(Fill(64, 0), None);
            var begin, chunk := Begin(false, 2, 0), Chunk(1, [1]);
            var f, g := Fault(1, None, None, None, 0), Fault(0, None, None, None, 0);
            && cfg.Valid() && MsgOk(cfg, begin, f) && ReplyTo(cfg, s, begin, f).ok
            && AllFit(cfg, Ops(cfg, s, begin, f))
            && var t := ApplyAll(cfg, s, Ops(cfg, s, begin, f));
               && MsgOk(cfg, chunk, g) && ReplyTo(cfg, t, chunk, g).ok
               && AllFit(cfg, Ops(cfg, t, chunk, g))
               && var u := ApplyAll(cfg, t, Ops(cfg, t, chunk, g));
                  u.rec == Some(Record(2, 0, 1, 2)) && u.area[HEADER_SIZE] == 0
  {
    hide TornRecord, StoreOps, StoredRecord, Splice, Landed;
    var cfg := Config(64, 64, [0, 32], 32, 0, 0, crc16);
    forall a | 0 <= a < 64
      ensures cfg.Covered(a)
    {
      assert cfg.tbl[a / 32] <= a < cfg.tbl[a / 32] + 32;
    }
    var s := State(Fill(64, 0), None);
    var f, g := Fault(1, None, None, None, 0), Fault(0, None, None, None, 0);
    BeginEffect(cfg, s, Begin(false, 2, 0), f);
    ErasesBlankOut(cfg, s, 1);
    assert !Erased(cfg, 1, 32);
    StoredWhole(None, Record(1, 0, 0, 2));
    var t := ApplyAll(cfg, s, Ops(cfg, s, Begin(false, 2, 0), f));
    assert t.rec == Some(Record(1, 0, 0, 2)) && t.area[32] == 0;
    OpsFit(cfg, t, Chunk(1, [1]), g);
    LandedInside(t.area, 32, [1]);
    var v := Apply(cfg, t, Program(32, [1]));
    StillZero(t.area, 32);
    StoreEffect(cfg, v, Record(2, 0, 1, 2), None);
    StoredWhole(v.rec, Record(2, 0, 1, 2));
    var rest := StoreOps(v.rec, Record(2, 0, 1, 2), None);
    assert ([Program(32, [1])] + rest)[1..] == rest;
  }

  lemma StoredWhole(prior: Option<Record>, rec: Record)
    ensures StoredRecord(prior, rec, None) == Some(rec)
  {
  }

  lemma StillZero(mem: seq<byte>, a: nat)
    requires a < |mem| && mem[a] == 0
    ensures Programmed(mem, a, [1])[a] == 0
  {
    assert And(mem[a..a + 1], [1])[0] == AndBits(mem[a], 1) == 0;
  }

  // ---- Erases that power cuts short ----

  predicate InBlock(cfg: Config, i: nat, a: nat)
    requires i < |cfg.tbl|
  {
    cfg.tbl[i] <= a < cfg.tbl[i] + cfg.blkSize
  }

  /** Block `i` is left with `junk` in it, those before it erased: received bytes are as they
      were, and the rest of the block is blank or has the bytes of the chunk that is next. */
  ghost predicate TornSpares(cfg: Config, s: State, c: Plan, i: nat, junk: seq<byte>)
    requires |s.area| == cfg.size && cfg.span <= cfg.size && i < |cfg.tbl| && |junk| == cfg.blkSize
  {
    s.rec.Some? ==>
      var off := HEADER_SIZE + s.rec.value.reced;
      && (forall a :: HEADER_SIZE <= a < off && a < cfg.span && InBlock(cfg, i, a) ==> s.area[a] == junk[a - cfg.tbl[i]])
      && (forall a :: HEADER_SIZE <= a < off && a < cfg.span && !InBlock(cfg, i, a) && Erased(cfg, i, a) ==> s.area[a] == 0xFF)
      && (forall a :: off <= a < cfg.span && InBlock(cfg, i, a) ==>
            PendingByte(junk[a - cfg.tbl[i]], a - off, c, s.rec.value.cnt - 1))
  }

  predicate PendingByte(b: byte, x: nat, c: Plan, k: int) {
    b == 0xFF || (0 <= k < |c| && x < |c[k]| && b == c[k][x])
  }

  lemma TornEraseResumes(cfg: Config, s: State, c: Plan, i: nat, junk: seq<byte>)
    requires cfg.Valid() && Resumes(cfg, s, c) && i < |cfg.tbl| && |junk| == cfg.blkSize
    ensures AllFit(cfg, EraseOps(i) + [Scramble(i, junk)])
    ensures Resumes(cfg, ApplyAll(cfg, s, EraseOps(i) + [Scramble(i, junk)]), c) <==> TornSpares(cfg, s, c, i, junk)
  {
    hide Joined, Erased, ApplyAll, AllFit;
    ErasesBlankOut(cfg, s, i);
    var t := ApplyAll(cfg, s, EraseOps(i));
    ApplyAllAppend(cfg, s, EraseOps(i), Scramble(i, junk));
    var u := Apply(cfg, t, Scramble(i, junk));
    if s.rec.Some? {
      TornBytes(cfg, s, c, i, junk, t, u);
    }
  }

  lemma TornBytes(cfg: Config, s: State, c: Plan, i: nat, junk: seq<byte>, t: State, u: State)
    requires cfg.Valid() && Resumes(cfg, s, c) && s.rec.Some? && i < |cfg.tbl| && |junk| == cfg.blkSize
    requires |t.area| == cfg.size && t.rec == s.rec
    requires forall a :: 0 <= a < cfg.size ==> t.area[a] == if Erased(cfg, i, a) then 0xFF else s.area[a]
    requires u == Apply(cfg, t, Scramble(i, junk))
    ensures Resumes(cfg, u, c) <==> TornSpares(cfg, s, c, i, junk)
  {
    hide Joined, Erased, Splice, Pending, PlanFits, InBlock, PendingByte;
    var r := s.rec.value;
    var off, k := HEADER_SIZE + r.reced, r.cnt - 1;
    TornArea(cfg, s.area, t.area, u.area, i, junk);
    SliceEqual(s.area, u.area, HEADER_SIZE, off);
    TornPending(cfg, s.area, u.area, i, junk, off, c, k);
  }

  /** The area byte by byte, first erased up to block `i`, then block `i` scrambled. */
  ghost predicate TornFrom(cfg: Config, was: seq<byte>, now: seq<byte>, i: nat, junk: seq<byte>)
    requires i < |cfg.tbl| && |junk| == cfg.blkSize && |was| == |now|
  {
    forall a :: 0 <= a < |now| ==>
      now[a] == if InBlock(cfg, i, a) then junk[a - cfg.tbl[i]] else if Erased(cfg, i, a) then 0xFF else was[a]
  }

  lemma TornArea(cfg: Config, was: seq<byte>, erased: seq<byte>, now: seq<byte>, i: nat, junk: seq<byte>)
    requires i < |cfg.tbl| && |junk| == cfg.blkSize && |was| == |erased| && cfg.tbl[i] + |junk| <= |was|
    requires forall a :: 0 <= a < |was| ==> erased[a] == if Erased(cfg, i, a) then 0xFF else was[a]
    requires now == Splice(erased, cfg.tbl[i], junk)
    ensures |now| == |was| && TornFrom(cfg, was, now, i, junk)
  {
    hide Erased, Splice;
    SpliceBytes(erased, cfg.tbl[i], junk);
  }

  lemma TornPending(cfg: Config, was: seq<byte>, now: seq<byte>, i: nat, junk: seq<byte>, off: nat, c: Plan, k: nat)
    requires i < |cfg.tbl| && |junk| == cfg.blkSize && cfg.span <= |was| == |now| && TornFrom(cfg, was, now, i, junk)
    requires Pending(was, cfg.span, off, c, k)
    ensures Pending(now, cfg.span, off, c, k) <==>
            forall a :: off <= a < cfg.span && InBlock(cfg, i, a) ==> PendingByte(junk[a - cfg.tbl[i]], a - off, c, k)
  {
    hide Erased, PendingByte;
    PendingMeans(was, cfg.span, off, c, k);
    PendingMeans(now, cfg.span, off, c, k);
    BlankIsPending(c, k);
  }

  lemma PendingMeans(m: seq<byte>, end: nat, off: nat, c: Plan, k: nat)
    requires end <= |m|
    ensures Pending(m, end, off, c, k) <==> forall a :: off <= a < end ==> PendingByte(m[a], a - off, c, k)
  {
  }

  lemma BlankIsPending(c: Plan, k: nat)
    ensures forall x: nat :: PendingByte(0xFF, x, c, k)
  {
  }

  lemma SpliceBytes(m: seq<byte>, at: nat, d: seq<byte>)
    requires at + |d| <= |m|
    ensures |Splice(m, at, d)| == |m|
    ensures forall a :: 0 <= a < |m| ==> Splice(m, at, d)[a] == if at <= a < at + |d| then d[a - at] else m[a]
  {
  }

  lemma SliceEqual(a: seq<byte>, b: seq<byte>, from: nat, to: nat)
    requires from <= to <= |a| == |b|
    ensures a[from..to] == b[from..to] <==> forall x :: from <= x < to ==> a[x] == b[x]
  {
    if a[from..to] == b[from..to] {
      forall x | from <= x < to
        ensures a[x] == b[x]
      {
        assert a[from..to][x - from] == b[from..to][x - from];
      }
    }
  }

  // ---- Stores that stop half-way ----

  /** What a torn record says where to go on: right from the eighth byte on, when the count of
      bytes received is complete, or when the bytes of it still missing are ones. */
  predicate PlaceWritten(rec: Record, j: nat) {
    j >= 8 || (j >= 4 && Torn(rec.reced, 4, j - 4) == rec.reced)
  }

  /** A transfer whose record is torn after `j` bytes can be resumed exactly when those tell
      where to go on. */
  lemma TornStore(cfg: Config, s: State, rec: Record, j: nat, c: Plan)
    requires Storable(rec) && j <= RECORD_SIZE && (rec.reced == 0 || rec.reced < rec.len)
    requires Resumes(cfg, s.(rec := Some(rec)), c)
    ensures Resumes(cfg, s.(rec := Some(TornRecord(rec, j))), c) <==> PlaceWritten(rec, j)
  {
    hide Joined, TornRecord, Torn, Pending;
    BytePowers();
    TornFields(rec, j);
    TornWhole(rec.cnt, 2);
    TornWhole(rec.reced, 4);
    TornAtLeast(rec.len, 4, Clip(j, 8, 4));
    TornNothing(rec.reced, 4);
  }

  lemma TornNothing(n: nat, w: nat)
    ensures Torn(n, w, 0) == Power256(w) - 1
  {
  }

  /** What a store comes to that power cuts after `i` of its operations: a fault again. */
  function CutStore(prior: Option<Record>, rec: Record, fault: Option<nat>, i: nat): (r: Option<nat>)
    requires fault.Some? ==> fault.value <= RECORD_SIZE + 2
    ensures r.Some? ==> r.value <= RECORD_SIZE + 2
  {
    if i >= |StoreOps(prior, rec, fault)| then fault
    else if i == 0 then Some(0)
    else if prior.Some? && i == 1 then Some(1)
    else Some(2)
  }

  lemma CutStoreOps(prior: Option<Record>, rec: Record, fault: Option<nat>, i: nat)
    requires (fault.Some? ==> fault.value <= RECORD_SIZE + 2) && i <= |StoreOps(prior, rec, fault)|
    ensures StoreOps(prior, rec, fault)[..i] == StoreOps(prior, rec, CutStore(prior, rec, fault, i))
  {
    hide TornRecord;
  }

  // ---- Runs ----

  predicate Formats(s: State, m: Msg) {
    m.Init? || (m.Begin? && (m.restart || s.rec.None?))
  }

  /** The event is the chunk the open transfer waits for, and it is programmed whole. */
  predicate Takes(s: State, e: Event) {
    e.m.Chunk? && s.rec.Some? && s.rec.value.cnt == e.m.cnt && e.cut > 0 && e.f.data.None?
  }

  function Fresh(m: Msg): Record
    requires m.Begin?
  {
    Record(1, m.crc, 0, m.len)
  }

  /** How far the store of an event gets, by its own fault or the power's. */
  function StoreReached(s: State, e: Event): (r: Option<nat>)
    requires e.f.store.Some? ==> e.f.store.value <= RECORD_SIZE + 2
    requires e.m.Begin? || (e.m.Chunk? && s.rec.Some?)
    ensures r.Some? ==> r.value <= RECORD_SIZE + 2
  {
    if e.m.Begin? then
      CutStore(s.rec, Fresh(e.m), e.f.store, if e.cut <= e.f.erased then 0 else e.cut - e.f.erased)
    else
      CutStore(s.rec, Advanced(s.rec.value, |e.m.data|), e.f.store, if e.cut == 0 then 0 else e.cut - 1)
  }

  /** The event leaves a fresh record: from here on a new plan counts. */
  predicate Opens(cfg: Config, s: State, e: Event)
    requires |s.area| == cfg.size < U32 && EventOk(cfg, e)
  {
    e.m.Begin? && Formats(s, e.m) && (StoreReached(s, e).None? || StoreReached(s, e).value >= 2)
  }

  /** The sender sends the plan's chunks. */
  predicate Sends(s: State, c: Plan, e: Event) {
    e.m.Chunk? && s.rec.Some? && s.rec.value.cnt == e.m.cnt ==>
      0 < e.m.cnt <= |c| && e.m.data == c[e.m.cnt - 1]
  }

  /** What the event spares.  A format that leaves the old record erases nothing received; one
      that opens a transfer leaves no byte unblank; and a store that leaves a torn record has
      written where to go on; and an erase that power cuts short leaves nothing in its way. */
  ghost predicate Spares(cfg: Config, s: State, c: Plan, e: Event)
    requires |s.area| == cfg.size < U32 && cfg.span <= cfg.size && EventOk(cfg, e)
  {
    var k := if e.cut < e.f.erased then e.cut else e.f.erased;
    if Tears(cfg, s, e) then
      k < |cfg.tbl| && TornSpares(cfg, s, c, k, e.junk.value)
    else if Opens(cfg, s, e) then
      && StartsBlank(cfg, s, e.f.erased)
      && (StoreReached(s, e).Some? ==> PlaceWritten(Fresh(e.m), StoreReached(s, e).value - 2))
    else if Formats(s, e.m) then
      || (e.m.Begin? && StoreReached(s, e) == Some(1))
      || (e.m.Init? && e.f.erased == |cfg.tbl| && e.cut > e.f.erased)
      || NothingLost(cfg, s, k)
    else
      Takes(s, e) && Advanced(s.rec.value, |e.m.data|).reced < s.rec.value.len
        && StoreReached(s, e).Some? && StoreReached(s, e).value >= 2 ==>
        PlaceWritten(Advanced(s.rec.value, |e.m.data|), StoreReached(s, e).value - 2)
  }

  lemma ErasesResume(cfg: Config, s: State, c: Plan, n: nat)
    requires cfg.Valid() && Resumes(cfg, s, c) && n <= |cfg.tbl|
    ensures AllFit(cfg, EraseOps(n))
    ensures Resumes(cfg, ApplyAll(cfg, s, EraseOps(n)), c) <==> NothingLost(cfg, s, n)
  {
    if s.rec.Some? {
      InterruptedFormat(cfg, s, c, n);
    } else {
      ErasesBlankOut(cfg, s, n);
    }
  }

  lemma ErasePrefix(n: nat, k: nat, tail: seq<Op>)
    requires k <= n
    ensures (EraseOps(n) + tail)[..k] == EraseOps(k)
  {
  }

  lemma ResumesSize(cfg: Config, s: State, c: Plan)
    requires Resumes(cfg, s, c)
    ensures |s.area| == cfg.size < U32 && cfg.span <= cfg.size && PlanFits(cfg, c)
  {
  }

  lemma NoRecordResumes(cfg: Config, s: State, c: Plan)
    requires |s.area| == cfg.size < U32 && cfg.span <= cfg.size && PlanFits(cfg, c) && s.rec.None?
    ensures Resumes(cfg, s, c)
  {
  }

  /** What a begin message that formats leaves. */
  lemma BeginLeaves(cfg: Config, s: State, e: Event)
    requires cfg.Valid() && |s.area| == cfg.size < U32 && EventOk(cfg, e)
    requires e.m.Begin? && Formats(s, e.m) && !Tears(cfg, s, e)
    ensures AllFit(cfg, Done(cfg, s, e))
    ensures var k := if e.cut < e.f.erased then e.cut else e.f.erased;
            && AllFit(cfg, EraseOps(k))
            && After(cfg, s, e) ==
               ApplyAll(cfg, s, EraseOps(k)).(rec := StoredRecord(s.rec, Fresh(e.m), StoreReached(s, e)))
  {
    hide StoreOps, StoredRecord, Apply;
    var n, start := e.f.erased, Fresh(e.m);
    var tail := StoreOps(s.rec, start, e.f.store);
    assert Ops(cfg, s, e.m, e.f) == EraseOps(n) + tail;
    if e.cut <= n {
      ErasePrefix(n, e.cut, tail);
      ErasesKeepRecord(cfg, s, e.cut);
      StoredNowhere(s.rec, start, e.f.store);
      assert e.cut == n && tail == [] ==> EraseOps(n) + tail == EraseOps(n);
    } else {
      var i := if e.cut - n < |tail| then e.cut - n else |tail|;
      CutStoreOps(s.rec, start, e.f.store, i);
      assert Done(cfg, s, e) == EraseOps(n) + tail[..i];
      ErasesKeepRecord(cfg, s, n);
      var reached := CutStore(s.rec, start, e.f.store, i);
      CutStoreBeyond(s.rec, start, e.f.store, e.cut - n);
      StoreEffect(cfg, ApplyAll(cfg, s, EraseOps(n)), start, reached);
      ApplyAllJoin(cfg, s, EraseOps(n), StoreOps(s.rec, start, reached));
    }
  }

  lemma StoredNowhere(prior: Option<Record>, rec: Record, fault: Option<nat>)
    requires fault.Some? ==> fault.value <= RECORD_SIZE + 2
    ensures StoredRecord(prior, rec, CutStore(prior, rec, fault, 0)) == prior
    ensures fault != Some(0) && (prior.Some? || fault != Some(1)) ==> StoreOps(prior, rec, fault) != []
    ensures StoreOps(prior, rec, fault) == [] ==> StoredRecord(prior, rec, fault) == prior
  {
    hide TornRecord;
  }

  lemma CutStoreBeyond(prior: Option<Record>, rec: Record, fault: Option<nat>, i: nat)
    requires fault.Some? ==> fault.value <= RECORD_SIZE + 2
    ensures var n := |StoreOps(prior, rec, fault)|;
            i >= n ==> CutStore(prior, rec, fault, i) == CutStore(prior, rec, fault, n)
  {
  }

  /** An open transfer after a begin message, cut or not. */
  lemma BeginResumes(cfg: Config, s: State, c: Plan, e: Event)
    requires cfg.Valid() && Resumes(cfg, s, c) && EventOk(cfg, e)
    requires e.m.Begin? && Formats(s, e.m) && !Tears(cfg, s, e)
    ensures AllFit(cfg, Done(cfg, s, e))
    ensures Opens(cfg, s, e) ==>
              ((forall c' | PlanFits(cfg, c') :: Resumes(cfg, After(cfg, s, e), c')) <==> Spares(cfg, s, c, e))
    ensures !Opens(cfg, s, e) ==> (Resumes(cfg, After(cfg, s, e), c) <==> Spares(cfg, s, c, e))
  {
    hide Resumes, PlanFits, Apply, ApplyAll, StoreOps, TornRecord, PlaceWritten, StartsBlank, NothingLost;
    ResumesSize(cfg, s, c);
    BeginLeaves(cfg, s, e);
    var k := if e.cut < e.f.erased then e.cut else e.f.erased;
    var t := ApplyAll(cfg, s, EraseOps(k));
    var reached := StoreReached(s, e);
    if Opens(cfg, s, e) {
      StoreNeedsErases(s, e);
      OpenedExactly(cfg, s, Fresh(e.m), k, reached);
    } else if reached == Some(1) {
      NoRecordResumes(cfg, After(cfg, s, e), c);
    } else {
      ErasesKeepRecord(cfg, s, k);
      ErasesResume(cfg, s, c, k);
    }
  }

  lemma StoreNeedsErases(s: State, e: Event)
    requires e.m.Begin? && (e.f.store.Some? ==> e.f.store.value <= RECORD_SIZE + 2)
    requires StoreReached(s, e).None? || StoreReached(s, e).value >= 2
    ensures e.cut >= e.f.erased
  {
    hide TornRecord;
  }

  /** A fresh record, whole or torn, over an area of which `n` blocks were erased. */
  lemma OpenedExactly(cfg: Config, s: State, start: Record, n: nat, reached: Option<nat>)
    requires cfg.Valid() && |s.area| == cfg.size && n <= |cfg.tbl| && Storable(start) && start.cnt == 1 && start.reced == 0
    requires reached.Some? ==> 2 <= reached.value <= RECORD_SIZE + 2
    ensures AllFit(cfg, EraseOps(n))
    ensures var t := ApplyAll(cfg, s, EraseOps(n)).(rec := StoredRecord(s.rec, start, reached));
            (forall c | PlanFits(cfg, c) :: Resumes(cfg, t, c)) <==>
            StartsBlank(cfg, s, n) && (reached.Some? ==> PlaceWritten(start, reached.value - 2))
  {
    hide ApplyAll, TornRecord, PlaceWritten, StartsBlank, Resumes, PlanFits;
    ErasesBlankOut(cfg, s, n);
    OpenedOverStale(cfg, s, start, n);
    var whole := ApplyAll(cfg, s, EraseOps(n)).(rec := Some(start));
    if reached.Some? {
      var torn := whole.(rec := Some(TornRecord(start, reached.value - 2)));
      if StartsBlank(cfg, s, n) {
        NoPlanFits(cfg);
        forall c | PlanFits(cfg, c)
          ensures Resumes(cfg, torn, c) <==> PlaceWritten(start, reached.value - 2)
        {
          TornStore(cfg, whole, start, reached.value - 2, c);
        }
      } else {
        TornOverStale(cfg, s, start, n, reached.value - 2);
      }
    }
  }

  lemma NoPlanFits(cfg: Config)
    requires cfg.Valid()
    ensures PlanFits(cfg, [])
  {
  }

  lemma TornOverStale(cfg: Config, s: State, start: Record, n: nat, j: nat)
    requires cfg.Valid() && |s.area| == cfg.size && n <= |cfg.tbl| && Storable(start) && start.cnt == 1 && start.reced == 0
    requires j <= RECORD_SIZE && !StartsBlank(cfg, s, n) && AllFit(cfg, EraseOps(n))
    ensures PlanFits(cfg, [])
    ensures !Resumes(cfg, ApplyAll(cfg, s, EraseOps(n)).(rec := Some(TornRecord(start, j))), [])
  {
    hide ApplyAll, Erased, TornRecord;
    ErasesBlankOut(cfg, s, n);
    var a :| HEADER_SIZE <= a < cfg.span && !Erased(cfg, n, a) && s.area[a] != 0xFF;
    var t := ApplyAll(cfg, s, EraseOps(n)).(rec := Some(TornRecord(start, j)));
    assert t.area[a] != 0xFF;
  }

  lemma InitResumes(cfg: Config, s: State, c: Plan, e: Event)
    requires cfg.Valid() && Resumes(cfg, s, c) && EventOk(cfg, e) && e.m.Init? && !Tears(cfg, s, e)
    ensures AllFit(cfg, Done(cfg, s, e))
    ensures Resumes(cfg, After(cfg, s, e), c) <==> Spares(cfg, s, c, e)
  {
    hide Resumes, PlanFits, Apply, ApplyAll, NothingLost;
    ResumesSize(cfg, s, c);
    var n := e.f.erased;
    var tail := if n == |cfg.tbl| then [ClearStore] else [];
    assert Ops(cfg, s, e.m, e.f) == EraseOps(n) + tail;
    if e.cut <= n {
      ErasePrefix(n, e.cut, tail);
      ErasesResume(cfg, s, c, e.cut);
      assert EraseOps(n) + [] == EraseOps(n);
    } else if tail == [] {
      assert EraseOps(n) + [] == EraseOps(n);
      ErasesResume(cfg, s, c, n);
    } else {
      ErasesKeepRecord(cfg, s, n);
      ApplyAllAppend(cfg, s, EraseOps(n), ClearStore);
      Cleared(cfg, ApplyAll(cfg, s, EraseOps(n)));
      NoRecordResumes(cfg, After(cfg, s, e), c);
    }
  }

  lemma Cleared(cfg: Config, s: State)
    requires |s.area| == cfg.size
    ensures Apply(cfg, s, ClearStore) == s.(rec := None)
  {
  }

  lemma ChunkResumes(cfg: Config, s: State, c: Plan, e: Event)
    requires cfg.Valid() && Resumes(cfg, s, c) && s.rec.Some? && Storable(s.rec.value)
    requires EventOk(cfg, e) && Sends(s, c, e) && e.m.Chunk? && s.rec.value.cnt == e.m.cnt && !Tears(cfg, s, e)
    ensures AllFit(cfg, Done(cfg, s, e))
    ensures Resumes(cfg, After(cfg, s, e), c) <==> Spares(cfg, s, c, e)
  {
    hide Resumes, PlanFits, Apply, ChunkOps, TornRecord, StoreOps, PlaceWritten, StoreReached, Place;
    ResumesSize(cfg, s, c);
    OpsFit(cfg, s, e.m, e.f);
    var r, data := s.rec.value, e.m.data;
    var k := r.cnt - 1;
    var n := if e.f.data.Some? then e.f.data.value else |data|;
    assert data[..|data|] == data;
    var ops := Ops(cfg, s, e.m, e.f);
    assert ops[0] == Program(Place(r), c[k][..n]);
    if e.cut > 0 {
      ProgramKeepsResumes(cfg, s, c, n);
      var t := Apply(cfg, s, ops[0]);
      var rest := Done(cfg, s, e)[1..];
      assert ApplyAll(cfg, s, Done(cfg, s, e)) == ApplyAll(cfg, t, rest);
      if e.f.data.Some? {
        assert rest == [];
      } else {
        assert ops[1..] == ChunkOps(cfg, s, r, data, e.f);
        var i := if e.cut < |ops| then e.cut - 1 else |ops| - 1;
        assert rest == ops[1..][..i];
        AfterProgram(cfg, s, c, e, i);
      }
    } else {
      assert Done(cfg, s, e) == [];
    }
  }

  /** A chunk erases nothing. */
  lemma ChunkDoesNotTear(cfg: Config, s: State, e: Event)
    requires |s.area| == cfg.size < U32 && EventOk(cfg, e) && !Formats(s, e.m)
    ensures !Tears(cfg, s, e)
  {
    hide TornRecord, HeaderSent, Complete, Place;
    var ops := Ops(cfg, s, e.m, e.f);
    assert forall i :: 0 <= i < |ops| ==> !ops[i].EraseBlock?;
  }

  /** What follows a chunk once it is programmed, cut after `i` operations. */
  lemma AfterProgram(cfg: Config, s: State, c: Plan, e: Event, i: nat)
    requires cfg.Valid() && Resumes(cfg, s, c) && s.rec.Some? && Storable(s.rec.value)
    requires |s.area| == cfg.size < U32 && cfg.span <= cfg.size && EventOk(cfg, e) && Sends(s, c, e)
    requires e.m.Chunk? && s.rec.value.cnt == e.m.cnt && e.f.data.None? && e.cut > 0 && !Tears(cfg, s, e)
    requires var all := ChunkOps(cfg, s, s.rec.value, e.m.data, e.f);
             i <= |all| && (e.cut - 1 == i || (e.cut - 1 >= |all| && i == |all|))
    requires AllFit(cfg, ChunkOps(cfg, s, s.rec.value, e.m.data, e.f)[..i])
    requires Resumes(cfg, Apply(cfg, s, Program(Place(s.rec.value), e.m.data)), c)
    ensures var t := Apply(cfg, s, Program(Place(s.rec.value), e.m.data));
            Resumes(cfg, ApplyAll(cfg, t, ChunkOps(cfg, s, s.rec.value, e.m.data, e.f)[..i]), c) <==> Spares(cfg, s, c, e)
  {
    hide Landed, Joined, Complete, HeaderSent, Resumes, PlanFits, TornRecord, StoreOps, PlaceWritten, Place;
    var r, data := s.rec.value, e.m.data;
    var t := Apply(cfg, s, Program(Place(r), data));
    var all := ChunkOps(cfg, s, r, data, e.f);
    var next := Advanced(r, |data|);
    ResumesSize(cfg, s, c);
    if next.reced < r.len {
      AdvanceResumes(cfg, s, c);
      CutStoreOps(s.rec, next, e.f.store, i);
      CutStoreBeyond(s.rec, next, e.f.store, e.cut - 1);
      var reached := CutStore(s.rec, next, e.f.store, i);
      assert reached == StoreReached(s, e);
      StoreEffect(cfg, t, next, reached);
      assert ApplyAll(cfg, t, all[..i]) == t.(rec := StoredRecord(s.rec, next, reached));
      if reached == Some(1) {
        NoRecordResumes(cfg, t.(rec := None), c);
      } else if reached.Some? && reached.value >= 2 {
        TornStore(cfg, t, next, reached.value - 2, c);
      }
    } else if i == 0 {
      assert ApplyAll(cfg, t, all[..0]) == t;
    } else {
      var rest := all[..i];
      assert rest[0] == Delete;
      var u := Apply(cfg, t, Delete);
      ProgramsKeepRecord(cfg, u, rest[1..]);
      NoRecordResumes(cfg, ApplyAll(cfg, t, rest), c);
    }
  }

  lemma {:induction false} ProgramsKeepRecord(cfg: Config, s: State, ops: seq<Op>)
    requires |s.area| == cfg.size && AllFit(cfg, ops) && forall i :: 0 <= i < |ops| ==> ops[i].Program?
    ensures ApplyAll(cfg, s, ops).rec == s.rec
    decreases |ops|
  {
    if ops != [] {
      ProgramsKeepRecord(cfg, Apply(cfg, s, ops[0]), ops[1..]);
    }
  }

  /** After any message from a sender that keeps to its plan, with any faults and power failing
      anywhere, an open transfer can be resumed exactly when the event spared what it needs;
      for a transfer just opened, whatever its plan. */
  lemma EventResumes(cfg: Config, s: State, c: Plan, e: Event)
    requires cfg.Valid() && Resumes(cfg, s, c) && (s.rec.Some? ==> Storable(s.rec.value))
    requires EventOk(cfg, e) && Sends(s, c, e)
    ensures AllFit(cfg, Done(cfg, s, e))
    ensures Opens(cfg, s, e) ==>
              ((forall c' | PlanFits(cfg, c') :: Resumes(cfg, After(cfg, s, e), c')) <==> Spares(cfg, s, c, e))
    ensures !Opens(cfg, s, e) ==> (Resumes(cfg, After(cfg, s, e), c) <==> Spares(cfg, s, c, e))
  {
    hide Resumes, PlanFits, StartsBlank, NothingLost, PlaceWritten, StoreReached, Ops, TornSpares, Tears, Done;
    ResumesSize(cfg, s, c);
    if Tears(cfg, s, e) {
      TornEventResumes(cfg, s, c, e);
      return;
    }
    ChunkOrFormat(cfg, s, e);
    if Formats(s, e.m) {
      if e.m.Begin? {
        BeginResumes(cfg, s, c, e);
      } else {
        InitResumes(cfg, s, c, e);
      }
    } else if e.m.Chunk? && s.rec.Some? && s.rec.value.cnt == e.m.cnt {
      ChunkResumes(cfg, s, c, e);
    } else {
      IdleResumes(cfg, s, c, e);
    }
  }

  lemma ChunkOrFormat(cfg: Config, s: State, e: Event)
    requires |s.area| == cfg.size < U32 && EventOk(cfg, e)
    ensures !Formats(s, e.m) ==> !Tears(cfg, s, e)
  {
    if !Formats(s, e.m) {
      ChunkDoesNotTear(cfg, s, e);
    }
  }

  /** Power failing in the erase of a block leaves the record as it was. */
  lemma TornEventResumes(cfg: Config, s: State, c: Plan, e: Event)
    requires cfg.Valid() && Resumes(cfg, s, c) && EventOk(cfg, e) && |s.area| == cfg.size < U32 && Tears(cfg, s, e)
    ensures AllFit(cfg, Done(cfg, s, e)) && !Opens(cfg, s, e)
    ensures cfg.span <= cfg.size && (Resumes(cfg, After(cfg, s, e), c) <==> Spares(cfg, s, c, e))
  {
    hide Resumes, TornSpares, Ops, TornRecord;
    ResumesSize(cfg, s, c);
    TearsInFormat(cfg, s, e);
    MsgSize(cfg, e.m, e.f);
    TornEraseResumes(cfg, s, c, e.cut, e.junk.value);
  }

  lemma IdleResumes(cfg: Config, s: State, c: Plan, e: Event)
    requires Resumes(cfg, s, c) && EventOk(cfg, e) && !Formats(s, e.m) && !Tears(cfg, s, e)
    requires e.m.Chunk? ==> s.rec.None? || s.rec.value.cnt != e.m.cnt
    ensures AllFit(cfg, Done(cfg, s, e)) && Resumes(cfg, After(cfg, s, e), c)
  {
    hide Joined, Pending, PlanFits;
    if e.m.Abort? && s.rec.Some? && e.cut > 0 {
      assert Done(cfg, s, e) == [Delete];
      assert [Delete][1..] == [];
    } else {
      assert Done(cfg, s, e) == [];
    }
  }

  /** A chunk with a count other than the stored one, or a message of another kind, changes
      nothing; the answer is an error that says how far the open transfer is. */
  lemma StaleChunk(cfg: Config, s: State, e: Event)
    requires |s.area| == cfg.size < U32 && EventOk(cfg, e)
    requires e.m.Other? || (e.m.Chunk? && (s.rec.None? || s.rec.value.cnt != e.m.cnt))
    ensures AllFit(cfg, Done(cfg, s, e)) && After(cfg, s, e) == s
    ensures ReplyTo(cfg, s, e.m, e.f) ==
            Reply(false, false, if e.m.Chunk? && s.rec.Some? then s.rec.value.reced else 0)
  {
  }

  /** An event and the plan that counts if it opens a transfer. */
  datatype Move = Move(e: Event, plan: Plan)

  ghost predicate SparingRun(cfg: Config, s: State, c: Plan, run: seq<Move>)
    decreases |run|
  {
    run == [] ||
    (&& |s.area| == cfg.size < U32 && cfg.span <= cfg.size && PlanFits(cfg, run[0].plan)
     && EventOk(cfg, run[0].e) && Sends(s, c, run[0].e) && Spares(cfg, s, c, run[0].e)
     && AllFit(cfg, Done(cfg, s, run[0].e))
     && SparingRun(cfg, After(cfg, s, run[0].e), if Opens(cfg, s, run[0].e) then run[0].plan else c, run[1..]))
  }

  /** The last state and the plan that counts there. */
  ghost function RunMoves(cfg: Config, s: State, c: Plan, run: seq<Move>): (State, Plan)
    requires SparingRun(cfg, s, c, run)
    decreases |run|
  {
    if run == [] then (s, c)
    else RunMoves(cfg, After(cfg, s, run[0].e), if Opens(cfg, s, run[0].e) then run[0].plan else c, run[1..])
  }

  /** Over any run of such events an open transfer holds the concatenation of the chunks
      taken, in order. */
  lemma {:induction false} RunResumes(cfg: Config, s: State, c: Plan, run: seq<Move>)
    requires cfg.Valid() && Resumes(cfg, s, c) && SparingRun(cfg, s, c, run)
    requires s.rec.Some? ==> Storable(s.rec.value)
    ensures var (s', c') := RunMoves(cfg, s, c, run);
            Resumes(cfg, s', c')
    decreases |run|
  {
    hide Resumes, Spares, Sends, EventOk, After, Done, Opens, PlanFits, Storable;
    if run != [] {
      ResumesSize(cfg, s, c);
      EventResumes(cfg, s, c, run[0].e);
      EventStorable(cfg, s, run[0].e);
      RunResumes(cfg, After(cfg, s, run[0].e), if Opens(cfg, s, run[0].e) then run[0].plan else c, run[1..]);
    }
  }

  /** Records keep the widths of their fields. */
  lemma EventStorable(cfg: Config, s: State, e: Event)
    requires |s.area| == cfg.size < U32 && EventOk(cfg, e) && AllFit(cfg, Done(cfg, s, e))
    requires s.rec.Some? ==> Storable(s.rec.value)
    ensures After(cfg, s, e).rec.Some? ==> Storable(After(cfg, s, e).rec.value)
  {
    hide Ops, Apply, Storable;
    OpsStorable(cfg, s, e.m, e.f);
    AllStorable(cfg, s, Done(cfg, s, e));
  }

  predicate StoresFit(ops: seq<Op>) {
    forall i :: 0 <= i < |ops| && ops[i].Store? ==> Storable(ops[i].rec)
  }

  lemma OpsStorable(cfg: Config, s: State, m: Msg, f: Fault)
    requires |s.area| == cfg.size < U32 && MsgOk(cfg, m, f) && (s.rec.Some? ==> Storable(s.rec.value))
    ensures StoresFit(Ops(cfg, s, m, f))
  {
    hide StoreOps, Complete, Header, Storable;
    if m.Begin? {
      FreshStorable(cfg, s, m, f);
      StoreOpsFit(s.rec, Fresh(m), f.store);
    } else if m.Chunk? && s.rec.Some? && s.rec.value.cnt == m.cnt {
      NextStorable(s.rec.value, |m.data|);
      StoreOpsFit(s.rec, Advanced(s.rec.value, |m.data|), f.store);
    }
  }

  lemma FreshStorable(cfg: Config, s: State, m: Msg, f: Fault)
    requires MsgOk(cfg, m, f) && m.Begin?
    ensures Storable(Fresh(m))
  {
  }

  lemma NextStorable(r: Record, n: nat)
    requires Storable(r)
    ensures Storable(Advanced(r, n))
  {
  }

  lemma StoreOpsFit(prior: Option<Record>, rec: Record, fault: Option<nat>)
    requires Storable(rec) && (fault.Some? ==> fault.value <= RECORD_SIZE + 2)
    ensures StoresFit(StoreOps(prior, rec, fault))
  {
    hide TornRecord, Storable;
    TornIsStorable(rec, 0);
    if fault.Some? && fault.value >= 2 {
      TornIsStorable(rec, fault.value - 2);
    }
  }

  lemma {:induction false} AllStorable(cfg: Config, s: State, ops: seq<Op>)
    requires |s.area| == cfg.size && AllFit(cfg, ops) && StoresFit(ops)
    requires s.rec.Some? ==> Storable(s.rec.value)
    ensures ApplyAll(cfg, s, ops).rec.Some? ==> Storable(ApplyAll(cfg, s, ops).rec.value)
    decreases |ops|
  {
    hide Storable;
    if ops != [] {
      AllStorable(cfg, Apply(cfg, s, ops[0]), ops[1..]);
    }
  }
}

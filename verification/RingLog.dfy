/** dbg/log.c: a ring of log records in a keyed store, read by one cursor. */
module RingLog {
  import opened Bytes
  import opened Multiples

  const CODE_INDEX := 0xFFFF3947
  const CODE_READ := 0xFFFF3948
  const U32 := 0x1_0000_0000

  datatype Rec = Rec(kind: byte, time: nat, data: seq<byte>)

  datatype Item = Number(n: nat) | Entry(rec: Rec)

  /** The keyed store: slot numbers and the two codes as keys. */
  type Sfs = map<nat, Item>

  /** sfs_Read of a number into a variable that starts at zero. */
  function NumberAt(s: Sfs, key: nat): nat {
    if key in s && s[key].Number? then s[key].n else 0
  }

  function RecAt(s: Sfs, key: nat): Option<Rec> {
    if key in s && s[key].Entry? then Some(s[key].rec) else None
  }

  function Clip(data: seq<byte>, size: nat): seq<byte> {
    if |data| <= size then data else data[..size]
  }

  // ---- What each call makes of the store ----

  function WriteSpec(s: Sfs, qty: nat, r: Rec): Sfs
    requires qty > 0
  {
    var idx := NumberAt(s, CODE_INDEX);
    s[idx % qty := Entry(r)][CODE_INDEX := Number((idx + 1) % U32)]
  }

  /** The cursor a read starts from: not past the end, not on a record about to be overwritten. */
  function From(idx: nat, read: nat, qty: nat): nat
    requires qty > 0
  {
    if read > idx then idx
    else if idx - read >= qty then idx - (qty - 1)
    else read
  }

  /** log_Read: the new store and the record consumed, if there was one to consume. */
  function ReadSpec(s: Sfs, qty: nat): (r: (Sfs, Option<Option<Rec>>))
    requires qty > 0
  {
    var idx, read := NumberAt(s, CODE_INDEX), NumberAt(s, CODE_READ);
    var s1 := if read > idx then s[CODE_READ := Number(idx)] else s;
    if read >= idx then (s1, None)
    else
      var at := From(idx, read, qty);
      (s1[CODE_READ := Number((at + 1) % U32)], Some(RecAt(s, at % qty)))
  }

  function StartSpec(s: Sfs, qty: nat): Sfs
    requires qty > 0
  {
    var idx := NumberAt(s, CODE_INDEX);
    s[CODE_READ := Number(if idx >= qty then idx - (qty - 1) else 0)]
  }

  function EndSpec(s: Sfs): Sfs {
    s[CODE_READ := Number(NumberAt(s, CODE_INDEX))]
  }

  /** The first cursor from `at` on whose record is not empty and later than `day`. */
  function FirstLater(s: Sfs, qty: nat, day: nat, at: nat, idx: nat): (r: nat)
    requires qty > 0 && at <= idx
    ensures at <= r <= idx
    decreases idx - at
  {
    if at == idx || Later(RecAt(s, at % qty), day) then at else FirstLater(s, qty, day, at + 1, idx)
  }

  predicate Later(r: Option<Rec>, day: nat) {
    r.Some? && r.value.data != [] && r.value.time > day
  }

  function Day0Spec(s: Sfs, qty: nat, day: nat): Sfs
    requires qty > 0
  {
    var idx, read := NumberAt(s, CODE_INDEX), NumberAt(s, CODE_READ);
    s[CODE_READ := Number(FirstLater(s, qty, day, From(idx, read, qty), idx))]
  }

  // ---- The unbounded log behind the ring ----

  /** log_Init: without an index the whole store is cleared. */
  function InitSpec(s: Sfs): Sfs {
    var was := if CODE_INDEX in s then s else map[CODE_INDEX := Number(0)];
    if CODE_READ in was then was else was[CODE_READ := Number(0)]
  }

  /** A write cut after the record and before the index (lines 123-125). */
  function TornWriteSpec(s: Sfs, qty: nat, r: Rec): Sfs
    requires qty > 0
  {
    s[NumberAt(s, CODE_INDEX) % qty := Entry(r)]
  }

  /** The store keeps the last `qty - 1` records of `hist`: the slot of an older one may
      hold a record whose write was cut. */
  ghost predicate Keeps(s: Sfs, qty: nat, hist: seq<Rec>) {
    && 0 < qty <= CODE_INDEX && |hist| < U32
    && NumberAt(s, CODE_INDEX) == |hist|
    && forall i :: 0 <= i < |hist| && |hist| - i < qty ==> RecAt(s, i % qty) == Some(hist[i])
  }

  /** Different indices fewer than `qty` apart use different slots. */
  lemma SlotsApart(i: nat, j: nat, qty: nat)
    requires i < j < i + qty
    ensures i % qty != j % qty
  {
    if i % qty == j % qty {
      Splits(i, qty);
      Splits(j, qty);
      assert (j / qty - i / qty) * qty == j - i;
      NoMultipleBetween(j / qty - i / qty, qty);
    }
  }

  /** A message is stored with its kind and time and as much of its beginning as fits, and no
      other record, nor the cursor, is touched. */
  lemma WriteStores(s: Sfs, qty: nat, size: nat, kind: byte, time: nat, data: seq<byte>)
    requires 0 < qty <= CODE_INDEX
    ensures var idx := NumberAt(s, CODE_INDEX);
            var t := WriteSpec(s, qty, Rec(kind, time, Clip(data, size)));
            && RecAt(t, idx % qty).Some?
            && var r := RecAt(t, idx % qty).value;
               && r.kind == kind && r.time == time
               && (|r.data| == |data| <= size || |r.data| == size < |data|)
               && (forall j :: 0 <= j < |r.data| ==> r.data[j] == data[j])
               && (forall key :: key in s && key != CODE_INDEX && key != idx % qty ==> key in t && t[key] == s[key])
               && t.Keys == s.Keys + {idx % qty, CODE_INDEX}
  {
    assert NumberAt(s, CODE_INDEX) % qty < qty;
  }

  lemma WriteKeeps(s: Sfs, qty: nat, hist: seq<Rec>, r: Rec)
    requires Keeps(s, qty, hist) && |hist| + 1 < U32
    ensures Keeps(WriteSpec(s, qty, r), qty, hist + [r])
    ensures NumberAt(WriteSpec(s, qty, r), CODE_READ) == NumberAt(s, CODE_READ)
  {
    var h, t := hist + [r], WriteSpec(s, qty, r);
    assert |hist| % qty < qty;
    forall i | 0 <= i < |h| && |h| - i < qty
      ensures RecAt(t, i % qty) == Some(h[i])
    {
      assert i % qty < qty;
      if i < |hist| {
        SlotsApart(i, |hist|, qty);
        assert h[i] == hist[i];
      }
    }
  }

  /** A write that is cut leaves every record still kept, and so every read, as it was. */
  lemma TornWriteKeeps(s: Sfs, qty: nat, hist: seq<Rec>, r: Rec)
    requires Keeps(s, qty, hist)
    ensures Keeps(TornWriteSpec(s, qty, r), qty, hist)
    ensures NumberAt(TornWriteSpec(s, qty, r), CODE_READ) == NumberAt(s, CODE_READ)
    ensures qty >= 2 ==> ReadSpec(TornWriteSpec(s, qty, r), qty).1 == ReadSpec(s, qty).1
  {
    var t := TornWriteSpec(s, qty, r);
    assert |hist| % qty < qty;
    forall i | 0 <= i < |hist| && |hist| - i < qty
      ensures RecAt(t, i % qty) == Some(hist[i])
    {
      assert i % qty < qty;
      SlotsApart(i, |hist|, qty);
    }
    var at := From(|hist|, NumberAt(s, CODE_READ), qty);
    if qty >= 2 && at < |hist| {
      assert RecAt(t, at % qty) == Some(hist[at]) == RecAt(s, at % qty);
    }
  }

  /** The index is replaced by removing the old record, then writing a new one
      (fs/sfs/sfs.c:253-272).  Power failing in between, which leaves no index or another
      number, loses the log at the next start: it is kept exactly when the index still reads
      its length. */
  lemma IndexCutLosesLog(s: Sfs, qty: nat, hist: seq<Rec>, found: Option<nat>)
    requires Keeps(s, qty, hist) && hist != []
    ensures var t := if found.Some? then s[CODE_INDEX := Number(found.value)] else s - {CODE_INDEX};
            && (Keeps(InitSpec(t), qty, hist) <==> found == Some(|hist|))
            && (found.None? ==> InitSpec(t) == map[CODE_INDEX := Number(0), CODE_READ := Number(0)])
  {
    if found == Some(|hist|) {
      var t := s[CODE_INDEX := Number(|hist|)];
      forall i | 0 <= i < |hist| && |hist| - i < qty
        ensures RecAt(InitSpec(t), i % qty) == Some(hist[i])
      {
        assert i % qty < qty;
        assert RecAt(s, i % qty) == Some(hist[i]);
      }
    }
  }

  /** A start that finds both numbers changes nothing; one that finds only the index starts
      reading at 0 and keeps the log. */
  lemma InitKeepsLog(s: Sfs, qty: nat, hist: seq<Rec>)
    requires Keeps(s, qty, hist) && CODE_INDEX in s
    ensures Keeps(InitSpec(s), qty, hist)
    ensures CODE_READ in s ==> InitSpec(s) == s
    ensures CODE_READ !in s ==> CODE_READ in InitSpec(s) && NumberAt(InitSpec(s), CODE_READ) == 0
  {
    CursorKeeps(s, qty, hist, 0);
  }

  lemma CursorKeeps(s: Sfs, qty: nat, hist: seq<Rec>, read: nat)
    requires Keeps(s, qty, hist)
    ensures Keeps(s[CODE_READ := Number(read)], qty, hist)
  {
    forall i | 0 <= i < |hist| && |hist| - i < qty
      ensures RecAt(s[CODE_READ := Number(read)], i % qty) == Some(hist[i])
    {
      assert i % qty < qty;
    }
  }

  lemma KeptRecord(s: Sfs, qty: nat, hist: seq<Rec>, i: nat)
    requires Keeps(s, qty, hist) && i < |hist| && |hist| - i < qty
    ensures RecAt(s, i % qty) == Some(hist[i])
  {
  }

  /** A read consumes the record first written at its index, never an overwritten one; it
      passes over records only to land where qty - 1 are left; and it finds nothing
      exactly when the cursor has reached the end. */
  lemma ReadConsumes(s: Sfs, qty: nat, hist: seq<Rec>)
    requires Keeps(s, qty, hist) && qty >= 2
    ensures var (t, out) := ReadSpec(s, qty);
            var read := NumberAt(s, CODE_READ);
            && Keeps(t, qty, hist)
            && (out.None? <==> read >= |hist|)
            && (out.None? ==> NumberAt(t, CODE_READ) == |hist|)
            && (out.Some? ==>
                  var i := NumberAt(t, CODE_READ) - 1;
                  && read <= i < |hist|
                  && out == Some(Some(hist[i]))
                  && (i == read || |hist| - i == qty - 1))
  {
    hide Keeps;
    KeepsIndex(s, qty, hist);
    var read := NumberAt(s, CODE_READ);
    if read >= |hist| {
      CursorKeeps(s, qty, hist, |hist|);
    } else {
      CursorKeeps(s, qty, hist, From(|hist|, read, qty) + 1);
      KeptRecord(s, qty, hist, From(|hist|, read, qty));
    }
  }

  /** With one slot the cursor runs past the end: the record read back is not the one at
      the index the cursor counts. */
  lemma OneSlotOverruns(s: Sfs, r: Rec)
    requires Keeps(s, 1, []) && NumberAt(s, CODE_READ) == 0
    ensures var t := WriteSpec(s, 1, r);
            && Keeps(t, 1, [r])
            && ReadSpec(t, 1).1 == Some(Some(r))
            && NumberAt(ReadSpec(t, 1).0, CODE_READ) == 2
  {
    WriteKeeps(s, 1, [], r);
    assert [] + [r] == [r];
    var t := WriteSpec(s, 1, r);
    assert NumberAt(s, CODE_INDEX) % 1 == 0;
    assert RecAt(t, 0 % 1) == Some(r);
  }

  /** From a cursor that has read everything, the next record written is the next one read
      exactly while the 32-bit index does not wrap. */
  lemma NextIsRead(s: Sfs, qty: nat, r: Rec)
    requires 2 <= qty <= CODE_INDEX && NumberAt(s, CODE_INDEX) < U32
    requires NumberAt(s, CODE_READ) == NumberAt(s, CODE_INDEX)
    ensures ReadSpec(WriteSpec(s, qty, r), qty).1 == Some(Some(r)) <==> NumberAt(s, CODE_INDEX) + 1 < U32
  {
    hide WriteSpec, NumberAt, RecAt;
    WriteNumbers(s, qty, r);
    if NumberAt(s, CODE_INDEX) + 1 < U32 {
      assert From(NumberAt(s, CODE_INDEX) + 1, NumberAt(s, CODE_READ), qty) == NumberAt(s, CODE_INDEX);
    }
  }

  lemma WriteNumbers(s: Sfs, qty: nat, r: Rec)
    requires 0 < qty <= CODE_INDEX
    ensures var t := WriteSpec(s, qty, r);
            && NumberAt(t, CODE_INDEX) == (NumberAt(s, CODE_INDEX) + 1) % U32
            && NumberAt(t, CODE_READ) == NumberAt(s, CODE_READ)
            && RecAt(t, NumberAt(s, CODE_INDEX) % qty) == Some(r)
  {
    assert NumberAt(s, CODE_INDEX) % qty < qty;
  }

  // ---- Runs ----

  datatype Call =
    | DoWrite(r: Rec)
    | DoTornWrite(r: Rec)
    | DoRead
    | DoStart
    | DoEnd
    | DoDay0(day: nat)

  function After(s: Sfs, qty: nat, c: Call): (Sfs, Option<Option<Rec>>)
    requires qty > 0
  {
    match c
    case DoWrite(r) => (WriteSpec(s, qty, r), None)
    case DoTornWrite(r) => (TornWriteSpec(s, qty, r), None)
    case DoRead => ReadSpec(s, qty)
    case DoStart => (StartSpec(s, qty), None)
    case DoEnd => (EndSpec(s), None)
    case DoDay0(day) => (Day0Spec(s, qty, day), None)
  }

  function Written(c: Call): seq<Rec> {
    match c
    case DoWrite(r) => [r]
    case _ => []
  }

  /** All records a run writes. */
  function AllWritten(cs: seq<Call>): seq<Rec>
    decreases |cs|
  {
    if cs == [] then [] else Written(cs[0]) + AllWritten(cs[1..])
  }

  lemma CallKeeps(s: Sfs, qty: nat, hist: seq<Rec>, c: Call)
    requires Keeps(s, qty, hist) && qty >= 2 && |hist| + |Written(c)| < U32
    ensures Keeps(After(s, qty, c).0, qty, hist + Written(c))
  {
    hide Keeps, WriteSpec, ReadSpec;
    KeepsIndex(s, qty, hist);
    assert hist + [] == hist;
    match c
    case DoWrite(r) => WriteKeeps(s, qty, hist, r);
    case DoTornWrite(r) => TornWriteKeeps(s, qty, hist, r);
    case DoRead => ReadConsumes(s, qty, hist);
    case DoStart => CursorKeeps(s, qty, hist, if |hist| >= qty then |hist| - (qty - 1) else 0);
    case DoEnd => CursorKeeps(s, qty, hist, |hist|);
    case DoDay0(day) =>
      CursorKeeps(s, qty, hist, FirstLater(s, qty, day, From(|hist|, NumberAt(s, CODE_READ), qty), |hist|));
  }

  lemma KeepsIndex(s: Sfs, qty: nat, hist: seq<Rec>)
    requires Keeps(s, qty, hist)
    ensures NumberAt(s, CODE_INDEX) == |hist| < U32
  {
  }

  /** The records read in a run, each with the index it was written at. */
  function Reads(s: Sfs, qty: nat, cs: seq<Call>): seq<(int, Option<Rec>)>
    requires qty > 0
    decreases |cs|
  {
    if cs == [] then []
    else
      var (t, out) := After(s, qty, cs[0]);
      (if out.Some? then [(NumberAt(t, CODE_READ) - 1, out.value)] else []) + Reads(t, qty, cs[1..])
  }

  predicate OnlyWritesAndReads(cs: seq<Call>) {
    forall i :: 0 <= i < |cs| ==> cs[i].DoWrite? || cs[i].DoTornWrite? || cs[i].DoRead?
  }

  /** In any interleaving of calls every record read is the one written at its index. */
  lemma {:induction false} ReadsAreWritten(s: Sfs, qty: nat, hist: seq<Rec>, cs: seq<Call>)
    requires Keeps(s, qty, hist) && qty >= 2 && |hist| + |AllWritten(cs)| < U32
    ensures var all := hist + AllWritten(cs);
            forall k :: 0 <= k < |Reads(s, qty, cs)| ==>
              var (i, r) := Reads(s, qty, cs)[k];
              0 <= i < |all| && r == Some(all[i])
    decreases |cs|
  {
    if cs != [] {
      var (t, out) := After(s, qty, cs[0]);
      var all := hist + AllWritten(cs);
      CallKeeps(s, qty, hist, cs[0]);
      ReadsAreWritten(t, qty, hist + Written(cs[0]), cs[1..]);
      assert (hist + Written(cs[0])) + AllWritten(cs[1..]) == all;
      ReadConsumes(s, qty, hist);
    }
  }

  /** The indices start no lower than `from` and each is above the one before. */
  predicate Increasing(rs: seq<(int, Option<Rec>)>, from: int) {
    && (forall k :: 0 <= k < |rs| ==> rs[k].0 >= from)
    && (forall j, k :: 0 <= j < k < |rs| ==> rs[j].0 < rs[k].0)
  }

  lemma IncreasingPrepend(first: seq<(int, Option<Rec>)>, rest: seq<(int, Option<Rec>)>, from: int, next: int)
    requires Increasing(rest, next) && |first| <= 1 && from <= next
    requires first != [] ==> from <= first[0].0 < next
    ensures Increasing(first + rest, from)
  {
    assert forall k :: |first| <= k < |first + rest| ==> (first + rest)[k] == rest[k - |first|];
  }

  /** A write leaves the cursor; a read moves it past the record it returns. */
  lemma CursorAdvances(s: Sfs, qty: nat, hist: seq<Rec>, c: Call)
    requires Keeps(s, qty, hist) && qty >= 2 && |hist| + |Written(c)| < U32
    requires (c.DoWrite? || c.DoTornWrite? || c.DoRead?) && NumberAt(s, CODE_READ) <= |hist|
    ensures var (t, out) := After(s, qty, c);
            && NumberAt(s, CODE_READ) <= NumberAt(t, CODE_READ) <= |hist|
            && (out.Some? ==> NumberAt(s, CODE_READ) < NumberAt(t, CODE_READ))
  {
    hide Keeps, WriteSpec;
    KeepsIndex(s, qty, hist);
    match c
    case DoWrite(r) => WriteKeeps(s, qty, hist, r);
    case DoTornWrite(r) => TornWriteKeeps(s, qty, hist, r);
    case DoRead => ReadConsumes(s, qty, hist);
  }

  /** And while the cursor is only read forward, the indices strictly increase. */
  lemma {:induction false} ReadsIncrease(s: Sfs, qty: nat, hist: seq<Rec>, cs: seq<Call>)
    requires Keeps(s, qty, hist) && qty >= 2 && |hist| + |AllWritten(cs)| < U32
    requires OnlyWritesAndReads(cs) && NumberAt(s, CODE_READ) <= |hist|
    ensures Increasing(Reads(s, qty, cs), NumberAt(s, CODE_READ))
    decreases |cs|
  {
    if cs != [] {
      hide Keeps, After, Increasing;
      var (t, out) := After(s, qty, cs[0]);
      CallKeeps(s, qty, hist, cs[0]);
      CursorAdvances(s, qty, hist, cs[0]);
      ReadsIncrease(t, qty, hist + Written(cs[0]), cs[1..]);
      var first := if out.Some? then [(NumberAt(t, CODE_READ) - 1, out.value)] else [];
      IncreasingPrepend(first, Reads(t, qty, cs[1..]), NumberAt(s, CODE_READ), NumberAt(t, CODE_READ));
    }
  }

  /** The index a read takes with the cursor at `read`, none when it finds nothing. */
  function NextIndex(idx: nat, read: nat, qty: nat): Option<nat>
    requires qty > 0
  {
    if read >= idx then None else Some(From(idx, read, qty))
  }

  /** The cursor is replaced as the index is.  Power failing in between leaves none, which reads
      as zero, or another number, all ones if nothing of it was written.  The next read takes
      the record it should exactly when that number is the cursor that was being written, or
      both are at the end, or both are so old that the read starts at the oldest record kept.
      Without a cursor old records are read again, unless none but the oldest kept had been
      read past; with one of all ones what was not read yet is skipped, unless all was. */
  lemma CursorCut(s: Sfs, qty: nat, hist: seq<Rec>, next: nat, found: Option<nat>)
    requires Keeps(s, qty, hist) && qty >= 2 && next <= |hist|
    ensures var t := if found.Some? then s[CODE_READ := Number(found.value)] else s - {CODE_READ};
            var c := if found.Some? then found.value else 0;
            && NumberAt(t, CODE_READ) == c && Keeps(t, qty, hist)
            && (ReadSpec(t, qty).1 == match NextIndex(|hist|, c, qty) case None => None case Some(i) => Some(Some(hist[i])))
            && (NextIndex(|hist|, c, qty) == NextIndex(|hist|, next, qty) <==>
                  || c == next
                  || (c >= |hist| && next == |hist|)
                  || (c + qty <= |hist| + 1 && next + qty <= |hist| + 1))
            && (found.None? && next < |hist| ==>
                  (NextIndex(|hist|, c, qty).value < NextIndex(|hist|, next, qty).value <==>
                   next > 0 && next + qty > |hist| + 1))
            && (found == Some(U32 - 1) && next < |hist| ==> NextIndex(|hist|, c, qty).None?)
  {
    hide Keeps, ReadSpec;
    KeepsIndex(s, qty, hist);
    var t := if found.Some? then s[CODE_READ := Number(found.value)] else s - {CODE_READ};
    var c := if found.Some? then found.value else 0;
    CursorReplaced(s, qty, hist, found);
    KeepsIndex(t, qty, hist);
    ReadIs(t, qty, hist);
  }

  lemma CursorReplaced(s: Sfs, qty: nat, hist: seq<Rec>, found: Option<nat>)
    requires Keeps(s, qty, hist)
    ensures var t := if found.Some? then s[CODE_READ := Number(found.value)] else s - {CODE_READ};
            && Keeps(t, qty, hist)
            && NumberAt(t, CODE_READ) == if found.Some? then found.value else 0
  {
    if found.Some? {
      CursorKeeps(s, qty, hist, found.value);
    } else {
      forall i | 0 <= i < |hist| && |hist| - i < qty
        ensures RecAt(s - {CODE_READ}, i % qty) == Some(hist[i])
      {
        assert i % qty < qty;
        assert RecAt(s, i % qty) == Some(hist[i]);
      }
    }
  }

  lemma ReadIs(s: Sfs, qty: nat, hist: seq<Rec>)
    requires Keeps(s, qty, hist) && qty >= 2
    ensures ReadSpec(s, qty).1 ==
            match NextIndex(|hist|, NumberAt(s, CODE_READ), qty) case None => None case Some(i) => Some(Some(hist[i]))
  {
    hide Keeps;
    KeepsIndex(s, qty, hist);
    if NumberAt(s, CODE_READ) < |hist| {
      KeptRecord(s, qty, hist, From(|hist|, NumberAt(s, CODE_READ), qty));
    }
  }

  /** log_Read2Day0 leaves the cursor at the first record still readable from it that is not
      empty and later than the start of the day, or at the end. */
  lemma Day0Finds(s: Sfs, qty: nat, hist: seq<Rec>, day: nat)
    requires Keeps(s, qty, hist) && qty >= 2
    ensures var from := From(|hist|, NumberAt(s, CODE_READ), qty);
            var at := NumberAt(Day0Spec(s, qty, day), CODE_READ);
            && from <= at <= |hist|
            && (at < |hist| ==> hist[at].data != [] && hist[at].time > day)
            && forall j :: from <= j < at ==> hist[j].data == [] || hist[j].time <= day
  {
    FirstLaterIs(s, qty, hist, day, From(|hist|, NumberAt(s, CODE_READ), qty));
  }

  /** After log_Read2Start the next read returns the oldest record sure to be kept, after
      log_Read2End it finds nothing. */
  lemma RepositionedReads(s: Sfs, qty: nat, hist: seq<Rec>)
    requires Keeps(s, qty, hist) && qty >= 2
    ensures hist != [] ==>
              ReadSpec(StartSpec(s, qty), qty).1 ==
              Some(Some(hist[if |hist| >= qty then |hist| - (qty - 1) else 0]))
    ensures hist == [] ==> ReadSpec(StartSpec(s, qty), qty).1.None?
    ensures ReadSpec(EndSpec(s), qty).1.None?
  {
    hide Keeps;
    KeepsIndex(s, qty, hist);
    CursorKeeps(s, qty, hist, |hist|);
    var at := if |hist| >= qty then |hist| - (qty - 1) else 0;
    CursorKeeps(s, qty, hist, at);
    if hist != [] {
      KeptRecord(s[CODE_READ := Number(at)], qty, hist, at);
    }
  }

  lemma {:induction false} FirstLaterIs(s: Sfs, qty: nat, hist: seq<Rec>, day: nat, from: nat)
    requires Keeps(s, qty, hist) && from <= |hist| && |hist| - from < qty
    ensures var at := FirstLater(s, qty, day, from, |hist|);
            && (at < |hist| ==> Later(Some(hist[at]), day))
            && forall j :: from <= j < at ==> !Later(Some(hist[j]), day)
    decreases |hist| - from
  {
    if from < |hist| {
      assert RecAt(s, from % qty) == Some(hist[from]);
      if !Later(Some(hist[from]), day) {
        FirstLaterIs(s, qty, hist, day, from + 1);
      }
    }
  }

  // ---- The log as it runs ----

  class Log {
    const qty: nat
    const size: nat
    var store: Sfs

    constructor (qty: nat, size: nat, store: Sfs)
      ensures this.qty == qty && this.size == size && this.store == store
    {
      this.qty, this.size, this.store := qty, size, store;
    }

    /** log_Init: the two numbers, when they are not there yet. */
    method Init()
      modifies this
      ensures store == InitSpec(old(store))
      ensures CODE_INDEX !in old(store) && 0 < qty <= CODE_INDEX ==> Keeps(store, qty, [])
    {
      if CODE_INDEX !in store {
        store := map[CODE_INDEX := Number(0)];
      }
      if CODE_READ !in store {
        store := store[CODE_READ := Number(0)];
      }
    }

    method Write(kind: byte, data: seq<byte>, now: nat)
      requires qty > 0
      modifies this
      ensures store == WriteSpec(old(store), qty, Rec(kind, now, Clip(data, size)))
    {
      var len := if |data| < size then |data| else size;
      var idx := NumberAt(store, CODE_INDEX);
      assert data[..len] == Clip(data, size);
      store := store[idx % qty := Entry(Rec(kind, now, data[..len]))];
      idx := (idx + 1) % U32;
      store := store[CODE_INDEX := Number(idx)];
    }

    method Read() returns (out: Option<Option<Rec>>)
      requires qty > 0
      modifies this
      ensures (store, out) == ReadSpec(old(store), qty)
    {
      out := None;
      var idx, read := NumberAt(store, CODE_INDEX), NumberAt(store, CODE_READ);
      if read > idx {
        read := idx;
        store := store[CODE_READ := Number(read)];
      }
      if read != idx {
        if idx - read >= qty {
          read := idx - (qty - 1);
        }
        out := Some(RecAt(store, read % qty));
        read := (read + 1) % U32;
        store := store[CODE_READ := Number(read)];
      }
    }

    method ReadToStart()
      requires qty > 0
      modifies this
      ensures store == StartSpec(old(store), qty)
    {
      var idx, read := NumberAt(store, CODE_INDEX), 0;
      if idx >= qty {
        read := idx - (qty - 1);
      }
      store := store[CODE_READ := Number(read)];
    }

    method ReadToEnd()
      modifies this
      ensures store == EndSpec(old(store))
    {
      store := store[CODE_READ := Number(NumberAt(store, CODE_INDEX))];
    }

    method ReadToDay0(day: nat)
      requires qty > 0
      modifies this
      ensures store == Day0Spec(old(store), qty, day)
    {
      var idx, read := NumberAt(store, CODE_INDEX), NumberAt(store, CODE_READ);
      if read > idx {
        read := idx;
      } else if idx - read >= qty {
        read := idx - (qty - 1);
      }
      while read < idx
        invariant read <= idx
        invariant FirstLater(store, qty, day, read, idx) ==
                  FirstLater(store, qty, day, From(idx, NumberAt(store, CODE_READ), qty), idx)
      {
        var r := RecAt(store, read % qty);
        if r.Some? && r.value.data != [] && r.value.time > day {
          break;
        }
        read := read + 1;
      }
      store := store[CODE_READ := Number(read)];
    }
  }
}

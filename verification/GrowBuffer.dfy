/** lib/buffer.c: a byte buffer that grows and shrinks by blocks of 128. */
module GrowBuffer {
  import opened Bytes
  import opened LittleEndian

  const BLOCK := 128
  const PIECE := 64

  /** What mem_Realloc is asked for: the whole blocks that hold `n` bytes. */
  function Rounded(n: nat): (r: nat)
    ensures n <= r < n + 128 && r % 128 == 0
  {
    (n + BLOCK - 1) / BLOCK * BLOCK
  }

  // ---- Cutting, on the text ----

  /** The text without the `len` bytes from `offset` on, as far as it has them. */
  function Removed(text: seq<byte>, offset: nat, len: nat): seq<byte> {
    if offset >= |text| then text
    else if offset + len >= |text| then text[..offset]
    else text[..offset] + text[offset + len..]
  }

  datatype Outcome = Done | Overrun

  /** What buf_Cut leaves: `Overrun` where it would move a negative number of bytes, and
      bytes of any value where it lengthens the text. */
  ghost predicate CutTo(text: seq<byte>, offset: nat, len: nat, out: Outcome, now: seq<byte>) {
    if len > |text| then
      out == Done && |now| == offset
      && forall i :: 0 <= i < offset && i < |text| ==> now[i] == text[i]
    else if len == |text| then out == Done && now == []
    else if offset + len > |text| then out == Overrun
    else out == Done && now == text[..offset] + text[offset + len..]
  }

  /** The cuts that only remove: inside the text, or of more than the text from inside it. */
  predicate Removes(size: nat, offset: nat, len: nat) {
    || (offset <= size && (offset + len <= size || len > size))
    || (size == 0 && len == 0)
  }

  /** buf_Cut is a removal exactly for those. Otherwise it overruns, empties the text, or
      lengthens it. */
  lemma CutIsRemoval(text: seq<byte>, offset: nat, len: nat)
    ensures Removes(|text|, offset, len) <==>
            forall out, now :: CutTo(text, offset, len, out, now) ==> out == Done && now == Removed(text, offset, len)
  {
    if Removes(|text|, offset, len) {
      forall out, now | CutTo(text, offset, len, out, now)
        ensures out == Done && now == Removed(text, offset, len)
      {
        CutRemoves(text, offset, len, out, now);
      }
    } else if len > |text| {
      var now := text + Fill(offset - |text|, 0);
      assert CutTo(text, offset, len, Done, now) && |now| > |text|;
    } else if len == |text| {
      assert CutTo(text, offset, len, Done, []);
      assert Removed(text, offset, len) != [];
    } else {
      assert CutTo(text, offset, len, Overrun, text);
    }
  }

  lemma CutRemoves(text: seq<byte>, offset: nat, len: nat, out: Outcome, now: seq<byte>)
    requires Removes(|text|, offset, len) && CutTo(text, offset, len, out, now)
    ensures out == Done && now == Removed(text, offset, len)
  {
  }

  /** buf_Unpush(l), which is buf_Cut from l before the end, undoes the push of l bytes. */
  lemma UnpushUndoesPush(text: seq<byte>, data: seq<byte>, out: Outcome, now: seq<byte>)
    requires CutTo(text + data, |text + data| - |data|, |data|, out, now)
    ensures out == Done && now == text
  {
  }

  /** buf_Remove(l), which is buf_Cut from the start, always drops the first l bytes or all. */
  lemma RemoveDropsFirst(text: seq<byte>, l: nat, out: Outcome, now: seq<byte>)
    requires CutTo(text, 0, l, out, now)
    ensures out == Done && now == if l >= |text| then [] else text[l..]
  {
  }

  /** Bytes that arrive at the end and a cut before them may go in either order. */
  lemma CutBeforePush(text: seq<byte>, data: seq<byte>, offset: nat, len: nat, out: Outcome, now: seq<byte>)
    requires offset + len <= |text| && CutTo(text + data, offset, len, out, now)
    ensures out == Done && CutTo(text, offset, len, Done, Removed(text, offset, len))
    ensures now == Removed(text, offset, len) + data
  {
    assert (text + data)[..offset] == text[..offset];
    assert (text + data)[offset + len..] == text[offset + len..] + data;
  }

  // ---- As a queue ----

  datatype Call = Append(data: seq<byte>) | Drop(count: nat)

  function After(text: seq<byte>, c: Call): seq<byte> {
    match c
    case Append(data) => text + data
    case Drop(l) => Removed(text, 0, l)
  }

  function Taken(text: seq<byte>, c: Call): seq<byte> {
    match c
    case Append(data) => []
    case Drop(l) => if l >= |text| then text else text[..l]
  }

  function Arrived(c: Call): seq<byte> {
    if c.Append? then c.data else []
  }

  function AllAppended(cs: seq<Call>): seq<byte>
    decreases |cs|
  {
    if cs == [] then [] else Arrived(cs[0]) + AllAppended(cs[1..])
  }

  function AllTaken(text: seq<byte>, cs: seq<Call>): seq<byte>
    decreases |cs|
  {
    if cs == [] then [] else Taken(text, cs[0]) + AllTaken(After(text, cs[0]), cs[1..])
  }

  function Left(text: seq<byte>, cs: seq<Call>): seq<byte>
    decreases |cs|
  {
    if cs == [] then text else Left(After(text, cs[0]), cs[1..])
  }

  /** However buf_Push and buf_Remove alternate, what was taken and what is left are
      together what was there and what was pushed, in order. */
  lemma {:induction false} QueueConserves(text: seq<byte>, cs: seq<Call>)
    ensures AllTaken(text, cs) + Left(text, cs) == text + AllAppended(cs)
    decreases |cs|
  {
    if cs != [] {
      QueueConserves(After(text, cs[0]), cs[1..]);
      OneConserves(text, cs[0]);
      Joined(Taken(text, cs[0]), AllTaken(After(text, cs[0]), cs[1..]), Left(After(text, cs[0]), cs[1..]),
             After(text, cs[0]), AllAppended(cs[1..]), text, Arrived(cs[0]));
    }
  }

  lemma OneConserves(text: seq<byte>, c: Call)
    ensures Taken(text, c) + After(text, c) == text + Arrived(c)
  {
  }

  lemma Joined(a: seq<byte>, b: seq<byte>, c: seq<byte>, mid: seq<byte>, d: seq<byte>, t: seq<byte>, e: seq<byte>)
    requires b + c == mid + d && a + mid == t + e
    ensures (a + b) + c == t + (e + d)
  {
    assert (a + b) + c == a + (b + c);
    assert a + (mid + d) == (a + mid) + d;
    assert (t + e) + d == t + (e + d);
  }

  // ---- The buffer as it runs ----

  class Buffer {
    var p: array?<byte>
    var len: nat

    /** The block allocated is always the length rounded up, and none for no bytes. */
    ghost predicate Valid()
      reads this
    {
      if p == null then len == 0 else len > 0 && p.Length == Rounded(len)
    }

    ghost function Contents(): seq<byte>
      reads this, p
      requires Valid()
    {
      if p == null then [] else p[..len]
    }

    constructor ()
      ensures Valid() && Contents() == [] && p == null
    {
      p, len := null, 0;
    }

    /** mem_Realloc that succeeds: what fits is kept, the rest may hold anything. */
    method Realloc(size: nat)
      requires size > 0
      modifies this`p
      ensures p != null && fresh(p) && p.Length == size
      ensures old(p) != null ==> forall i :: 0 <= i < size && i < old(p.Length) ==> p[i] == old(p[i])
    {
      var q := new byte[size];
      if p != null {
        forall i | 0 <= i < size && i < p.Length {
          q[i] := p[i];
        }
      }
      p := q;
    }

    method Push(data: seq<byte>)
      requires Valid()
      modifies this, p
      ensures Valid() && (p == old(p) || fresh(p))
      ensures Contents() == old(Contents()) + data
    {
      var lnew := len + |data|;
      var alloc := Rounded(lnew);
      if Rounded(len) != alloc {
        Realloc(alloc);
      }
      if p != null {
        forall i | 0 <= i < |data| {
          p[len + i] := data[i];
        }
      }
      len := lnew;
    }

    method PushData(data: nat, k: nat)
      requires Valid() && k <= 8
      modifies this, p
      ensures Valid() && (p == old(p) || fresh(p))
      ensures Contents() == old(Contents()) + LowBytes(data, k)
    {
      Push(LowBytes(data, k));
    }

    /** buf_Fill pushes pieces of 64 copies, and fails for no copies at all. */
    method FillWith(val: int, count: nat) returns (ok: bool)
      requires Valid()
      modifies this, p
      ensures Valid() && (p == old(p) || fresh(p))
      ensures Contents() == old(Contents()) + Fill<byte>(count, val % 256)
      ensures ok <==> count > 0
    {
      ok := false;
      var left: nat := count;
      while left > 0
        invariant left <= count
        invariant Valid() && (p == old(p) || fresh(p))
        invariant Contents() == old(Contents()) + Fill<byte>(count - left, val % 256)
        invariant ok <==> left < count
      {
        var fill := if left < PIECE then left else PIECE;
        Push(Fill(fill, val % 256));
        left := left - fill;
        ok := true;
      }
    }

    /** memmove within the block, from `from` down to `to`. */
    method MoveDown(to: nat, from: nat, n: nat)
      requires n > 0 ==> p != null && to <= from && from + n <= p.Length
      modifies p
      ensures p != null ==> forall i :: 0 <= i < p.Length ==>
                p[i] == old(p[if to <= i < to + n then i - to + from else i])
    {
      if n > 0 {
        forall i | 0 <= i < n {
          p[to + i] := p[from + i];
        }
      }
    }

    /** The block for `lnew` bytes, reallocated when it is another one. */
    method Resize(lnew: nat)
      requires Valid() && lnew > 0
      modifies this
      ensures Valid() && len == lnew && (p == old(p) || fresh(p))
      ensures forall i :: 0 <= i < lnew && i < old(len) ==> p[i] == old(p[i])
    {
      var alloc := Rounded(lnew);
      if Rounded(len) != alloc {
        Realloc(alloc);
      }
      len := lnew;
    }

    method Cut(offset: nat, count: nat) returns (out: Outcome)
      requires Valid()
      modifies this, p
      ensures Valid() && (p == null || p == old(p) || fresh(p))
      ensures CutTo(old(Contents()), offset, count, out, Contents())
      ensures out == Overrun ==> Contents() == old(Contents())
    {
      hide Rounded;
      var lnew := if count > len then offset else len - count;
      if lnew == 0 {
        p, len := null, 0;
      } else if lnew < offset {
        return Overrun;
      } else {
        MoveDown(offset, offset + count, lnew - offset);
        Resize(lnew);
      }
      return Done;
    }

    method Release()
      requires Valid()
      modifies this
      ensures Valid() && Contents() == [] && p == null
    {
      if p != null {
        p, len := null, 0;
      }
    }
  }
}

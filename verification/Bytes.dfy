/** Byte sequences, as the flash and buffer models use them. */
module Bytes {
  type byte = n: nat | n < 256

  datatype Option<+T> = None | Some(value: T)

  /** The contents of `m` after `d` has been copied over it at offset `at`. */
  function Splice<T>(m: seq<T>, at: nat, d: seq<T>): (r: seq<T>)
    requires at + |d| <= |m|
    ensures |r| == |m|
    ensures forall i :: 0 <= i < |m| ==> r[i] == if at <= i < at + |d| then d[i - at] else m[i]
  {
    m[..at] + d + m[at + |d|..]
  }

  /** `n` copies of `b`, what memset leaves. */
  function Fill<T>(n: nat, b: T): (r: seq<T>)
    ensures |r| == n && forall i :: 0 <= i < n ==> r[i] == b
  {
    seq(n, _ => b)
  }

  lemma SpliceBack<T>(m: seq<T>, at: nat, n: nat)
    requires at + n <= |m|
    ensures Splice(m, at, m[at..at + n]) == m
  {
  }

  lemma SpliceOver<T>(m: seq<T>, at: nat, d: seq<T>, e: seq<T>)
    requires at + |d| <= |m| && |e| == |d|
    ensures Splice(Splice(m, at, d), at, e) == Splice(m, at, e)
  {
  }

  /** Two adjacent copies are one copy. */
  lemma SpliceJoin<T>(m: seq<T>, at: nat, d: seq<T>, e: seq<T>)
    requires at + |d| + |e| <= |m|
    ensures Splice(Splice(m, at, d), at + |d|, e) == Splice(m, at, d + e)
  {
  }

  /** Copying into a buffer and the buffer into memory is copying into memory. */
  lemma SpliceNested<T>(m: seq<T>, at: nat, f: seq<T>, off: nat, d: seq<T>)
    requires at + |f| <= |m| && off + |d| <= |f|
    ensures Splice(m, at, Splice(f, off, d)) == Splice(Splice(m, at, f), at + off, d)
  {
  }

  lemma SpliceCommute<T>(m: seq<T>, a: nat, d: seq<T>, b: nat, e: seq<T>)
    requires a + |d| <= b || b + |e| <= a
    requires a + |d| <= |m| && b + |e| <= |m|
    ensures Splice(Splice(m, a, d), b, e) == Splice(Splice(m, b, e), a, d)
  {
  }

  lemma SplicePrefix<T>(m: seq<T>, at: nat, d: seq<T>, n: nat)
    requires at + |d| <= n <= |m|
    ensures Splice(m, at, d)[..n] == Splice(m[..n], at, d)
  {
  }
}

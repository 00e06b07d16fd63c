/** The byte cursor the codec runs over, as pure functions of the contents and
    the position: what `io.BytesIO.read` returns and what `io.BytesIO.write`
    leaves behind. The `Buffer` class applies them to its state. */
module Cursor {
  import opened Types

  /** `n` zero bytes. */
  function Zeros(n: nat): (r: seq<byte>)
    ensures |r| == n
    ensures forall i :: 0 <= i < n ==> r[i] == 0
  {
    if n == 0 then [] else [0] + Zeros(n - 1)
  }

  /** Bytes left between position `p` and the end of `d`; none once `p` is past the end. */
  function Remaining(d: seq<byte>, p: nat): nat
  {
    if p < |d| then |d| - p else 0
  }

  /** What `read(n)` returns at position `p`: the next `n` bytes, or every
      remaining byte when `n` is negative or more than remain. */
  function Slice(d: seq<byte>, p: nat, n: int): (r: seq<byte>)
    ensures 0 <= n <= Remaining(d, p) ==> |r| == n
    ensures n < 0 || n > Remaining(d, p) ==> |r| == Remaining(d, p)
    ensures forall i :: 0 <= i < |r| ==> p + i < |d| && r[i] == d[p + i]
  {
    var count := if n < 0 || n > Remaining(d, p) then Remaining(d, p) else n;
    if count == 0 then [] else d[p..p + count]
  }

  /** The contents after `write(b)` at position `p`: `b` replaces the bytes from
      `p` on and may extend the contents, a gap between the old end and `p` is
      zero-filled, and an empty write changes nothing. */
  function Overwrite(d: seq<byte>, p: nat, b: seq<byte>): (r: seq<byte>)
    ensures b == [] ==> r == d
    ensures b != [] ==> |r| == if p + |b| > |d| then p + |b| else |d|
    ensures b != [] ==> forall i :: 0 <= i < |r| ==>
      r[i] == (if p <= i < p + |b| then b[i - p] else if i < |d| then d[i] else 0)
  {
    if b == [] then d
    else if p <= |d| then d[..p] + b + (if p + |b| < |d| then d[p + |b|..] else [])
    else d + Zeros(p - |d|) + b
  }

  /** Reading back what was just written at the same position returns it. */
  lemma ReadAfterWrite(d: seq<byte>, p: nat, b: seq<byte>)
    ensures Slice(Overwrite(d, p, b), p, |b|) == b
  {
    if b != [] {
      var r := Slice(Overwrite(d, p, b), p, |b|);
      assert |r| == |b|;
      assert forall i :: 0 <= i < |b| ==> r[i] == b[i];
    }
  }

  /** Writing back bytes just read from the same position changes nothing. */
  lemma WriteBackSlice(d: seq<byte>, p: nat, n: int)
    ensures Overwrite(d, p, Slice(d, p, n)) == d
  {
    var s := Slice(d, p, n);
    if s != [] {
      var r := Overwrite(d, p, s);
      assert |r| == |d|;
      assert forall i :: 0 <= i < |d| ==> r[i] == d[i];
    }
  }

  /** Two writes in a row are one write of their concatenation. */
  lemma ConsecutiveWrites(d: seq<byte>, p: nat, b1: seq<byte>, b2: seq<byte>)
    ensures Overwrite(Overwrite(d, p, b1), p + |b1|, b2) == Overwrite(d, p, b1 + b2)
  {
    if b1 == [] {
      assert b1 + b2 == b2;
    } else if b2 == [] {
      assert b1 + b2 == b1;
    } else {
      var once := Overwrite(d, p, b1 + b2);
      var twice := Overwrite(Overwrite(d, p, b1), p + |b1|, b2);
      assert |twice| == |once|;
      forall i | 0 <= i < |once|
        ensures twice[i] == once[i]
      {
        ConsecutiveWritesAt(d, p, b1, b2, i);
      }
    }
  }

  /** One position of `ConsecutiveWrites`. */
  lemma ConsecutiveWritesAt(d: seq<byte>, p: nat, b1: seq<byte>, b2: seq<byte>, i: nat)
    requires b1 != [] && b2 != []
    requires i < |Overwrite(d, p, b1 + b2)|
    ensures i < |Overwrite(Overwrite(d, p, b1), p + |b1|, b2)|
    ensures Overwrite(Overwrite(d, p, b1), p + |b1|, b2)[i] == Overwrite(d, p, b1 + b2)[i]
  {
    var mid := Overwrite(d, p, b1);
    var b := b1 + b2;
    if p + |b1| <= i < p + |b1| + |b2| {
      assert b[i - p] == b2[i - p - |b1|];
    } else if p <= i < p + |b1| {
      assert b[i - p] == b1[i - p];
    }
  }

  /** A write at the end of the contents appends. */
  lemma WriteAtEndAppends(d: seq<byte>, b: seq<byte>)
    ensures Overwrite(d, |d|, b) == d + b
  {
    if b != [] {
      assert forall i :: 0 <= i < |d| + |b| ==> Overwrite(d, |d|, b)[i] == (d + b)[i];
    }
  }
}

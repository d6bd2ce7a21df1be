/**
 * Byte strings and the three Node.js `Buffer` operations the engine relies on:
 * `Buffer.concat(list)`, `Buffer.concat(list, totalLength)` and `buf.slice(a, b)`.
 */
module Bytes {

  type byte = b: int | 0 <= b < 256

  type Bytes = seq<byte>

  /** `n` zero bytes. */
  function Zeros(n: nat): (r: Bytes)
    ensures |r| == n
    ensures forall k :: 0 <= k < n ==> r[k] == 0
  {
    seq(n, _ => 0)
  }

  /** `Buffer.concat(list)`: the buffers one after the other. */
  function Concat(list: seq<Bytes>): (r: Bytes)
    ensures |r| == TotalLength(list)
  {
    if list == [] then [] else Concat(list[..|list| - 1]) + list[|list| - 1]
  }

  function TotalLength(list: seq<Bytes>): nat
  {
    if list == [] then 0 else TotalLength(list[..|list| - 1]) + |list[|list| - 1]|
  }

  lemma {:induction false} ConcatAppend(a: seq<Bytes>, b: seq<Bytes>)
    ensures Concat(a + b) == Concat(a) + Concat(b)
    decreases |b|
  {
    if b == [] {
      assert a + b == a;
    } else {
      var last := b[|b| - 1];
      assert a + b == (a + b[..|b| - 1]) + [last];
      assert (a + b)[..|a + b| - 1] == a + b[..|b| - 1];
      ConcatAppend(a, b[..|b| - 1]);
    }
  }

  /**
   * `Buffer.concat(list, totalLength)`: the concatenation cut to
   * `totalLength`, or filled up with zero bytes when it is shorter.
   */
  function Fit(data: Bytes, totalLength: nat): (r: Bytes)
    ensures |r| == totalLength
    ensures |data| >= totalLength ==> r == data[..totalLength]
    ensures |data| < totalLength ==> r[..|data|] == data
  {
    if |data| >= totalLength then data[..totalLength] else data + Zeros(totalLength - |data|)
  }

  /** How `buf.slice` reads one of its arguments: negative counts from the end, then clamped to the buffer. */
  function ClampIndex(i: int, len: nat): (r: nat)
    ensures r <= len
    ensures 0 <= i <= len ==> r == i
  {
    if i < 0 then (if len + i < 0 then 0 else len + i) else if i > len then len else i
  }

  /** `buf.slice(a, b)`: never fails, and an inverted range is empty. */
  function Slice(s: Bytes, a: int, b: int): (r: Bytes)
    ensures |r| <= |s|
    ensures 0 <= a <= b <= |s| ==> r == s[a..b]
    ensures 0 <= a <= |s| <= b ==> r == s[a..]
    ensures b <= a && 0 <= b ==> r == []
  {
    var lo := ClampIndex(a, |s|);
    var hi := ClampIndex(b, |s|);
    if lo < hi then s[lo..hi] else []
  }

  /** A slice of a slice is a slice of the whole. */
  lemma SubSlice(s: Bytes, i: nat, j: nat, x: nat, y: nat)
    requires i <= j <= |s| && x <= y <= j - i
    ensures s[i..j][x..y] == s[i + x..i + y]
  {
    assert forall k :: 0 <= k < y - x ==> s[i..j][x..y][k] == s[i + x + k];
  }
}

/** Byte strings, address ranges and the flat writes every copy is specified by. */
module Bytes {

  type byte = x: int | 0 <= x < 256

  /** `s` with the bytes from `at` on overwritten by `d`. */
  function Splice(s: seq<byte>, at: nat, d: seq<byte>): (r: seq<byte>)
    requires at + |d| <= |s|
    ensures |r| == |s|
    ensures forall i :: 0 <= i < |s| ==> r[i] == if at <= i < at + |d| then d[i - at] else s[i]
  {
    seq(|s|, i requires 0 <= i < |s| => if at <= i < at + |d| then d[i - at] else s[i])
  }

  lemma {:induction false} SpliceAppend(s: seq<byte>, at: nat, d: seq<byte>, e: seq<byte>)
    requires at + |d| + |e| <= |s|
    ensures Splice(Splice(s, at, d), at + |d|, e) == Splice(s, at, d + e)
  {
  }

  /** The effect of memcpy(dst, src, n) on a whole memory. */
  function Moved(mem: seq<byte>, dst: nat, src: nat, n: nat): (r: seq<byte>)
    requires dst + n <= |mem| && src + n <= |mem|
    ensures |r| == |mem|
  {
    Splice(mem, dst, mem[src..src + n])
  }

  /** `n` copies of the byte that memset stores: the value converted to unsigned char. */
  function Repeated(v: int, n: nat): (r: seq<byte>)
    ensures |r| == n
    ensures forall i :: 0 <= i < n ==> r[i] == v % 256
  {
    seq(n, _ => v % 256)
  }

  /** The addresses [a, a + n). */
  function Range(a: nat, n: nat): (r: set<nat>)
    ensures forall x: nat :: x in r <==> a <= x < a + n
  {
    if n == 0 then {} else Range(a, n - 1) + {a + n - 1}
  }
}

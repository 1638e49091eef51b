/** Bytes, little-endian numbers and NUL-terminated strings. */
module Bytes {

  type Byte = x: int | 0 <= x < 256

  function Zeros(n: nat): (z: seq<Byte>)
    ensures |z| == n && forall i :: 0 <= i < n ==> z[i] == 0
  {
    seq(n, _ => 0)
  }

  /** A little-endian number. */
  function Le(bytes: seq<Byte>): nat {
    if bytes == [] then 0 else bytes[0] + 256 * Le(bytes[1..])
  }

  function I32(bytes: seq<Byte>): int {
    if Le(bytes) < 0x8000_0000 then Le(bytes) else Le(bytes) - 0x1_0000_0000
  }

  lemma LeFour(w: seq<Byte>)
    requires |w| == 4
    ensures Le(w) == w[0] as int + 0x100 * (w[1] as int) + 0x1_0000 * (w[2] as int) + 0x100_0000 * (w[3] as int)
  {
    assert Le(w) == w[0] + 256 * Le(w[1..]);
    assert Le(w[1..]) == w[1] + 256 * Le(w[1..][1..]);
    assert Le(w[1..][1..]) == w[2] + 256 * Le(w[1..][1..][1..]);
    assert Le(w[1..][1..][1..]) == w[3] + 256 * Le(w[1..][1..][1..][1..]);
  }

  /** `strnlen`: the position of the first NUL, or the length if there is none. */
  function Strnlen(s: seq<Byte>): (n: nat)
    ensures n <= |s| && 0 !in s[..n] && (n < |s| ==> s[n] == 0)
  {
    if s == [] || s[0] == 0 then 0
    else
      var n := Strnlen(s[1..]);
      assert s[..n + 1] == [s[0]] + s[1..][..n];
      n + 1
  }

  lemma {:induction false} StrnlenAt(name: seq<Byte>, rest: seq<Byte>)
    requires 0 !in name
    ensures Strnlen(name + ([0] + rest)) == |name|
    ensures Strnlen(name) == |name|
  {
    if name != [] {
      assert (name + ([0] + rest))[1..] == name[1..] + ([0] + rest);
      StrnlenAt(name[1..], rest);
    }
  }
}

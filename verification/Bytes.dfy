/** Bytes and the small helpers every module of the model shares. */
module Bytes {

  /** An unsigned char. */
  type byte = x: int | 0 <= x < 256

  datatype Option<+T> = None | Some(value: T)

  function Min(a: int, b: int): int {
    if a < b then a else b
  }

  function Zeros(n: nat): (z: seq<byte>)
    ensures |z| == n && forall i :: 0 <= i < n ==> z[i] == 0
  {
    seq(n, _ => 0)
  }

  /** The byte at index i, reading zeros past the end. */
  function ByteAt(s: seq<byte>, i: nat): byte {
    if i < |s| then s[i] else 0
  }

  lemma PrefixGrows<T>(s: seq<T>, n: nat)
    requires n < |s|
    ensures s[..n] + [s[n]] == s[..n + 1]
  {
  }

  /** Cutting a sequence whose tail is a concatenation of two pieces. */
  lemma CutTwo<T>(s: seq<T>, p: nat, a: seq<T>, b: seq<T>)
    requires p <= |s| && s[p..] == a + b
    ensures p + |a| <= |s| && s[p..p + |a|] == a && s[p + |a|..] == b
  {
    assert |s| == p + |a| + |b|;
    assert forall i :: 0 <= i < |a| ==> s[p + i] == s[p..][i] == a[i];
    assert forall i :: 0 <= i < |b| ==> s[p + |a| + i] == s[p..][|a| + i] == b[i];
  }

  lemma PasteTwo<T>(s: seq<T>, p: nat, q: nat, r: nat)
    requires p <= q <= r <= |s|
    ensures s[p..q] + s[q..r] + s[r..] == s[p..]
  {
  }

  /** Adding twice mod 2^16 or mod 2^32 is adding the sum once. */
  lemma AddTwice(t: nat, a: nat, b: nat)
    ensures ((t + a) % 0x1_0000 + b) % 0x1_0000 == (t + (a + b)) % 0x1_0000
    ensures ((t + a) % 0x1_0000_0000 + b) % 0x1_0000_0000 == (t + (a + b)) % 0x1_0000_0000
  {
    Sum16(t + a, b);
    Sum32(t + a, b);
  }

  lemma Sum16(x: nat, b: nat)
    ensures (x % 0x1_0000 + b) % 0x1_0000 == (x + b) % 0x1_0000
  {
  }

  lemma Sum32(x: nat, b: nat)
    ensures (x % 0x1_0000_0000 + b) % 0x1_0000_0000 == (x + b) % 0x1_0000_0000
  {
  }
}

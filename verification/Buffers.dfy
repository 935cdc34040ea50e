/** Go's copy into a byte buffer. */
module Buffers {
  import opened Words

  /** copy(dst[at:], src): as many bytes as fit. */
  method CopyAt(dst: array<byte>, at: nat, src: seq<byte>) returns (n: nat)
    requires at <= dst.Length
    modifies dst
    ensures n == if dst.Length - at <= |src| then dst.Length - at else |src|
    ensures dst[..at] == old(dst[..at]) && dst[at..at + n] == src[..n] && dst[at + n..] == old(dst[at + n..])
    ensures dst[..at + n] == old(dst[..at]) + src[..n]
  {
    n := if dst.Length - at <= |src| then dst.Length - at else |src|;
    forall i | 0 <= i < n { dst[at + i] := src[i]; }
  }

  lemma SliceOfSlice<T>(s: seq<T>, at: nat, n: nat)
    requires at + n <= |s|
    ensures s[at..][..n] == s[at..at + n]
  {}
}

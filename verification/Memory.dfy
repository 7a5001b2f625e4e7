/** The bulk memory move every buffer of the repository is filled with. */
module Memory {
  method CopyIn<T>(dst: array<T>, at: nat, src: seq<T>)
    requires at + |src| <= dst.Length
    modifies dst
    ensures dst[..] == old(dst[..at]) + src + old(dst[at + |src|..])
  {
    ghost var before := dst[..];
    for k := 0 to |src|
      invariant forall i :: 0 <= i < dst.Length ==>
                  dst[i] == if at <= i < at + k then src[i - at] else before[i]
    {
      dst[at + k] := src[k];
    }
    assert dst[..] == before[..at] + src + before[at + |src|..];
  }
}

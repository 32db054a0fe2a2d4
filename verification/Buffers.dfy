/** Filling a typed array, as `Uint8Array.set` does. */
module Buffers {
  import opened Basics

  method Set(a: array<byte>, src: Bytes, offset: nat)
    requires offset + |src| <= a.Length
    modifies a
    ensures a[..offset + |src|] == old(a[..offset]) + src
    ensures a[offset + |src|..] == old(a[offset + |src|..])
  {
    for i := 0 to |src|
      invariant a[..offset] == old(a[..offset]) && a[offset + |src|..] == old(a[offset + |src|..])
      invariant forall k :: 0 <= k < i ==> a[offset + k] == src[k]
    {
      a[offset + i] := src[i];
    }
    assert a[offset..offset + |src|] == src;
    assert a[..offset + |src|] == a[..offset] + a[offset..offset + |src|];
  }
}

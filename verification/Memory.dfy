/** Byte buffers and chunked input. */
module Memory {
  import opened Words

  /** One more byte of a copy. */
  lemma CopyStep(start: seq<u8>, at: nat, src: seq<u8>, i: nat)
    requires i < |src| && at + |src| <= |start|
    ensures (start[..at] + src[..i] + start[at + i..])[at + i := src[i]] ==
            start[..at] + src[..i + 1] + start[at + i + 1..]
  {
  }

  /** memcpy into a buffer at an offset. */
  method CopyInto(dst: array<u8>, at: nat, src: seq<u8>)
    requires at + |src| <= dst.Length
    modifies dst
    ensures dst[..] == old(dst[..at]) + src + old(dst[at + |src|..])
  {
    ghost var start := dst[..];
    for i := 0 to |src|
      invariant dst[..] == start[..at] + src[..i] + start[at + i..]
    {
      CopyStep(start, at, src, i);
      ghost var before := dst[..];
      dst[at + i] := src[i];
      assert dst[..] == before[at + i := src[i]];
    }
    assert src[..|src|] == src;
  }

  function Zeros(n: nat): (z: seq<u8>)
    ensures |z| == n && forall i | 0 <= i < n :: z[i] == 0
  {
    seq(n, _ => 0)
  }

  /** The next word of the first len bytes of a buffer, and what follows it. */
  lemma NextWord(mem: seq<u8>, len: nat, ptr: nat, w: nat)
    requires ptr + w <= len <= |mem|
    ensures mem[..len][ptr..][..w] == mem[ptr..ptr + w]
    ensures mem[..len][ptr..][w..] == mem[..len][ptr + w..]
  {
  }

  lemma SubSlice(s: seq<u8>, from: nat, to: nat, i: nat, j: nat)
    requires from <= to <= |s| && i <= j <= to - from
    ensures s[from..to][i..j] == s[from + i..from + j]
  {
    var a, b := s[from..to][i..j], s[from + i..from + j];
    assert forall k | 0 <= k < j - i :: a[k] == s[from..to][i + k] == s[from + (i + k)] == b[k];
  }

  lemma Associates(x: seq<u8>, y: seq<u8>, z: seq<u8>)
    ensures x + (y + z) == (x + y) + z
  {
  }

  /** Appending does not disturb what is in front. */
  lemma FrontPart(a: seq<u8>, b: seq<u8>, i: nat, j: nat)
    requires i <= j <= |a|
    ensures (a + b)[i..j] == a[i..j] && (a + b)[j..] == a[j..] + b
  {
  }

  /** What CopyInto leaves in front of and behind the copied bytes. */
  lemma Overwritten(before: seq<u8>, at: nat, src: seq<u8>, after: seq<u8>)
    requires at + |src| <= |before|
    requires after == before[..at] + src + before[at + |src|..]
    ensures |after| == |before| && after[..at + |src|] == before[..at] + src
    ensures forall i | at + |src| <= i <= |before| :: after[i..] == before[i..]
  {
  }

  /** The input that a list of chunks spells out. */
  function Concat(chunks: seq<seq<u8>>): seq<u8>
  {
    if chunks == [] then [] else Concat(chunks[..|chunks| - 1]) + chunks[|chunks| - 1]
  }

  lemma ConcatStep(chunks: seq<seq<u8>>, i: nat)
    requires i < |chunks|
    ensures Concat(chunks[..i + 1]) == Concat(chunks[..i]) + chunks[i]
  {
    assert chunks[..i + 1][..i] == chunks[..i];
  }

  lemma {:induction false} PrefixIsShorter(chunks: seq<seq<u8>>, i: nat)
    requires i <= |chunks|
    ensures |Concat(chunks[..i])| <= |Concat(chunks)|
  {
    if i == |chunks| {
      assert chunks[..i] == chunks;
    } else {
      var front := chunks[..|chunks| - 1];
      PrefixIsShorter(front, i);
      assert front[..i] == chunks[..i];
    }
  }
}

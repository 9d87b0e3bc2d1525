/** Copying into the fixed buffers of the C sources. */
module Buffers {
  import opened Words

  /** Byte-by-byte copy into a buffer; everything outside the target range keeps its value. */
  method CopyInto(target: array<byte>, at: nat, source: seq<byte>)
    requires at + |source| <= target.Length
    modifies target
    ensures target[..at] == old(target[..at])
    ensures target[at..at + |source|] == source
    ensures target[at + |source|..] == old(target[at + |source|..])
  {
    for index := 0 to |source|
      invariant target[..at] == old(target[..at])
      invariant target[at..at + index] == source[..index]
      invariant target[at + |source|..] == old(target[at + |source|..])
    {
      target[at + index] := source[index];
    }
  }

  /** A stretch of a buffer is the same stretch of any prefix that covers it. */
  lemma PrefixStretch(buffer: seq<byte>, length: nat, from: nat, to: nat)
    requires from <= to <= length <= |buffer|
    ensures buffer[..length][from..to] == buffer[from..to]
  {
  }
}

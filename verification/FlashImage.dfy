/** The stored image with its actual checksum, the CRC-32 of the payload bytes. */
module FlashImage {
  import opened Words
  import opened Crc32
  import opened Crc32Law
  import opened FlashStorage

  /** Words in memory order, least significant byte first. */
  function Bytes(words: seq<bv32>): (b: seq<bv8>)
    ensures |b| == 4 * |words|
  {
    seq(4 * |words|, k requires 0 <= k < 4 * |words| => ByteOf(words[k / 4], k % 4))
  }

  function Persisted(width: nat): Layout {
    Layout(width, words => Crc(Bytes(words)))
  }

  /** The checksum as the source computes it, over the payload seen as bytes. */
  method StorageCrc32(words: seq<bv32>) returns (crc: bv32)
    ensures crc == Persisted(|words|).crc(words)
  {
    var value := ComputeUpdate(INITIAL, Bytes(words));
    crc := Final(value);
  }

  /** The byte order: the word is made of its bytes, the first in memory being the least significant. */
  lemma BytesMakeWord(words: seq<bv32>, i: nat)
    requires i < |words|
    ensures var b := Bytes(words);
            words[i] == (b[4 * i] as bv32) | ((b[4 * i + 1] as bv32) << 8)
                        | ((b[4 * i + 2] as bv32) << 16) | ((b[4 * i + 3] as bv32) << 24)
  {
    FourBytesMakeWord(words[i]);
  }

  lemma FourBytesMakeWord(w: bv32)
    ensures w == (ByteOf(w, 0) as bv32) | ((ByteOf(w, 1) as bv32) << 8)
                 | ((ByteOf(w, 2) as bv32) << 16) | ((ByteOf(w, 3) as bv32) << 24)
  {
  }

  lemma BytesTellWords(v: bv32, w: bv32)
    requires ByteOf(v, 0) == ByteOf(w, 0) && ByteOf(v, 1) == ByteOf(w, 1)
    requires ByteOf(v, 2) == ByteOf(w, 2) && ByteOf(v, 3) == ByteOf(w, 3)
    ensures v == w
  {
  }

  /** A payload that differs only within four consecutive bytes no longer matches the stored checksum. */
  lemma CorruptionIsNoticed(width: nat, s: Slot, damaged: Slot, at: nat)
    requires Persisted(width).Fits() && |s| == |damaged| == HEADER + width
    requires Persisted(width).ImageValid(s) && damaged[..HEADER] == s[..HEADER] && at <= 4 * width
    requires Bytes(s[HEADER..]) != Bytes(damaged[HEADER..])
    requires AgreeOutside(Bytes(s[HEADER..]), Bytes(damaged[HEADER..]), at)
    ensures !Persisted(width).ImageValid(damaged)
  {
    BurstIsDetected(Bytes(s[HEADER..]), Bytes(damaged[HEADER..]), at);
    assert damaged[4] == damaged[..HEADER][4] == s[..HEADER][4] == s[4];
  }

  lemma SameBytesSameWord(v: seq<bv32>, w: seq<bv32>, i: nat)
    requires |v| == |w| && i < |v| && Bytes(v) == Bytes(w)
    ensures v[i] == w[i]
  {
    var p, q, at := Bytes(v), Bytes(w), 4 * i;
    assert p[at] == q[at] && p[at + 1] == q[at + 1] && p[at + 2] == q[at + 2] && p[at + 3] == q[at + 3];
    BytesTellWords(v[i], w[i]);
  }

  /** In particular any change of one payload word invalidates the image. */
  lemma WordCorruptionIsNoticed(width: nat, s: Slot, i: nat, w: bv32)
    requires Persisted(width).Fits() && |s| == HEADER + width && HEADER <= i < |s|
    requires Persisted(width).ImageValid(s) && w != s[i]
    ensures !Persisted(width).ImageValid(s[i := w])
  {
    var at := 4 * (i - HEADER);
    var p, q := Bytes(s[HEADER..]), Bytes(s[i := w][HEADER..]);
    if p == q {
      SameBytesSameWord(s[HEADER..], s[i := w][HEADER..], i - HEADER);
    }
    CorruptionIsNoticed(width, s, s[i := w], at);
  }

  /** With its newest image damaged so, the store falls back to the other slot's image or to none. */
  lemma DamagedNewestIsSkipped(width: nat, f: Flash, w: Which, i: nat, word: bv32)
    requires Persisted(width).Shaped(f) && Persisted(width).Newest(f) == Some(w)
    requires HEADER <= i < HEADER + width && word != f.At(w)[i]
    ensures var other := f.At(w.Other());
            Persisted(width).Restored(f.With(w, f.At(w)[i := word]))
              == if Persisted(width).ImageValid(other) then Some(other[HEADER..]) else None
  {
    WordCorruptionIsNoticed(width, f.At(w), i, word);
    InvalidIsSkipped(Persisted(width), f.With(w, f.At(w)[i := word]), w);
  }

  lemma InvalidIsSkipped(layout: Layout, f: Flash, w: Which)
    requires layout.Shaped(f) && !layout.ImageValid(f.At(w))
    ensures layout.Restored(f)
              == if layout.ImageValid(f.At(w.Other())) then Some(f.At(w.Other())[HEADER..]) else None
  {
  }
}

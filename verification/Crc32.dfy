/**
 * The reflected CRC-32 (section 8 of RFC 1952) that both the storage image and the download use.
 */
module Crc32 {

  const POLYNOMIAL: bv32 := 0xEDB88320
  const INITIAL: bv32 := 0xFFFFFFFF

  /** One turn of the inner loop. */
  function BitStep(c: bv32): bv32 {
    if c & 1 != 0 then (c >> 1) ^ POLYNOMIAL else c >> 1
  }

  function BitSteps(c: bv32, n: nat): bv32 {
    if n == 0 then c else BitStep(BitSteps(c, n - 1))
  }

  /** One turn of the outer loop. */
  function ByteStep(c: bv32, b: bv8): bv32 {
    BitSteps(c ^ (b as bv32), 8)
  }

  /** The register after all bytes of `data`, starting from `c`. */
  function Update(c: bv32, data: seq<bv8>): bv32 {
    if data == [] then c else ByteStep(Update(c, data[..|data| - 1]), data[|data| - 1])
  }

  function Final(c: bv32): bv32 {
    c ^ 0xFFFFFFFF
  }

  function Crc(data: seq<bv8>): bv32 {
    Final(Update(INITIAL, data))
  }

  /** The nested loops of the sources: one pass over the data, eight shifts a byte. */
  method ComputeUpdate(crc: bv32, data: seq<bv8>) returns (value: bv32)
    ensures value == Update(crc, data)
  {
    value := crc;
    for index := 0 to |data|
      invariant value == Update(crc, data[..index])
    {
      assert data[..index + 1][..index] == data[..index];
      value := value ^ (data[index] as bv32);
      ghost var start := value;
      for bit := 0 to 8
        invariant value == BitSteps(start, bit)
      {
        value := if value & 1 != 0 then (value >> 1) ^ POLYNOMIAL else value >> 1;
      }
    }
    assert data[..|data|] == data;
  }

  /** Feeding a stream chunk by chunk gives the register of the whole stream. */
  lemma {:induction false} UpdateInChunks(c: bv32, first: seq<bv8>, second: seq<bv8>)
    ensures Update(Update(c, first), second) == Update(c, first + second)
    decreases |second|
  {
    if second == [] {
      assert first + second == first;
    } else {
      var n := |second| - 1;
      assert (first + second)[..|first + second| - 1] == first + second[..n];
      UpdateInChunks(c, first, second[..n]);
    }
  }

  // ------------------------------------------------ running a step backwards

  /** The bits selected by `mask` are the same in both registers. */
  predicate Agree(a: bv32, b: bv32, mask: bv32) {
    a & mask == b & mask
  }

  function Turn(mask: bv32): bv32 {
    (mask << 1) | 1
  }

  function Turns(mask: bv32, n: nat): bv32
    decreases n
  {
    if n == 0 then mask else Turns(Turn(mask), n - 1)
  }

  /** The top `n` bits of the mask are set. */
  predicate TopOnes(mask: bv32, n: nat)
    decreases n
  {
    n == 0 || (mask & 0x80000000 != 0 && TopOnes(Turn(mask), n - 1))
  }

  /**
   * What a step keeps apart: if two results agree on bits that include the top one, the registers before
   * the step agreed on the low bit and on the same bits one place further up.
   */
  lemma BitStepBack(a: bv32, b: bv32, mask: bv32)
    requires mask & 0x80000000 != 0 && Agree(BitStep(a), BitStep(b), mask)
    ensures Agree(a, b, Turn(mask))
  {
  }

  lemma {:induction false} BitStepsBack(a: bv32, b: bv32, n: nat, mask: bv32)
    requires TopOnes(mask, n) && Agree(BitSteps(a, n), BitSteps(b, n), mask)
    ensures Agree(a, b, Turns(mask, n))
  {
    if n > 0 {
      BitStepBack(BitSteps(a, n - 1), BitSteps(b, n - 1), mask);
      BitStepsBack(a, b, n - 1, Turn(mask));
    }
  }

  lemma AgreeEverywhere(a: bv32, b: bv32)
    ensures Agree(a, b, 0xFFFFFFFF) <==> a == b
  {
  }

  lemma XorCancels(a: bv32, b: bv32, d: bv32)
    requires a ^ d == b ^ d
    ensures a == b
  {
  }

  lemma AllOnesTurn(n: nat)
    ensures TopOnes(0xFFFFFFFF, n) && Turns(0xFFFFFFFF, n) == 0xFFFFFFFF
  {
    if n > 0 {
      assert Turn(0xFFFFFFFF) == 0xFFFFFFFF;
      AllOnesTurn(n - 1);
    }
  }

  lemma BitStepsInjective(a: bv32, b: bv32, n: nat)
    requires BitSteps(a, n) == BitSteps(b, n)
    ensures a == b
  {
    AllOnesTurn(n);
    BitStepsBack(a, b, n, 0xFFFFFFFF);
    AgreeEverywhere(a, b);
  }

  lemma StepsAfterXorInjective(a: bv32, b: bv32, d: bv32, n: nat)
    requires BitSteps(a ^ d, n) == BitSteps(b ^ d, n)
    ensures a == b
  {
    BitStepsInjective(a ^ d, b ^ d, n);
    XorCancels(a, b, d);
  }

  lemma ByteStepInjective(a: bv32, b: bv32, d: bv8)
    requires ByteStep(a, d) == ByteStep(b, d)
    ensures a == b
  {
    StepsAfterXorInjective(a, b, d as bv32, 8);
  }

  /** Different registers stay different under the same remaining bytes. */
  lemma {:induction false} UpdateInjective(a: bv32, b: bv32, data: seq<bv8>)
    requires Update(a, data) == Update(b, data)
    ensures a == b
    decreases |data|
  {
    if data != [] {
      var n := |data| - 1;
      ByteStepInjective(Update(a, data[..n]), Update(b, data[..n]), data[n]);
      UpdateInjective(a, b, data[..n]);
    }
  }

  // --------------------------------------------------------- error detection

  /** The mask of the top four, three, two, one or no bytes of the register. */
  function Top(bytes: nat): bv32 {
    match bytes
    case 4 => 0xFFFFFFFF
    case 3 => 0xFFFFFF00
    case 2 => 0xFFFF0000
    case 1 => 0xFF000000
    case _ => 0
  }

  /** That mask turned by eight places. */
  function Turned(bytes: nat): bv32 {
    match bytes
    case 4 => 0xFFFFFFFF
    case 3 => 0xFFFF00FF
    case 2 => 0xFF0000FF
    case 1 => 0x000000FF
    case _ => 0
  }

  lemma MaskTurns(bytes: nat)
    requires 1 <= bytes <= 4
    ensures TopOnes(Top(bytes), 8) && Turns(Top(bytes), 8) == Turned(bytes)
  {
  }

  /** A byte enters the register in its low eight bits only. */
  lemma ByteEntersLow(a: bv32, b: bv32, p: bv8, q: bv8, bytes: nat)
    requires 1 <= bytes <= 4 && Agree(a ^ (p as bv32), b ^ (q as bv32), Turned(bytes))
    ensures Agree(a, b, Top(bytes - 1))
  {
  }

  lemma SameByte(a: bv32, p: bv8, q: bv8, bytes: nat)
    requires 1 <= bytes <= 4 && Agree(a ^ (p as bv32), a ^ (q as bv32), Turned(bytes))
    ensures p == q
  {
  }

  lemma ByteStepBack(a: bv32, b: bv32, p: bv8, q: bv8, bytes: nat)
    requires 1 <= bytes <= 4 && Agree(ByteStep(a, p), ByteStep(b, q), Top(bytes))
    ensures Agree(a ^ (p as bv32), b ^ (q as bv32), Turned(bytes))
  {
    MaskTurns(bytes);
    BitStepsBack(a ^ (p as bv32), b ^ (q as bv32), 8, Top(bytes));
  }

  /** Going back over one byte costs one byte of agreement. */
  lemma AgreeBeforeByte(a: bv32, b: bv32, p: bv8, q: bv8, bytes: nat)
    requires 1 <= bytes <= 4 && Agree(ByteStep(a, p), ByteStep(b, q), Top(bytes))
    ensures Agree(a, b, Top(bytes - 1))
  {
    ByteStepBack(a, b, p, q, bytes);
    ByteEntersLow(a, b, p, q, bytes);
  }

  /** From one register, results that agree anywhere near the top come from one byte. */
  lemma ByteIsTold(a: bv32, p: bv8, q: bv8, bytes: nat)
    requires 1 <= bytes <= 4 && Agree(ByteStep(a, p), ByteStep(a, q), Top(bytes))
    ensures p == q
  {
    ByteStepBack(a, a, p, q, bytes);
    SameByte(a, p, q, bytes);
  }

  /** Up to four bytes fit in the register without loss. */
  lemma {:induction false} BytesBack(a: bv32, b: bv32, p: seq<bv8>, q: seq<bv8>, bytes: nat)
    requires |p| == |q| <= bytes <= 4 && Agree(Update(a, p), Update(b, q), Top(bytes))
    ensures Agree(a, b, Top(bytes - |p|))
    ensures a == b ==> p == q
    decreases |p|
  {
    if p != [] {
      var n := |p| - 1;
      AgreeBeforeByte(Update(a, p[..n]), Update(b, q[..n]), p[n], q[n], bytes);
      BytesBack(a, b, p[..n], q[..n], bytes - 1);
      if a == b {
        ByteIsTold(Update(a, p[..n]), p[n], q[n], bytes);
      }
    }
  }

  /** Outside the four bytes from `at` on, the two sequences agree. */
  ghost predicate AgreeOutside(p: seq<bv8>, q: seq<bv8>, at: nat)
    requires |p| == |q|
  {
    forall i :: 0 <= i < |p| && !(at <= i < at + 4) ==> p[i] == q[i]
  }

  lemma BytesTellApart(c: bv32, x: seq<bv8>, y: seq<bv8>)
    requires |x| == |y| <= 4 && Update(c, x) == Update(c, y)
    ensures x == y
  {
    BytesBack(c, c, x, y, 4);
  }

  lemma TailKeepsApart(c: bv32, x: seq<bv8>, y: seq<bv8>, tail: seq<bv8>)
    requires |x| == |y| <= 4 && Update(c, x + tail) == Update(c, y + tail)
    ensures x == y
  {
    UpdateInChunks(c, x, tail);
    UpdateInChunks(c, y, tail);
    UpdateInjective(Update(c, x), Update(c, y), tail);
    BytesTellApart(c, x, y);
  }

  lemma HeadKeepsApart(c: bv32, head: seq<bv8>, x: seq<bv8>, y: seq<bv8>, tail: seq<bv8>)
    requires |x| == |y| <= 4 && Update(c, head + (x + tail)) == Update(c, head + (y + tail))
    ensures x == y
  {
    UpdateInChunks(c, head, x + tail);
    UpdateInChunks(c, head, y + tail);
    TailKeepsApart(Update(c, head), x, y, tail);
  }

  lemma SplitAround(p: seq<bv8>, at: nat, to: nat)
    requires at <= to <= |p|
    ensures p == p[..at] + (p[at..to] + p[to..])
  {
  }

  lemma SameAround(p: seq<bv8>, q: seq<bv8>, at: nat, to: nat)
    requires |p| == |q| && at <= to <= |p| && AgreeOutside(p, q, at) && to == (if at + 4 < |p| then at + 4 else |p|)
    ensures q[..at] == p[..at] && q[to..] == p[to..]
  {
  }

  lemma BurstChangesRegister(c: bv32, p: seq<bv8>, q: seq<bv8>, at: nat)
    requires |p| == |q| && at <= |p| && AgreeOutside(p, q, at) && Update(c, p) == Update(c, q)
    ensures p == q
  {
    var to := if at + 4 < |p| then at + 4 else |p|;
    SplitAround(p, at, to);
    SplitAround(q, at, to);
    SameAround(p, q, at, to);
    HeadKeepsApart(c, p[..at], p[at..to], q[at..to], p[to..]);
  }

  lemma FinalXorKeepsApart(u: bv32, v: bv32)
    requires u != v
    ensures Final(u) != Final(v)
  {
    if Final(u) == Final(v) {
      XorCancels(u, v, 0xFFFFFFFF);
    }
  }

  /** CRC-32 detects every corruption confined to four consecutive bytes. */
  lemma BurstIsDetected(p: seq<bv8>, q: seq<bv8>, at: nat)
    requires |p| == |q| && at <= |p| && p != q && AgreeOutside(p, q, at)
    ensures Crc(p) != Crc(q)
  {
    if Update(INITIAL, p) == Update(INITIAL, q) {
      BurstChangesRegister(INITIAL, p, q, at);
    }
    FinalXorKeepsApart(Update(INITIAL, p), Update(INITIAL, q));
  }
}

/** Fixed-width unsigned integers of the C sources and the wrapping clock arithmetic built on them. */
module Words {

  const TWO_31: int := 0x8000_0000
  const TWO_32: int := 0x1_0000_0000

  type byte = x: int | 0 <= x < 0x100
  type u16 = x: int | 0 <= x < 0x1_0000
  type u32 = x: int | 0 <= x < 0x1_0000_0000

  datatype Option<+T> = None | Some(value: T)

  function Min(a: int, b: int): int {
    if a < b then a else b
  }

  function Max(a: int, b: int): int {
    if a < b then b else a
  }

  function Zeros(n: nat): (r: seq<byte>)
    ensures |r| == n && forall i :: 0 <= i < n ==> r[i] == 0
  {
    seq(n, _ => 0)
  }

  lemma Multiples(d: int, n: nat)
    ensures d >= 1 ==> n * d >= n
    ensures d <= -1 ==> n * d <= 0 - n
  {
  }

  lemma Remainder(k: nat, q: nat, r: nat, n: nat)
    requires n >= 1 && r < n && k == q * n + r
    ensures k % n == r
  {
    var d := k / n - q;
    assert n * d == r - k % n;
    Multiples(d, n);
  }

  lemma Successor(count: nat, n: nat)
    requires n >= 1
    ensures (count + 1) % n == if count % n + 1 == n then 0 else count % n + 1
  {
    var q, r := count / n, count % n;
    if r + 1 == n {
      assert count + 1 == (q + 1) * n;
      Remainder(count + 1, q + 1, 0, n);
    } else {
      Remainder(count + 1, q, r + 1, n);
    }
  }

  /** A word taken apart byte by byte: the upper part of the upper part is what two bytes fewer leave. */
  lemma UpperParts(v: nat)
    ensures v / 0x1_0000 == v / 256 / 256 && v / 0x100_0000 == v / 256 / 256 / 256
  {
    var a, b, c := v / 256, v / 256 / 256, v / 256 / 256 / 256;
    assert v == a * 256 + v % 256 && a == b * 256 + a % 256 && b == c * 256 + b % 256;
  }

  /** Unsigned 32-bit addition and subtraction: results are reduced modulo 2^32. */
  function Add32(a: u32, b: u32): u32 {
    (a + b) % TWO_32
  }

  function Sub32(a: u32, b: u32): u32 {
    (a - b) % TWO_32
  }

  /** `(int32_t)(now - deadline) >= 0`: the difference, read as a signed word, is not negative. */
  predicate Expired(now: u32, deadline: u32) {
    Sub32(now, deadline) < TWO_31
  }

  /** A 32-bit clock shows an unbounded millisecond count modulo 2^32. */
  function Clock(t: nat): u32 {
    t % TWO_32
  }

  /**
   * On a wrapping clock the signed comparison answers the real question, "has `delay` passed since
   * `start`?", exactly as long as the two instants and the delay stay within half the clock range.
   */
  lemma ExpiredIsElapsed(start: nat, delay: u32, t: nat)
    requires start <= t
    requires delay <= TWO_31
    requires t - start < TWO_31 + delay
    ensures Expired(Clock(t), Add32(Clock(start), delay)) <==> t - start >= delay
  {
    var d := t - start - delay;
    assert Sub32(Clock(t), Add32(Clock(start), delay)) == d % TWO_32;
    assert -TWO_31 <= d < TWO_31;
  }
}

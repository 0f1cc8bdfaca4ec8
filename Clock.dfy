/**
 * The millisecond clock of the board. `millis()` returns an `unsigned long`,
 * which is 32 bits wide on this target, so every clock read is a value below
 * 2^32 and every "now - start" in the sketch is computed modulo 2^32.
 */
module Clock {
  const MODULUS: int := 0x1_0000_0000

  /** One read of `millis()`. */
  type u32 = x: int | 0 <= x < 0x1_0000_0000

  /** The value `millis()` returns when `t` milliseconds have really elapsed since reset. */
  function Millis(t: nat): u32
  {
    t % MODULUS
  }

  /**
   * `now - since` on `unsigned long`: the forward distance from `since` to `now`
   * on the 32-bit clock face.
   */
  function Elapsed(now: u32, since: u32): (d: u32)
    ensures (since + d) % MODULUS == now
    ensures since <= now ==> d == now - since
    ensures now < since ==> d == MODULUS - since + now
  {
    (now - since) % MODULUS
  }

  /**
   * The unsigned subtraction survives a wrap-around of the clock: as long as
   * less than 2^32 ms really separate two reads, their `Elapsed` is the real
   * distance between them.
   */
  lemma ElapsedOfReal(s: nat, t: nat)
    requires s <= t < s + MODULUS
    ensures Elapsed(Millis(t), Millis(s)) == t - s
  {
    var q, r := s / MODULUS, s % MODULUS;
    assert s == q * MODULUS + r;
    var k := t - s;
    if r + k < MODULUS {
      assert t == q * MODULUS + (r + k);
      assert Millis(t) == r + k;
    } else {
      assert t == (q + 1) * MODULUS + (r + k - MODULUS);
      assert Millis(t) == r + k - MODULUS;
    }
  }
}

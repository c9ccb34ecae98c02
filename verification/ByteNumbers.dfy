/** Numbers as single bytes and back. */
module ByteNumbers {

  /** A count below 256 as one byte. */
  function CountByte(n: int): bv8
    requires 0 <= n < 256
  {
    n as bv8
  }

  /** A number from -128 to 127 as one byte, in two's complement. */
  function DelayByte(delay: int): bv8
    requires -128 <= delay < 128
  {
    (if delay < 0 then delay + 256 else delay) as bv8
  }

  function SignedByte(b: bv8): int
  {
    if b < 128 then b as int else b as int - 256
  }

  lemma CountSurvives(n: int)
    requires 0 <= n < 256
    ensures (n as bv8) as int == n
  {
  }

  lemma DelaySurvives(delay: int)
    requires -128 <= delay < 128
    ensures SignedByte(DelayByte(delay)) == delay
  {
    CountSurvives(if delay < 0 then delay + 256 else delay);
  }
}

/** Bytes as the low end of a 32-bit word (`u32::from`). */
module Words {
  import opened Bytes

  type nibble = x: int | 0 <= x < 16

  function Digit(n: nibble): bv4 {
    n as bv4
  }

  function Widen(high: bv4, low: bv4): bv32 {
    (high as bv32 << 4) | low as bv32
  }

  /** The byte's two hexadecimal digits in the low end of a word. */
  function Word(b: byte): bv32 {
    Widen(Digit(b / 16), Digit(b % 16))
  }

  lemma DigitValue(a: nibble)
    ensures Digit(a) as int == a
  {
  }

  lemma DigitInjective(a: nibble, b: nibble)
    requires Digit(a) == Digit(b)
    ensures a == b
  {
    DigitValue(a);
    DigitValue(b);
  }

  lemma WidenInjective(h: bv4, l: bv4, h': bv4, l': bv4)
    requires Widen(h, l) == Widen(h', l')
    ensures h == h' && l == l'
  {
  }

  lemma WidenSmall(h: bv4, l: bv4)
    ensures Widen(h, l) < 0x100
  {
  }

  lemma WordInjective(a: byte, b: byte)
    requires Word(a) == Word(b)
    ensures a == b
  {
    WidenInjective(Digit(a / 16), Digit(a % 16), Digit(b / 16), Digit(b % 16));
    DigitInjective(a / 16, b / 16);
    DigitInjective(a % 16, b % 16);
    assert a == 16 * (a / 16) + a % 16;
    assert b == 16 * (b / 16) + b % 16;
  }

  lemma WordSmall(b: byte)
    ensures Word(b) < 0x100
  {
    WidenSmall(Digit(b / 16), Digit(b % 16));
  }

  lemma XorSmall(x: bv32, y: bv32)
    requires x < 0x100 && y < 0x100
    ensures x ^ y < 0x100
  {
  }
}

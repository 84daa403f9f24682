/** The 8-bit coordinates of u8glib: u8g_uint_t, u8g_int_t and their conversions. */
module Screen {

  type u8 = i: int | 0 <= i < 256
  type s8 = i: int | -128 <= i < 128

  datatype Pixel = Pixel(x: u8, y: u8)

  function ToU8(i: int): u8 {
    i % 256
  }

  function ToS8(i: int): s8 {
    (i + 128) % 256 - 128
  }

  function Apart(a: int, b: int): nat {
    if a > b then a - b else b - a
  }

  function Max(a: int, b: int): int {
    if a > b then a else b
  }

  function Min(a: int, b: int): int {
    if a < b then a else b
  }

  /** What cutting to 8 bits does to numbers that need at most one wrap. */
  lemma CutS8(i: int)
    ensures -128 <= i < 128 ==> ToS8(i) == i
    ensures 128 <= i < 384 ==> ToS8(i) == i - 256
    ensures -384 <= i < -128 ==> ToS8(i) == i + 256
  {
  }

  /** Cutting early does not matter. */
  lemma CutTwice(i: int, d: int)
    ensures ToS8(ToS8(i) + d) == ToS8(i + d)
  {
    var q := (i + 128) / 256;
    assert ToS8(i) == i - 256 * q;
    assert ToS8(i + d - 256 * q) == ToS8(i + d);
  }

  lemma NextU8(i: int)
    ensures ToU8(ToU8(i) + ToU8(1)) == ToU8(i + 1)
    ensures ToU8(ToU8(i) + ToU8(-1)) == ToU8(i - 1)
  {
    var q := i / 256;
    assert ToU8(i) == i - 256 * q;
    assert ToU8(i + 1 - 256 * q) == ToU8(i + 1);
    assert ToU8(i + 255 - 256 * q) == ToU8(i - 1);
  }

  lemma CutU8(i: int)
    ensures 0 <= i < 256 ==> ToU8(i) == i
    ensures 256 <= i < 512 ==> ToU8(i) == i - 256
    ensures -256 <= i < 0 ==> ToU8(i) == i + 256
  {
  }
}

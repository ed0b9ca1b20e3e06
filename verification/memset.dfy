/** The byte-wise MEMSET_ARGB fallback (plain memset), compared with the 32-bit pixel fill
    the compositor means by MEMSET_ARGB. */
module Memset {
  import opened Pixels

  /** The 32-bit word a pixel occupies, read little-endian: the record's bytes are red,
      green, blue, alpha in memory order, so red is the low byte. */
  function Word(p: Argb): nat {
    p.rgb.red + 0x100 * p.rgb.green + 0x1_0000 * p.rgb.blue + 0x100_0000 * p.alpha
  }

  /** The pixel the fallback leaves when MEMSET_ARGB is passed the word `value`: memset keeps
      only the low byte of its value argument and stores it into every byte, so the word
      becomes that byte repeated four times. */
  function MemsetPixel(value: nat): (p: Argb)
    ensures Word(p) == (value % 0x100) * 0x0101_0101
    ensures p.alpha == value % 0x100
  {
    var b := value % 0x100;
    Argb(Rgb(b, b, b), b)
  }

  /** The fills the blitter (all ones) and the transparent start of frame 0 (zero) ask for
      come out right through the fallback. */
  lemma MemsetUniformWordsAgree()
    ensures MemsetPixel(0) == ClearPixel && Word(ClearPixel) == 0
    ensures MemsetPixel(0xFFFF_FFFF) == Argb(Rgb(0xFF, 0xFF, 0xFF), Opaque)
    ensures Word(Argb(Rgb(0xFF, 0xFF, 0xFF), Opaque)) == 0xFFFF_FFFF
  {
  }

  /** The opaque background fill of frame 0 through the fallback: every pixel becomes the
      background's red byte in all four channels, which is the intended opaque background
      colour only for white. */
  lemma MemsetBackgroundFill(bg: Rgb)
    ensures MemsetPixel(Word(Argb(bg, Opaque))) == Argb(Rgb(bg.red, bg.red, bg.red), bg.red)
    ensures MemsetPixel(Word(Argb(bg, Opaque))) == Argb(bg, Opaque) <==> bg == Rgb(0xFF, 0xFF, 0xFF)
  {
    var w := Word(Argb(bg, Opaque));
    assert w == bg.red + 0x100 * (bg.green + 0x100 * bg.blue + 0x1_0000 * Opaque);
    assert w % 0x100 == bg.red;
  }

  /** A concrete background colour that the fallback draws wrongly. */
  lemma MemsetBackgroundCounterexample()
    ensures MemsetPixel(Word(Argb(Rgb(0x10, 0x20, 0x30), Opaque))) == Argb(Rgb(0x10, 0x10, 0x10), 0x10)
    ensures MemsetPixel(Word(Argb(Rgb(0x10, 0x20, 0x30), Opaque))) != Argb(Rgb(0x10, 0x20, 0x30), Opaque)
  {
    MemsetBackgroundFill(Rgb(0x10, 0x20, 0x30));
  }
}

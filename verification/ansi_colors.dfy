/**
 * Colour resolution of the ANSI interpreter: the 3-bit and bright 8-entry tables,
 * the 256-colour palette (16 table entries, a 6x6x6 cube, a 24-step gray ramp) and
 * clamped 24-bit colours. The source memoises each of these in a dictionary; the
 * caches change nothing observable and are modelled as the pure functions they front.
 */
module AnsiColors {

  /** One 8-bit colour channel. */
  type Channel = x: int | 0 <= x <= 255

  /**
   * A System.Drawing colour. Named colours are kept symbolic (their RGB values are not
   * part of the source); `Rgb` is a colour built by `Color.FromArgb(r, g, b)`. .NET
   * compares a named colour and an ARGB colour as different even when their RGB
   * values agree, which the two constructors mirror.
   */
  datatype Color = Named(name: string) | Rgb(r: Channel, g: Channel, b: Channel)

  /** `Math.Clamp(x, lo, hi)`. */
  function Clamp(x: int, lo: int, hi: int): (r: int)
    requires lo <= hi
    ensures lo <= r <= hi
    ensures lo <= x <= hi ==> r == x
    ensures x < lo ==> r == lo
    ensures x > hi ==> r == hi
  {
    if x < lo then lo else if x > hi then hi else x
  }

  /** The eight "dim" colours selected by 30-37 and 40-47, in index order. */
  const DimNames: seq<string> :=
    ["Black", "DarkRed", "DarkGreen", "DarkGoldenrod", "DarkBlue", "DarkMagenta", "DarkCyan", "LightGray"]

  /** The eight bright colours selected by 90-97 and 100-107, in index order. */
  const BrightNames: seq<string> :=
    ["DarkGray", "Red", "Green", "Yellow", "Blue", "Magenta", "Cyan", "White"]

  /** Every named colour an SGR code can select. */
  predicate IsPaletteName(name: string) {
    name in DimNames || name in BrightNames
  }

  /** The 3-bit table; an index outside 0..7 falls back to black. */
  function Get3BitColor(index: int): (c: Color)
    ensures 0 <= index < 8 ==> c == Named(DimNames[index])
    ensures c.Named? && c.name in DimNames
  {
    match index
    case 0 => Named("Black")
    case 1 => Named("DarkRed")
    case 2 => Named("DarkGreen")
    case 3 => Named("DarkGoldenrod")
    case 4 => Named("DarkBlue")
    case 5 => Named("DarkMagenta")
    case 6 => Named("DarkCyan")
    case 7 => Named("LightGray")
    case _ => Named("Black")
  }

  /** The bright table; an index outside 0..7 falls back to white. */
  function Get4BitColor(index: int): (c: Color)
    ensures 0 <= index < 8 ==> c == Named(BrightNames[index])
    ensures c.Named? && c.name in BrightNames
  {
    match index
    case 0 => Named("DarkGray")
    case 1 => Named("Red")
    case 2 => Named("Green")
    case 3 => Named("Yellow")
    case 4 => Named("Blue")
    case 5 => Named("Magenta")
    case 6 => Named("Cyan")
    case 7 => Named("White")
    case _ => Named("White")
  }

  /** A channel value of the colour cube occurs only at these six levels. */
  predicate IsCubeLevel(v: int) {
    v == 0 || v == 95 || v == 135 || v == 175 || v == 215 || v == 255
  }

  /** Channel value of cube coordinate `c`: 0 for 0, else 55 + 40c. */
  function CubeLevel(c: int): (v: Channel)
    requires 0 <= c <= 5
    ensures IsCubeLevel(v)
    ensures (v == 0) == (c == 0)
    ensures v % 40 == 15 || v == 0
  {
    if c == 0 then 0 else 55 + c * 40
  }

  /** The first sixteen entries of the 256-colour palette, the source's own table. */
  function Palette16(i: int): (c: Color)
    requires 0 <= i < 16
    ensures i < 8 ==> c == Get3BitColor(i)
    ensures 8 <= i ==> c == Get4BitColor(i - 8)
  {
    match i
    case 0 => Named("Black")
    case 1 => Named("DarkRed")
    case 2 => Named("DarkGreen")
    case 3 => Named("DarkGoldenrod")
    case 4 => Named("DarkBlue")
    case 5 => Named("DarkMagenta")
    case 6 => Named("DarkCyan")
    case 7 => Named("LightGray")
    case 8 => Named("DarkGray")
    case 9 => Named("Red")
    case 10 => Named("Green")
    case 11 => Named("Yellow")
    case 12 => Named("Blue")
    case 13 => Named("Magenta")
    case 14 => Named("Cyan")
    case _ => Named("White")
  }

  /** Entry `n` of the 6x6x6 cube: the base-6 digits of `n` select red, green and blue levels. */
  function CubeColor(n: int): (c: Color)
    requires 0 <= n < 216
    ensures c.Rgb? && IsCubeLevel(c.r) && IsCubeLevel(c.g) && IsCubeLevel(c.b)
  {
    Rgb(CubeLevel(n / 36), CubeLevel((n % 36) / 6), CubeLevel(n % 6))
  }

  /**
   * The 256-colour palette. The index is first clamped into 0..255; 0-15 have their own
   * table, 16-231 are the 6x6x6 cube and 232-255 the gray ramp.
   */
  function Get256Color(index: int): (c: Color)
    ensures 0 <= index < 8 ==> c == Get3BitColor(index)
    ensures 8 <= index < 16 ==> c == Get4BitColor(index - 8)
    ensures index < 0 ==> c == Get3BitColor(0)
    ensures index < 16 ==> c.Named? && IsPaletteName(c.name)
    ensures 16 <= index ==> c.Rgb?
    ensures 16 <= index <= 231 ==> IsCubeLevel(c.r) && IsCubeLevel(c.g) && IsCubeLevel(c.b)
    ensures 232 <= index ==> c.r == c.g == c.b == (if index > 255 then 255 else index) * 10 - 2312
  {
    var i := Clamp(index, 0, 255);
    if i < 16 then Palette16(i)
    else if i <= 231 then CubeColor(i - 16)
    else
      var gray := Clamp((i - 232) * 10 + 8, 0, 255);
      Rgb(gray, gray, gray)
  }

  /** A 24-bit colour; each component is clamped into 0..255 (`Math.Clamp`). */
  function GetRgbColor(r: int, g: int, b: int): (c: Color)
    ensures c.Rgb?
    ensures 0 <= r <= 255 ==> c.r == r
    ensures 0 <= g <= 255 ==> c.g == g
    ensures 0 <= b <= 255 ==> c.b == b
    ensures (r < 0 ==> c.r == 0) && (r > 255 ==> c.r == 255)
    ensures (g < 0 ==> c.g == 0) && (g > 255 ==> c.g == 255)
    ensures (b < 0 ==> c.b == 0) && (b > 255 ==> c.b == 255)
  {
    Rgb(Clamp(r, 0, 255), Clamp(g, 0, 255), Clamp(b, 0, 255))
  }

  /** Cube coordinates (r, g, b) in 0..5 sit at palette index 16 + 36r + 6g + b. */
  lemma CubeIndex(r: int, g: int, b: int)
    requires 0 <= r <= 5 && 0 <= g <= 5 && 0 <= b <= 5
    ensures Get256Color(16 + 36 * r + 6 * g + b) == Rgb(CubeLevel(r), CubeLevel(g), CubeLevel(b))
  {
    var n := 36 * r + 6 * g + b;
    DivMod36(n, r, 6 * g + b);
    DivMod6(6 * g + b, g, b);
    DivMod6(n, 6 * r + g, b);
    assert CubeColor(n) == Rgb(CubeLevel(r), CubeLevel(g), CubeLevel(b));
  }

  /** Division by 36 is fixed by any quotient/remainder pair with the remainder in range. */
  lemma DivMod36(n: int, q: int, m: int)
    requires 0 <= m < 36 && n == 36 * q + m
    ensures n / 36 == q && n % 36 == m
  {
  }

  /** Division by 6 is fixed by any quotient/remainder pair with the remainder in range. */
  lemma DivMod6(n: int, q: int, m: int)
    requires 0 <= m < 6 && n == 6 * q + m
    ensures n / 6 == q && n % 6 == m
  {
  }

  /** Distinct cube coordinates give distinct channel values. */
  lemma CubeLevelInjective(c: int, d: int)
    requires 0 <= c <= 5 && 0 <= d <= 5
    requires CubeLevel(c) == CubeLevel(d)
    ensures c == d
  {
  }

  /** A cube index is recovered from its three base-6 digits. */
  lemma CubeDigits(n: int)
    requires 0 <= n < 216
    ensures n == 36 * (n / 36) + 6 * ((n % 36) / 6) + n % 6
  {
    DivMod6(n % 36, (n % 36) / 6, n % 6);
  }

  /** Distinct cube entries have distinct colours. */
  lemma CubeColorInjective(n: int, m: int)
    requires 0 <= n < 216 && 0 <= m < 216
    requires CubeColor(n) == CubeColor(m)
    ensures n == m
  {
    CubeLevelInjective(n / 36, m / 36);
    CubeLevelInjective((n % 36) / 6, (m % 36) / 6);
    CubeLevelInjective(n % 6, m % 6);
    CubeDigits(n);
    CubeDigits(m);
  }

  /** Every palette index from 16 to 255 resolves to a different colour. */
  lemma Palette256Injective(i: int, j: int)
    requires 16 <= i <= 255 && 16 <= j <= 255
    requires Get256Color(i) == Get256Color(j)
    ensures i == j
  {
    if i <= 231 && j <= 231 {
      CubeColorInjective(i - 16, j - 16);
    }
  }

  /**
   * The ends of the palette's ranges: the cube runs from black to white, the gray ramp
   * from 8 to 238, and indices outside 0..255 are clamped to its ends.
   */
  lemma PaletteEnds()
    ensures Get256Color(16) == Rgb(0, 0, 0) && Get256Color(231) == Rgb(255, 255, 255)
    ensures Get256Color(232) == Rgb(8, 8, 8) && Get256Color(255) == Rgb(238, 238, 238)
    ensures Get256Color(-1) == Named("Black") && Get256Color(256) == Rgb(238, 238, 238)
  {
    CubeIndex(0, 0, 0);
    CubeIndex(5, 5, 5);
  }
}

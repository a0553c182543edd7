/**
 * The colour value type: four 8-bit channels (alpha, red, green, blue), the
 * 24- and 32-bit colour codes they pack into, equality, and the mix of a list
 * of colours.
 *
 * A colour never changes after it is built, so it is a datatype here. PHP's
 * `$x & 0xff` is `x % 256` (Dafny's `%` is never negative, which matches the
 * two's-complement low byte), `$code >> n` for n below 63 is `code / 2^n`
 * (Dafny's `/` rounds down for a positive divisor, as an arithmetic shift
 * does), and the `|` of channels shifted into disjoint bytes is their sum.
 */
module Colors {

  /** A channel value, 0 to 255. */
  type Channel = x: int | 0 <= x < 256

  /** A colour: the four channels the constructor stores. */
  datatype Color = Color(r: Channel, g: Channel, b: Channel, a: Channel)

  /** `$x & 0xff`: the low eight bits, the unique channel value congruent to `x`. */
  function Mask(x: int): (m: Channel)
    ensures (x - m) % 256 == 0
    ensures 0 <= x < 256 ==> m == x
  {
    x % 256
  }

  /**
   * `new Color($r, $g, $b, $a = 0xff)`: each channel keeps only the low eight
   * bits of its argument; alpha is opaque unless given.
   */
  function NewColor(r: int, g: int, b: int, a: int := 0xff): (c: Color)
    ensures (c.r - r) % 256 == 0 && (c.g - g) % 256 == 0 && (c.b - b) % 256 == 0 && (c.a - a) % 256 == 0
    ensures 0 <= r < 256 ==> c.r == r
    ensures 0 <= g < 256 ==> c.g == g
    ensures 0 <= b < 256 ==> c.b == b
    ensures 0 <= a < 256 ==> c.a == a
  {
    Color(Mask(r), Mask(g), Mask(b), Mask(a))
  }

  /** Without an alpha argument a colour is opaque. */
  lemma NewColorOpaque(r: int, g: int, b: int)
    ensures NewColor(r, g, b).a == 0xff
  {
  }

  // ---------------------------------------------------------------------------
  // Colour codes
  // ---------------------------------------------------------------------------

  /** `toARGB()`: alpha in bits 24-31, then red, green and blue; a 32-bit value. */
  function ToARGB(c: Color): (code: int)
    ensures 0 <= code < 0x1_0000_0000
  {
    c.a * 0x100_0000 + c.r * 0x1_0000 + c.g * 0x100 + c.b
  }

  /** `toRGBA()`: red in bits 24-31, then green, blue and alpha; a 32-bit value. */
  function ToRGBA(c: Color): (code: int)
    ensures 0 <= code < 0x1_0000_0000
  {
    c.r * 0x100_0000 + c.g * 0x1_0000 + c.b * 0x100 + c.a
  }

  /** `Color::fromRGB($code)`: red, green and blue from bits 16-23, 8-15 and 0-7; opaque. */
  function FromRGB(code: int): (c: Color)
    ensures c.a == 0xff
    ensures ToARGB(c) == 0xff00_0000 + code % 0x100_0000
  {
    var c := NewColor(Mask(code / 0x1_0000), Mask(code / 0x100), Mask(code));
    ThreeBytes(code);
    c
  }

  /** `Color::fromARGB($code)`: the inverse of `toARGB` on the low 32 bits of the code. */
  function FromARGB(code: int): (c: Color)
    ensures ToARGB(c) == code % 0x1_0000_0000
  {
    var c := NewColor(Mask(code / 0x1_0000), Mask(code / 0x100), Mask(code), Mask(code / 0x100_0000));
    FourBytes(code);
    c
  }

  /** `Color::fromRGBA($code)`: the inverse of `toRGBA` on the low 32 bits of the code. */
  function FromRGBA(code: int): (c: Color)
    ensures ToRGBA(c) == code % 0x1_0000_0000
  {
    var c := NewColor(Mask(code / 0x100_0000), Mask(code / 0x1_0000), Mask(code / 0x100), Mask(code));
    FourBytes(code);
    c
  }

  /** `equals()`: all four channels agree. */
  predicate Equals(c: Color, other: Color) {
    c.a == other.a && c.r == other.r && c.g == other.g && c.b == other.b
  }

  /** Decoding a colour's own ARGB code gives the colour back. */
  lemma {:induction false} ARGBRoundTrip(c: Color)
    ensures FromARGB(ToARGB(c)) == c
  {
    CodeBytes(c.a, c.r, c.g, c.b);
  }

  /** Decoding a colour's own RGBA code gives the colour back. */
  lemma {:induction false} RGBARoundTrip(c: Color)
    ensures FromRGBA(ToRGBA(c)) == c
  {
    CodeBytes(c.r, c.g, c.b, c.a);
  }

  /**
   * `equals` is the same as equality of the colours and as equality of their
   * ARGB codes; in particular it is reflexive and symmetric.
   */
  lemma EqualsIsCodeEquality(c: Color, d: Color)
    ensures Equals(c, d) <==> c == d
    ensures Equals(c, d) <==> ToARGB(c) == ToARGB(d)
    ensures Equals(c, c) && (Equals(c, d) ==> Equals(d, c))
  {
    ARGBRoundTrip(c);
    ARGBRoundTrip(d);
  }

  /** Examples: opaque red, and a translucent code whose top bits are dropped. */
  lemma CodeExamples()
    ensures FromRGB(0xff0000) == Color(0xff, 0, 0, 0xff)
    ensures ToARGB(FromRGB(0xff0000)) == 0xffff0000
    ensures FromARGB(0x1_8012_3456) == Color(0x12, 0x34, 0x56, 0x80)
    ensures ToRGBA(NewColor(-1, 256, 0x1ff, 0)) == 0xff00ff00
  {
  }

  // ---------------------------------------------------------------------------
  // Arithmetic on base-256 digits
  // ---------------------------------------------------------------------------

  lemma MulMono(x: int, y: int, m: int)
    requires x >= y && m > 0
    ensures x * m >= y * m
  {
  }

  lemma Distribute(v: int, n: int)
    ensures v * n == v * (n - 1) + v
  {
  }

  /** The quotient and remainder of a division are the only ones with the remainder in range. */
  lemma {:induction false} DivUnique(x: int, m: int, q: int, rest: int)
    requires m > 0 && 0 <= rest < m && x == q * m + rest
    ensures x / m == q && x % m == rest
  {
    var q' := x / m;
    if q' > q {
      MulMono(q', q + 1, m);
    } else if q' < q {
      MulMono(q, q' + 1, m);
    }
  }

  /** The remainder by 256m splits into the digit above m and the remainder by m. */
  lemma {:induction false} Split(x: int, m: int)
    requires m > 0
    ensures x % (256 * m) == Mask(x / m) * m + x % m
  {
    var q := x / (256 * m);
    var rest := x % (256 * m);
    var s := rest / m;
    var t := rest % m;
    assert s < 256 by {
      if s >= 256 {
        MulMono(s, 256, m);
      }
    }
    assert x == (q * 256 + s) * m + t;
    DivUnique(x, m, q * 256 + s, t);
    DivUnique(q * 256 + s, 256, q, s);
  }

  /** The low three bytes of a code are its value modulo 2^24. */
  lemma {:induction false} ThreeBytes(x: int)
    ensures Mask(x / 0x1_0000) * 0x1_0000 + Mask(x / 0x100) * 0x100 + Mask(x) == x % 0x100_0000
  {
    Split(x, 0x100);
    Split(x, 0x1_0000);
  }

  /** The low four bytes of a code are its value modulo 2^32. */
  lemma {:induction false} FourBytes(x: int)
    ensures Mask(x / 0x100_0000) * 0x100_0000 + Mask(x / 0x1_0000) * 0x1_0000 + Mask(x / 0x100) * 0x100 + Mask(x)
            == x % 0x1_0000_0000
  {
    ThreeBytes(x);
    Split(x, 0x100_0000);
  }

  /** The four bytes of a packed code are the digits it was packed from. */
  lemma {:induction false} CodeBytes(d3: Channel, d2: Channel, d1: Channel, d0: Channel)
    ensures var x := d3 * 0x100_0000 + d2 * 0x1_0000 + d1 * 0x100 + d0;
            Mask(x / 0x100_0000) == d3 && Mask(x / 0x1_0000) == d2 && Mask(x / 0x100) == d1 && Mask(x) == d0
  {
    var x := d3 * 0x100_0000 + d2 * 0x1_0000 + d1 * 0x100 + d0;
    DivUnique(x, 0x100, d3 * 0x1_0000 + d2 * 0x100 + d1, d0);
    DivUnique(x, 0x1_0000, d3 * 0x100 + d2, d1 * 0x100 + d0);
    DivUnique(x, 0x100_0000, d3, d2 * 0x1_0000 + d1 * 0x100 + d0);
    DivUnique(d3 * 0x1_0000 + d2 * 0x100 + d1, 256, d3 * 0x100 + d2, d1);
    DivUnique(d3 * 0x100 + d2, 256, d3, d2);
    DivUnique(d3, 256, 0, d3);
  }

  // ---------------------------------------------------------------------------
  // Mixing
  // ---------------------------------------------------------------------------

  /** The four channels, to speak of "each channel" at once. */
  datatype Component = Alpha | Red | Green | Blue

  function Get(c: Color, k: Component): Channel {
    match k
    case Alpha => c.a
    case Red => c.r
    case Green => c.g
    case Blue => c.b
  }

  /** The sum of channel `k` over the colours. */
  function Total(cs: seq<Color>, k: Component): (t: int)
    ensures 0 <= t <= 255 * |cs|
  {
    if |cs| == 0 then 0 else Total(cs[..|cs| - 1], k) + Get(cs[|cs| - 1], k)
  }

  /** `intdiv($sum, $count)` for a non-negative sum and positive count. */
  function Mean(cs: seq<Color>, k: Component): (m: Channel)
    requires |cs| >= 1
  {
    MeanBelow(Total(cs, k), |cs|, 255);
    Total(cs, k) / |cs|
  }

  /**
   * What `Color::mix($color1, ...$colors)` returns for the list `cs` it
   * iterates (the extra colours, then `$color1`): each channel is the
   * channel's truncated mean, which always fits in a channel.
   */
  function MixOf(cs: seq<Color>): (c: Color)
    requires |cs| >= 1
    ensures forall k :: Get(c, k) == Total(cs, k) / |cs|
  {
    NewColor(Mean(cs, Red), Mean(cs, Green), Mean(cs, Blue), Mean(cs, Alpha))
  }

  /**
   * `Color::mix($color1, ...$colors)`: `$color1` is appended to the extra
   * colours, the four channels are summed in one pass, and each sum is divided
   * by the number of colours, which is never zero.
   */
  method Mix(color1: Color, colors: seq<Color>) returns (c: Color)
    ensures c == MixOf(colors + [color1])
  {
    var all := colors + [color1];
    var count := |all|;
    var a, r, g, b := 0, 0, 0, 0;
    var i := 0;
    while i < count
      invariant 0 <= i <= count
      invariant a == Total(all[..i], Alpha) && r == Total(all[..i], Red)
      invariant g == Total(all[..i], Green) && b == Total(all[..i], Blue)
    {
      assert all[..i + 1][..i] == all[..i];
      a := a + all[i].a;
      r := r + all[i].r;
      g := g + all[i].g;
      b := b + all[i].b;
      i := i + 1;
    }
    assert all[..i] == all;
    c := NewColor(r / count, g / count, b / count, a / count);
  }

  /** `sum <= bound * n` keeps the truncated quotient at or below `bound`. */
  lemma {:induction false} MeanBelow(sum: int, n: int, bound: int)
    requires n >= 1 && 0 <= sum <= bound * n
    ensures 0 <= sum / n <= bound
  {
    if sum / n > bound {
      MulMono(sum / n, bound + 1, n);
    }
  }

  /** `bound * n <= sum` keeps the truncated quotient at or above `bound`. */
  lemma {:induction false} MeanAbove(sum: int, n: int, bound: int)
    requires n >= 1 && bound * n <= sum
    ensures bound <= sum / n
  {
    if sum / n < bound {
      MulMono(bound - 1, sum / n, n);
    }
  }

  /** If every colour's channel `k` lies in [lo, hi], so does the sum over n colours in [lo n, hi n]. */
  lemma {:induction false} TotalWithin(cs: seq<Color>, k: Component, lo: int, hi: int)
    requires forall i :: 0 <= i < |cs| ==> lo <= Get(cs[i], k) <= hi
    ensures lo * |cs| <= Total(cs, k) <= hi * |cs|
  {
    if |cs| > 0 {
      var n := |cs|;
      var front := cs[..n - 1];
      TotalWithin(front, k, lo, hi);
      var t, g := Total(front, k), Get(cs[n - 1], k);
      assert Total(cs, k) == t + g;
      Distribute(lo, n);
      Distribute(hi, n);
      assert lo * (n - 1) <= t <= hi * (n - 1);
      assert lo <= g <= hi;
    }
  }

  /** Each channel of a mix lies between the smallest and the largest input channel. */
  lemma MixWithin(cs: seq<Color>, k: Component, lo: int, hi: int)
    requires |cs| >= 1
    requires forall i :: 0 <= i < |cs| ==> lo <= Get(cs[i], k) <= hi
    ensures lo <= Get(MixOf(cs), k) <= hi
  {
    TotalWithin(cs, k, lo, hi);
    MeanBelow(Total(cs, k), |cs|, hi);
    MeanAbove(Total(cs, k), |cs|, lo);
  }

  /** The sum over a concatenation is the sum of the sums. */
  lemma {:induction false} TotalConcat(s: seq<Color>, t: seq<Color>, k: Component)
    ensures Total(s + t, k) == Total(s, k) + Total(t, k)
  {
    if |t| > 0 {
      assert (s + t)[..|s + t| - 1] == s + t[..|t| - 1];
      TotalConcat(s, t[..|t| - 1], k);
    } else {
      assert s + t == s;
    }
  }

  /** Taking out the colour at `j` takes its channel out of the sum and it out of the multiset. */
  lemma {:induction false} TotalRemove(t: seq<Color>, j: int, k: Component)
    requires 0 <= j < |t|
    ensures Total(t, k) == Total(t[..j] + t[j + 1..], k) + Get(t[j], k)
    ensures multiset(t[..j] + t[j + 1..]) == multiset(t) - multiset{t[j]}
  {
    var front, back := t[..j], t[j + 1..];
    assert t == front + ([t[j]] + back);
    TotalConcat(front, [t[j]] + back, k);
    TotalConcat([t[j]], back, k);
    TotalConcat(front, back, k);
    assert [t[j]][..0] == [];
  }

  /** The sum does not depend on the order of the colours. */
  lemma {:induction false} TotalPermutation(s: seq<Color>, t: seq<Color>, k: Component)
    requires multiset(s) == multiset(t)
    ensures Total(s, k) == Total(t, k)
    decreases |s|
  {
    if |s| > 0 {
      var i := |s| - 1;
      assert s[i] in multiset(t);
      var j :| 0 <= j < |t| && t[j] == s[i];
      TotalRemove(s, i, k);
      TotalRemove(t, j, k);
      TotalPermutation(s[..i] + s[i + 1..], t[..j] + t[j + 1..], k);
    } else {
      assert t == [];
    }
  }

  /** `mix` does not depend on the order of its arguments. */
  lemma MixOrderIndependent(s: seq<Color>, t: seq<Color>)
    requires |s| >= 1 && multiset(s) == multiset(t)
    ensures MixOf(s) == MixOf(t)
  {
    assert |t| == |multiset(t)| == |s|;
    forall k | true
      ensures Total(s, k) == Total(t, k)
    {
      TotalPermutation(s, t, k);
    }
    assert Get(MixOf(s), Red) == Get(MixOf(t), Red);
    assert Get(MixOf(s), Green) == Get(MixOf(t), Green);
    assert Get(MixOf(s), Blue) == Get(MixOf(t), Blue);
    assert Get(MixOf(s), Alpha) == Get(MixOf(t), Alpha);
  }

  /** The sum over n copies of a colour is n times its channel. */
  lemma {:induction false} TotalCopies(c: Color, n: nat, k: Component)
    ensures Total(seq(n, _ => c), k) == n * Get(c, k)
  {
    if n > 0 {
      assert seq(n, _ => c)[..n - 1] == seq(n - 1, _ => c);
      TotalCopies(c, n - 1, k);
      assert n * Get(c, k) == (n - 1) * Get(c, k) + Get(c, k);
    }
  }

  /** Mixing any positive number of copies of one colour gives that colour. */
  lemma MixCopies(c: Color, n: nat)
    requires n >= 1
    ensures Equals(MixOf(seq(n, _ => c)), c)
  {
    var cs := seq(n, _ => c);
    forall k | true
      ensures Get(MixOf(cs), k) == Get(c, k)
    {
      TotalCopies(c, n, k);
      DivUnique(n * Get(c, k), n, Get(c, k), 0);
    }
    assert Get(MixOf(cs), Red) == Get(c, Red);
    assert Get(MixOf(cs), Green) == Get(c, Green);
    assert Get(MixOf(cs), Blue) == Get(c, Blue);
    assert Get(MixOf(cs), Alpha) == Get(c, Alpha);
  }

  /** An example: black and white mix to a grey rounded down. */
  lemma MixExample()
    ensures MixOf([Color(0, 0, 0, 0xff), Color(0xff, 0xff, 0xff, 0xff)]) == Color(0x7f, 0x7f, 0x7f, 0xff)
  {
    var cs := [Color(0, 0, 0, 0xff), Color(0xff, 0xff, 0xff, 0xff)];
    assert cs[..1][..0] == [];
    assert cs[..|cs| - 1] == [Color(0, 0, 0, 0xff)];
  }
}

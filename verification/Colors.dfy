/** Eight-bit colours and the rounding arithmetic on their channels. */
module Colors {
  import opened Common

  /** Straight-alpha colour, the meeting point of every conversion. */
  datatype Rgba = Rgba(r: byte, g: byte, b: byte, a: byte)

  const OPAQUE: byte := 255

  // ----- Unpremultiplication -----

  function UnpremulChannel(c: byte, a: byte): (u: byte)
    requires a > 0
  {
    var v := (c as int * 255) / a;
    if v > 255 then 255 else v
  }

  function UnpremulG8(g: byte, a: byte): (byte, byte) {
    if a == 0 then (0, 0) else (UnpremulChannel(g, a), a)
  }

  function UnpremulRgb8(r: byte, g: byte, b: byte, a: byte): Rgba {
    if a == 0 then Rgba(0, 0, 0, 0)
    else Rgba(UnpremulChannel(r, a), UnpremulChannel(g, a), UnpremulChannel(b, a), a)
  }

  /** Premultiply again, rounding up. */
  function Premul(u: byte, a: byte): byte {
    var v := (u as int * a + 254) / 255;
    if v > 255 then 255 else v
  }

  lemma DivisionBounds(n: nat, d: nat)
    requires d > 0
    ensures (n / d) * d <= n < (n / d) * d + d
  {
  }

  lemma LargestQuotient(q: nat, v: nat, a: nat, n: nat)
    requires v * a <= n < q * a + a
    ensures v <= q
  {
    ProductsOrdered(v, q, a);
  }

  /** A valid premultiplied channel is not clamped, and premultiplying again, rounding up, gives it back. */
  lemma UnpremulExact(c: byte, a: byte)
    requires 0 < a && c <= a
    ensures var u := UnpremulChannel(c, a);
            && u == c as int * 255 / a
            && u as int * a <= 255 * c < (u as int + 1) * a
            && Premul(u, a) == c
  {
    var n := c as int * 255;
    var q := n / a;
    DivisionBounds(n, a);
    LargestQuotient(255, q, a, n);
    assert (q + 1) * a == q * a + a;
  }

  /** The straight value is the largest one whose premultiplied form does not exceed the input. */
  lemma UnpremulLargest(c: byte, a: byte, v: byte)
    requires 0 < a && c <= a && v as int * a <= 255 * c
    ensures v <= UnpremulChannel(c, a)
  {
    UnpremulExact(c, a);
    var u := UnpremulChannel(c, a);
    assert (u as int + 1) * a == u as int * a + a;
    LargestQuotient(u, v, a, 255 * c as int);
  }

  // ----- Compositing over white -----

  /** One channel of `flatten_over_white`. */
  function OverWhite(c: byte, a: byte): (r: byte) {
    OverWhiteBound(c, a);
    (c as int * a + 255 * (255 - a as int) + 127) / 255
  }

  lemma MixBounds(c: nat, a: nat)
    requires c <= 255 && a <= 255
    ensures c * a <= 255 * a
    ensures (255 - c) * (255 - a) == 255 * 255 - 255 * c - 255 * a + c * a
    ensures (255 - c) * (255 - a) >= 0
  {
  }

  lemma OverWhiteBound(c: byte, a: byte)
    ensures 0 <= c as int * a
    ensures 255 * c as int <= c as int * a + 255 * (255 - a as int) <= 255 * 255
  {
    MixBounds(c, a);
  }

  /** The rounded channel is within 127/255 of the exact composite and no darker than the colour or the white share. */
  lemma OverWhiteRounding(c: byte, a: byte)
    ensures var exact := c as int * a + 255 * (255 - a as int);
            -127 <= 255 * OverWhite(c, a) as int - exact <= 127
    ensures OverWhite(c, a) >= c && OverWhite(c, a) as int >= 255 - a as int
    ensures a == 255 ==> OverWhite(c, a) == c
    ensures a == 0 ==> OverWhite(c, a) == 255
  {
    OverWhiteBound(c, a);
  }

  // ----- Luma -----

  function Luma(r: byte, g: byte, b: byte): byte {
    (30 * r as int + 59 * g as int + 11 * b as int) / 100
  }

  lemma LumaOfGray(g: byte)
    ensures Luma(g, g, g) == g
  {
  }

  lemma LumaBetween(r: byte, g: byte, b: byte, lo: byte, hi: byte)
    requires lo <= r <= hi && lo <= g <= hi && lo <= b <= hi
    ensures lo <= Luma(r, g, b) <= hi
  {
  }
}

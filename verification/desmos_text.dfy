/** The two strings an expression carries about its pixel: the `rgb(...)`
    colour and the LaTeX inequality that plots the pixel as a unit cell
    (src/desmos.rs, lines 25 and 27). Each renderer has a parser that inverts
    it, so the text provably determines the values it was built from. */
module DesmosText {
  import opened Options
  import opened Decimal
  import opened Raster

  /** `format!("rgb({}, {}, {})", r, g, b)`: the alpha channel is not used. */
  function ColorOf(c: Rgba): string {
    "rgb(" + NatToString(c.r as nat) + ", " + NatToString(c.g as nat) + ", "
      + NatToString(c.b as nat) + ")"
  }

  /** The LaTeX template `a\le x\le b\left\{c\le y\le d\right\}`: the
      region `a <= X <= b` restricted to `c <= Y <= d`. */
  function CellLatex(a: nat, b: nat, c: nat, d: nat): string {
    NatToString(a) + @"\le x\le" + NatToString(b) + @"\left\{"
      + NatToString(c) + @"\le y\le" + NatToString(d) + @"\right\}"
  }

  /** The LaTeX of the cell `x <= X <= x + 1, y <= Y <= y + 1`. The bounds
      `x + 1` and `y + 1` are 32-bit additions, in range when `x` and `y` are
      below `u32::MAX`. */
  function LatexOf(x: u32, y: u32): string
    requires x < U32_MAX && y < U32_MAX
  {
    CellLatex(x as nat, (x + 1) as nat, y as nat, (y + 1) as nat)
  }

  /** The closed region `xLo <= X <= xHi` and `yLo <= Y <= yHi` of the plane
      that a LaTeX cell expression shades. */
  datatype Cell = Cell(xLo: nat, xHi: nat, yLo: nat, yHi: nat) {

    predicate Covers(px: int, py: int) {
      xLo <= px <= xHi && yLo <= py <= yHi
    }

    /** Every point this cell shades is at or below every point `other`
        shades. */
    ghost predicate LiesBelow(other: Cell) {
      forall px, py, qx, qy :: Covers(px, py) && other.Covers(qx, qy) ==> py <= qy
    }
  }

  /** Strips the literal `lit` from the front of `s`. */
  function Expect(lit: string, s: string): (r: Option<string>)
    ensures r.Some? <==> lit <= s
    ensures r.Some? ==> s == lit + r.value
  {
    if lit <= s then Some(s[|lit|..]) else None
  }

  /** Reads a number and then the literal `lit` that closes it. */
  function ReadNatThen(lit: string, s: string): (r: Option<(nat, string)>)
    ensures r.Some? ==> |r.value.1| < |s|
  {
    var n :- ReadNat(s);
    var rest :- Expect(lit, n.1);
    Some((n.0, rest))
  }

  /** Reads back the channels of a string of the form `rgb(r, g, b)`. */
  function ParseColor(s: string): Option<(nat, nat, nat)> {
    var s0 :- Expect("rgb(", s);
    var r :- ReadNatThen(", ", s0);
    var g :- ReadNatThen(", ", r.1);
    var b :- ReadNatThen(")", g.1);
    if b.1 == [] then Some((r.0, g.0, b.0)) else None
  }

  /** Reads the chained inequality `lo<mid>hi<close>` of one axis, returning
      both bounds and the rest of the text. */
  function ReadBounds(mid: string, close: string, s: string): Option<(nat, nat, string)> {
    var lo :- ReadNatThen(mid, s);
    var hi :- ReadNatThen(close, lo.1);
    Some((lo.0, hi.0, hi.1))
  }

  /** Reads back the four bounds of a LaTeX cell expression. */
  function ParseLatex(s: string): Option<Cell> {
    var xs :- ReadBounds(@"\le x\le", @"\left\{", s);
    var ys :- ReadBounds(@"\le y\le", @"\right\}", xs.2);
    if ys.2 == [] then Some(Cell(xs.0, xs.1, ys.0, ys.1)) else None
  }

  lemma ExpectLiteral(lit: string, rest: string)
    ensures Expect(lit, lit + rest) == Some(rest)
  {
    assert (lit + rest)[..|lit|] == lit;
  }

  /** A printed number followed by a literal that starts with a non-digit is
      read back, together with the literal. */
  lemma ReadNatThenOfRendering(n: nat, lit: string, rest: string)
    requires |lit| > 0 && !IsDigit(lit[0])
    ensures ReadNatThen(lit, NatToString(n) + lit + rest) == Some((n, rest))
  {
    assert NatToString(n) + lit + rest == NatToString(n) + (lit + rest);
    ReadNatOfRendering(n, lit + rest);
    ExpectLiteral(lit, rest);
  }

  /** The colour string determines the red, green and blue channels. */
  lemma ColorRoundTrip(c: Rgba)
    ensures ParseColor(ColorOf(c)) == Some((c.r as nat, c.g as nat, c.b as nat))
  {
    var r, g, b := NatToString(c.r as nat), NatToString(c.g as nat), NatToString(c.b as nat);
    var t2 := b + ")" + [];
    var t1 := g + ", " + t2;
    var t0 := r + ", " + t1;
    assert ColorOf(c) == "rgb(" + t0;
    ExpectLiteral("rgb(", t0);
    ReadNatThenOfRendering(c.r as nat, ", ", t1);
    ReadNatThenOfRendering(c.g as nat, ", ", t2);
    ReadNatThenOfRendering(c.b as nat, ")", []);
  }

  /** Two pixels get the same colour string exactly when their red, green and
      blue channels agree; alpha plays no part. */
  lemma ColorOfInjective(c: Rgba, d: Rgba)
    ensures ColorOf(c) == ColorOf(d) <==> (c.r, c.g, c.b) == (d.r, d.g, d.b)
  {
    if ColorOf(c) == ColorOf(d) {
      ColorRoundTrip(c);
      ColorRoundTrip(d);
    }
  }

  lemma Regroup(a: string, b: string, c: string, d: string, e: string)
    ensures a + b + c + d + e == a + b + (c + d + e)
  {
  }

  /** One axis of the template reads back both of its bounds. */
  lemma ReadBoundsOfRendering(lo: nat, mid: string, hi: nat, close: string, rest: string)
    requires |mid| > 0 && !IsDigit(mid[0])
    requires |close| > 0 && !IsDigit(close[0])
    ensures ReadBounds(mid, close, NatToString(lo) + mid + NatToString(hi) + close + rest)
            == Some((lo, hi, rest))
  {
    var t1 := NatToString(hi) + close + rest;
    var t0 := NatToString(lo) + mid + t1;
    Regroup(NatToString(lo), mid, NatToString(hi), close, rest);
    ReadNatThenOfRendering(lo, mid, t1);
    assert ReadNatThen(mid, t0) == Some((lo, t1));
    ReadNatThenOfRendering(hi, close, rest);
    assert ReadNatThen(close, t1) == Some((hi, rest));
  }

  /** The LaTeX template gives back the four bounds it was filled with. */
  lemma CellLatexRoundTrip(a: nat, b: nat, c: nat, d: nat)
    ensures ParseLatex(CellLatex(a, b, c, d)) == Some(Cell(a, b, c, d))
  {
    var ys := NatToString(c) + @"\le y\le" + NatToString(d) + @"\right\}";
    assert CellLatex(a, b, c, d)
           == NatToString(a) + @"\le x\le" + NatToString(b) + @"\left\{" + ys;
    ReadBoundsOfRendering(a, @"\le x\le", b, @"\left\{", ys);
    assert ys == ys + [];
    ReadBoundsOfRendering(c, @"\le y\le", d, @"\right\}", []);
  }

  /** The LaTeX string describes the unit cell from `(x, y)` to
      `(x + 1, y + 1)`, with the pixel's own coordinates. */
  lemma LatexRoundTrip(x: u32, y: u32)
    requires x < U32_MAX && y < U32_MAX
    ensures ParseLatex(LatexOf(x, y))
            == Some(Cell(x as nat, x as nat + 1, y as nat, y as nat + 1))
  {
    var a, b, c, d := x as nat, (x + 1) as nat, y as nat, (y + 1) as nat;
    assert LatexOf(x, y) == CellLatex(a, b, c, d);
    CellLatexRoundTrip(a, b, c, d);
  }

  /** Distinct positions get distinct LaTeX strings. */
  lemma LatexOfInjective(x: u32, y: u32, x': u32, y': u32)
    requires x < U32_MAX && y < U32_MAX && x' < U32_MAX && y' < U32_MAX
    ensures LatexOf(x, y) == LatexOf(x', y') <==> x == x' && y == y'
  {
    if LatexOf(x, y) == LatexOf(x', y') {
      LatexRoundTrip(x, y);
      LatexRoundTrip(x', y');
    }
  }

  /** The texts of the first cells of a black image; each LaTeX string is
      written as the template's literal pieces with the digits in between. */
  lemma SmallCellTexts()
    ensures ColorOf(Rgba(0, 0, 0, 255)) == "rgb(0, 0, 0)"
    ensures LatexOf(0, 0)
            == "0" + @"\le x\le" + "1" + @"\left\{" + "0" + @"\le y\le" + "1" + @"\right\}"
    ensures LatexOf(1, 0)
            == "1" + @"\le x\le" + "2" + @"\left\{" + "0" + @"\le y\le" + "1" + @"\right\}"
  {
    assert NatToString(0) == "0";
    assert NatToString(1) == "1";
    assert NatToString(2) == "2";
  }
}

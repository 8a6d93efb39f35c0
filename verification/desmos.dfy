/** The pixel-to-expression converter of src/desmos.rs: every pixel of the
    decoded image becomes one Desmos expression that shades a unit cell in
    the pixel's colour. */
module Desmos {
  import opened Options
  import opened Raster
  import opened DesmosText

  /** One Desmos expression. `kind` is the JSON field `type`; the style
      fields are serialised as `fillOpacity`, `lineOpacity` and `lineWidth`. */
  datatype Expression = Expression(
    kind: string,
    id: nat,
    color: string,
    latex: string,
    fillOpacity: string,
    lineOpacity: string,
    lineWidth: string)
  {
    /** The fixed part of every expression: its type and the empty style
        fields that leave the calculator's default style in place. */
    predicate HasDefaultStyle() {
      kind == "expression" && fillOpacity == "" && lineOpacity == "" && lineWidth == ""
    }
  }

  /** The expression pushed for pixel `p` when `id` expressions precede it. */
  function ExprOf(id: nat, p: Pixel): (e: Expression)
    requires p.CellFits()
    ensures e.id == id
    ensures e.HasDefaultStyle()
  {
    Expression("expression", id, ColorOf(p.color), LatexOf(p.x, p.y), "", "", "")
  }

  /** The text fields of an expression carry exactly its pixel's red, green
      and blue channels and the unit cell at its pixel's coordinates. */
  lemma ExprOfText(id: nat, p: Pixel)
    requires p.CellFits()
    ensures ParseColor(ExprOf(id, p).color)
            == Some((p.color.r as nat, p.color.g as nat, p.color.b as nat))
    ensures ParseLatex(ExprOf(id, p).latex)
            == Some(Cell(p.x as nat, p.x as nat + 1, p.y as nat, p.y as nat + 1))
  {
    ColorRoundTrip(p.color);
    LatexRoundTrip(p.x, p.y);
  }

  predicate AllCellsFit(ps: seq<Pixel>) {
    forall i :: 0 <= i < |ps| ==> ps[i].CellFits()
  }

  /** The converter as a fold: each pixel in turn appends one expression whose
      id is the length of the list built so far. */
  function Convert(ps: seq<Pixel>): (es: seq<Expression>)
    requires AllCellsFit(ps)
    ensures |es| == |ps|
    ensures forall i :: 0 <= i < |ps| ==> es[i] == ExprOf(i, ps[i])
    decreases |ps|
  {
    if |ps| == 0 then []
    else
      var done := Convert(ps[..|ps| - 1]);
      done + [ExprOf(|done|, ps[|ps| - 1])]
  }

  /** `parse_image`: one pass over the image's pixels, pushing one expression
      per pixel. */
  method ParseImage(img: Image) returns (expressions: seq<Expression>)
    requires img.Valid()
    ensures |expressions| == |img.pixels|
    ensures forall i :: 0 <= i < |expressions| ==> expressions[i].id == i
    ensures forall i :: 0 <= i < |expressions| ==> expressions[i].HasDefaultStyle()
    ensures expressions == Convert(img.pixels)
  {
    ValidPixelsFit(img);
    expressions := [];
    var k := 0;
    while k < |img.pixels|
      invariant k <= |img.pixels|
      invariant |expressions| == k
      invariant forall j :: 0 <= j < k ==> expressions[j] == ExprOf(j, img.pixels[j])
    {
      var p := img.pixels[k];
      var expression := Expression(
        "expression",
        |expressions|,
        ColorOf(p.color),
        LatexOf(p.x, p.y),
        "",
        "",
        "");
      assert expression == ExprOf(k, p);
      expressions := expressions + [expression];
      k := k + 1;
    }
  }

  /** Pushing one more pixel appends exactly one expression and leaves the
      earlier ones alone. */
  lemma ConvertAppend(ps: seq<Pixel>, p: Pixel)
    requires AllCellsFit(ps) && p.CellFits()
    ensures AllCellsFit(ps + [p])
    ensures Convert(ps + [p]) == Convert(ps) + [ExprOf(|ps|, p)]
  {
    assert (ps + [p])[..|ps|] == ps;
  }

  /** The first `k` expressions are built from the first `k` pixels alone. */
  lemma ConvertPrefix(ps: seq<Pixel>, k: nat)
    requires AllCellsFit(ps) && k <= |ps|
    ensures AllCellsFit(ps[..k])
    ensures Convert(ps[..k]) == Convert(ps)[..k]
  {
    var es, fs := Convert(ps[..k]), Convert(ps);
    forall i | 0 <= i < k
      ensures es[i] == fs[i]
    {
      assert ps[..k][i] == ps[i];
    }
  }

  /** The set `{0, ..., n - 1}`. */
  function Range(n: nat): (r: set<nat>)
    ensures forall k: int :: k in r <==> 0 <= k < n
  {
    if n == 0 then {} else Range(n - 1) + {n - 1}
  }

  /** The ids are the positions 0 .. n - 1 of the pixel sequence: each occurs
      once, in iteration order. */
  lemma IdsAreIndices(ps: seq<Pixel>)
    requires AllCellsFit(ps)
    ensures (set e | e in Convert(ps) :: e.id) == Range(|ps|)
    ensures forall i, j :: 0 <= i < j < |ps| ==> Convert(ps)[i].id < Convert(ps)[j].id
  {
    IdSetOfNumbered(Convert(ps));
  }

  lemma IdSetOfNumbered(es: seq<Expression>)
    requires forall i :: 0 <= i < |es| ==> es[i].id == i
    ensures (set e | e in es :: e.id) == Range(|es|)
  {
    var ids := set e | e in es :: e.id;
    forall n | n in Range(|es|)
      ensures n in ids
    {
      assert es[n] in es;
    }
    forall n | n in ids
      ensures n in Range(|es|)
    {
      var e :| e in es && e.id == n;
      var i :| 0 <= i < |es| && es[i] == e;
    }
  }

  /** Two expressions are equal exactly when they come from the same position
      and from pixels that agree on coordinates and on red, green and blue. */
  lemma ExprOfInjective(i: nat, p: Pixel, j: nat, q: Pixel)
    requires p.CellFits() && q.CellFits()
    ensures ExprOf(i, p) == ExprOf(j, q)
            <==> i == j && p.x == q.x && p.y == q.y
                 && (p.color.r, p.color.g, p.color.b) == (q.color.r, q.color.g, q.color.b)
  {
    ColorOfInjective(p.color, q.color);
    LatexOfInjective(p.x, p.y, q.x, q.y);
  }

  /** Changing one pixel's colour changes that expression's `color` and
      nothing else, and the `color` changes exactly when red, green or blue
      does. */
  lemma {:induction false} RecolorIsLocal(ps: seq<Pixel>, k: nat, c: Rgba)
    requires AllCellsFit(ps) && k < |ps|
    ensures AllCellsFit(ps[k := ps[k].(color := c)])
    ensures Convert(ps[k := ps[k].(color := c)])
            == Convert(ps)[k := Convert(ps)[k].(color := ColorOf(c))]
    ensures Convert(ps[k := ps[k].(color := c)])[k].color == Convert(ps)[k].color
            <==> (c.r, c.g, c.b) == (ps[k].color.r, ps[k].color.g, ps[k].color.b)
  {
    var qs := ps[k := ps[k].(color := c)];
    assert AllCellsFit(qs) by {
      forall i | 0 <= i < |qs| ensures qs[i].CellFits() {
        assert qs[i].x == ps[i].x && qs[i].y == ps[i].y;
      }
    }
    var es, fs := Convert(ps), Convert(qs);
    var expected := es[k := es[k].(color := ColorOf(c))];
    forall i | 0 <= i < |fs|
      ensures fs[i] == expected[i]
    {
      if i != k {
        assert qs[i] == ps[i];
      }
    }
    assert fs == expected;
    ColorOfInjective(c, ps[k].color);
  }

  /** The alpha channel never reaches the output. */
  lemma AlphaIgnored(ps: seq<Pixel>, k: nat, a: u8)
    requires AllCellsFit(ps) && k < |ps|
    ensures AllCellsFit(ps[k := ps[k].(color := ps[k].color.(a := a))])
    ensures Convert(ps[k := ps[k].(color := ps[k].color.(a := a))]) == Convert(ps)
  {
    RecolorIsLocal(ps, k, ps[k].color.(a := a));
  }

  /** The plot is upside down: a pixel further down the image (larger row `y`)
      is shaded higher up the calculator's y axis, so the image's top row
      ends up at the bottom. */
  lemma RowsPlotUpward(i: nat, p: Pixel, j: nat, q: Pixel)
    requires p.CellFits() && q.CellFits()
    requires p.y < q.y
    ensures ParseLatex(ExprOf(i, p).latex).Some?
    ensures ParseLatex(ExprOf(j, q).latex).Some?
    ensures ParseLatex(ExprOf(i, p).latex).value.yHi <= ParseLatex(ExprOf(j, q).latex).value.yLo
    ensures ParseLatex(ExprOf(i, p).latex).value.LiesBelow(ParseLatex(ExprOf(j, q).latex).value)
  {
    ExprOfText(i, p);
    ExprOfText(j, q);
  }

  /** For an image whose iterator visits every position once, the output has
      width * height expressions and no two of them shade the same cell. */
  lemma CompleteImageCells(img: Image)
    requires img.Complete()
    ensures AllCellsFit(img.pixels)
    ensures |Convert(img.pixels)| == img.width as int * img.height as int
    ensures forall i, j :: 0 <= i < j < |img.pixels| ==>
              ParseLatex(Convert(img.pixels)[i].latex) != ParseLatex(Convert(img.pixels)[j].latex)
  {
    ValidPixelsFit(img);
    var ps := img.pixels;
    forall i, j | 0 <= i < j < |ps|
      ensures ParseLatex(Convert(ps)[i].latex) != ParseLatex(Convert(ps)[j].latex)
    {
      ExprOfText(i, ps[i]);
      ExprOfText(j, ps[j]);
    }
  }

  /** A 2 x 1 black image, visited left to right, gives two black
      expressions numbered 0 and 1 for the cells at x = 0 and x = 1. */
  lemma TwoBlackPixels()
    ensures var black := Rgba(0, 0, 0, 255);
            var cell0 := "0" + @"\le x\le" + "1" + @"\left\{" + "0" + @"\le y\le" + "1" + @"\right\}";
            var cell1 := "1" + @"\le x\le" + "2" + @"\left\{" + "0" + @"\le y\le" + "1" + @"\right\}";
            Convert([Pixel(0, 0, black), Pixel(1, 0, black)])
            == [ Expression("expression", 0, "rgb(0, 0, 0)", cell0, "", "", ""),
                 Expression("expression", 1, "rgb(0, 0, 0)", cell1, "", "", "") ]
  {
    var black := Rgba(0, 0, 0, 255);
    var ps := [Pixel(0, 0, black), Pixel(1, 0, black)];
    SmallCellTexts();
    var es := Convert(ps);
    assert es[0] == ExprOf(0, ps[0]);
    assert es[1] == ExprOf(1, ps[1]);
  }
}

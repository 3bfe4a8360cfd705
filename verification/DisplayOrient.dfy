/**
 Turning a frame to the display's orientation, on the flat pixel arrays the
 code works with.
 */
module DisplayOrient {
  import Division

  type Pixel = nat

  datatype Orientation = Portrait | UpsideDown | LandscapeLeft | LandscapeRight {
    predicate Landscape() {
      LandscapeLeft? || LandscapeRight?
    }

    /** Applying one and then another is applying their product: the Klein four-group. */
    function Then(next: Orientation): Orientation {
      if this == Portrait then next
      else if next == Portrait then this
      else if this == next then Portrait
      else if this != UpsideDown && next != UpsideDown then UpsideDown
      else if this == LandscapeLeft || next == LandscapeLeft then LandscapeRight
      else LandscapeLeft
    }
  }

  datatype Geometry = Geometry(width: nat, height: nat) {
    predicate Valid() {
      width != 0 && height != 0
    }

    function PixelCount(): nat {
      width * height
    }

    function Turned(orientation: Orientation): Geometry {
      if orientation.Landscape() then Geometry(height, width) else this
    }

    predicate Inside(x: int, y: int) {
      0 <= x < width && 0 <= y < height
    }

    /** Where a pixel lies in the flat array. */
    function At(x: int, y: int): (i: nat)
      requires Inside(x, y)
      ensures i < PixelCount()
    {
      assert (y + 1) * width == y * width + width;
      Division.Monotone(y + 1, height, width);
      y * width + x
    }
  }

  /** Which source pixel an output pixel shows. */
  function SourceOf(g: Geometry, orientation: Orientation, x: nat, y: nat): (int, int) {
    match orientation
    case Portrait => (x, y)
    case UpsideDown => (g.width - 1 - x, g.height - 1 - y)
    case LandscapeLeft => (y, x)
    case LandscapeRight => (g.width - 1 - y, g.height - 1 - x)
  }

  /** The frame fits its geometry. */
  predicate Accepted(g: Geometry, pixels: seq<Pixel>) {
    g.Valid() && |pixels| == g.PixelCount()
  }

  // ---------- Positions in the flat array ----------

  lemma SameCount(g: Geometry, orientation: Orientation)
    ensures g.Turned(orientation).PixelCount() == g.PixelCount()
  {}

  lemma SourceInside(g: Geometry, orientation: Orientation, x: nat, y: nat)
    requires g.Turned(orientation).Inside(x, y)
    ensures var s := SourceOf(g, orientation, x, y); g.Inside(s.0, s.1)
  {}

  /** Column and row of an index. */
  function Column(g: Geometry, i: nat): nat
    requires g.Valid()
  {
    i % g.width
  }

  function Row(g: Geometry, i: nat): nat
    requires g.Valid()
  {
    i / g.width
  }

  lemma IndexSplits(g: Geometry, i: nat)
    requires g.Valid() && i < g.PixelCount()
    ensures g.Inside(Column(g, i), Row(g, i)) && g.At(Column(g, i), Row(g, i)) == i
  {
    Division.Split(i, g.width);
    Division.Below(i, g.height, g.width);
  }

  lemma AtSplits(g: Geometry, x: nat, y: nat)
    requires g.Valid() && g.Inside(x, y)
    ensures Column(g, g.At(x, y)) == x && Row(g, g.At(x, y)) == y
  {
    Division.Unique(g.At(x, y), g.width, y, x);
  }

  /** The flat index whose pixel an output index shows. */
  function SourceIndex(g: Geometry, orientation: Orientation, i: nat): (k: nat)
    requires g.Valid() && i < g.PixelCount()
    ensures k < g.PixelCount()
  {
    var out := g.Turned(orientation);
    SameCount(g, orientation);
    IndexSplits(out, i);
    SourceInside(g, orientation, Column(out, i), Row(out, i));
    var s := SourceOf(g, orientation, Column(out, i), Row(out, i));
    g.At(s.0, s.1)
  }

  function Oriented(g: Geometry, pixels: seq<Pixel>, orientation: Orientation): seq<Pixel> {
    if !Accepted(g, pixels) then []
    else seq(|pixels|, i requires 0 <= i < |pixels| && Accepted(g, pixels) => pixels[SourceIndex(g, orientation, i)])
  }

  /** What each place of the output shows, in rows and columns of the arrays. */
  lemma ShownExactly(g: Geometry, pixels: seq<Pixel>, orientation: Orientation, x: nat, y: nat)
    requires Accepted(g, pixels) && x < g.Turned(orientation).width && y < g.Turned(orientation).height
    ensures var w, h, output := g.width, g.height, Oriented(g, pixels, orientation);
            |output| == |pixels| == w * h
            && match orientation
               case Portrait =>
                 IndexIn(x, y, w, h) && output[y * w + x] == pixels[y * w + x]
               case UpsideDown =>
                 IndexIn(x, y, w, h) && IndexIn(w - 1 - x, h - 1 - y, w, h)
                 && output[y * w + x] == pixels[(h - 1 - y) * w + (w - 1 - x)]
               case LandscapeLeft =>
                 IndexIn(x, y, h, w) && IndexIn(y, x, w, h) && output[y * h + x] == pixels[x * w + y]
               case LandscapeRight =>
                 IndexIn(x, y, h, w) && IndexIn(w - 1 - y, h - 1 - x, w, h)
                 && output[y * h + x] == pixels[(h - 1 - x) * w + (w - 1 - y)]
  {
    SameCount(g, orientation);
    SourceInside(g, orientation, x, y);
    var out := g.Turned(orientation);
    AtSplits(out, x, y);
    var s := SourceOf(g, orientation, x, y);
    assert out.At(x, y) < g.PixelCount() && g.At(s.0, s.1) < g.PixelCount();
  }

  predicate IndexIn(x: int, y: int, width: nat, height: nat) {
    0 <= y * width + x < width * height
  }

  // ---------- Composing orientations ----------

  lemma SourcesCompose(g: Geometry, first: Orientation, second: Orientation, x: nat, y: nat)
    requires g.Turned(first).Turned(second).Inside(x, y)
    ensures g.Turned(first).Turned(second) == g.Turned(first.Then(second))
    ensures var s := SourceOf(g.Turned(first), second, x, y);
            SourceOf(g, first, s.0, s.1) == SourceOf(g, first.Then(second), x, y)
  {}

  lemma IndicesCompose(g: Geometry, first: Orientation, second: Orientation, i: nat)
    requires g.Valid() && i < g.PixelCount()
    ensures g.Turned(first).Valid() && i < g.Turned(first).PixelCount()
    ensures SourceIndex(g, first, SourceIndex(g.Turned(first), second, i)) == SourceIndex(g, first.Then(second), i)
  {
    var middle := g.Turned(first);
    var out := middle.Turned(second);
    SameCount(g, first);
    SameCount(middle, second);
    IndexSplits(out, i);
    var x, y := Column(out, i), Row(out, i);
    SourceInside(middle, second, x, y);
    SourcesCompose(g, first, second, x, y);
    var s := SourceOf(middle, second, x, y);
    hide Column, Row, Geometry.At, Geometry.PixelCount, SourceOf;
    AtSplits(middle, s.0, s.1);
  }

  /**
   Orienting one way and then another, in the extents the first leaves, is
   orienting by their product in the Klein four-group.
   */
  lemma OrientationsCompose(g: Geometry, pixels: seq<Pixel>, first: Orientation, second: Orientation)
    requires Accepted(g, pixels)
    ensures Accepted(g.Turned(first), Oriented(g, pixels, first))
    ensures Oriented(g.Turned(first), Oriented(g, pixels, first), second) == Oriented(g, pixels, first.Then(second))
  {
    hide SourceIndex, Geometry.PixelCount;
    SameCount(g, first);
    forall i: nat | i < |pixels|
      ensures i < g.Turned(first).PixelCount()
      ensures Oriented(g.Turned(first), Oriented(g, pixels, first), second)[i]
              == Oriented(g, pixels, first.Then(second))[i]
    {
      IndicesCompose(g, first, second, i);
    }
  }

  lemma PortraitIsIdentity(g: Geometry, pixels: seq<Pixel>)
    requires Accepted(g, pixels)
    ensures Oriented(g, pixels, Portrait) == pixels
  {
    forall i: nat | i < |pixels|
      ensures SourceIndex(g, Portrait, i) == i
    {
      IndexSplits(g, i);
    }
  }

  /** The product of the four orientations is a commutative group in which each is its own inverse. */
  lemma KleinFourGroup(a: Orientation, b: Orientation, c: Orientation)
    ensures a.Then(b).Then(c) == a.Then(b.Then(c)) && a.Then(b) == b.Then(a)
    ensures a.Then(a) == Portrait && a.Then(Portrait) == a
    ensures LandscapeLeft.Then(LandscapeRight) == UpsideDown
  {
    match a {
      case Portrait =>
      case UpsideDown =>
      case LandscapeLeft =>
      case LandscapeRight =>
    }
  }

  /** Each orientation undoes itself, with the extents swapped for the landscape ones. */
  lemma TwiceIsIdentity(g: Geometry, pixels: seq<Pixel>, orientation: Orientation)
    requires Accepted(g, pixels)
    ensures Oriented(g.Turned(orientation), Oriented(g, pixels, orientation), orientation) == pixels
  {
    hide Oriented;
    OrientationsCompose(g, pixels, orientation, orientation);
    PortraitIsIdentity(g, pixels);
  }

  /** A permutation: every source pixel is shown, and at exactly one place. */
  lemma EveryPixelOnce(g: Geometry, orientation: Orientation, k: nat) returns (i: nat)
    requires g.Valid() && k < g.PixelCount()
    ensures i < g.PixelCount() && SourceIndex(g, orientation, i) == k
    ensures forall j: nat | j < g.PixelCount() && SourceIndex(g, orientation, j) == k :: j == i
  {
    hide SourceIndex, Geometry.PixelCount;
    SameCount(g, orientation);
    var turned := g.Turned(orientation);
    i := SourceIndex(turned, orientation, k);
    IndicesCompose(g, orientation, orientation, k);
    PortraitIndex(g, k);
    forall j: nat | j < g.PixelCount() && SourceIndex(g, orientation, j) == k
      ensures j == i
    {
      IndicesCompose(turned, orientation, orientation, j);
      PortraitIndex(turned, j);
    }
  }

  lemma PortraitIndex(g: Geometry, i: nat)
    requires g.Valid() && i < g.PixelCount()
    ensures SourceIndex(g, Portrait, i) == i
  {
    IndexSplits(g, i);
  }

  // ---------- The loops ----------

  method OrientDisplayPixels(g: Geometry, pixels: seq<Pixel>, orientation: Orientation) returns (output: array<Pixel>)
    ensures fresh(output) && output[..] == Oriented(g, pixels, orientation)
  {
    if !g.Valid() || |pixels| != g.PixelCount() {
      output := new Pixel[0];
      return;
    }
    var out := if orientation.Landscape() then Geometry(g.height, g.width) else g;
    SameCount(g, orientation);
    output := new Pixel[out.PixelCount()];
    for y := 0 to out.height
      invariant RowsShown(g, pixels, orientation, output[..], y, 0)
    {
      for x := 0 to out.width
        invariant RowsShown(g, pixels, orientation, output[..], y, x)
      {
        SourceInside(g, orientation, x, y);
        var source := SourceOf(g, orientation, x, y);
        ghost var before := output[..];
        output[out.At(x, y)] := pixels[g.At(source.0, source.1)];
        OneMoreShown(g, pixels, orientation, before, output[..], x, y);
      }
      NextRow(g, pixels, orientation, output[..], y);
    }
    AllShown(g, pixels, orientation, output[..]);
  }

  /** The rows above one, and the columns left of one in it, show their source pixels. */
  ghost predicate RowsShown(
      g: Geometry, pixels: seq<Pixel>, orientation: Orientation, output: seq<Pixel>, rows: nat, columns: nat)
  {
    && Accepted(g, pixels) && |output| == |pixels|
    && forall i: nat | i < |pixels| && Reached(g.Turned(orientation), rows, columns, i) ::
         output[i] == pixels[SourceIndex(g, orientation, i)]
  }

  predicate Reached(out: Geometry, rows: nat, columns: nat, i: nat)
    requires out.Valid()
  {
    Row(out, i) < rows || (Row(out, i) == rows && Column(out, i) < columns)
  }

  lemma OneMoreShown(
      g: Geometry, pixels: seq<Pixel>, orientation: Orientation, before: seq<Pixel>, after: seq<Pixel>, x: nat, y: nat)
    requires RowsShown(g, pixels, orientation, before, y, x) && g.Turned(orientation).Inside(x, y)
    requires g.Turned(orientation).PixelCount() == |before|
    requires var s := SourceOf(g, orientation, x, y);
             g.Inside(s.0, s.1)
             && after == before[g.Turned(orientation).At(x, y) := pixels[g.At(s.0, s.1)]]
    ensures RowsShown(g, pixels, orientation, after, y, x + 1)
  {
    var out := g.Turned(orientation);
    AtSplits(out, x, y);
    forall i: nat | i < |pixels| && Reached(out, y, x + 1, i)
      ensures after[i] == pixels[SourceIndex(g, orientation, i)]
    {
      IndexSplits(out, i);
    }
  }

  lemma NextRow(g: Geometry, pixels: seq<Pixel>, orientation: Orientation, output: seq<Pixel>, y: nat)
    requires RowsShown(g, pixels, orientation, output, y, g.Turned(orientation).width)
    ensures RowsShown(g, pixels, orientation, output, y + 1, 0)
  {
    hide SourceIndex;
  }

  lemma AllShown(g: Geometry, pixels: seq<Pixel>, orientation: Orientation, output: seq<Pixel>)
    requires RowsShown(g, pixels, orientation, output, g.Turned(orientation).height, 0)
    ensures output == Oriented(g, pixels, orientation)
  {
    SameCount(g, orientation);
    hide SourceIndex, Geometry.PixelCount;
    forall i: nat | i < |pixels|
      ensures output[i] == pixels[SourceIndex(g, orientation, i)]
    {
      IndexSplits(g.Turned(orientation), i);
    }
  }
}

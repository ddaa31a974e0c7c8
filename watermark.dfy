/** The layout logic of `add_watermark` in card.py: the working size after the
    optional quarter turn, the font size, the fixed-order font search, the text box
    and tile strides, the grid of tile origins pasted into the watermark layer, and
    the default output path. Pixels are not modelled: an image is its size and
    colour mode, the layer is the list of patches pasted into it, and every call
    into the imaging library or the file system is a field of `Env`. */
module Watermark {
  import opened PyText

  // ----- images as sizes -----

  datatype Size = Size(width: nat, height: nat)

  /** The name of a colour mode other than the two the script converts to. */
  type OtherName = n: string | n != "RGBA" && n != "RGB" witness "L"

  datatype Mode = RGBA | RGB | OtherMode(name: OtherName)

  datatype Image = Image(size: Size, mode: Mode)

  /** `img.rotate(90, expand=True)`: a quarter turn counter-clockwise onto a canvas
      enlarged to hold the whole picture, so width and height trade places. */
  function Rotated90(img: Image): (r: Image)
    ensures r.size.width == img.size.height && r.size.height == img.size.width
    ensures r.mode == img.mode
  {
    Image(Size(img.size.height, img.size.width), img.mode)
  }

  /** `img.convert(mode)`: same size, new colour mode. */
  function Converted(img: Image, mode: Mode): (r: Image)
    ensures r.size == img.size && r.mode == mode
  {
    Image(img.size, mode)
  }

  /** `Image.alpha_composite(base, top)`: the library demands two RGBA images of one size
      and returns an RGBA image of that size. */
  function AlphaComposite(base: Image, top: Image): (r: Image)
    requires base.mode == RGBA && top.mode == RGBA && base.size == top.size
    ensures r.size == base.size && r.mode == RGBA
  {
    Image(base.size, RGBA)
  }

  /** The size of the image the watermark is drawn on. */
  function WorkingSize(source: Size, rotateCcw: bool): (r: Size)
    ensures rotateCcw ==> r.width == source.height && r.height == source.width
    ensures !rotateCcw ==> r == source
  {
    if rotateCcw then Size(source.height, source.width) else source
  }

  function Min(a: nat, b: nat): nat {
    if a <= b then a else b
  }

  /** `int(min(img.size) / 25)`: the largest size whose 25-fold fits in both sides. */
  function FontSize(s: Size): (r: nat)
    ensures r * 25 <= s.width && r * 25 <= s.height
    ensures (r + 1) * 25 > s.width || (r + 1) * 25 > s.height
  {
    Min(s.width, s.height) / 25
  }

  /** The quarter turn never changes the font size. */
  lemma FontSizeIgnoresRotation(s: Size)
    ensures FontSize(WorkingSize(s, true)) == FontSize(WorkingSize(s, false))
  {
  }

  // ----- the font search -----

  /** The font files tried, in order: macOS, Linux, then two Windows fonts. */
  const FontPaths: seq<string> := [
    "/System/Library/Fonts/PingFang.ttc",
    "/usr/share/fonts/truetype/droid/DroidSansFallbackFull.ttf",
    "C:\\Windows\\Fonts\\msyh.ttc",
    "C:\\Windows\\Fonts\\simhei.ttf"
  ]

  datatype Font = TrueType(path: string, size: nat) | DefaultFont

  /** The two warnings the search can print: no font file exists, or loading failed. */
  datatype FontWarning = NoFontFound | FontLoadFailed

  datatype FontChoice = FontChoice(font: Font, warning: Option<FontWarning>)

  /** The index of the first path that exists, or `|paths|` when none does. */
  function FirstExisting(paths: seq<string>, present: string -> bool): (i: nat)
    ensures i <= |paths|
    ensures forall j :: 0 <= j < i ==> !present(paths[j])
    ensures i < |paths| ==> present(paths[i])
  {
    if paths == [] then 0
    else if present(paths[0]) then 0
    else 1 + FirstExisting(paths[1..], present)
  }

  /** What the search settles on. `ImageFont.truetype` is tried on the first existing
      path only; if it raises, the handler falls back to the default font. */
  function ChosenFont(present: string -> bool, loads: (string, nat) -> bool, size: nat): (c: FontChoice)
    ensures c.warning.None? <==> c.font.TrueType?
    ensures c.font.TrueType? ==> c.font.size == size && c.font.path in FontPaths
    ensures c.warning == Some(NoFontFound) <==> forall j :: 0 <= j < |FontPaths| ==> !present(FontPaths[j])
  {
    var i := FirstExisting(FontPaths, present);
    if i == |FontPaths| then FontChoice(DefaultFont, Some(NoFontFound))
    else if loads(FontPaths[i], size) then FontChoice(TrueType(FontPaths[i], size), None)
    else FontChoice(DefaultFont, Some(FontLoadFailed))
  }

  /** A TrueType font always comes from the first listed path that exists. */
  lemma ChosenFontIsFirstMatch(present: string -> bool, loads: (string, nat) -> bool, size: nat)
    ensures var c := ChosenFont(present, loads, size);
      c.font.TrueType? ==>
        c.warning == None && c.font.size == size &&
        exists i :: 0 <= i < |FontPaths| && c.font.path == FontPaths[i] && present(FontPaths[i]) &&
          loads(FontPaths[i], size) && forall j :: 0 <= j < i ==> !present(FontPaths[j])
  {
    var i := FirstExisting(FontPaths, present);
    if i < |FontPaths| && loads(FontPaths[i], size) {
      assert ChosenFont(present, loads, size).font.path == FontPaths[i];
    }
  }

  /** The first listed path that exists is the one used: it gives a TrueType font at the
      computed size when it loads, and the default font with the load warning when it does
      not, whatever the later paths hold. */
  lemma FirstExistingPathIsUsed(present: string -> bool, loads: (string, nat) -> bool, size: nat, i: nat)
    requires i < |FontPaths| && present(FontPaths[i])
    requires forall j :: 0 <= j < i ==> !present(FontPaths[j])
    ensures loads(FontPaths[i], size) ==>
      ChosenFont(present, loads, size) == FontChoice(TrueType(FontPaths[i], size), None)
    ensures !loads(FontPaths[i], size) ==>
      ChosenFont(present, loads, size) == FontChoice(DefaultFont, Some(FontLoadFailed))
  {
    FirstExistingIsFirst(FontPaths, present, i);
  }

  /** Only one index can be the first whose path exists. */
  lemma {:induction false} FirstExistingIsFirst(paths: seq<string>, present: string -> bool, i: nat)
    requires i < |paths| && present(paths[i])
    requires forall j :: 0 <= j < i ==> !present(paths[j])
    ensures FirstExisting(paths, present) == i
  {
    if i > 0 {
      assert !present(paths[0]);
      FirstExistingIsFirst(paths[1..], present, i - 1);
    }
  }

  /** The search always ends with a usable font: when no listed file exists, the default
      font with a warning. */
  lemma NoFontFileMeansDefault(present: string -> bool, loads: (string, nat) -> bool, size: nat)
    requires forall j :: 0 <= j < |FontPaths| ==> !present(FontPaths[j])
    ensures ChosenFont(present, loads, size) == FontChoice(DefaultFont, Some(NoFontFound))
  {
  }

  /** The loop over `font_paths` with its `break`. `probed` lists the paths whose
      existence was asked, in order: none after the first that exists. */
  method ResolveFont(present: string -> bool, loads: (string, nat) -> bool, size: nat)
    returns (font: Font, warning: Option<FontWarning>, probed: seq<string>)
    ensures FontChoice(font, warning) == ChosenFont(present, loads, size)
    ensures var i := FirstExisting(FontPaths, present);
      probed == if i < |FontPaths| then FontPaths[..i + 1] else FontPaths
  {
    var found := false;
    var failed := false;
    font := DefaultFont;
    probed := [];
    var k := 0;
    while k < |FontPaths|
      invariant 0 <= k <= |FontPaths|
      invariant probed == FontPaths[..k]
      invariant forall j :: 0 <= j < k ==> !present(FontPaths[j])
      invariant font == DefaultFont
    {
      var path := FontPaths[k];
      probed := probed + [path];
      if present(path) {
        if loads(path, size) {
          font := TrueType(path, size);
        } else {
          failed := true;
        }
        found := true;
        assert k == FirstExisting(FontPaths, present);
        break;
      }
      k := k + 1;
    }
    if failed {
      font := DefaultFont;
      warning := Some(FontLoadFailed);
    } else if !found {
      assert FirstExisting(FontPaths, present) == |FontPaths|;
      font := DefaultFont;
      warning := Some(NoFontFound);
    } else {
      warning := None;
    }
  }

  // ----- text box and strides -----

  datatype Box = Box(left: int, top: int, right: int, bottom: int)

  /** `draw.textbbox((0, 0), text, font)`: the library never returns a box whose right
      edge lies left of its left edge, or whose bottom lies above its top. */
  type TextBox = b: Box | b.left <= b.right && b.top <= b.bottom witness Box(0, 0, 0, 0)

  datatype Layout = Layout(textWidth: nat, textHeight: nat, spacingX: nat, spacingY: nat)

  /** Text size from the box corners, and the strides between tiles: 80 pixels more than
      the text width across, 120 more than its height down, so never a zero step. */
  function LayoutOf(b: TextBox): (l: Layout)
    ensures l.textWidth == b.right - b.left && l.textHeight == b.bottom - b.top
    ensures l.spacingX == l.textWidth + 80 && l.spacingY == l.textHeight + 120
    ensures l.spacingX >= 80 && l.spacingY >= 120
  {
    var w := b.right - b.left;
    var h := b.bottom - b.top;
    Layout(w, h, w + 80, h + 120)
  }

  // ----- the tile grid -----

  /** `range(start, stop, step)` for a positive step: it starts at `start`, each value
      is one step past the one before, all lie below `stop`, and one more step would
      reach or pass `stop`. */
  function Range(start: int, stop: int, step: nat): (r: seq<int>)
    requires step > 0
    ensures |r| > 0 ==> r[0] == start
    ensures forall k :: 0 <= k < |r| ==> start <= r[k] < stop
    ensures |r| == 0 <==> start >= stop
    ensures |r| > 0 ==> r[|r| - 1] + step >= stop
    decreases stop - start
  {
    if start < stop then [start] + Range(start + step, stop, step) else []
  }

  /** Neighbouring values of a range are exactly one step apart. */
  lemma {:induction false} RangeStride(start: int, stop: int, step: nat, k: nat)
    requires step > 0 && k + 1 < |Range(start, stop, step)|
    ensures Range(start, stop, step)[k + 1] == Range(start, stop, step)[k] + step
    decreases stop - start
  {
    if k > 0 {
      RangeStride(start + step, stop, step, k - 1);
    }
  }

  /** Every point from `start` up to `stop` lies within one step after the `k`-th
      element of the range. */
  lemma {:induction false} RangeCovers(start: int, stop: int, step: nat, p: int) returns (k: nat)
    requires step > 0 && start <= p < stop
    ensures k < |Range(start, stop, step)|
    ensures Range(start, stop, step)[k] <= p < Range(start, stop, step)[k] + step
    decreases stop - start
  {
    var r := Range(start, stop, step);
    if p < start + step {
      k := 0;
    } else {
      var k' := RangeCovers(start + step, stop, step, p);
      k := k' + 1;
      assert r[k] == Range(start + step, stop, step)[k'];
    }
  }

  datatype Origin = Origin(x: int, y: int)

  /** One row of the inner loop: `y` fixed, `x` running through `xs`. */
  function Row(y: int, xs: seq<int>): (r: seq<Origin>)
    ensures |r| == |xs| && forall k :: 0 <= k < |xs| ==> r[k] == Origin(xs[k], y)
  {
    seq(|xs|, k requires 0 <= k < |xs| => Origin(xs[k], y))
  }

  /** The origins visited by `for y in ys: for x in xs:`, in visiting order. */
  function Grid(ys: seq<int>, xs: seq<int>): (g: seq<Origin>)
    ensures |ys| > 0 && |xs| > 0 ==> |g| > 0 && g[0] == Origin(xs[0], ys[0])
  {
    if ys == [] then [] else Grid(ys[..|ys| - 1], xs) + Row(ys[|ys| - 1], xs)
  }

  /** Every pairing of a row value with a column value is visited. */
  lemma {:induction false} GridHas(ys: seq<int>, xs: seq<int>, i: nat, j: nat)
    requires i < |ys| && j < |xs|
    ensures Origin(xs[j], ys[i]) in Grid(ys, xs)
  {
    var front := ys[..|ys| - 1];
    if i < |ys| - 1 {
      GridHas(front, xs, i, j);
    } else {
      assert Row(ys[i], xs)[j] == Origin(xs[j], ys[i]);
    }
  }

  /** Nothing else is visited. */
  lemma {:induction false} GridOnly(ys: seq<int>, xs: seq<int>, o: Origin)
    requires o in Grid(ys, xs)
    ensures o.y in ys && o.x in xs
  {
    var front := ys[..|ys| - 1];
    if o in Grid(front, xs) {
      GridOnly(front, xs, o);
    } else {
      var k :| 0 <= k < |xs| && Row(ys[|ys| - 1], xs)[k] == o;
    }
  }

  /** The values of `y` in the outer loop. */
  function TileRows(size: Size, l: Layout): seq<int>
    requires l.spacingY > 0
  {
    Range(-(l.textHeight as int), size.height + l.textHeight, l.spacingY)
  }

  /** The values of `x` in the inner loop. */
  function TileColumns(size: Size, l: Layout): seq<int>
    requires l.spacingX > 0
  {
    Range(-(l.textWidth as int), size.width + l.textWidth, l.spacingX)
  }

  /** Where the tiles are pasted, row by row. */
  function TileOrigins(size: Size, l: Layout): seq<Origin>
    requires l.spacingX > 0 && l.spacingY > 0
  {
    Grid(TileRows(size, l), TileColumns(size, l))
  }

  /** Every tile origin lies within one text size of the layer. */
  lemma TileOriginsInBounds(size: Size, l: Layout, o: Origin)
    requires l.spacingX > 0 && l.spacingY > 0
    requires o in TileOrigins(size, l)
    ensures -(l.textWidth as int) <= o.x < size.width + l.textWidth
    ensures -(l.textHeight as int) <= o.y < size.height + l.textHeight
  {
    GridOnly(TileRows(size, l), TileColumns(size, l), o);
    var k :| 0 <= k < |TileColumns(size, l)| && TileColumns(size, l)[k] == o.x;
    var m :| 0 <= m < |TileRows(size, l)| && TileRows(size, l)[m] == o.y;
  }

  /** The first tile sits at `(-text_width, -text_height)`: one text width left of and one
      text height above the top-left corner of the layer. */
  lemma FirstTileOrigin(size: Size, l: Layout)
    requires l.spacingX > 0 && l.spacingY > 0
    requires size.width + 2 * l.textWidth > 0 && size.height + 2 * l.textHeight > 0
    ensures |TileOrigins(size, l)| > 0
    ensures TileOrigins(size, l)[0] == Origin(-(l.textWidth as int), -(l.textHeight as int))
  {
    assert TileColumns(size, l)[0] == -(l.textWidth as int);
    assert TileRows(size, l)[0] == -(l.textHeight as int);
  }

  /** The negative start offsets leave no untreated margin: every pixel of the layer
      lies within one stride right of and below some tile origin. */
  lemma TilesCoverLayer(size: Size, l: Layout, px: int, py: int) returns (o: Origin)
    requires l.spacingX > 0 && l.spacingY > 0
    requires 0 <= px < size.width && 0 <= py < size.height
    ensures o in TileOrigins(size, l)
    ensures o.x <= px < o.x + l.spacingX && o.y <= py < o.y + l.spacingY
  {
    var xs, ys := TileColumns(size, l), TileRows(size, l);
    var k := RangeCovers(-(l.textWidth as int), size.width + l.textWidth, l.spacingX, px);
    var m := RangeCovers(-(l.textHeight as int), size.height + l.textHeight, l.spacingY, py);
    o := Origin(xs[k], ys[m]);
    assert o in TileOrigins(size, l) by {
      GridHas(ys, xs, m, k);
    }
  }

  // ----- the watermark layer -----

  datatype Rgba = Rgba(red: nat, green: nat, blue: nat, alpha: nat)

  const Opacity: nat := 128
  const TileAngle: int := -30

  /** One tile: a transparent canvas 20 pixels wider and taller than the text box, the
      text drawn at (10, 10) in half-transparent red, then turned by -30 degrees. */
  datatype Patch = Patch(canvas: Size, textAt: Origin, text: string, font: Font, fill: Rgba, angle: int)

  function TilePatch(l: Layout, text: string, font: Font): (p: Patch)
    ensures p.canvas == Size(l.textWidth + 20, l.textHeight + 20) && p.textAt == Origin(10, 10)
    ensures p.textAt.x + l.textWidth + 10 == p.canvas.width
    ensures p.textAt.y + l.textHeight + 10 == p.canvas.height
    ensures p.fill == Rgba(255, 0, 0, Opacity) && p.angle == TileAngle
    ensures p.text == text && p.font == font
  {
    Patch(Size(l.textWidth + 20, l.textHeight + 20), Origin(10, 10), text, font,
          Rgba(255, 0, 0, Opacity), TileAngle)
  }

  datatype Stamp = Stamp(patch: Patch, at: Origin)

  function Stamped(patch: Patch, os: seq<Origin>): (r: seq<Stamp>)
    ensures |r| == |os|
  {
    seq(|os|, k requires 0 <= k < |os| => Stamp(patch, os[k]))
  }

  /** The transparent layer the tiles are pasted into: its size and the pastes so far. */
  class Layer {
    const size: Size
    var stamps: seq<Stamp>

    constructor (size: Size)
      ensures this.size == size && stamps == []
    {
      this.size := size;
      stamps := [];
    }

    /** `watermark_layer.paste(txt_img, (x, y), txt_img)` */
    method Paste(patch: Patch, at: Origin)
      modifies this
      ensures stamps == old(stamps) + [Stamp(patch, at)]
    {
      stamps := stamps + [Stamp(patch, at)];
    }
  }

  lemma StampedAppend(patch: Patch, a: seq<Origin>, b: seq<Origin>)
    ensures Stamped(patch, a + b) == Stamped(patch, a) + Stamped(patch, b)
  {
    assert forall k :: 0 <= k < |a + b| ==> (a + b)[k] == if k < |a| then a[k] else b[k - |a|];
  }

  lemma RowSnoc(y: int, xs: seq<int>, j: nat)
    requires j < |xs|
    ensures Row(y, xs[..j + 1]) == Row(y, xs[..j]) + [Origin(xs[j], y)]
  {
  }

  lemma GridSnoc(ys: seq<int>, xs: seq<int>, i: nat)
    requires i < |ys|
    ensures Grid(ys[..i + 1], xs) == Grid(ys[..i], xs) + Row(ys[i], xs)
  {
    assert ys[..i + 1][..i] == ys[..i];
  }

  lemma StampedGridSnoc(tile: Patch, ys: seq<int>, xs: seq<int>, i: nat)
    requires i < |ys|
    ensures Stamped(tile, Grid(ys[..i + 1], xs)) == Stamped(tile, Grid(ys[..i], xs)) + Stamped(tile, Row(ys[i], xs))
  {
    GridSnoc(ys, xs, i);
    StampedAppend(tile, Grid(ys[..i], xs), Row(ys[i], xs));
  }

  /** The inner loop for one value of `y`: a tile pasted at each `x`, left to right. */
  method TileRow(layer: Layer, l: Layout, text: string, font: Font, y: int)
    requires l.spacingX > 0
    modifies layer
    ensures layer.stamps == old(layer.stamps) + Stamped(TilePatch(l, text, font), Row(y, TileColumns(layer.size, l)))
  {
    var row := TileColumns(layer.size, l);
    ghost var tile := TilePatch(l, text, font);
    var j := 0;
    while j < |row|
      invariant 0 <= j <= |row|
      invariant layer.stamps == old(layer.stamps) + Stamped(tile, Row(y, row[..j]))
    {
      var patch := TilePatch(l, text, font);
      layer.Paste(patch, Origin(row[j], y));
      assert Stamped(tile, Row(y, row[..j + 1])) == Stamped(tile, Row(y, row[..j])) + [Stamp(tile, Origin(row[j], y))] by {
        RowSnoc(y, row, j);
        StampedAppend(tile, Row(y, row[..j]), [Origin(row[j], y)]);
      }
      j := j + 1;
    }
    assert row[..j] == row;
  }

  /** The two nested loops: one tile pasted at every origin, row by row. */
  method TileLayer(layer: Layer, l: Layout, text: string, font: Font)
    requires l.spacingX > 0 && l.spacingY > 0
    modifies layer
    ensures layer.stamps == old(layer.stamps) + Stamped(TilePatch(l, text, font), TileOrigins(layer.size, l))
  {
    var ys := TileRows(layer.size, l);
    ghost var xs := TileColumns(layer.size, l);
    ghost var tile := TilePatch(l, text, font);
    ghost var start := layer.stamps;
    var i := 0;
    while i < |ys|
      invariant 0 <= i <= |ys|
      invariant layer.stamps == start + Stamped(tile, Grid(ys[..i], xs))
    {
      ghost var done := Stamped(tile, Grid(ys[..i], xs));
      TileRow(layer, l, text, font, ys[i]);
      StampedGridSnoc(tile, ys, xs, i);
      AppendAssociative(start, done, Stamped(tile, Row(ys[i], xs)));
      i := i + 1;
    }
    assert ys[..i] == ys;
  }

  // ----- the output path -----

  /** Which characters `os.path` treats as separators. */
  datatype PathFlavour = Posix | Windows

  function Separators(f: PathFlavour): set<char> {
    if f == Posix then {'/'} else {'/', '\\'}
  }

  /** `s.rfind` over a set of characters: the last index holding one of them, or -1. */
  function RFind(s: string, cs: set<char>): (i: int)
    ensures -1 <= i < |s|
    ensures i >= 0 ==> s[i] in cs
    ensures forall k :: i < k < |s| ==> s[k] !in cs
  {
    if s == [] then -1
    else if s[|s| - 1] in cs then |s| - 1
    else RFind(s[..|s| - 1], cs)
  }

  lemma RFindUnique(s: string, cs: set<char>, i: int)
    requires -1 <= i < |s|
    requires i >= 0 ==> s[i] in cs
    requires forall k :: i < k < |s| ==> s[k] !in cs
    ensures RFind(s, cs) == i
  {
  }

  /** `os.path.splitext(p)`: the extension is the part from the last dot of the file
      name on, unless the name before that dot is nothing but dots. */
  function SplitExt(p: string, f: PathFlavour): (r: (string, string))
    ensures r.0 + r.1 == p
    ensures r.1 == [] || (r.1[0] == '.' &&
      forall k :: 1 <= k < |r.1| ==> r.1[k] != '.' && r.1[k] !in Separators(f))
  {
    var sepIndex := RFind(p, Separators(f));
    var dotIndex := RFind(p, {'.'});
    if dotIndex > sepIndex && exists k :: sepIndex + 1 <= k < dotIndex && p[k] != '.' then
      assert forall k :: 1 <= k < |p[dotIndex..]| ==> p[dotIndex..][k] == p[dotIndex + k];
      (p[..dotIndex], p[dotIndex..])
    else
      (p, [])
  }

  /** The file name (the part after the last separator) holds a dot with some other
      character before it. */
  ghost predicate HasExtension(p: string, f: PathFlavour) {
    exists k, j :: 0 <= k < j < |p| && p[k] != '.' && p[j] == '.' &&
      forall m :: k <= m < |p| ==> p[m] !in Separators(f)
  }

  /** `splitext` finds an extension exactly when the file name has a dot that is not
      one of its leading dots. */
  lemma ExtensionFoundIff(p: string, f: PathFlavour)
    ensures SplitExt(p, f).1 != [] <==> HasExtension(p, f)
  {
    var seps := Separators(f);
    var sepIndex := RFind(p, seps);
    var dotIndex := RFind(p, {'.'});
    if SplitExt(p, f).1 != [] {
      var k :| sepIndex + 1 <= k < dotIndex && p[k] != '.';
      assert forall m :: k <= m < |p| ==> p[m] !in seps;
      assert 0 <= k < dotIndex < |p| && p[dotIndex] == '.';
    }
    if HasExtension(p, f) {
      var k, j :| 0 <= k < j < |p| && p[k] != '.' && p[j] == '.' &&
        forall m :: k <= m < |p| ==> p[m] !in seps;
      assert sepIndex < k;
      assert j <= dotIndex;
      assert sepIndex + 1 <= k < dotIndex && p[k] != '.';
    }
  }

  const Suffix: string := "_watermark"

  /** The default output path `f"{name}_watermark{ext}"`; it never equals the input path. */
  function WatermarkPath(p: string, f: PathFlavour): (r: string)
    ensures |r| == |p| + |Suffix| && r != p
  {
    var (name, ext) := SplitExt(p, f);
    name + Suffix + ext
  }

  lemma SuffixPlain(f: PathFlavour)
    ensures forall k :: 0 <= k < |Suffix| ==> Suffix[k] != '.' && Suffix[k] !in Separators(f)
  {
  }

  /** The last match in `a + b` lies in `b` when `b` has one, and otherwise is the
      last match in `a`. */
  lemma RFindConcat(a: string, b: string, cs: set<char>)
    ensures RFind(a + b, cs) == if RFind(b, cs) >= 0 then |a| + RFind(b, cs) else RFind(a, cs)
  {
    var s, i, j := a + b, RFind(a, cs), RFind(b, cs);
    if j >= 0 {
      assert s[|a| + j] == b[j];
      forall k | |a| + j < k < |s| ensures s[k] !in cs { assert s[k] == b[k - |a|]; }
      RFindUnique(s, cs, |a| + j);
    } else {
      if i >= 0 { assert s[i] == a[i]; }
      forall k | i < k < |s| ensures s[k] !in cs {
        if k < |a| { assert s[k] == a[k]; } else { assert s[k] == b[k - |a|]; }
      }
      RFindUnique(s, cs, i);
    }
  }

  /** The suffix holds neither a dot nor a separator. */
  lemma SuffixFindsNothing(f: PathFlavour)
    ensures RFind(Suffix, Separators(f)) == -1 && RFind(Suffix, {'.'}) == -1
  {
    SuffixPlain(f);
    RFindUnique(Suffix, Separators(f), -1);
    RFindUnique(Suffix, {'.'}, -1);
  }

  /** A path without extension: the suffix goes at the end and still no extension is found. */
  lemma SplitsWithoutExt(p: string, f: PathFlavour)
    requires SplitExt(p, f).1 == []
    ensures SplitExt(p + Suffix, f) == (p + Suffix, [])
  {
    var seps, q := Separators(f), p + Suffix;
    SuffixFindsNothing(f);
    RFindConcat(p, Suffix, seps);
    RFindConcat(p, Suffix, {'.'});
    assert forall k :: 0 <= k < |p| ==> q[k] == p[k];
  }

  /** Where the last separator and the last dot lie once the suffix is inserted
      between name and extension. */
  lemma FindsAfterInsert(p: string, f: PathFlavour)
    requires SplitExt(p, f).1 != []
    ensures var (name, ext) := SplitExt(p, f);
      var q := name + Suffix + ext;
      RFind(p, {'.'}) == |name| && RFind(p, Separators(f)) < |name| &&
      RFind(q, Separators(f)) == RFind(p, Separators(f)) &&
      RFind(q, {'.'}) == |name| + |Suffix|
  {
    var seps := Separators(f);
    var (name, ext) := SplitExt(p, f);
    assert RFind(p, {'.'}) == |name| && RFind(p, seps) < |name|;
    RFindUnique(ext, seps, -1);
    RFindUnique(ext, {'.'}, 0);
    SuffixFindsNothing(f);
    RFindConcat(name, ext, seps);
    RFindConcat(name, Suffix, seps);
    RFindConcat(name + Suffix, ext, seps);
    RFindConcat(name + Suffix, ext, {'.'});
  }

  /** A path with an extension: the suffix goes between name and extension, and the
      extension is found again. */
  lemma SplitsWithExt(p: string, f: PathFlavour)
    requires SplitExt(p, f).1 != []
    ensures var (name, ext) := SplitExt(p, f);
      SplitExt(name + Suffix + ext, f) == (name + Suffix, ext)
  {
    var (name, ext) := SplitExt(p, f);
    var q := name + Suffix + ext;
    var sepIndex, e := RFind(p, Separators(f)), |name| + |Suffix|;
    FindsAfterInsert(p, f);
    var w :| sepIndex + 1 <= w < |name| && p[w] != '.';
    assert q[w] == p[w];
    assert q[..e] == name + Suffix;
    assert q[e..] == ext;
  }

  /** Splitting the default output path gives back the input's extension, with the
      suffix on the name part. */
  lemma WatermarkPathSplits(p: string, f: PathFlavour)
    ensures var (name, ext) := SplitExt(p, f);
      SplitExt(WatermarkPath(p, f), f) == (name + Suffix, ext)
  {
    var (name, ext) := SplitExt(p, f);
    if ext == [] {
      assert name == p && WatermarkPath(p, f) == p + Suffix;
      SplitsWithoutExt(p, f);
    } else {
      SplitsWithExt(p, f);
    }
  }

  // ----- add_watermark -----

  /** The imaging library and the file system, as seen by `add_watermark`. */
  datatype Env = Env(
    open: string -> Option<Image>,        // Image.open and the pixel load in rotate/convert; None when either raises
                                          // (an unturned RGBA image first loads in alpha_composite: not modelled)
    present: string -> bool,              // os.path.exists
    loads: (string, nat) -> bool,         // whether ImageFont.truetype succeeds
    measure: (Font, string) -> TextBox,   // draw.textbbox((0, 0), text, font)
    save: (string, Image) -> bool,        // whether Image.save succeeds
    flavour: PathFlavour)                 // the os.path in use

  /** The default watermark text: "for xxx's use only, void for any other use". */
  const DefaultText: string := "仅供xxx使用，他用无效"

  /** `add_watermark(input_path, output_path=None, watermark_text=DefaultText,
      rotate_ccw=True)`. Returns the
      output path when the image was saved and None when any step raised; beside it,
      the image handed to `save`, the pastes made into the layer and the font warning. */
  method AddWatermark(env: Env, inputPath: string, outputPath: Option<string> := None,
                      text: string := DefaultText, rotateCcw: bool := true)
    returns (result: Option<string>, output: Option<Image>, stamps: seq<Stamp>, warning: Option<FontWarning>)
    ensures env.open(inputPath).None? ==> result == None && output == None && stamps == []
    ensures env.open(inputPath).Some? ==>
      var size := WorkingSize(env.open(inputPath).value.size, rotateCcw);
      var choice := ChosenFont(env.present, env.loads, FontSize(size));
      var l := LayoutOf(env.measure(choice.font, text));
      var path := if outputPath.Some? then outputPath.value else WatermarkPath(inputPath, env.flavour);
      output == Some(Image(size, RGB)) &&
      warning == choice.warning &&
      stamps == Stamped(TilePatch(l, text, choice.font), TileOrigins(size, l)) &&
      result == (if env.save(path, Image(size, RGB)) then Some(path) else None)
  {
    result, output, stamps, warning := None, None, [], None;
    var decoded := env.open(inputPath);
    if decoded.None? {
      return;
    }
    var img := decoded.value;
    if rotateCcw {
      img := Rotated90(img);
    }
    if img.mode != RGBA {
      img := Converted(img, RGBA);
    }
    var layer := new Layer(img.size);
    var fontSize := FontSize(img.size);
    var font, probed;
    font, warning, probed := ResolveFont(env.present, env.loads, fontSize);
    var l := LayoutOf(env.measure(font, text));
    TileLayer(layer, l, text, font);
    stamps := layer.stamps;
    var watermarked := AlphaComposite(img, Image(layer.size, RGBA));
    watermarked := Converted(watermarked, RGB);
    output := Some(watermarked);
    var path := if outputPath.Some? then outputPath.value else WatermarkPath(inputPath, env.flavour);
    if env.save(path, watermarked) {
      result := Some(path);
    }
  }
}

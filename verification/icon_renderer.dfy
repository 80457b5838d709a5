/**
  What the tray shows for a battery reading: the tooltip text and the glyph
  drawn on the 32x32 icon canvas.

  The glyph is described by the drawing operations issued on a cleared,
  transparent canvas, in order, rather than by pixels: a pen outline, a
  line, or a filled rectangle, each with its colour and coordinates.
 */
module IconRenderer {
  import opened Options
  import opened Int32Parsing
  import opened Strings

  const NoDeviceTooltip: string := "No Bluetooth Audio Connected"

  /** `$"Battery: {level}%"` for a non-negative reading: the label, the
      reading in decimal, and a percent sign. */
  function BatteryTooltip(level: nat): (t: string)
    ensures |t| == |Decimal(level)| + 10
    ensures t[..9] == "Battery: " && t[|t| - 1] == '%'
    ensures t[9..|t| - 1] == Decimal(level)
  {
    BatteryTooltipText(Decimal(level))
  }

  function BatteryTooltipText(digits: string): string {
    "Battery: " + digits + "%"
  }

  datatype Colour = Gray | White | LimeGreen | Orange | Red

  datatype Rect = Rect(x: int, y: int, width: int, height: int)

  datatype DrawOp =
    | DrawRectangle(pen: Colour, penWidth: int, rect: Rect)
    | DrawLine(pen: Colour, penWidth: int, x1: int, y1: int, x2: int, y2: int)
    | FillRectangle(brush: Colour, rect: Rect)
  {
    function Ink(): Colour {
      match this
      case DrawRectangle(pen, _, _) => pen
      case DrawLine(pen, _, _, _, _, _) => pen
      case FillRectangle(brush, _) => brush
    }
  }

  /** The drawing operations, in the order they are issued. */
  type Glyph = seq<DrawOp>

  /** The battery body outline, shared by both glyphs. */
  const Body: Rect := Rect(4, 7, 24, 18)
  /** The battery terminal drawn to the right of the body. */
  const Nub: Rect := Rect(28, 12, 2, 8)
  /** The fill width of a full battery, in pixels. */
  const MaxFillWidth: int := 20

  /** The "no device" glyph: a gray outline with a diagonal strike. */
  const DisconnectedGlyph: Glyph := [
    DrawRectangle(Gray, 2, Body),
    DrawLine(Gray, 2, 4, 7, 28, 25)
  ]

  predicate IsLevelColour(c: Colour) {
    c == LimeGreen || c == Orange || c == Red
  }

  /** The battery colour, chosen the way the drawing code does it: green,
      overridden by orange at 50 and below, overridden by red at 20 and
      below. The three bands are disjoint ranges. */
  function BandColour(level: int): (c: Colour)
    ensures IsLevelColour(c)
    ensures c == LimeGreen <==> level > 50
    ensures c == Orange <==> 21 <= level <= 50
    ensures c == Red <==> level <= 20
  {
    var initial := LimeGreen;
    var afterOrange := if level <= 50 then Orange else initial;
    if level <= 20 then Red else afterOrange
  }

  /** Conversion of a quotient to `int`, which truncates toward zero. */
  function TruncatingDiv(a: int, b: int): (q: int)
    requires b > 0
    ensures a >= 0 ==> q * b <= a < q * b + b
    ensures a < 0 ==> q * b >= a > q * b - b
  {
    if a >= 0 then a / b else -((-a) / b)
  }

  /** The width of the level fill: `level * 20 / 100` pixels, truncated,
      and never less than one pixel. Each pixel past the first stands for
      five percentage points. */
  function FillWidth(level: int): (w: int)
    ensures w >= 1
    ensures level < 10 ==> w == 1
    ensures level >= 5 ==> 5 * w <= level < 5 * w + 5
    ensures 0 <= level <= 100 ==> w <= MaxFillWidth
  {
    var raw := TruncatingDiv(level * 20, 100);
    if raw < 1 then 1 else raw
  }

  /** The level fill inside the outline, `FillWidth(level)` pixels wide. */
  function LevelFill(level: int): Rect {
    Rect(6, 9, FillWidth(level), 14)
  }

  /** The filled rectangles drawn in a level colour. */
  function LevelFills(g: Glyph): (fills: seq<DrawOp>)
    ensures forall op :: op in fills ==> op in g && op.FillRectangle? && IsLevelColour(op.Ink())
    ensures forall op :: op in g && op.FillRectangle? && IsLevelColour(op.Ink()) ==> op in fills
  {
    if |g| == 0 then []
    else
      var rest := LevelFills(g[1..]);
      assert forall op :: op in g[1..] ==> op in g;
      if g[0].FillRectangle? && IsLevelColour(g[0].Ink()) then [g[0]] + rest else rest
  }

  predicate HasFill(g: Glyph) {
    exists op :: op in g && op.FillRectangle?
  }

  /** The icon drawn for a reading. The reading `-1` gives the gray
      "no device" glyph, which fills nothing and uses no battery colour;
      any other reading draws in white and one level colour, with exactly
      one level fill, in the band colour and of the fill width. */
  function Render(level: int): (g: Glyph)
    ensures HasFill(g) <==> level != -1
    ensures level == -1 ==> forall op :: op in g ==> op.Ink() == Gray
    ensures level != -1 ==> forall op :: op in g ==> op.Ink() != Gray
    ensures level != -1 ==> LevelFills(g) == [FillRectangle(BandColour(level), LevelFill(level))]
  {
    if level == -1 then DisconnectedGlyph
    else
      var g := [
        FillRectangle(White, Nub),
        DrawRectangle(White, 2, Body),
        FillRectangle(BandColour(level), LevelFill(level))
      ];
      assert g[0].FillRectangle?;
      assert LevelFills(g[2..]) == [g[2]] by {
        assert g[2..][1..] == [];
      }
      assert LevelFills(g[1..]) == [g[2]] by {
        assert g[1..][1..] == g[2..];
      }
      g
  }

  /** `inner` lies strictly inside the edges of `outer`. */
  predicate StrictlyInside(inner: Rect, outer: Rect) {
    && outer.x < inner.x
    && inner.x + inner.width < outer.x + outer.width
    && outer.y < inner.y
    && inner.y + inner.height < outer.y + outer.height
  }

  /** For a connected reading the level fill stays inside the battery
      outline exactly up to a reading of 109; every percentage reading
      0..100 is well inside. */
  lemma FillInsideOutline(level: int)
    requires level >= 0
    ensures StrictlyInside(LevelFill(level), Body) <==> level <= 109
  {
    var w := FillWidth(level);
    if level >= 110 {
      assert 5 * w > 105;
    }
  }

  /** What the tray shows for a reading. */
  datatype Presentation = Presentation(tooltip: string, glyph: Glyph)

  /** A non-negative reading is shown as a battery with its percentage; any
      negative reading, not only `-1`, is shown as "no device". */
  function Present(level: int): (p: Presentation)
    ensures p.tooltip == NoDeviceTooltip <==> level < 0
    ensures level >= 0 ==> p.tooltip == "Battery: " + Decimal(level) + "%"
    ensures !HasFill(p.glyph) <==> level < 0
    ensures level >= 0 ==> p.glyph == Render(level)
    ensures level < 0 ==> p.glyph == DisconnectedGlyph
  {
    if level >= 0 then
      var tooltip := BatteryTooltip(level);
      assert tooltip[0] != NoDeviceTooltip[0];
      Presentation(tooltip, Render(level))
    else Presentation(NoDeviceTooltip, Render(-1))
  }

  /** The percentage in the tooltip is the reading written the way
      `int.ToString` writes it (plain digits, no sign, no leading zero), and
      it reads back as the reading itself. */
  lemma {:induction false} TooltipReadsBack(level: nat)
    requires level <= MaxInt32
    ensures var t := Present(level).tooltip;
      && |t| >= 10 && t[..9] == "Battery: " && t[|t| - 1] == '%'
      && var ds := t[9..|t| - 1];
        && All(ds, IsDigit) && DigitsValue(ds) == level && (|ds| > 1 ==> ds[0] != '0')
        && TryParseInt32(ds) == Some(level)
  {
    DecimalRoundTrip(level);
    var t := BatteryTooltip(level);
    assert Present(level).tooltip == t;
    assert t[9..|t| - 1] == Decimal(level);
  }

  /** A reading of 87: its percentage in the tooltip and a green fill of
      17 pixels. */
  lemma ExamplePresent87()
    ensures Present(87).tooltip == "Battery: 87%"
    ensures LevelFills(Present(87).glyph) == [FillRectangle(LimeGreen, Rect(6, 9, 17, 14))]
  {
    var ds := Decimal(87);
    DecimalTwoDigits(87);
    assert ds == ['8', '7'];
    TooltipText(ds, "Battery: 87%");
    assert TruncatingDiv(87 * 20, 100) == 17;
  }

  /** A reading of 45: an orange fill of 9 pixels. */
  lemma ExamplePresent45()
    ensures Present(45).tooltip == "Battery: 45%"
    ensures LevelFills(Present(45).glyph) == [FillRectangle(Orange, Rect(6, 9, 9, 14))]
  {
    var ds := Decimal(45);
    DecimalTwoDigits(45);
    assert ds == ['4', '5'];
    TooltipText(ds, "Battery: 45%");
    assert TruncatingDiv(45 * 20, 100) == 9;
  }

  lemma TooltipText(ds: string, text: string)
    requires |ds| == 2 && text == "Battery: " + [ds[0], ds[1]] + "%"
    ensures BatteryTooltipText(ds) == text
  {
    assert ds == [ds[0], ds[1]];
  }
}

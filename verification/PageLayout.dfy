/** The page drawn from wrapped lines: text bands from the top down, then the bitmap. */
module PageLayout {
  import opened TextWrap

  const PAD: int := 8

  datatype Bitmap = Bitmap(width: nat, height: nat)

  datatype DrawOp =
    | Clear
    | DrawText(content: string, x: real, y: real)
    | DrawBitmap(left: real, top: real, right: real, bottom: real)

  class Canvas {
    const width: int
    const height: int
    var ops: seq<DrawOp>

    constructor (width: int, height: int)
      ensures this.width == width && this.height == height && ops == []
    {
      this.width, this.height, ops := width, height, [];
    }

    method Draw(op: DrawOp)
      modifies this
      ensures ops == old(ops) + [op]
    {
      ops := ops + [op];
    }
  }

  /** A conversion from a real to an integer drops the fraction. */
  function Truncate(r: real): int {
    if r >= 0.0 then r.Floor else -(-r).Floor
  }

  /** The sum of a non-empty sequence, folded from its first element. */
  function Aggregate(xs: seq<real>): real
    requires xs != []
  {
    if |xs| == 1 then xs[0] else Aggregate(xs[..|xs| - 1]) + xs[|xs| - 1]
  }

  /** The height of the text part of the page. */
  function TextHeight(tws: seq<WrapText>): real
    requires tws != []
  {
    Aggregate(seq(|tws|, i requires 0 <= i < |tws| => tws[i].height + PAD as real)) + PAD as real
  }

  function CanvasHeight(tws: seq<WrapText>, bitmap: Bitmap): int
    requires tws != []
  {
    Truncate(TextHeight(tws) + bitmap.height as real)
  }

  /** The vertical position of the cursor after k lines. */
  function CursorAfter(tws: seq<WrapText>, k: nat): real
    requires k <= |tws|
  {
    if k == 0 then PAD as real else CursorAfter(tws, k - 1) + tws[k - 1].height + PAD as real
  }

  /** The base line of line k. */
  function BaseLine(tws: seq<WrapText>, k: nat): real
    requires k < |tws|
  {
    CursorAfter(tws, k) + tws[k].height
  }

  function TextOps(tws: seq<WrapText>, k: nat): (ops: seq<DrawOp>)
    requires k <= |tws|
    ensures |ops| == k
    ensures forall i :: 0 <= i < k ==> ops[i] == DrawText(tws[i].content, PAD as real, BaseLine(tws, i))
  {
    if k == 0 then []
    else TextOps(tws, k - 1) + [DrawText(tws[k - 1].content, PAD as real, BaseLine(tws, k - 1))]
  }

  function BitmapOp(tws: seq<WrapText>, bitmap: Bitmap): DrawOp {
    var y := CursorAfter(tws, |tws|);
    DrawBitmap(0.0, y, bitmap.width as real, Truncate(y + bitmap.height as real) as real)
  }

  /** Everything the page is drawn with, in drawing order. */
  function PageOps(tws: seq<WrapText>, bitmap: Bitmap): seq<DrawOp> {
    [Clear] + TextOps(tws, |tws|) + [BitmapOp(tws, bitmap)]
  }

  /**
   * A page cleared once, then every line in order, each text PAD below the one before, then the
   * bitmap, PAD below the last line, over the whole width and down to the last row of the canvas.
   */
  predicate ShowsLinesAboveBitmap(ops: seq<DrawOp>, height: int, lines: seq<WrapText>, bitmap: Bitmap)
    requires lines != []
  {
    var n := |lines|;
    && |ops| == n + 2
    && (forall i :: 0 <= i < |ops| ==>
          && (ops[i].Clear? <==> i == 0) && (ops[i].DrawBitmap? <==> i == n + 1)
          && (ops[i].DrawText? ==> ops[i].content == lines[i - 1].content && ops[i].x == PAD as real))
    && ops[1].y == PAD as real + lines[0].height
    && (forall i :: 1 < i <= n ==> ops[i].y == ops[i - 1].y + PAD as real + lines[i - 1].height)
    && ops[n + 1].left == 0.0 && ops[n + 1].right == bitmap.width as real
    && ops[n + 1].top == ops[n].y + PAD as real && ops[n + 1].bottom == height as real
    && height as real <= ops[n + 1].top + bitmap.height as real < height as real + 1.0
  }

  lemma OpsInOrder(tws: seq<WrapText>, bitmap: Bitmap)
    ensures var n, ops := |tws|, PageOps(tws, bitmap);
            && |ops| == n + 2 && ops[0] == Clear && ops[n + 1] == BitmapOp(tws, bitmap)
            && forall i :: 1 <= i <= n ==> ops[i] == DrawText(tws[i - 1].content, PAD as real, BaseLine(tws, i - 1))
  {
    hide BitmapOp, BaseLine;
    var texts := TextOps(tws, |tws|);
    assert forall i :: 1 <= i <= |tws| ==> PageOps(tws, bitmap)[i] == texts[i - 1];
  }

  lemma NextBaseLine(tws: seq<WrapText>, k: nat)
    requires k < |tws|
    ensures k == 0 ==> BaseLine(tws, k) == PAD as real + tws[k].height
    ensures k > 0 ==> BaseLine(tws, k) == BaseLine(tws, k - 1) + PAD as real + tws[k].height
    ensures k == |tws| - 1 ==> CursorAfter(tws, |tws|) == BaseLine(tws, k) + PAD as real
  {
  }

  lemma PageShowsLinesAboveBitmap(tws: seq<WrapText>, bitmap: Bitmap)
    requires tws != []
    ensures ShowsLinesAboveBitmap(PageOps(tws, bitmap), CanvasHeight(tws, bitmap), tws, bitmap)
  {
    OpsInOrder(tws, bitmap);
    BitmapFillsTheRest(tws, bitmap);
    BitmapTopIsCursor(tws, bitmap);
    hide PageOps, BaseLine, CursorAfter, CanvasHeight, TextHeight, BitmapOp;
    forall k: nat | k < |tws|
      ensures k == 0 ==> BaseLine(tws, k) == PAD as real + tws[k].height
      ensures k > 0 ==> BaseLine(tws, k) == BaseLine(tws, k - 1) + PAD as real + tws[k].height
    {
      NextBaseLine(tws, k);
    }
    NextBaseLine(tws, |tws| - 1);
  }

  lemma BitmapTopIsCursor(tws: seq<WrapText>, bitmap: Bitmap)
    requires tws != []
    ensures BitmapOp(tws, bitmap).top == CursorAfter(tws, |tws|)
    ensures BitmapOp(tws, bitmap).bottom <= BitmapOp(tws, bitmap).top + bitmap.height as real < BitmapOp(tws, bitmap).bottom + 1.0
  {
    CursorGrows(tws, 0, |tws|);
  }

  lemma DrawingStart(tws: seq<WrapText>)
    ensures CursorAfter(tws, 0) == PAD as real && [Clear] + TextOps(tws, 0) == [Clear]
  {
  }

  lemma DrawingStep(tws: seq<WrapText>, k: nat)
    requires k < |tws|
    ensures CursorAfter(tws, k) + tws[k].height == BaseLine(tws, k)
    ensures CursorAfter(tws, k + 1) == BaseLine(tws, k) + PAD as real
    ensures [Clear] + TextOps(tws, k + 1)
            == [Clear] + TextOps(tws, k) + [DrawText(tws[k].content, PAD as real, BaseLine(tws, k))]
  {
  }

  method DrawPage(tws: seq<WrapText>, bitmap: Bitmap) returns (canvas: Canvas)
    requires tws != []
    ensures fresh(canvas)
    ensures canvas.width == bitmap.width && canvas.height == CanvasHeight(tws, bitmap)
    ensures canvas.ops == PageOps(tws, bitmap)
    ensures ShowsLinesAboveBitmap(canvas.ops, canvas.height, tws, bitmap)
  {
    hide TextHeight, Truncate, CursorAfter, TextOps, BaseLine, ShowsLinesAboveBitmap;
    DrawingStart(tws);
    canvas := new Canvas(bitmap.width, Truncate(TextHeight(tws) + bitmap.height as real));
    canvas.Draw(Clear);
    var x, y := PAD as real, PAD as real;
    for i := 0 to |tws|
      invariant y == CursorAfter(tws, i)
      invariant x == PAD as real
      invariant canvas.ops == [Clear] + TextOps(tws, i)
    {
      y := y + tws[i].height;
      canvas.Draw(DrawText(tws[i].content, x, y));
      y := y + PAD as real;
      DrawingStep(tws, i);
    }
    canvas.Draw(DrawBitmap(0.0, y, bitmap.width as real, Truncate(y + bitmap.height as real) as real));
    PageShowsLinesAboveBitmap(tws, bitmap);
  }

  datatype Outcome =
    | Drawn(lines: seq<WrapText>)
    | NoLines         // the fold over an empty sequence throws
    | StillWrapping   // the wrapping has not halted within the allowed turns

  predicate AllHalt(paint: Paint, contents: seq<string>, room: real, fuel: nat) {
    forall i :: 0 <= i < |contents| ==> Head(paint, contents[i], room, fuel) == |contents[i]|
  }

  function Room(bitmap: Bitmap): real {
    (bitmap.width - PAD / 2) as real
  }

  method DrawBySkia(paint: Paint, contents: seq<string>, bitmap: Bitmap, fuel: nat)
    returns (outcome: Outcome, canvas: Canvas?)
    ensures outcome.StillWrapping? <==> !AllHalt(paint, contents, Room(bitmap), fuel)
    ensures !outcome.StillWrapping? ==> EveryTextFits(paint, contents, Room(bitmap))
    ensures outcome.NoLines? ==> WrapAll(paint, contents, Room(bitmap)) == []
    ensures outcome.Drawn? ==>
              && outcome.lines == MeasuredLines(paint, WrapAll(paint, contents, Room(bitmap)))
              && outcome.lines != [] && canvas != null && fresh(canvas)
              && canvas.width == bitmap.width && canvas.height == CanvasHeight(outcome.lines, bitmap)
              && canvas.ops == PageOps(outcome.lines, bitmap)
              && ShowsLinesAboveBitmap(canvas.ops, canvas.height, outcome.lines, bitmap)
  {
    hide ShowsLinesAboveBitmap;
    hide Head, WrapAll, PageOps, CanvasHeight, EveryTextFits;
    var tws, halted := ParseTextWraps(paint, contents, bitmap.width - PAD / 2, fuel);
    if !halted {
      return StillWrapping, null;
    }
    if tws == [] {
      return NoLines, null;
    }
    canvas := DrawPage(tws, bitmap);
    outcome := Drawn(tws);
  }

  // ------------------------------------------------------------- the fold and the loop agree

  lemma {:induction false} FoldIsCursor(tws: seq<WrapText>)
    requires tws != []
    ensures TextHeight(tws) == CursorAfter(tws, |tws|)
    decreases |tws|
  {
    var n := |tws| - 1;
    var steps := seq(|tws|, i requires 0 <= i < |tws| => tws[i].height + PAD as real);
    if n > 0 {
      var front := tws[..n];
      FoldIsCursor(front);
      assert steps[..n] == seq(|front|, i requires 0 <= i < |front| => front[i].height + PAD as real);
      CursorOfFront(tws, n, n);
    } else {
      assert CursorAfter(tws, 0) == PAD as real;
    }
  }

  lemma {:induction false} CursorOfFront(tws: seq<WrapText>, n: nat, k: nat)
    requires k <= n <= |tws|
    ensures CursorAfter(tws[..n], k) == CursorAfter(tws, k)
  {
    if k > 0 {
      CursorOfFront(tws, n, k - 1);
    }
  }

  /** The bitmap starts where the measured text height says and ends on the last row of the canvas. */
  lemma BitmapFillsTheRest(tws: seq<WrapText>, bitmap: Bitmap)
    requires tws != []
    ensures BitmapOp(tws, bitmap).left == 0.0 && BitmapOp(tws, bitmap).right == bitmap.width as real
    ensures BitmapOp(tws, bitmap).top == TextHeight(tws)
    ensures BitmapOp(tws, bitmap).bottom == CanvasHeight(tws, bitmap) as real
    ensures var op := BitmapOp(tws, bitmap);
            bitmap.height as real - 1.0 < op.bottom - op.top <= bitmap.height as real
  {
    FoldIsCursor(tws);
    CursorGrows(tws, 0, |tws|);
  }

  lemma {:induction false} CursorGrows(tws: seq<WrapText>, i: nat, j: nat)
    requires i <= j <= |tws|
    ensures CursorAfter(tws, i) + ((j - i) * PAD) as real <= CursorAfter(tws, j)
  {
    if i < j {
      CursorGrows(tws, i, j - 1);
    }
  }

  /** The bitmap keeps its own height exactly when the measured text height is a whole number. */
  lemma BitmapKeepsItsHeight(tws: seq<WrapText>, bitmap: Bitmap)
    requires tws != []
    ensures var op := BitmapOp(tws, bitmap);
            op.bottom - op.top == bitmap.height as real
            <==> TextHeight(tws) == TextHeight(tws).Floor as real
  {
    var y := CursorAfter(tws, |tws|);
    FoldIsCursor(tws);
    CursorGrows(tws, 0, |tws|);
    FloorOfSum(y, bitmap.height);
    assert BitmapOp(tws, bitmap).bottom == y.Floor as real + bitmap.height as real;
  }

  lemma FloorOfSum(y: real, n: int)
    ensures (y + n as real).Floor == y.Floor + n
  {
    assert y.Floor as real <= y < y.Floor as real + 1.0;
  }

  /**
   * The band [base line - height, base line] of each line lies between the top margin and the bitmap,
   * the first exactly PAD below the top, the last exactly PAD above the bitmap.
   */
  lemma BandsLieAboveBitmap(tws: seq<WrapText>, bitmap: Bitmap, j: nat)
    requires j < |tws|
    ensures PAD as real <= BaseLine(tws, j) - tws[j].height
    ensures j == 0 ==> PAD as real == BaseLine(tws, j) - tws[j].height
    ensures BaseLine(tws, j) + PAD as real <= BitmapOp(tws, bitmap).top
    ensures j == |tws| - 1 ==> BaseLine(tws, j) + PAD as real == BitmapOp(tws, bitmap).top
  {
    CursorGrows(tws, 0, j);
    CursorGrows(tws, j + 1, |tws|);
  }

  /** An earlier band lies above a later one, exactly PAD above the next. */
  lemma BandsAreStacked(tws: seq<WrapText>, i: nat, j: nat)
    requires i < j < |tws|
    ensures BaseLine(tws, i) + PAD as real <= BaseLine(tws, j) - tws[j].height
    ensures j == i + 1 ==> BaseLine(tws, i) + PAD as real == BaseLine(tws, j) - tws[j].height
  {
    CursorGrows(tws, i + 1, j);
  }

  // ------------------------------------------------------------- what the page shows

  /** The text drawn, in drawing order. */
  function DrawnText(ops: seq<DrawOp>): string {
    if ops == [] then ""
    else (if ops[0].DrawText? then ops[0].content else "") + DrawnText(ops[1..])
  }

  /** The page shows all of the input texts, in order, and nothing else. */
  lemma PageShowsEveryText(paint: Paint, contents: seq<string>, bitmap: Bitmap)
    requires EveryTextFits(paint, contents, Room(bitmap))
    ensures var tws := MeasuredLines(paint, WrapAll(paint, contents, Room(bitmap)));
            DrawnText(PageOps(tws, bitmap)) == Concat(contents)
  {
    hide WrapAll, MeasuredLines, TextOps, Room;
    var lines := WrapAll(paint, contents, Room(bitmap));
    var tws := MeasuredLines(paint, lines);
    ContentsAreConserved(paint, contents, Room(bitmap));
    assert PageOps(tws, bitmap)[1..] == TextOps(tws, |tws|) + [BitmapOp(tws, bitmap)];
    assert [BitmapOp(tws, bitmap)][1..] == [];
    DrawnTextOfLines(lines, TextOps(tws, |tws|), [BitmapOp(tws, bitmap)]);
  }

  lemma {:induction false} DrawnTextOfLines(lines: seq<string>, ops: seq<DrawOp>, rest: seq<DrawOp>)
    requires |ops| == |lines| && DrawnText(rest) == ""
    requires forall i :: 0 <= i < |lines| ==> ops[i].DrawText? && ops[i].content == lines[i]
    ensures DrawnText(ops + rest) == Concat(lines)
    decreases |lines|
  {
    if lines == [] {
      assert ops + rest == rest;
    } else {
      assert (ops + rest)[1..] == ops[1..] + rest;
      DrawnTextOfLines(lines[1..], ops[1..], rest);
    }
  }

  /** There is nothing to draw exactly when every text is empty. */
  lemma {:induction false} NoLinesExactlyForEmptyTexts(paint: Paint, contents: seq<string>, room: real)
    requires EveryTextFits(paint, contents, room)
    ensures WrapAll(paint, contents, room) == [] <==> forall i :: 0 <= i < |contents| ==> contents[i] == ""
  {
    ContentsAreConserved(paint, contents, room);
    var lines := WrapAll(paint, contents, room);
    EmptyConcat(contents);
    EmptyConcat(lines);
    assert lines != [] ==> lines[0] in lines;
  }

  lemma {:induction false} EmptyConcat(pieces: seq<string>)
    ensures Concat(pieces) == "" <==> forall i :: 0 <= i < |pieces| ==> pieces[i] == ""
  {
    if pieces != [] {
      EmptyConcat(pieces[1..]);
      assert forall i :: 0 < i < |pieces| ==> pieces[i] == pieces[1..][i - 1];
    }
  }

  /** Given turns enough, the wrapping of all texts halts exactly when every character fits. */
  lemma EnoughTurns(paint: Paint, contents: seq<string>, room: real, fuel: nat)
    requires forall i :: 0 <= i < |contents| ==> |contents[i]| <= fuel
    ensures AllHalt(paint, contents, room, fuel) <==> EveryTextFits(paint, contents, room)
  {
    forall i | 0 <= i < |contents|
      ensures Head(paint, contents[i], room, fuel) == |contents[i]| <==> EveryCharFits(paint, contents[i], room)
    {
      HaltsExactlyWhenEveryCharFits(paint, contents[i], room);
      if EveryCharFits(paint, contents[i], room) {
        NothingAfterTheEnd(paint, contents[i], room, |contents[i]|, fuel);
      }
    }
  }

  /**
   * Lines are wrapped for a room of width - PAD / 2 but drawn from x = PAD, so a line may pass
   * the right edge of the canvas, by at most PAD - PAD / 2.
   */
  lemma LinesPassTheEdgeByAtMost(paint: Paint, contents: seq<string>, bitmap: Bitmap, i: nat)
    requires EveryTextFits(paint, contents, Room(bitmap)) && i < |WrapAll(paint, contents, Room(bitmap))|
    ensures var tws := MeasuredLines(paint, WrapAll(paint, contents, Room(bitmap)));
            var op := TextOps(tws, |tws|)[i];
            op.x + Width(paint, op.content) <= (bitmap.width + PAD - PAD / 2) as real
  {
    LinesFit(paint, contents, Room(bitmap));
  }

  lemma {:induction false} LinesFit(paint: Paint, contents: seq<string>, room: real)
    requires EveryTextFits(paint, contents, room)
    ensures AllFit(paint, WrapAll(paint, contents, room), room)
  {
    if contents != [] {
      LinesFit(paint, contents[1..], room);
      assert WrapEach(paint, contents, room)[1..] == WrapEach(paint, contents[1..], room);
      WrapIsGreedyDivision(paint, contents[0], room);
    }
  }

  /** The bound is met: on every bitmap at least PAD / 2 wide some text is drawn past the right edge by all of it. */
  lemma TheEdgeIsPassed(bitmap: Bitmap)
    requires bitmap.width >= PAD / 2
    ensures exists paint: Paint ::
              && EveryTextFits(paint, ["m"], Room(bitmap))
              && WrapAll(paint, ["m"], Room(bitmap)) == ["m"]
              && PAD as real + Width(paint, "m") == (bitmap.width + PAD - PAD / 2) as real
  {
    var room: Extent := Room(bitmap);
    var paint := Paint((c: char) => room, (line: string) => 0.0);
    assert Width(paint, "m") == paint.advance('m') + Width(paint, "m"[1..]);
    assert EveryTextFits(paint, ["m"], room);
    assert Concat(["m"]) == "m" + Concat([]) == "m";
    GreedyDivisionIsUnique(paint, "m", room, ["m"]);
    assert WrapEach(paint, ["m"], room) == [["m"]];
    assert Flatten([["m"]]) == ["m"] + Flatten([]);
  }

  /** Line i of these texts is drawn past the right edge of the canvas. */
  predicate PassesEdge(paint: Paint, contents: seq<string>, bitmap: Bitmap, i: nat)
    requires EveryTextFits(paint, contents, Room(bitmap))
  {
    i < |WrapAll(paint, contents, Room(bitmap))|
    && PAD as real + Width(paint, WrapAll(paint, contents, Room(bitmap))[i]) > bitmap.width as real
  }

  /** Some text is drawn past the right edge exactly on bitmaps at least PAD / 2 wide; on others there is never a line. */
  lemma TheEdgeIsPassedExactly(bitmap: Bitmap)
    ensures (exists paint: Paint, contents: seq<string>, i: nat ::
              EveryTextFits(paint, contents, Room(bitmap)) && PassesEdge(paint, contents, bitmap, i))
            <==> bitmap.width >= PAD / 2
  {
    if bitmap.width >= PAD / 2 {
      TheEdgeIsPassed(bitmap);
      var paint: Paint :|
        && EveryTextFits(paint, ["m"], Room(bitmap))
        && WrapAll(paint, ["m"], Room(bitmap)) == ["m"]
        && PAD as real + Width(paint, "m") == (bitmap.width + PAD - PAD / 2) as real;
      assert PassesEdge(paint, ["m"], bitmap, 0);
    } else {
      forall paint: Paint, contents: seq<string>, i: nat | EveryTextFits(paint, contents, Room(bitmap))
        ensures !PassesEdge(paint, contents, bitmap, i)
      {
        LinesFit(paint, contents, Room(bitmap));
        hide WrapAll, Width;
        assert i < |WrapAll(paint, contents, Room(bitmap))| ==>
            Fits(paint, WrapAll(paint, contents, Room(bitmap))[i], Room(bitmap));
      }
    }
  }
}

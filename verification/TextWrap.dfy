/** Greedy line breaking over a text measured by a paint. */
module TextWrap {

  /** A length or a height; exact reals stand for the source's floats. */
  type Extent = r: real | r >= 0.0

  /** What the wrapping reads from a paint: the advance of a character and the height of a measured line. */
  datatype Paint = Paint(advance: char -> Extent, lineHeight: string -> Extent)

  datatype WrapText = WrapText(height: Extent, content: string)

  /** The width of a text is the sum of its advances. */
  function Width(paint: Paint, text: string): (w: Extent) {
    if text == "" then 0.0 else paint.advance(text[0]) + Width(paint, text[1..])
  }

  lemma {:induction false} WidthOfConcat(paint: Paint, x: string, y: string)
    ensures Width(paint, x + y) == Width(paint, x) + Width(paint, y)
  {
    if x == "" {
      assert x + y == y;
    } else {
      assert (x + y)[1..] == x[1..] + y;
      WidthOfConcat(paint, x[1..], y);
    }
  }

  /** How many leading characters the paint lets into `room`. */
  function BreakText(paint: Paint, text: string, room: real): (count: nat)
    ensures count <= |text|
  {
    if text == "" || paint.advance(text[0]) > room then 0
    else 1 + BreakText(paint, text[1..], room - paint.advance(text[0]))
  }

  /** The count is the length of the longest prefix that fits. */
  lemma {:induction false} BreakTextIsLongest(paint: Paint, text: string, room: real, n: nat)
    requires 0 < n <= |text|
    ensures Width(paint, text[..n]) <= room <==> n <= BreakText(paint, text, room)
  {
    assert text[..n][1..] == text[1..][..n - 1];
    if n == 1 {
      assert text[..1][1..] == "";
    } else if paint.advance(text[0]) <= room {
      BreakTextIsLongest(paint, text[1..], room - paint.advance(text[0]), n - 1);
    }
  }

  /** A break that starts later ends no earlier. */
  lemma BreakIsMonotone(paint: Paint, text: string, room: real, i: nat, j: nat)
    requires i <= j <= |text|
    ensures i + BreakText(paint, text[i..], room) <= j + BreakText(paint, text[j..], room)
  {
    var e := i + BreakText(paint, text[i..], room);
    if j < e {
      BreakTextIsLongest(paint, text[i..], room, e - i);
      assert text[i..][..e - i] == text[i..j] + text[j..e];
      WidthOfConcat(paint, text[i..j], text[j..e]);
      assert text[j..][..e - j] == text[j..e];
      BreakTextIsLongest(paint, text[j..], room, e - j);
    }
  }

  // ---------------------------------------------------------------- the loop

  /** Where the next turn leaves `head`. */
  function NextHead(paint: Paint, text: string, room: real, h: nat): (next: nat)
    requires h <= |text|
    ensures h <= next <= |text|
    ensures h < |text| && paint.advance(text[h]) <= room ==> h < next
  {
    h + BreakText(paint, text[h..], room)
  }

  /** The value of `head` after k turns of the loop; it stays at the end of the text once there. */
  function Head(paint: Paint, text: string, room: real, k: nat): (head: nat)
    ensures head <= |text|
  {
    if k == 0 then 0
    else NextHead(paint, text, room, Head(paint, text, room, k - 1))
  }

  /** The line a turn starting at h cuts off, if the loop still takes it. */
  function LineAt(paint: Paint, text: string, room: real, h: nat): (line: seq<string>)
    requires h <= |text|
    ensures |line| == if h == |text| then 0 else 1
  {
    if h == |text| then [] else [text[h..NextHead(paint, text, room, h)]]
  }

  /** The lines cut off by the first k turns. */
  function LinesAfter(paint: Paint, text: string, room: real, k: nat): seq<string> {
    if k == 0 then []
    else LinesAfter(paint, text, room, k - 1) + LineAt(paint, text, room, Head(paint, text, room, k - 1))
  }

  function MeasuredLines(paint: Paint, lines: seq<string>): (measured: seq<WrapText>)
    ensures |measured| == |lines|
    ensures forall i :: 0 <= i < |lines| ==> measured[i] == WrapText(paint.lineHeight(lines[i]), lines[i])
  {
    seq(|lines|, i requires 0 <= i < |lines| => WrapText(paint.lineHeight(lines[i]), lines[i]))
  }

  lemma MeasuredAppend(paint: Paint, lines: seq<string>, last: string)
    ensures MeasuredLines(paint, lines + [last])
            == MeasuredLines(paint, lines) + [WrapText(paint.lineHeight(last), last)]
  {
  }

  lemma {:induction false} NothingAfterTheEnd(paint: Paint, text: string, room: real, k: nat, n: nat)
    requires k <= n && Head(paint, text, room, k) == |text|
    ensures Head(paint, text, room, n) == |text|
    ensures LinesAfter(paint, text, room, n) == LinesAfter(paint, text, room, k)
  {
    hide NextHead;
    if k < n {
      NothingAfterTheEnd(paint, text, room, k, n - 1);
    }
  }

  /**
   * The loop over one text. It need not halt, so it is run for at most `fuel` turns and
   * reports whether its guard became false.
   */
  method ParseTextWrap(paint: Paint, text: string, maxWidth: int, fuel: nat)
    returns (result: seq<WrapText>, halted: bool)
    ensures result == MeasuredLines(paint, LinesAfter(paint, text, maxWidth as real, fuel))
    ensures halted <==> Head(paint, text, maxWidth as real, fuel) == |text|
  {
    hide BreakText;
    result := [];
    var bound: Extent := 0.0;
    var head := 0;
    var turns := 0;
    while head < |text| && turns < fuel
      invariant turns <= fuel
      invariant head == Head(paint, text, maxWidth as real, turns)
      invariant result == MeasuredLines(paint, LinesAfter(paint, text, maxWidth as real, turns))
      decreases fuel - turns
    {
      var count := BreakText(paint, text[head..], maxWidth as real);
      var ts := text[head..head + count];
      bound := paint.lineHeight(ts);
      result := result + [WrapText(bound, ts)];
      MeasuredAppend(paint, LinesAfter(paint, text, maxWidth as real, turns), ts);
      head := head + count;
      turns := turns + 1;
    }
    halted := head == |text|;
    if halted {
      NothingAfterTheEnd(paint, text, maxWidth as real, turns, fuel);
    }
  }

  // ---------------------------------------------------------- exact termination

  predicate EveryCharFits(paint: Paint, text: string, room: real) {
    forall i :: 0 <= i < |text| ==> paint.advance(text[i]) <= room
  }

  /** The index of the first character that is too wide, or the length of the text. */
  function FirstTooWide(paint: Paint, text: string, room: real): (f: nat)
    ensures f <= |text|
    ensures forall i :: 0 <= i < f ==> paint.advance(text[i]) <= room
    ensures f < |text| ==> paint.advance(text[f]) > room
  {
    if text == "" || paint.advance(text[0]) > room then 0
    else 1 + FirstTooWide(paint, text[1..], room)
  }

  lemma {:induction false} BreakStopsAtTooWide(paint: Paint, text: string, room: real, extra: real)
    requires extra >= 0.0
    ensures BreakText(paint, text, room - extra) <= FirstTooWide(paint, text, room)
  {
    if text != "" && paint.advance(text[0]) <= room - extra {
      BreakStopsAtTooWide(paint, text[1..], room, extra + paint.advance(text[0]));
      assert room - extra - paint.advance(text[0]) == room - (extra + paint.advance(text[0]));
    }
  }

  lemma {:induction false} FirstTooWideOfRest(paint: Paint, text: string, room: real, h: nat)
    requires h <= FirstTooWide(paint, text, room)
    ensures h + FirstTooWide(paint, text[h..], room) == FirstTooWide(paint, text, room)
  {
    if h == 0 {
      assert text[0..] == text;
    } else {
      FirstTooWideOfRest(paint, text[1..], room, h - 1);
      assert text[1..][h - 1..] == text[h..];
    }
  }

  lemma NextHeadStaysBeforeTooWide(paint: Paint, text: string, room: real, h: nat)
    requires h <= FirstTooWide(paint, text, room)
    ensures NextHead(paint, text, room, h) <= FirstTooWide(paint, text, room)
  {
    FirstTooWideOfRest(paint, text, room, h);
    BreakStopsAtTooWide(paint, text[h..], room, 0.0);
    assert room - 0.0 == room;
  }

  /** Each turn moves `head` forward until it reaches the first too-wide character, where it stays for ever. */
  lemma {:induction false} HeadReachesFirstTooWide(paint: Paint, text: string, room: real, k: nat)
    ensures Head(paint, text, room, k) <= FirstTooWide(paint, text, room)
    ensures k <= Head(paint, text, room, k) || Head(paint, text, room, k) == FirstTooWide(paint, text, room)
  {
    hide NextHead, FirstTooWide;
    if k > 0 {
      HeadReachesFirstTooWide(paint, text, room, k - 1);
      NextHeadStaysBeforeTooWide(paint, text, room, Head(paint, text, room, k - 1));
    }
  }

  /** The loop halts exactly when every character fits on a line of its own. */
  lemma HaltsExactlyWhenEveryCharFits(paint: Paint, text: string, room: real)
    ensures (exists k: nat :: Head(paint, text, room, k) == |text|) <==> EveryCharFits(paint, text, room)
    ensures EveryCharFits(paint, text, room) ==> Head(paint, text, room, |text|) == |text|
  {
    var f := FirstTooWide(paint, text, room);
    assert EveryCharFits(paint, text, room) <==> f == |text|;
    HeadReachesFirstTooWide(paint, text, room, |text|);
    forall k: nat ensures Head(paint, text, room, k) <= f {
      HeadReachesFirstTooWide(paint, text, room, k);
    }
  }

  lemma StuckTurn(paint: Paint, text: string, room: real)
    requires !EveryCharFits(paint, text, room)
    ensures LineAt(paint, text, room, FirstTooWide(paint, text, room)) == [""]
  {
    var f := FirstTooWide(paint, text, room);
    assert f < |text|;
    assert NextHead(paint, text, room, f) == f;
    assert text[f..f] == "";
  }

  /** When the loop does not halt, every turn adds a line: once `head` is stuck, an empty one. */
  lemma StuckLoopKeepsAddingLines(paint: Paint, text: string, room: real, k: nat)
    requires !EveryCharFits(paint, text, room)
    ensures |LinesAfter(paint, text, room, k + 1)| == |LinesAfter(paint, text, room, k)| + 1
    ensures FirstTooWide(paint, text, room) <= k ==>
              LinesAfter(paint, text, room, k + 1) == LinesAfter(paint, text, room, k) + [""]
  {
    HeadReachesFirstTooWide(paint, text, room, k);
    StuckTurn(paint, text, room);
    assert Head(paint, text, room, k) < |text|;
  }

  // ------------------------------------------------------------- the wrapped text

  function Concat(pieces: seq<string>): string {
    if pieces == [] then "" else pieces[0] + Concat(pieces[1..])
  }

  lemma {:induction false} ConcatOfConcat(a: seq<string>, b: seq<string>)
    ensures Concat(a + b) == Concat(a) + Concat(b)
  {
    if a == [] {
      assert a + b == b;
    } else {
      assert (a + b)[1..] == a[1..] + b;
      ConcatOfConcat(a[1..], b);
    }
  }

  /** The lines of a text from position h on, when its characters all fit. */
  function WrapFrom(paint: Paint, text: string, room: real, h: nat): seq<string>
    requires h <= |text| && EveryCharFits(paint, text, room)
    decreases |text| - h
  {
    if h == |text| then []
    else
      var next := NextHead(paint, text, room, h);
      [text[h..next]] + WrapFrom(paint, text, room, next)
  }

  function Wrap(paint: Paint, text: string, room: real): seq<string>
    requires EveryCharFits(paint, text, room)
  {
    WrapFrom(paint, text, room, 0)
  }

  lemma WrapFromAtTurn(paint: Paint, text: string, room: real, h: nat)
    requires h <= |text| && EveryCharFits(paint, text, room)
    ensures WrapFrom(paint, text, room, h)
            == LineAt(paint, text, room, h) + WrapFrom(paint, text, room, NextHead(paint, text, room, h))
  {
    hide BreakText;
  }

  lemma Regroup(a: seq<string>, b: seq<string>, c: seq<string>)
    ensures a + (b + c) == a + b + c
  {
  }

  /** At any turn, the lines cut so far and the wrapped rest make up the wrapped text. */
  lemma {:induction false} WrapAtHead(paint: Paint, text: string, room: real, k: nat)
    requires EveryCharFits(paint, text, room)
    ensures Wrap(paint, text, room)
            == LinesAfter(paint, text, room, k) + WrapFrom(paint, text, room, Head(paint, text, room, k))
  {
    hide BreakText, NextHead, WrapFrom;
    if k == 0 {
      assert [] + Wrap(paint, text, room) == Wrap(paint, text, room);
    } else {
      WrapAtHead(paint, text, room, k - 1);
      var h := Head(paint, text, room, k - 1);
      WrapFromAtTurn(paint, text, room, h);
      hide Head, LineAt, EveryCharFits;
      Regroup(LinesAfter(paint, text, room, k - 1), LineAt(paint, text, room, h), WrapFrom(paint, text, room, NextHead(paint, text, room, h)));
    }
  }

  lemma {:induction false} OneLineATurn(paint: Paint, text: string, room: real, k: nat)
    ensures |LinesAfter(paint, text, room, k)| <= k
    ensures Head(paint, text, room, k) < |text| ==> |LinesAfter(paint, text, room, k)| == k
  {
    hide BreakText;
    if k > 0 {
      OneLineATurn(paint, text, room, k - 1);
    }
  }

  /** The number of wrapped lines is the exact number of turns the loop takes. */
  lemma TurnsNeeded(paint: Paint, text: string, room: real, k: nat)
    requires EveryCharFits(paint, text, room)
    ensures Head(paint, text, room, k) == |text| <==> |Wrap(paint, text, room)| <= k
  {
    WrapAtHead(paint, text, room, k);
    OneLineATurn(paint, text, room, k);
  }

  /** A halted loop has cut off exactly the wrapped lines. */
  lemma HaltedLoopHoldsWrap(paint: Paint, text: string, room: real, k: nat)
    requires Head(paint, text, room, k) == |text|
    ensures EveryCharFits(paint, text, room)
    ensures LinesAfter(paint, text, room, k) == Wrap(paint, text, room)
  {
    HaltsExactlyWhenEveryCharFits(paint, text, room);
    WrapAtHead(paint, text, room, k);
  }

  // --------------------------------------------------------------- greedy is optimal

  predicate Fits(paint: Paint, piece: string, room: real) {
    Width(paint, piece) <= room
  }

  predicate AllFit(paint: Paint, pieces: seq<string>, room: real) {
    forall i :: 0 <= i < |pieces| ==> Fits(paint, pieces[i], room)
  }

  /** Any way to cut the text into consecutive pieces that fit. */
  predicate IsDivision(paint: Paint, text: string, room: real, pieces: seq<string>) {
    Concat(pieces) == text && AllFit(paint, pieces, room)
  }

  /** What each wrapped line is: non-empty, fitting, and unable to take the next line's first character. */
  predicate IsGreedy(paint: Paint, lines: seq<string>, room: real) {
    && (forall i :: 0 <= i < |lines| ==> lines[i] != "")
    && AllFit(paint, lines, room)
    && (forall i :: 0 <= i < |lines| - 1 ==> Width(paint, lines[i] + lines[i + 1][..1]) > room)
  }

  /** A line fits, and the next character would make it too wide. */
  lemma LineIsFull(paint: Paint, text: string, room: real, h: nat)
    requires h < |text| && EveryCharFits(paint, text, room)
    ensures var next := NextHead(paint, text, room, h);
            && Fits(paint, text[h..next], room)
            && (next < |text| ==> Width(paint, text[h..next + 1]) > room)
  {
    var rest, n := text[h..], NextHead(paint, text, room, h) - h;
    BreakTextIsLongest(paint, rest, room, n);
    assert rest[..n] == text[h..h + n];
    if h + n < |text| {
      BreakTextIsLongest(paint, rest, room, n + 1);
      assert rest[..n + 1] == text[h..h + n + 1];
    }
  }

  lemma {:induction false} WrapFromIsGreedy(paint: Paint, text: string, room: real, h: nat)
    requires h <= |text| && EveryCharFits(paint, text, room)
    ensures Concat(WrapFrom(paint, text, room, h)) == text[h..]
    ensures IsGreedy(paint, WrapFrom(paint, text, room, h), room)
    decreases |text| - h
  {
    if h < |text| {
      var next := NextHead(paint, text, room, h);
      var rest := WrapFrom(paint, text, room, next);
      WrapFromIsGreedy(paint, text, room, next);
      LineIsFull(paint, text, room, h);
      if next < |text| {
        assert rest[0][..1] == text[next..next + 1];
        assert text[h..next + 1] == text[h..next] + text[next..next + 1];
      }
    }
  }

  lemma WrapIsGreedyDivision(paint: Paint, text: string, room: real)
    requires EveryCharFits(paint, text, room)
    ensures IsDivision(paint, text, room, Wrap(paint, text, room))
    ensures IsGreedy(paint, Wrap(paint, text, room), room)
  {
    WrapFromIsGreedy(paint, text, room, 0);
    assert text[0..] == text;
  }

  lemma {:induction false} GreedyLinesAreWrapFrom(
    paint: Paint, text: string, room: real, h: nat, lines: seq<string>)
    requires EveryCharFits(paint, text, room)
    requires h <= |text| && Concat(lines) == text[h..] && IsGreedy(paint, lines, room)
    ensures lines == WrapFrom(paint, text, room, h)
    decreases |lines|
  {
    hide IsGreedy, EveryCharFits, NextHead;
    if lines == [] {
      assert text[h..] == "";
    } else {
      GreedyLineIsFirst(paint, text, room, h, lines);
      hide *;
      GreedyLinesAreWrapFrom(paint, text, room, h + |lines[0]|, lines[1..]);
      assert lines == [lines[0]] + lines[1..];
    }
  }

  lemma GreedyLineIsFirst(paint: Paint, text: string, room: real, h: nat, lines: seq<string>)
    requires EveryCharFits(paint, text, room) && lines != []
    requires h <= |text| && Concat(lines) == text[h..] && IsGreedy(paint, lines, room)
    ensures var next := h + |lines[0]|;
            && next <= |text| && Concat(lines[1..]) == text[next..] && IsGreedy(paint, lines[1..], room)
            && WrapFrom(paint, text, room, h) == [lines[0]] + WrapFrom(paint, text, room, next)
  {
    hide *;
    FullLineEndsAtNextHead(paint, text, room, h, lines);
    WrapFromFirst(paint, text, room, h);
    GreedyRest(paint, lines, room);
    assert text[h..][|lines[0]|..] == text[h + |lines[0]|..];
  }

  lemma WrapFromFirst(paint: Paint, text: string, room: real, h: nat)
    requires h < |text| && EveryCharFits(paint, text, room)
    ensures var next := NextHead(paint, text, room, h);
            WrapFrom(paint, text, room, h) == [text[h..next]] + WrapFrom(paint, text, room, next)
  {
  }

  lemma FullLineEndsAtNextHead(paint: Paint, text: string, room: real, h: nat, lines: seq<string>)
    requires h <= |text| && Concat(lines) == text[h..] && IsGreedy(paint, lines, room) && lines != []
    ensures NextHead(paint, text, room, h) == h + |lines[0]| && lines[0] != ""
    ensures text[h..h + |lines[0]|] == lines[0]
    ensures Concat(lines[1..]) == text[h..][|lines[0]|..]
  {
    hide BreakText, Width;
    var n := |lines[0]|;
    var rest := text[h..];
    assert rest[..n] == lines[0] && rest[n..] == Concat(lines[1..]);
    if n < |rest| {
      assert rest[..n + 1] == lines[0] + lines[1][..1];
    }
    FullPrefixIsBroken(paint, rest, room, n);
  }

  lemma FullPrefixIsBroken(paint: Paint, text: string, room: real, n: nat)
    requires 0 < n <= |text| && Width(paint, text[..n]) <= room
    requires n < |text| ==> Width(paint, text[..n + 1]) > room
    ensures BreakText(paint, text, room) == n
  {
    BreakTextIsLongest(paint, text, room, n);
    if n < |text| {
      BreakTextIsLongest(paint, text, room, n + 1);
    }
  }

  /** The greedy lines are the only division whose lines are non-empty and full. */
  lemma GreedyDivisionIsUnique(paint: Paint, text: string, room: real, lines: seq<string>)
    requires Concat(lines) == text && IsGreedy(paint, lines, room)
    ensures EveryCharFits(paint, text, room)
    ensures lines == Wrap(paint, text, room)
  {
    CharsOfDivision(paint, text, room, lines);
    assert text[0..] == text;
    GreedyLinesAreWrapFrom(paint, text, room, 0, lines);
  }

  lemma {:induction false} CharsOfFittingText(paint: Paint, text: string, room: real)
    requires Width(paint, text) <= room
    ensures EveryCharFits(paint, text, room)
  {
    if text != "" {
      CharsOfFittingText(paint, text[1..], room);
      forall i | 0 <= i < |text| ensures paint.advance(text[i]) <= room {
        if i > 0 {
          assert text[i] == text[1..][i - 1];
        }
      }
    }
  }

  lemma {:induction false} CharsOfDivision(paint: Paint, text: string, room: real, pieces: seq<string>)
    requires IsDivision(paint, text, room, pieces)
    ensures EveryCharFits(paint, text, room)
    decreases |pieces|
  {
    if pieces != [] {
      var n := |pieces[0]|;
      CharsOfFittingText(paint, pieces[0], room);
      CharsOfDivision(paint, text[n..], room, pieces[1..]);
    }
  }

  /** Stay ahead: the k-th break of any division is never after the k-th greedy break. */
  lemma {:induction false} GreedyStaysAhead(paint: Paint, text: string, room: real, pieces: seq<string>, k: nat)
    requires IsDivision(paint, text, room, pieces) && k <= |pieces|
    ensures |Concat(pieces[..k])| <= Head(paint, text, room, k)
  {
    if k > 0 {
      GreedyStaysAhead(paint, text, room, pieces, k - 1);
      var e := |Concat(pieces[..k - 1])|;
      var piece := pieces[k - 1];
      assert pieces[..k] == pieces[..k - 1] + [piece];
      ConcatOfConcat(pieces[..k - 1], [piece]);
      assert pieces == pieces[..k] + pieces[k..];
      ConcatOfConcat(pieces[..k], pieces[k..]);
      assert Concat([piece]) == piece;
      assert text[e..][..|piece|] == piece;
      if piece != "" {
        BreakTextIsLongest(paint, text[e..], room, |piece|);
      }
      BreakIsMonotone(paint, text, room, e, Head(paint, text, room, k - 1));
    }
  }

  /** No division has fewer pieces than the greedy one. */
  lemma GreedyIsOptimal(paint: Paint, text: string, room: real, pieces: seq<string>)
    requires IsDivision(paint, text, room, pieces)
    ensures EveryCharFits(paint, text, room)
    ensures |Wrap(paint, text, room)| <= |pieces|
  {
    CharsOfDivision(paint, text, room, pieces);
    GreedyStaysAhead(paint, text, room, pieces, |pieces|);
    assert pieces[..|pieces|] == pieces;
    TurnsNeeded(paint, text, room, |pieces|);
  }

  /** A text can be divided at all exactly when each of its characters fits. */
  lemma DivisibleExactlyWhenEveryCharFits(paint: Paint, text: string, room: real)
    ensures (exists pieces :: IsDivision(paint, text, room, pieces)) <==> EveryCharFits(paint, text, room)
  {
    if EveryCharFits(paint, text, room) {
      WrapIsGreedyDivision(paint, text, room);
    }
    forall pieces | IsDivision(paint, text, room, pieces) ensures EveryCharFits(paint, text, room) {
      CharsOfDivision(paint, text, room, pieces);
    }
  }

  // ------------------------------------------------------ wider pages, joined texts

  lemma WiderNeverTakesMoreLines(paint: Paint, text: string, room: real, wider: real)
    requires room <= wider && EveryCharFits(paint, text, room)
    ensures |Wrap(paint, text, wider)| <= |Wrap(paint, text, room)|
  {
    WrapIsGreedyDivision(paint, text, room);
    GreedyIsOptimal(paint, text, wider, Wrap(paint, text, room));
  }

  /** Cutting a division at any place yields divisions of the two parts with at most one more piece. */
  lemma {:induction false} CutDivision(paint: Paint, a: string, b: string, room: real, pieces: seq<string>)
    returns (left: seq<string>, right: seq<string>)
    requires IsDivision(paint, a + b, room, pieces) && pieces != []
    ensures IsDivision(paint, a, room, left) && IsDivision(paint, b, room, right)
    ensures |left| + |right| <= |pieces| + 1
    decreases |pieces|
  {
    var first, rest := pieces[0], pieces[1..];
    if |first| < |a| && rest != [] {
      assert a == first + a[|first|..] by { assert a == (a + b)[..|a|]; }
      assert Concat(rest) == a[|first|..] + b;
      left, right := CutDivision(paint, a[|first|..], b, room, rest);
      left := [first] + left;
    } else {
      assert |a| <= |first| by {
        if rest == [] { assert Concat(rest) == ""; }
      }
      assert first == a + first[|a|..] by { assert (a + b)[..|a|] == a; }
      assert b == first[|a|..] + Concat(rest) by { assert (a + b)[|a|..] == b; }
      WidthOfConcat(paint, a, first[|a|..]);
      left, right := [a], [first[|a|..]] + rest;
      assert Concat(left) == a;
    }
  }

  lemma WrapOfJoinedTexts(paint: Paint, a: string, b: string, room: real)
    requires EveryCharFits(paint, a, room) && EveryCharFits(paint, b, room)
    ensures EveryCharFits(paint, a + b, room)
    ensures |Wrap(paint, a + b, room)| <= |Wrap(paint, a, room)| + |Wrap(paint, b, room)|
    ensures |Wrap(paint, a, room)| + |Wrap(paint, b, room)| <= |Wrap(paint, a + b, room)| + 1
  {
    var la, lb := Wrap(paint, a, room), Wrap(paint, b, room);
    WrapIsGreedyDivision(paint, a, room);
    WrapIsGreedyDivision(paint, b, room);
    ConcatOfConcat(la, lb);
    GreedyIsOptimal(paint, a + b, room, la + lb);
    var lab := Wrap(paint, a + b, room);
    WrapIsGreedyDivision(paint, a + b, room);
    if lab != [] {
      var left, right := CutDivision(paint, a, b, room, lab);
      GreedyIsOptimal(paint, a, room, left);
      GreedyIsOptimal(paint, b, room, right);
    }
  }

  // --------------------------------------------------------------- line-count bounds

  /** Two neighbouring lines are together wider than a line. */
  lemma NeighboursDoNotMerge(paint: Paint, lines: seq<string>, room: real, i: nat)
    requires IsGreedy(paint, lines, room) && i + 1 < |lines|
    ensures Width(paint, lines[i]) + Width(paint, lines[i + 1]) > room
  {
    var next := lines[i + 1];
    assert next == next[..1] + next[1..];
    WidthOfConcat(paint, next[..1], next[1..]);
    WidthOfConcat(paint, lines[i], next[..1]);
  }

  /** The room on n lines. */
  function Capacity(n: nat, room: real): (c: real)
    ensures c == n as real * room
  {
    if n == 0 then 0.0 else Capacity(n - 1, room) + room
  }

  /** The lines hold the text, and they are on average more than half full. */
  lemma {:induction false} LineCountBounds(paint: Paint, lines: seq<string>, room: real)
    requires IsGreedy(paint, lines, room)
    ensures Width(paint, Concat(lines)) <= Capacity(|lines|, room)
    ensures Width(paint, Concat(lines)) >= Capacity(|lines| / 2, room)
    ensures |lines| >= 2 ==> Width(paint, Concat(lines)) > Capacity(|lines| / 2, room)
    decreases |lines|
  {
    if |lines| == 1 {
      assert Concat(lines[1..]) == "";
      assert Concat(lines) == lines[0];
      assert Capacity(1, room) == Capacity(0, room) + room;
    } else if |lines| >= 2 {
      NeighboursDoNotMerge(paint, lines, room, 0);
      var rest := lines[2..];
      assert lines[1..][1..] == rest;
      WidthOfConcat(paint, lines[0], lines[1] + Concat(rest));
      WidthOfConcat(paint, lines[1], Concat(rest));
      GreedyRest(paint, lines, room);
      GreedyRest(paint, lines[1..], room);
      LineCountBounds(paint, rest, room);
      assert Capacity(|lines|, room) == Capacity(|rest|, room) + room + room;
      assert |lines| / 2 == |rest| / 2 + 1;
    }
  }

  lemma GreedyRest(paint: Paint, lines: seq<string>, room: real)
    requires lines != [] && IsGreedy(paint, lines, room)
    ensures IsGreedy(paint, lines[1..], room)
  {
    var rest := lines[1..];
    forall i | 0 <= i < |rest| - 1 ensures Width(paint, rest[i] + rest[i + 1][..1]) > room {
      assert rest[i] == lines[i + 1] && rest[i + 1] == lines[i + 2];
    }
  }

  /** With n lines the total advance is at most n * room, and for n >= 2 more than (n / 2) * room. */
  lemma WrapLineCountBounds(paint: Paint, text: string, room: real)
    requires EveryCharFits(paint, text, room)
    ensures var n := |Wrap(paint, text, room)|;
            && Width(paint, text) <= Capacity(n, room)
            && (n >= 2 ==> Width(paint, text) > Capacity(n / 2, room))
  {
    WrapIsGreedyDivision(paint, text, room);
    LineCountBounds(paint, Wrap(paint, text, room), room);
  }

  // ------------------------------------------------------------------- several texts

  predicate EveryTextFits(paint: Paint, contents: seq<string>, room: real) {
    forall i :: 0 <= i < |contents| ==> EveryCharFits(paint, contents[i], room)
  }

  /** The lines of each text, text by text. */
  function WrapEach(paint: Paint, contents: seq<string>, room: real): (blocks: seq<seq<string>>)
    requires EveryTextFits(paint, contents, room)
    ensures |blocks| == |contents|
    ensures forall i :: 0 <= i < |contents| ==> blocks[i] == Wrap(paint, contents[i], room)
  {
    seq(|contents|, i requires 0 <= i < |contents| => Wrap(paint, contents[i], room))
  }

  function Flatten(blocks: seq<seq<string>>): seq<string> {
    if blocks == [] then [] else blocks[0] + Flatten(blocks[1..])
  }

  lemma {:induction false} FlattenAppend(blocks: seq<seq<string>>, last: seq<string>)
    ensures Flatten(blocks + [last]) == Flatten(blocks) + last
  {
    if blocks == [] {
      assert blocks + [last] == [last];
      assert Flatten([last]) == last + Flatten([]);
    } else {
      assert (blocks + [last])[1..] == blocks[1..] + [last];
      FlattenAppend(blocks[1..], last);
    }
  }

  function WrapAll(paint: Paint, contents: seq<string>, room: real): seq<string>
    requires EveryTextFits(paint, contents, room)
  {
    Flatten(WrapEach(paint, contents, room))
  }

  /** The loop over a list of texts; `fuel` bounds the turns spent on each text. */
  method ParseTextWraps(paint: Paint, contents: seq<string>, maxWidth: int, fuel: nat)
    returns (result: seq<WrapText>, halted: bool)
    ensures halted <==> forall i :: 0 <= i < |contents| ==> Head(paint, contents[i], maxWidth as real, fuel) == |contents[i]|
    ensures halted ==> EveryTextFits(paint, contents, maxWidth as real)
                       && result == MeasuredLines(paint, WrapAll(paint, contents, maxWidth as real))
  {
    hide Head, LinesAfter, WrapAll, Wrap, MeasuredLines;
    WrapAllOfNothing(paint, maxWidth as real);
    result := [];
    for i := 0 to |contents|
      invariant forall n :: 0 <= n < i ==> Head(paint, contents[n], maxWidth as real, fuel) == |contents[n]|
      invariant EveryTextFits(paint, contents[..i], maxWidth as real)
      invariant result == MeasuredLines(paint, WrapAll(paint, contents[..i], maxWidth as real))
    {
      var r, done := ParseTextWrap(paint, contents[i], maxWidth, fuel);
      if !done {
        return result, false;
      }
      result := result + r;
      HaltedLoopHoldsWrap(paint, contents[i], maxWidth as real, fuel);
      WrapAllAppend(paint, contents[..i], contents[i], maxWidth as real);
      assert contents[..i + 1] == contents[..i] + [contents[i]];
    }
    assert contents[..|contents|] == contents;
    halted := true;
  }

  lemma WrapAllOfNothing(paint: Paint, room: real)
    ensures MeasuredLines(paint, WrapAll(paint, [], room)) == []
  {
  }

  lemma WrapAllAppend(paint: Paint, contents: seq<string>, last: string, room: real)
    requires EveryTextFits(paint, contents, room) && EveryCharFits(paint, last, room)
    ensures EveryTextFits(paint, contents + [last], room)
    ensures MeasuredLines(paint, WrapAll(paint, contents + [last], room))
            == MeasuredLines(paint, WrapAll(paint, contents, room)) + MeasuredLines(paint, Wrap(paint, last, room))
  {
    hide Wrap;
    assert WrapEach(paint, contents + [last], room) == WrapEach(paint, contents, room) + [Wrap(paint, last, room)];
    FlattenAppend(WrapEach(paint, contents, room), Wrap(paint, last, room));
  }

  /** Where the lines of text i start in the whole list. */
  function BlockStart(blocks: seq<seq<string>>, i: nat): (start: nat)
    requires i <= |blocks|
  {
    if i == 0 then 0 else BlockStart(blocks, i - 1) + |blocks[i - 1]|
  }

  lemma {:induction false} FlattenBlocks(blocks: seq<seq<string>>, i: nat)
    requires i < |blocks|
    ensures BlockStart(blocks, i) + |blocks[i]| <= |Flatten(blocks)|
    ensures Flatten(blocks)[BlockStart(blocks, i)..BlockStart(blocks, i) + |blocks[i]|] == blocks[i]
    ensures BlockStart(blocks, |blocks|) == |Flatten(blocks)|
    decreases |blocks|
  {
    var front, last := blocks[..|blocks| - 1], blocks[|blocks| - 1];
    assert blocks == front + [last];
    FlattenAppend(front, last);
    BlockStartOfFront(blocks, |front|);
    if i < |front| {
      FlattenBlocks(front, i);
      BlockStartOfFront(blocks, i);
      assert front[i] == blocks[i];
    } else if front != [] {
      FlattenBlocks(front, 0);
    }
  }

  lemma {:induction false} BlockStartOfFront(blocks: seq<seq<string>>, i: nat)
    requires i < |blocks|
    ensures BlockStart(blocks, i) == BlockStart(blocks[..|blocks| - 1], i)
  {
    if i > 0 {
      BlockStartOfFront(blocks, i - 1);
    }
  }

  /** The run of output lines between the starts of texts i and i + 1. */
  function LinesOfText(paint: Paint, contents: seq<string>, room: real, i: nat): seq<string>
    requires EveryTextFits(paint, contents, room) && i < |contents|
  {
    var blocks := WrapEach(paint, contents, room);
    FlattenBlocks(blocks, i);
    WrapAll(paint, contents, room)[BlockStart(blocks, i)..BlockStart(blocks, i + 1)]
  }

  /** Each input has its own run of lines, which spells it. */
  lemma LinesOfTextSpellIt(paint: Paint, contents: seq<string>, room: real, i: nat)
    requires EveryTextFits(paint, contents, room) && i < |contents|
    ensures LinesOfText(paint, contents, room, i) == Wrap(paint, contents[i], room)
    ensures Concat(LinesOfText(paint, contents, room, i)) == contents[i]
  {
    FlattenBlocks(WrapEach(paint, contents, room), i);
    WrapIsGreedyDivision(paint, contents[i], room);
  }

  /** Nothing is lost: the lines spell the inputs in order, and no line is empty. */
  lemma {:induction false} ContentsAreConserved(paint: Paint, contents: seq<string>, room: real)
    requires EveryTextFits(paint, contents, room)
    ensures Concat(WrapAll(paint, contents, room)) == Concat(contents)
    ensures "" !in WrapAll(paint, contents, room)
  {
    if contents != [] {
      ContentsAreConserved(paint, contents[1..], room);
      assert WrapEach(paint, contents, room)[1..] == WrapEach(paint, contents[1..], room);
      ConcatOfConcat(Wrap(paint, contents[0], room), WrapAll(paint, contents[1..], room));
      WrapIsGreedyDivision(paint, contents[0], room);
    }
  }

  /** Among all ways to divide each text on its own, the method's result has the fewest lines. */
  lemma {:induction false} FewestLinesOverall(
    paint: Paint, contents: seq<string>, room: real, divisions: seq<seq<string>>)
    requires |divisions| == |contents|
    requires forall i :: 0 <= i < |contents| ==> IsDivision(paint, contents[i], room, divisions[i])
    ensures EveryTextFits(paint, contents, room)
    ensures |WrapAll(paint, contents, room)| <= |Flatten(divisions)|
  {
    if contents != [] {
      GreedyIsOptimal(paint, contents[0], room, divisions[0]);
      FewestLinesOverall(paint, contents[1..], room, divisions[1..]);
      assert forall i :: 0 <= i < |contents| - 1 ==> contents[1..][i] == contents[i + 1];
      assert WrapEach(paint, contents, room)[1..] == WrapEach(paint, contents[1..], room);
    }
  }
}

/** Splitting a comma-separated list by a regular expression, and the simple rule it refines. */
module ListSplit {
  import opened Options

  /** The characters a JavaScript \s matches. */
  predicate IsSpace(c: char) {
    || '\U{0009}' <= c <= '\U{000D}' || c == ' ' || c == '\U{00A0}' || c == '\U{1680}'
    || '\U{2000}' <= c <= '\U{200A}' || c == '\U{2028}' || c == '\U{2029}'
    || c == '\U{202F}' || c == '\U{205F}' || c == '\U{3000}' || c == '\U{FEFF}'
  }

  predicate AllSpace(s: string) {
    forall i :: 0 <= i < |s| ==> IsSpace(s[i])
  }

  /** How many leading characters \s* takes. */
  function Spaces(s: string): (n: nat)
    ensures n <= |s| && AllSpace(s[..n])
    ensures n < |s| ==> !IsSpace(s[n])
  {
    if s == "" || !IsSpace(s[0]) then 0
    else
      var n := Spaces(s[1..]);
      assert forall i :: 0 < i <= n ==> s[i] == s[1..][..n][i - 1];
      1 + n
  }

  function TrimStart(s: string): string {
    s[Spaces(s)..]
  }

  function TrimEnd(s: string): (t: string)
    ensures t <= s && AllSpace(s[|t|..])
    ensures t != "" ==> !IsSpace(t[|t| - 1])
  {
    if s != "" && IsSpace(s[|s| - 1]) then TrimEnd(s[..|s| - 1]) else s
  }

  /** What replacing ^\s+ and \s+$ by nothing leaves. */
  function Trim(s: string): string {
    TrimEnd(TrimStart(s))
  }

  predicate IsTrimmed(s: string) {
    s == "" || (!IsSpace(s[0]) && !IsSpace(s[|s| - 1]))
  }

  /** The length of a match of \s*,\s* at the start of the text. */
  function CommaMatch(s: string): (m: Option<nat>)
    ensures m.Some? ==> 0 < m.value <= |s|
  {
    var w := Spaces(s);
    if w < |s| && s[w] == ',' then Some(w + 1 + Spaces(s[w + 1..])) else None
  }

  /** The texts that \s*,\s* describes. */
  ghost predicate IsPaddedComma(t: string) {
    exists i :: 0 <= i < |t| && t[i] == ',' && AllSpace(t[..i]) && AllSpace(t[i + 1..])
  }

  /** The match is the longest prefix the expression describes, and there is one whenever any prefix is described. */
  lemma CommaMatchIsLongest(s: string, n: nat)
    requires n <= |s|
    ensures IsPaddedComma(s[..n]) ==> CommaMatch(s).Some? && n <= CommaMatch(s).value
    ensures CommaMatch(s).Some? ==> IsPaddedComma(s[..CommaMatch(s).value])
  {
    hide Spaces;
    var w := Spaces(s);
    if CommaMatch(s).Some? {
      var t, tail := s[..CommaMatch(s).value], s[w + 1..];
      assert t[w] == ',' && t[..w] == s[..w] && t[w + 1..] == tail[..Spaces(tail)];
    }
    if IsPaddedComma(s[..n]) {
      var i :| 0 <= i < n && s[..n][i] == ',' && AllSpace(s[..n][..i]) && AllSpace(s[..n][i + 1..]);
      assert s[i] == ',' && s[..n][..i] == s[..i];
      assert forall j :: 0 <= j < i ==> s[j] == s[..i][j];
      assert forall j :: 0 <= j < w ==> s[j] == s[..w][j];
      assert i == w;
      var tail := s[w + 1..];
      assert forall j :: 0 <= j < n - w - 1 ==> tail[j] == s[..n][i + 1..][j];
    }
  }

  /**
   * Splitting by \s*,\s*: `piece` is the text since the last match, `rest` what is still to be
   * searched. The first match from the left ends the piece.
   */
  function RegexSplit(piece: string, rest: string): seq<string>
    decreases |rest|
  {
    if rest == "" then [piece]
    else
      var m := CommaMatch(rest);
      if m.Some? then [piece] + RegexSplit("", rest[m.value..])
      else RegexSplit(piece + [rest[0]], rest[1..])
  }

  function SplitAndTrim(value: string): seq<string> {
    RegexSplit("", Trim(value))
  }

  // -------------------------------------------------------------------- the simple rule

  /** Splitting at every comma. */
  function SplitCommas(s: string): (pieces: seq<string>)
    ensures pieces != []
    ensures forall p :: p in pieces ==> ',' !in p
  {
    if s == "" then [""]
    else
      var more := SplitCommas(s[1..]);
      if s[0] == ',' then [""] + more else [[s[0]] + more[0]] + more[1..]
  }

  function TrimEach(pieces: seq<string>): seq<string> {
    seq(|pieces|, i requires 0 <= i < |pieces| => Trim(pieces[i]))
  }

  function Commas(s: string): nat {
    if s == "" then 0 else (if s[0] == ',' then 1 else 0) + Commas(s[1..])
  }

  // ----------------------------------------------------------------------- about Trim

  lemma TrimIsTrimmed(s: string)
    ensures IsTrimmed(Trim(s))
  {
    var t := TrimStart(s);
    assert Trim(s) != "" ==> Trim(s)[0] == t[0];
  }

  /** A trimmed text is the only one that padding with spaces can have come from. */
  lemma TrimOfPadded(before: string, s: string, after: string)
    requires AllSpace(before) && AllSpace(after) && IsTrimmed(s)
    ensures Trim(before + s + after) == s
  {
    var padded := before + s + after;
    SpacesOfPadded(before, s + after);
    assert before + (s + after) == padded;
    if s == "" {
      assert s + after == after;
      SpacesOfPadded(after, "");
      assert after + "" == after;
      assert TrimStart(padded) == "";
    } else {
      assert (s + after)[0] == s[0];
      assert TrimStart(padded) == s + after;
      TrimEndOfPadded(s, after);
    }
  }

  lemma {:induction false} SpacesOfPadded(before: string, s: string)
    requires AllSpace(before)
    ensures Spaces(before + s) == |before| + Spaces(s)
  {
    if before == "" {
      assert before + s == s;
    } else {
      assert (before + s)[1..] == before[1..] + s;
      SpacesOfPadded(before[1..], s);
    }
  }

  lemma {:induction false} TrimEndOfPadded(s: string, after: string)
    requires AllSpace(after) && (s == "" || !IsSpace(s[|s| - 1]))
    ensures TrimEnd(s + after) == s
    decreases |after|
  {
    if after == "" {
      assert s + after == s;
    } else {
      assert (s + after)[..|s + after| - 1] == s + after[..|after| - 1];
      TrimEndOfPadded(s, after[..|after| - 1]);
    }
  }

  /** Any text is its trimmed middle between spaces. */
  lemma TrimSplit(s: string) returns (before: string, after: string)
    ensures AllSpace(before) && AllSpace(after) && s == before + Trim(s) + after
    ensures IsTrimmed(Trim(s))
  {
    TrimIsTrimmed(s);
    var t := TrimStart(s);
    before, after := s[..Spaces(s)], t[|Trim(s)|..];
    assert s == before + t && t == Trim(s) + after;
  }

  lemma TrimIgnoresPadding(before: string, s: string, after: string)
    requires AllSpace(before) && AllSpace(after)
    ensures Trim(before + s + after) == Trim(s)
  {
    var b, a := TrimSplit(s);
    assert before + s + after == (before + b) + Trim(s) + (a + after);
    TrimOfPadded(before + b, Trim(s), a + after);
  }

  /** Exactly the white space and line terminators of ECMAScript are trimmed. */
  lemma TrimmedCharacters(c: char)
    ensures Trim([c]) == "" <==> c as int in {
              0x9, 0xA, 0xB, 0xC, 0xD, 0x20, 0xA0, 0x1680, 0x2000, 0x2001, 0x2002, 0x2003, 0x2004, 0x2005, 0x2006,
              0x2007, 0x2008, 0x2009, 0x200A, 0x2028, 0x2029, 0x202F, 0x205F, 0x3000, 0xFEFF}
  {
    if IsSpace(c) {
      assert AllSpace([c]);
      TrimOfPadded([c], "", "");
      assert [c] + "" + "" == [c];
    } else {
      TrimOfPadded("", [c], "");
      assert "" + [c] + "" == [c];
    }
  }

  // --------------------------------------------------------------- spaces around a list

  /** The pieces with text put in front of the first. */
  function InFront(text: string, pieces: seq<string>): (r: seq<string>)
    requires pieces != []
    ensures |r| == |pieces| && r[0] == text + pieces[0]
    ensures forall i :: 0 < i < |pieces| ==> r[i] == pieces[i]
  {
    pieces[0 := text + pieces[0]]
  }

  lemma SplitFirst(c: char, more: string)
    ensures SplitCommas([c] + more) == if c == ',' then [""] + SplitCommas(more) else InFront([c], SplitCommas(more))
  {
    assert ([c] + more)[1..] == more;
  }

  lemma {:induction false} SplitOfCommaFree(text: string, s: string)
    requires ',' !in text
    ensures SplitCommas(text + s) == InFront(text, SplitCommas(s))
  {
    if text == "" {
      assert text + s == s && text + SplitCommas(s)[0] == SplitCommas(s)[0];
    } else {
      assert (text + s)[1..] == text[1..] + s;
      assert text[0] in text && forall c :: c in text[1..] ==> c in text;
      SplitOfCommaFree(text[1..], s);
      assert [text[0]] + (text[1..] + SplitCommas(s)[0]) == text + SplitCommas(s)[0];
    }
  }

  lemma {:induction false} SplitBeforeSpaces(s: string, spaces: string)
    requires AllSpace(spaces)
    ensures var p := SplitCommas(s);
            SplitCommas(s + spaces) == p[|p| - 1 := p[|p| - 1] + spaces]
    decreases |s|
  {
    if s == "" {
      assert s + spaces == spaces + "" == spaces == "" + spaces;
      SplitOfCommaFree(spaces, "");
    } else {
      var c, more := s[0], s[1..];
      assert s == [c] + more && s + spaces == [c] + (more + spaces);
      SplitFirst(c, more);
      SplitFirst(c, more + spaces);
      SplitBeforeSpaces(more, spaces);
      hide SplitCommas;
      var q := SplitCommas(more);
      assert [c] + (q[0] + spaces) == [c] + q[0] + spaces;
    }
  }

  lemma TrimEachIgnoresPadding(before: string, s: string, after: string)
    requires AllSpace(before) && AllSpace(after)
    ensures TrimEach(SplitCommas(before + s + after)) == TrimEach(SplitCommas(s))
  {
    hide Trim, SplitCommas;
    var p := SplitCommas(s);
    var q := SplitCommas(before + s);
    SplitOfCommaFree(before, s);
    SplitBeforeSpaces(before + s, after);
    var n := |p| - 1;
    assert before + s + after == (before + s) + after;
    var r := SplitCommas(before + s + after);
    forall i | 0 <= i < |p| ensures Trim(r[i]) == Trim(p[i]) {
      var b, a := if i == 0 then before else "", if i == n then after else "";
      assert r[i] == b + p[i] + a;
      TrimIgnoresPadding(b, p[i], a);
    }
  }

  // ------------------------------------------------------------------ the refinement

  /** What holds while the search is between two commas of a trimmed text. */
  predicate SearchState(piece: string, rest: string) {
    && ',' !in piece
    && (piece != "" ==> !IsSpace(piece[0]))
    && (piece == "" && rest != "" ==> !IsSpace(rest[0]))
    && (rest != "" ==> !IsSpace(rest[|rest| - 1]))
    && (piece != "" && IsSpace(piece[|piece| - 1]) ==> rest != "" && CommaMatch(rest).None?)
  }

  lemma SearchStateMoves(piece: string, rest: string)
    requires SearchState(piece, rest) && rest != "" && CommaMatch(rest).None?
    ensures SearchState(piece + [rest[0]], rest[1..])
  {
    var c, more := rest[0], rest[1..];
    assert Spaces(rest) < |rest|;
    if IsSpace(c) {
      assert more != "";
      assert Spaces(rest) == 1 + Spaces(more) && rest[Spaces(rest)] == more[Spaces(more)];
    } else {
      assert Spaces(rest) == 0 && c != ',';
    }
    assert more != "" ==> more[|more| - 1] == rest[|rest| - 1];
  }

  lemma SearchStateAfterMatch(piece: string, rest: string)
    requires SearchState(piece, rest) && CommaMatch(rest).Some?
    ensures SearchState("", rest[CommaMatch(rest).value..])
    ensures IsTrimmed(piece)
  {
    var m := CommaMatch(rest).value;
    var w := Spaces(rest);
    var tail := rest[w + 1..];
    assert tail[Spaces(tail)..] == rest[m..];
  }

  lemma LonePiece(piece: string)
    requires ',' !in piece && IsTrimmed(piece)
    ensures TrimEach(SplitCommas(piece)) == [piece]
  {
    SplitOfCommaFree(piece, "");
    assert piece + "" == piece;
    TrimOfPadded("", piece, "");
    assert "" + piece + "" == piece;
  }

  lemma {:induction false} RegexSplitRefines(piece: string, rest: string)
    requires SearchState(piece, rest)
    ensures RegexSplit(piece, rest) == TrimEach(SplitCommas(piece + rest))
    decreases |rest|
  {
    hide Spaces, SplitCommas, Trim, CommaMatch;
    if rest == "" {
      LonePiece(piece);
      assert piece + "" == piece;
    } else if CommaMatch(rest).Some? {
      SearchStateAfterMatch(piece, rest);
      MatchEndsPiece(piece, rest);
      RegexSplitRefines("", rest[CommaMatch(rest).value..]);
      assert "" + rest[CommaMatch(rest).value..] == rest[CommaMatch(rest).value..];
    } else {
      SearchStateMoves(piece, rest);
      RegexSplitRefines(piece + [rest[0]], rest[1..]);
      assert piece + [rest[0]] + rest[1..] == piece + rest;
    }
  }

  /** A match is spaces, a comma, spaces; nothing else of the text is taken. */
  lemma MatchParts(rest: string) returns (before: string, after: string)
    requires CommaMatch(rest).Some?
    ensures AllSpace(before) && AllSpace(after)
    ensures rest == before + ([','] + (after + rest[CommaMatch(rest).value..]))
  {
    hide Spaces;
    var w := Spaces(rest);
    var tail := rest[w + 1..];
    before, after := rest[..w], tail[..Spaces(tail)];
    assert CommaMatch(rest).value == w + 1 + Spaces(tail);
    assert tail[Spaces(tail)..] == rest[CommaMatch(rest).value..];
    assert tail == after + tail[Spaces(tail)..];
    assert rest == before + ([','] + tail);
  }

  lemma SplitAtComma(text: string, s: string)
    requires ',' !in text
    ensures SplitCommas(text + ([','] + s)) == [text] + SplitCommas(s)
  {
    SplitFirst(',', s);
    SplitOfCommaFree(text, [','] + s);
    hide SplitCommas;
    assert text + "" == text;
  }

  lemma MatchEndsPiece(piece: string, rest: string)
    requires ',' !in piece && IsTrimmed(piece) && CommaMatch(rest).Some?
    ensures TrimEach(SplitCommas(piece + rest))
            == [piece] + TrimEach(SplitCommas(rest[CommaMatch(rest).value..]))
  {
    hide Spaces, SplitCommas, Trim, CommaMatch;
    var before, after := MatchParts(rest);
    var tail := rest[CommaMatch(rest).value..];
    assert piece + rest == (piece + before) + ([','] + (after + tail));
    SplitAtComma(piece + before, after + tail);
    TrimEachCons(piece + before, SplitCommas(after + tail));
    TrimOfPadded("", piece, before);
    assert "" + piece + before == piece + before;
    TrimEachIgnoresPadding(after, tail, "");
    assert after + tail + "" == after + tail;
  }

  lemma TrimEachCons(p: string, more: seq<string>)
    ensures TrimEach([p] + more) == [Trim(p)] + TrimEach(more)
  {
  }

  /** For every text: trimming it and splitting by \s*,\s* is splitting at each comma and trimming each piece. */
  lemma SplitAndTrimIsSplitThenTrim(value: string)
    ensures SplitAndTrim(value) == TrimEach(SplitCommas(value))
  {
    var before, after := TrimSplit(value);
    RegexSplitRefines("", Trim(value));
    assert "" + Trim(value) == Trim(value);
    TrimEachIgnoresPadding(before, Trim(value), after);
  }

  // -------------------------------------------------------------------- what follows

  lemma {:induction false} PieceCount(s: string)
    ensures |SplitCommas(s)| == Commas(s) + 1
  {
    if s != "" {
      PieceCount(s[1..]);
    }
  }

  /** One piece more than there are commas, each without commas or outer spaces. */
  lemma PiecesOfSplitAndTrim(value: string)
    ensures |SplitAndTrim(value)| == Commas(value) + 1
    ensures forall p :: p in SplitAndTrim(value) ==> IsTrimmed(p) && ',' !in p
  {
    SplitAndTrimIsSplitThenTrim(value);
    PieceCount(value);
    forall i | 0 <= i < |SplitCommas(value)|
      ensures IsTrimmed(SplitAndTrim(value)[i]) && ',' !in SplitAndTrim(value)[i]
    {
      var p := SplitCommas(value)[i];
      assert p in SplitCommas(value);
      var before, after := TrimSplit(p);
      assert forall c :: c in Trim(p) ==> c in before + Trim(p) + after;
    }
  }

  datatype Padded = Padded(before: string, item: string, after: string)

  function Render(p: Padded): string {
    p.before + p.item + p.after
  }

  /** Items with any padding, joined by commas. */
  function JoinPadded(items: seq<Padded>): string
    requires items != []
  {
    if |items| == 1 then Render(items[0]) else Render(items[0]) + "," + JoinPadded(items[1..])
  }

  predicate IsListItem(p: Padded) {
    AllSpace(p.before) && AllSpace(p.after) && IsTrimmed(p.item) && ',' !in p.item
  }

  lemma {:induction false} SplitOfJoin(items: seq<Padded>)
    requires items != [] && forall i :: 0 <= i < |items| ==> IsListItem(items[i])
    ensures SplitCommas(JoinPadded(items)) == seq(|items|, i requires 0 <= i < |items| => Render(items[i]))
  {
    var first := Render(items[0]);
    RenderIsCommaFree(items[0]);
    if |items| == 1 {
      SplitOfCommaFree(first, "");
      assert first + "" == first;
    } else {
      var tail := JoinPadded(items[1..]);
      SplitOfJoin(items[1..]);
      SplitAtComma(first, tail);
      assert first + "," + tail == first + ([','] + tail);
    }
  }

  lemma RenderIsCommaFree(p: Padded)
    requires IsListItem(p)
    ensures ',' !in Render(p)
  {
  }

  /** A non-empty list of trimmed, comma-free items is recovered from any padding. */
  lemma JoinedListIsRecovered(items: seq<Padded>)
    requires items != [] && forall i :: 0 <= i < |items| ==> IsListItem(items[i])
    ensures SplitAndTrim(JoinPadded(items)) == seq(|items|, i requires 0 <= i < |items| => items[i].item)
  {
    SplitAndTrimIsSplitThenTrim(JoinPadded(items));
    SplitOfJoin(items);
    forall i | 0 <= i < |items| ensures Trim(Render(items[i])) == items[i].item {
      TrimOfPadded(items[i].before, items[i].item, items[i].after);
    }
  }
}

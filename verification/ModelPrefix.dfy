/** Field names with a model prefix, and names written relative to it. */
module ModelPrefix {

  /** lastIndexOf("."), or -1. */
  function LastDot(name: string): (i: int)
    ensures -1 <= i < |name|
    ensures i >= 0 ==> name[i] == '.'
    ensures forall j :: i < j < |name| ==> name[j] != '.'
  {
    if name == "" then -1
    else if name[|name| - 1] == '.' then |name| - 1
    else LastDot(name[..|name| - 1])
  }

  function GetModelPrefix(fieldName: string): string {
    fieldName[..LastDot(fieldName) + 1]
  }

  function LastSegment(fieldName: string): string {
    fieldName[LastDot(fieldName) + 1..]
  }

  /**
   * The text a string replacement puts in, where the match is "*." at the very start and `tail`
   * follows it: $$ is a dollar, $& the match, $` what precedes it (nothing), $' what follows it.
   */
  function Expand(replacement: string, tail: string): string {
    if |replacement| < 2 || replacement[0] != '$' then
      if replacement == "" then "" else [replacement[0]] + Expand(replacement[1..], tail)
    else
      var c := replacement[1];
      if c == '$' then "$" + Expand(replacement[2..], tail)
      else if c == '&' then "*." + Expand(replacement[2..], tail)
      else if c == '`' then Expand(replacement[2..], tail)
      else if c == '\'' then tail + Expand(replacement[2..], tail)
      else "$" + Expand(replacement[1..], tail)
  }

  function AppendModelPrefix(value: string, prefix: string): string {
    if "*." <= value then Expand(prefix, value[2..]) + value[2..] else value
  }

  // ----------------------------------------------------------------------- prefixes

  /** The prefix ends with the last dot, and with the last segment it makes up the name. */
  lemma PrefixRebuildsName(fieldName: string)
    ensures GetModelPrefix(fieldName) + LastSegment(fieldName) == fieldName
    ensures '.' !in LastSegment(fieldName)
    ensures IsPrefix(GetModelPrefix(fieldName))
  {
  }

  predicate IsPrefix(p: string) {
    p == "" || p[|p| - 1] == '.'
  }

  /** There is no other way to split a name so. */
  lemma PrefixIsUnique(prefix: string, segment: string)
    requires IsPrefix(prefix) && '.' !in segment
    ensures GetModelPrefix(prefix + segment) == prefix
    ensures LastSegment(prefix + segment) == segment
  {
    var name := prefix + segment;
    var i := LastDot(name);
    assert prefix != "" ==> name[|prefix| - 1] == '.';
    assert forall j :: |prefix| <= j < |name| ==> name[j] in segment;
    assert i == |prefix| - 1;
    assert name[..|prefix|] == prefix && name[|prefix|..] == segment;
  }

  // ---------------------------------------------------------------- relative names

  /** A dollar followed by one of the characters that make it a replacement pattern. */
  predicate HasDollarPattern(text: string) {
    exists i :: 0 <= i < |text| - 1 && text[i] == '$' && text[i + 1] in "$&`'"
  }

  lemma HasDollarPatternStep(text: string)
    requires |text| >= 2
    ensures HasDollarPattern(text) <==>
            (text[0] == '$' && text[1] in "$&`'") || HasDollarPattern(text[1..])
  {
    var more := text[1..];
    if HasDollarPattern(text) {
      var i :| 0 <= i < |text| - 1 && text[i] == '$' && text[i + 1] in "$&`'";
      if i > 0 {
        assert more[i - 1] == '$' && more[i - 1 + 1] == text[i + 1];
      }
    }
    if HasDollarPattern(more) {
      var i :| 0 <= i < |more| - 1 && more[i] == '$' && more[i + 1] in "$&`'";
      assert text[i + 1] == '$' && text[i + 1 + 1] == more[i + 1];
    }
  }

  lemma {:induction false} NoPatternNoChange(text: string, tail: string)
    requires !HasDollarPattern(text)
    ensures Expand(text, tail) == text
    decreases |text|
  {
    if text != "" {
      assert text == [text[0]] + text[1..];
      if |text| >= 2 {
        HasDollarPatternStep(text);
      } else {
        assert text[1..] == "";
      }
      NoPatternNoChange(text[1..], tail);
    }
  }

  /** With nothing after the match, a pattern always changes the text. */
  lemma {:induction false} PatternChanges(text: string)
    ensures |Expand(text, "")| <= |text|
    ensures HasDollarPattern(text) ==> Expand(text, "") != text
    decreases |text|
  {
    if |text| >= 2 {
      HasDollarPatternStep(text);
      PatternChanges(text[2..]);
      PatternChanges(text[1..]);
      if text[0] == '$' && text[1] == '&' {
        assert Expand(text, "")[0] == '*';
      } else if !(text[0] == '$' && text[1] in "$&`'") {
        assert Expand(text, "")[1..] == Expand(text[1..], "");
      }
    } else if |text| == 1 {
      PatternChanges(text[1..]);
    }
  }

  /** A prefix is put in unchanged before every relative name exactly when no dollar in it starts a pattern. */
  lemma PrefixIsLiteralExactlyWithoutPattern(prefix: string)
    ensures (forall x :: AppendModelPrefix("*." + x, prefix) == prefix + x) <==> !HasDollarPattern(prefix)
  {
    if HasDollarPattern(prefix) {
      PatternChanges(prefix);
      assert ("*." + "")[2..] == "" && "*." <= "*." + "";
      assert AppendModelPrefix("*." + "", prefix) == Expand(prefix, "") + "" == Expand(prefix, "");
      assert prefix + "" == prefix;
    } else {
      forall x ensures AppendModelPrefix("*." + x, prefix) == prefix + x {
        assert ("*." + x)[2..] == x && "*." <= "*." + x;
        NoPatternNoChange(prefix, x);
      }
    }
  }

  /** A relative name without dots resolves to a sibling of the field; any other name stands for itself. */
  lemma RelativeNameIsSibling(fieldName: string, x: string)
    requires !HasDollarPattern(GetModelPrefix(fieldName)) && '.' !in x
    ensures var name := AppendModelPrefix("*." + x, GetModelPrefix(fieldName));
            GetModelPrefix(name) == GetModelPrefix(fieldName) && LastSegment(name) == x
    ensures forall value :: !("*." <= value) ==> AppendModelPrefix(value, GetModelPrefix(fieldName)) == value
  {
    var prefix := GetModelPrefix(fieldName);
    PrefixRebuildsName(fieldName);
    PrefixIsLiteralExactlyWithoutPattern(prefix);
    PrefixIsUnique(prefix, x);
  }

  /** What a dollar and the character behind it are replaced by, when x follows the match. */
  function PatternMeaning(c: char, x: string): string
    requires c in "$&`'"
  {
    if c == '$' then "$" else if c == '&' then "*." else if c == '`' then "" else x
  }

  lemma {:induction false} ExpandBehindPlain(a: string, rest: string, x: string)
    requires '$' !in a
    ensures Expand(a + rest, x) == a + Expand(rest, x)
  {
    if a == "" {
      assert a + rest == rest;
    } else {
      assert a[0] in a && forall c :: c in a[1..] ==> c in a;
      assert (a + rest)[1..] == a[1..] + rest;
      ExpandBehindPlain(a[1..], rest, x);
      assert [a[0]] + (a[1..] + Expand(rest, x)) == a + Expand(rest, x);
    }
  }

  /** A prefix with patterns: text without dollars stays, the first pattern becomes what it means, the rest goes on likewise. */
  lemma FirstPatternIsReplaced(a: string, c: char, b: string, x: string)
    requires '$' !in a && c in "$&`'"
    ensures AppendModelPrefix("*." + x, a + (['$', c] + b)) == a + PatternMeaning(c, x) + AppendModelPrefix("*." + x, b)
  {
    var rest, meaning := ['$', c] + b, PatternMeaning(c, x);
    RelativeNameIsExpanded(x, a + rest);
    RelativeNameIsExpanded(x, b);
    ExpandBehindPlain(a, rest, x);
    ExpandPattern(c, b, x);
    hide Expand, AppendModelPrefix, PatternMeaning;
    assert a + (meaning + Expand(b, x)) + x == a + meaning + (Expand(b, x) + x);
  }

  lemma ExpandPattern(c: char, b: string, x: string)
    requires c in "$&`'"
    ensures Expand(['$', c] + b, x) == PatternMeaning(c, x) + Expand(b, x)
  {
    assert (['$', c] + b)[2..] == b;
  }

  lemma RelativeNameIsExpanded(x: string, prefix: string)
    ensures AppendModelPrefix("*." + x, prefix) == Expand(prefix, x) + x
  {
    assert ("*." + x)[2..] == x && "*." <= "*." + x;
  }

  /** A name that does not begin with "*." stands for itself, whatever the prefix. */
  lemma OtherNamesStayAsTheyAre(value: string, prefix: string)
    requires |value| < 2 || value[0] != '*' || value[1] != '.'
    ensures AppendModelPrefix(value, prefix) == value
  {
  }
}

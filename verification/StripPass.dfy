/** The second pass over a module extracted from an RFC: cut the common indentation and squeeze
    blank lines. */
module StripPass {

  predicate IsBlank(s: string) {
    forall i | 0 <= i < |s| :: s[i] == ' ' || s[i] == '\t'
  }

  /** The number of leading spaces. */
  function Leading(s: string): (p: nat)
    ensures p <= |s| && (forall i | 0 <= i < p :: s[i] == ' ') && (p < |s| ==> s[p] != ' ')
  {
    if s == "" || s[0] != ' ' then 0 else Leading(s[1..]) + 1
  }

  /** `QString::remove(0, n)`. */
  function Remove(s: string, n: nat): string {
    if n <= |s| then s[n..] else ""
  }

  // ---------- the pass ----------

  /** The width found over the lines, starting from `strip`. */
  function WidthFrom(lines: seq<string>, strip: nat): (w: nat)
    ensures w <= strip
  {
    if lines == [] then strip
    else if !IsBlank(lines[0]) && Leading(lines[0]) < strip && |lines[0]| > Leading(lines[0]) then
      WidthFrom(lines[1..], Leading(lines[0]))
    else WidthFrom(lines[1..], strip)
  }

  function Width(lines: seq<string>): nat {
    WidthFrom(lines, 99)
  }

  /** The lines written when blank lines are pending or not. */
  function Squeezed(lines: seq<string>, strip: nat, pending: bool): seq<string> {
    if lines == [] then []
    else if IsBlank(lines[0]) then Squeezed(lines[1..], strip, true)
    else (if pending then [""] else []) + [Remove(lines[0], strip)] + Squeezed(lines[1..], strip, false)
  }

  function Pass(lines: seq<string>): seq<string> {
    Squeezed(lines, Width(lines), false)
  }

  method FindWidth(lines: seq<string>) returns (strip: nat)
    ensures strip == Width(lines)
  {
    strip := 99;
    var k := 0;
    while k < |lines|
      invariant k <= |lines| && Width(lines) == WidthFrom(lines[k..], strip)
    {
      var line := lines[k];
      if !IsBlank(line) {
        var p := Leading(line);
        if p < strip && |line| > p {
          strip := p;
        }
      }
      k := k + 1;
    }
  }

  method WritePass(lines: seq<string>) returns (out: seq<string>)
    ensures out == Pass(lines)
  {
    var strip := FindWidth(lines);
    out := [];
    var numBlank, k := 0, 0;
    while k < |lines|
      invariant k <= |lines| && numBlank >= 0
      invariant Pass(lines) == out + Squeezed(lines[k..], strip, numBlank > 0)
    {
      var line := lines[k];
      if IsBlank(line) {
        numBlank := numBlank + 1;
      } else {
        if numBlank > 0 {
          out := out + [""];
        }
        numBlank := 0;
        out := out + [Remove(line, strip)];
      }
      k := k + 1;
    }
  }

  // ---------- what is kept ----------

  /** A line that is not blank, and whether blank lines come right before it. */
  datatype Mark = Mark(spaced: bool, text: string)

  /** The non-blank lines of a text, in order; `spaced` says whether the text follows blank lines. */
  function Marks(lines: seq<string>, spaced: bool): seq<Mark> {
    if lines == [] then []
    else if IsBlank(lines[0]) then Marks(lines[1..], true)
    else [Mark(spaced, lines[0])] + Marks(lines[1..], false)
  }

  function Shorten(ms: seq<Mark>, n: nat): (r: seq<Mark>)
    ensures |r| == |ms| && forall i | 0 <= i < |ms| :: r[i] == Mark(ms[i].spaced, Remove(ms[i].text, n))
  {
    seq(|ms|, i requires 0 <= i < |ms| => Mark(ms[i].spaced, Remove(ms[i].text, n)))
  }

  /** A text from its marks: one empty line before each spaced line, nothing else. */
  function Laid(ms: seq<Mark>): seq<string> {
    if ms == [] then []
    else (if ms[0].spaced then [""] else []) + [ms[0].text] + Laid(ms[1..])
  }

  /** The common indentation: the smallest number of leading spaces of a non-blank line. */
  ghost predicate Indented(ms: seq<Mark>, n: nat) {
    forall i | 0 <= i < |ms| :: Leading(ms[i].text) >= n
  }

  lemma {:induction false} MarksNotBlank(lines: seq<string>, spaced: bool)
    ensures forall i | 0 <= i < |Marks(lines, spaced)| :: !IsBlank(Marks(lines, spaced)[i].text)
  {
    if lines != [] {
      MarksNotBlank(lines[1..], IsBlank(lines[0]));
    }
  }

  lemma {:induction false} NotAllSpaces(s: string)
    requires !IsBlank(s)
    ensures |s| > Leading(s)
  {
  }

  /** The width is the common indentation, but at most 99. */
  lemma {:induction false} WidthIsIndentation(lines: seq<string>, strip: nat, spaced: bool)
    ensures var w, ms := WidthFrom(lines, strip), Marks(lines, spaced);
      && Indented(ms, w)
      && (w == strip || exists i :: 0 <= i < |ms| && Leading(ms[i].text) == w)
  {
    if lines != [] {
      hide IsBlank;
      var line, rest := lines[0], lines[1..];
      if IsBlank(line) {
        WidthIsIndentation(rest, strip, true);
      } else {
        NotAllSpaces(line);
        var s := if Leading(line) < strip then Leading(line) else strip;
        WidthIsIndentation(rest, s, false);
        var ms := Marks(lines, spaced);
        assert ms[1..] == Marks(rest, false) && ms[0].text == line;
        var w := WidthFrom(rest, s);
        if w != s {
          var i :| 0 <= i < |ms[1..]| && Leading(ms[1..][i].text) == w;
          assert Leading(ms[i + 1].text) == w;
        }
      }
    }
  }

  lemma {:induction false} SqueezedLaid(lines: seq<string>, strip: nat, pending: bool)
    ensures Squeezed(lines, strip, pending) == Laid(Shorten(Marks(lines, pending), strip))
  {
    if lines != [] {
      hide IsBlank;
      if IsBlank(lines[0]) {
        SqueezedLaid(lines[1..], strip, true);
      } else {
        SqueezedLaid(lines[1..], strip, false);
        assert Shorten(Marks(lines, pending), strip)[1..] == Shorten(Marks(lines[1..], false), strip);
      }
    }
  }

  lemma {:induction false} MarksOfBlank(rest: seq<string>)
    ensures Marks([""] + rest, false) == Marks(rest, true)
  {
  }

  lemma {:induction false} MarksOfText(t: string, rest: seq<string>, spaced: bool)
    requires !IsBlank(t)
    ensures Marks([t] + rest, spaced) == [Mark(spaced, t)] + Marks(rest, false)
  {
  }

  lemma MarksOfNothing()
    ensures Marks([], false) == []
  {
  }

  lemma {:induction false} LaidMarks(ms: seq<Mark>)
    requires forall i | 0 <= i < |ms| :: !IsBlank(ms[i].text)
    ensures Marks(Laid(ms), false) == ms
  {
    hide IsBlank, Marks;
    if ms == [] {
      MarksOfNothing();
    } else {
      LaidMarks(ms[1..]);
      var rest := Laid(ms[1..]);
      MarksOfText(ms[0].text, rest, ms[0].spaced);
      assert [Mark(ms[0].spaced, ms[0].text)] + ms[1..] == ms;
      if ms[0].spaced {
        MarksOfBlank([ms[0].text] + rest);
        assert Laid(ms) == [""] + ([ms[0].text] + rest);
      } else {
        assert Laid(ms) == [ms[0].text] + rest;
      }
    }
  }

  /** Cutting within the leading spaces leaves a line that is still not blank. */
  lemma {:induction false} RemoveSpaces(s: string, n: nat)
    requires !IsBlank(s) && n <= Leading(s)
    ensures Remove(s, n) == s[n..] && !IsBlank(s[n..]) && (forall i | 0 <= i < n :: s[i] == ' ')
    ensures Leading(s[n..]) == Leading(s) - n
  {
  }

  lemma {:induction false} LeadingIs(s: string, p: nat)
    requires p < |s| && s[p] != ' ' && forall i | 0 <= i < p :: s[i] == ' '
    ensures Leading(s) == p
  {
  }

  // ---------- main results ----------

  /** The written file: the non-blank lines in order, each shortened by one common count of spaces and
      by nothing else; one empty line for each run of blank lines before a non-blank line; and no other
      line.  The count is the common indentation, but at most 99. */
  lemma {:induction false} PassMeaning(lines: seq<string>)
    ensures var w, ms := Width(lines), Marks(lines, false);
      && Pass(lines) == Laid(Shorten(ms, w))
      && Marks(Pass(lines), false) == Shorten(ms, w)
      && (forall i | 0 <= i < |ms| ::
            w <= |ms[i].text| && Remove(ms[i].text, w) == ms[i].text[w..]
            && (forall k | 0 <= k < w :: ms[i].text[k] == ' '))
      && w <= 99 && (w == 99 || exists i :: 0 <= i < |ms| && Leading(ms[i].text) == w)
  {
    hide IsBlank;
    var w, ms := Width(lines), Marks(lines, false);
    SqueezedLaid(lines, w, false);
    WidthIsIndentation(lines, 99, false);
    MarksNotBlank(lines, false);
    forall i | 0 <= i < |ms|
      ensures !IsBlank(Shorten(ms, w)[i].text)
      ensures w <= |ms[i].text| && Remove(ms[i].text, w) == ms[i].text[w..]
      ensures forall k | 0 <= k < w :: ms[i].text[k] == ' '
    {
      RemoveSpaces(ms[i].text, w);
    }
    LaidMarks(Shorten(ms, w));
  }

  lemma {:induction false} WidthBounds(lines: seq<string>)
    ensures Indented(Marks(lines, false), Width(lines))
    ensures Width(lines) == 99
      || exists i :: 0 <= i < |Marks(lines, false)| && Leading(Marks(lines, false)[i].text) == Width(lines)
    ensures Width(lines) <= 99
  {
    WidthIsIndentation(lines, 99, false);
  }

  /** The marks of the text a pass has written. */
  lemma {:induction false} PassShortens(lines: seq<string>)
    ensures var w, ms, ms' := Width(lines), Marks(lines, false), Marks(Pass(lines), false);
      |ms'| == |ms| && forall i | 0 <= i < |ms| :: Leading(ms'[i].text) == Leading(ms[i].text) - w
  {
    hide IsBlank, Marks, Leading, Pass, Width;
    PassMeaning(lines);
    MarksNotBlank(lines, false);
    var w, ms := Width(lines), Marks(lines, false);
    WidthBounds(lines);
    forall i | 0 <= i < |ms|
      ensures Leading(Marks(Pass(lines), false)[i].text) == Leading(ms[i].text) - w
    {
      RemoveSpaces(ms[i].text, w);
    }
  }

  lemma ShortenNothing(ms: seq<Mark>, n: nat)
    requires n == 0 || ms == []
    ensures Shorten(ms, n) == ms
  {
  }

  lemma {:induction false} DeepIsCutAgain(lines: seq<string>)
    requires Marks(lines, false) != []
    requires forall i | 0 <= i < |Marks(lines, false)| :: Leading(Marks(lines, false)[i].text) > 99
    ensures Pass(Pass(lines)) != Pass(lines)
  {
    hide IsBlank, Marks, Pass, Width, Laid;
    var once := Pass(lines);
    PassShortens(lines);
    WidthBounds(lines);
    WidthBounds(once);
    PassMeaning(once);
    MarksNotBlank(once, false);
    var w', ms' := Width(once), Marks(once, false);
    assert Leading(ms'[0].text) > 0;
    assert w' > 0;
    assert Remove(ms'[0].text, w') != ms'[0].text;
  }

  lemma SomeAtWidth(ms: seq<Mark>, w: nat, i: nat) returns (k: nat)
    requires i < |ms| && Leading(ms[i].text) <= 99 && Indented(ms, w)
    requires w == 99 || exists k :: 0 <= k < |ms| && Leading(ms[k].text) == w
    ensures k < |ms| && Leading(ms[k].text) == w
  {
    hide Leading;
    if w == 99 {
      k := i;
    } else {
      k :| 0 <= k < |ms| && Leading(ms[k].text) == w;
    }
  }

  /** A second pass changes nothing exactly when there is no non-blank line or some non-blank line is
      indented by at most 99 spaces. */
  lemma {:induction false} PassIdempotent(lines: seq<string>)
    ensures var ms := Marks(lines, false);
      Pass(Pass(lines)) == Pass(lines) <==> ms == [] || exists i :: 0 <= i < |ms| && Leading(ms[i].text) <= 99
  {
    hide IsBlank, Marks, Leading, Pass, Width, Laid, Remove;
    var w, ms := Width(lines), Marks(lines, false);
    var once := Pass(lines);
    var w', ms' := Width(once), Marks(once, false);
    PassShortens(lines);
    WidthBounds(lines);
    WidthBounds(once);
    PassMeaning(lines);
    PassMeaning(once);
    if ms == [] || exists i :: 0 <= i < |ms| && Leading(ms[i].text) <= 99 {
      if ms != [] {
        var i :| 0 <= i < |ms| && Leading(ms[i].text) <= 99;
        var k := SomeAtWidth(ms, w, i);
        assert Leading(ms'[k].text) == 0;
      }
      ShortenNothing(ms', w');
    } else {
      DeepIsCutAgain(lines);
    }
  }

  /** One line indented by 100 spaces is cut by 99 the first time and by the last one the second time. */
  lemma DeepLine()
    ensures Pass(Pass([seq(100, _ => ' ') + "x"])) != Pass([seq(100, _ => ' ') + "x"])
  {
    var line := seq(100, _ => ' ') + "x";
    LeadingIs(line, 100);
    assert line[100] == 'x' && !IsBlank(line);
    MarksOfText(line, [], false);
    assert [line] + [] == [line] && Marks([], false) == [];
    assert Marks([line], false) == [Mark(false, line)];
    DeepIsCutAgain([line]);
  }

  lemma {:induction false} WidthStep(line: string, rest: seq<string>, strip: nat)
    ensures WidthFrom([line] + rest, strip)
      == var p := Leading(line); WidthFrom(rest, if !IsBlank(line) && p < strip && |line| > p then p else strip)
  {
    assert ([line] + rest)[1..] == rest;
  }

  lemma {:induction false} SqueezedStep(line: string, rest: seq<string>, strip: nat, pending: bool)
    ensures Squeezed([line] + rest, strip, pending) == if IsBlank(line) then Squeezed(rest, strip, true)
      else (if pending then [""] else []) + [Remove(line, strip)] + Squeezed(rest, strip, false)
  {
    assert ([line] + rest)[1..] == rest;
  }

  /** A line of tabs is a blank line, and only the blanks in front of a line are its indentation. */
  lemma TabLines()
    ensures Pass(["  a", "\t", "   b"]) == ["a", "", " b"]
    ensures Pass(["\tb"]) == ["\tb"]
  {
    LeadingIs("  a", 2);
    LeadingIs("   b", 3);
    LeadingIs("\tb", 0);
    assert IsBlank("\t") && !IsBlank("\tb") && "  a"[2] == 'a' && "   b"[3] == 'b' && "\tb"[1] == 'b';
    hide Leading, WidthFrom, Squeezed, IsBlank;
    WidthStep("  a", ["\t"] + (["   b"] + []), 99);
    WidthStep("\t", ["   b"] + [], 2);
    WidthStep("   b", [], 2);
    SqueezedStep("  a", ["\t"] + (["   b"] + []), 2, false);
    SqueezedStep("\t", ["   b"] + [], 2, false);
    SqueezedStep("   b", [], 2, true);
    WidthStep("\tb", [], 99);
    SqueezedStep("\tb", [], 0, false);
    assert ["  a", "\t", "   b"] == ["  a"] + (["\t"] + (["   b"] + [])) && ["\tb"] == ["\tb"] + [];
  }
}

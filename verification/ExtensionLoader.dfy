/** daemon/extension/ExtensionLoader.cpp: reading the choices in the comment of a script option. */
module OptionChoices {
  import opened Sequences

  datatype Elements = Elements(words: seq<string>, delimiter: string)

  /** The answer when the whole text has been read. */
  function Finish(elements: seq<string>): Elements {
    Elements(elements, if |elements| == 1 then "" else ",")
  }

  /** The first comma or space of `t` that is not its last character; the last position if there is none. */
  function BreakAt(t: string): (p: nat)
    requires t != ""
    ensures p < |t| && forall k :: 0 <= k < p ==> t[k] != ' ' && t[k] != ','
    ensures p < |t| - 1 ==> t[p] == ' ' || t[p] == ','
  {
    if |t| == 1 || t[0] == ' ' || t[0] == ',' then 0 else 1 + BreakAt(t[1..])
  }

  /** What becomes of the rest `s` of the text `whole`, with a word begun and elements found before it. */
  function Scan(s: string, whole: string, word: string, elements: seq<string>): Elements
    decreases |s|
  {
    if s == "" then Finish(elements)
    else if |s| == 1 then Finish(elements + [word + s])
    else if s[0] == ',' then Scan(s[1..], whole, "", elements + [word])
    else if s[0] == ' ' then if word == "" then Scan(s[1..], whole, word, elements) else Elements([whole], "")
    else if s[0] == '-' && elements == [] then AfterDash(s[1..], whole, word)
    else Scan(s[1..], whole, word + [s[0]], elements)
  }

  /** The first dash, with `t` behind it: of a range if `t` is plain to its end, else of the word. */
  function AfterDash(t: string, whole: string, word: string): Elements
    requires t != ""
    decreases |t|
  {
    var p := BreakAt(t);
    if p == |t| - 1 then Elements([word, t], "-")
    else if t[p] == ' ' then Elements([whole], "")
    else Scan(t[p + 1..], whole, "", [word + "-" + t[..p]])
  }

  function Extracted(str: string): Elements {
    Scan(str, str, "", [])
  }

  /** The inner loop: collects what follows a dash at `i` up to a comma, a space or the last character. */
  method ReadRest(str: string, i: nat) returns (restWord: string, j: nat)
    requires i < |str| - 1
    ensures i < j < |str| && restWord == str[i + 1..][..j - i - 1]
    ensures j - i - 1 == BreakAt(str[i + 1..])
  {
    restWord, j := "", i + 1;
    ghost var t := str[i + 1..];
    while j < |str| - 1 && str[j] != ' ' && str[j] != ','
      invariant i < j < |str| && restWord == t[..j - i - 1]
      invariant BreakAt(t) == j - i - 1 + BreakAt(t[j - i - 1..])
    {
      assert t[j - i - 1..][1..] == t[j - i..];
      restWord := restWord + [str[j]];
      j := j + 1;
    }
  }

  /** One character of the scan, by position. */
  lemma ScanStep(str: string, i: nat, word: string, elements: seq<string>)
    requires i < |str|
    ensures var r, next := Scan(str[i..], str, word, elements), str[i + 1..];
      if i == |str| - 1 then r == Finish(elements + [word + [str[i]]])
      else if str[i] == ',' then r == Scan(next, str, "", elements + [word])
      else if str[i] == ' ' then r == if word == "" then Scan(next, str, word, elements) else Elements([str], "")
      else if str[i] == '-' && elements == [] then r == AfterDash(next, str, word)
      else r == Scan(next, str, word + [str[i]], elements)
  {
    assert str[i..][1..] == str[i + 1..];
    assert i == |str| - 1 ==> str[i..] == [str[i]];
  }

  /** `ExtractElements`. */
  method ExtractElements(str: string) returns (r: Elements)
    ensures r == Extracted(str)
  {
    var elements: seq<string> := [];
    var word := "";
    var i := 0;
    assert str[0..] == str;
    while i < |str|
      invariant i <= |str|
      invariant Extracted(str) == Scan(str[i..], str, word, elements)
    {
      ScanStep(str, i, word, elements);
      if i == |str| - 1 {
        word := word + [str[i]];
        elements := elements + [word];
        return Finish(elements);
      }
      if str[i] == ',' {
        elements := elements + [word];
        word := "";
      } else if str[i] == ' ' {
        if word != "" {
          return Elements([str], "");
        }
      } else if str[i] == '-' && elements == [] {
        var restWord, j := ReadRest(str, i);
        AfterDashStep(str, i, j, word);
        if j >= |str| - 1 {
          restWord := restWord + [str[j]];
          return Elements([word, restWord], "-");
        }
        if str[j] == ' ' {
          return Elements([str], "");
        }
        word := word + "-" + restWord;
        elements := [word];
        word := "";
        i := j;
      } else {
        word := word + [str[i]];
      }
      i := i + 1;
    }
    r := Finish(elements);
  }

  lemma AfterDashStep(str: string, i: nat, j: nat, word: string)
    requires i < j < |str| && j - i - 1 == BreakAt(str[i + 1..])
    ensures var r, restWord := AfterDash(str[i + 1..], str, word), str[i + 1..][..j - i - 1];
      if j >= |str| - 1 then r == Elements([word, restWord + [str[j]]], "-")
      else if str[j] == ' ' then r == Elements([str], "")
      else r == Scan(str[j + 1..], str, "", [word + "-" + restWord])
  {
    var t := str[i + 1..];
    assert t[j - i - 1] == str[j] && t[j - i..] == str[j + 1..];
    assert j == |str| - 1 ==> t == t[..j - i - 1] + [str[j]];
  }

  // ---- Reading back what was joined ------------------------------------------------------------

  /** A choice as it can be written down: not empty, without the characters that separate. */
  predicate IsPlain(s: string) {
    ',' !in s && ' ' !in s
  }

  function Spaces(n: nat): string {
    seq(n, _ => ' ')
  }

  /** The words joined by commas, any number of spaces before each. */
  function Joined(words: seq<string>, pads: seq<nat>): string
    requires |words| == |pads|
  {
    if words == [] then ""
    else if |words| == 1 then Spaces(pads[0]) + words[0]
    else Spaces(pads[0]) + (words[0] + "," + Joined(words[1..], pads[1..]))
  }

  lemma {:induction false} SpacesAreSkipped(n: nat, s: string, whole: string, elements: seq<string>)
    requires s != ""
    ensures Scan(Spaces(n) + s, whole, "", elements) == Scan(s, whole, "", elements)
  {
    if n == 0 {
      assert Spaces(n) + s == s;
    } else {
      assert (Spaces(n) + s)[1..] == Spaces(n - 1) + s;
      SpacesAreSkipped(n - 1, s, whole, elements);
    }
  }

  /** A plain word up to a comma is one element, with or without dashes in it. */
  lemma {:induction false} WordIsRead(w: string, s: string, whole: string, word: string, elements: seq<string>)
    requires IsPlain(w) && s != ""
    ensures Scan(w + "," + s, whole, word, elements) == Scan(s, whole, "", elements + [word + w])
    decreases w
  {
    var text := w + "," + s;
    if w == "" {
      assert text[1..] == s && word + w == word;
    } else if w[0] == '-' && elements == [] {
      DashedWordIsRead(w[1..], s, whole, word);
      assert text == "-" + (w[1..] + "," + s);
      assert word + "-" + w[1..] == word + w && elements + [word + w] == [word + w];
    } else {
      assert text[1..] == w[1..] + "," + s;
      WordIsRead(w[1..], s, whole, word + [w[0]], elements);
      assert word + [w[0]] + w[1..] == word + w;
    }
  }

  lemma DashedWordIsRead(w: string, s: string, whole: string, word: string)
    requires IsPlain(w) && s != ""
    ensures Scan("-" + (w + "," + s), whole, word, []) == Scan(s, whole, "", [word + "-" + w])
  {
    var t := w + "," + s;
    assert ("-" + t)[1..] == t;
    PlainRuns(w, s);
    assert t[|w|] == ',' && t[..|w|] == w && t[|w| + 1..] == s;
  }

  lemma {:induction false} PlainRuns(w: string, s: string)
    requires IsPlain(w) && s != ""
    ensures BreakAt(w + "," + s) == |w|
    decreases w
  {
    if w != "" {
      assert (w + "," + s)[1..] == w[1..] + "," + s;
      PlainRuns(w[1..], s);
    }
  }

  lemma {:induction false} LastWordIsRead(w: string, whole: string, word: string, elements: seq<string>)
    requires IsPlain(w) && w != "" && elements != []
    ensures Scan(w, whole, word, elements) == Finish(elements + [word + w])
    decreases w
  {
    if |w| > 1 {
      LastWordIsRead(w[1..], whole, word + [w[0]], elements);
      assert word + [w[0]] + w[1..] == word + w;
    }
  }

  lemma {:induction false} ListIsRead(words: seq<string>, pads: seq<nat>, whole: string, elements: seq<string>)
    requires words != [] && |words| == |pads| && |elements| + |words| >= 2
    requires forall w :: w in words ==> IsPlain(w) && w != ""
    ensures Scan(Joined(words, pads), whole, "", elements) == Elements(elements + words, ",")
    decreases words
  {
    assert words[0] in words;
    if |words| == 1 {
      SpacesAreSkipped(pads[0], words[0], whole, elements);
      LastWordIsRead(words[0], whole, "", elements);
      assert "" + words[0] == words[0] && [words[0]] == words;
    } else {
      var rest := Joined(words[1..], pads[1..]);
      assert words[1] in words && words[1..][0] == words[1];
      SpacesAreSkipped(pads[0], words[0] + "," + rest, whole, elements);
      WordIsRead(words[0], rest, whole, "", elements);
      ListIsRead(words[1..], pads[1..], whole, elements + [words[0]]);
      assert "" + words[0] == words[0];
      assert elements + [words[0]] + words[1..] == elements + words;
    }
  }

  /** Two or more choices joined by commas come back, whatever spaces follow the commas. */
  lemma ListRoundTrip(words: seq<string>, pads: seq<nat>)
    requires |words| == |pads| >= 2
    requires forall w :: w in words ==> IsPlain(w) && w != ""
    ensures Extracted(Joined(words, pads)) == Elements(words, ",")
  {
    ListIsRead(words, pads, Joined(words, pads), []);
    assert [] + words == words;
  }

  /** Two ends around a dash: the first is free of dashes; the last character of the second is never looked at. */
  predicate IsRange(a: string, b: string) {
    IsPlain(a) && '-' !in a && b != "" && IsPlain(b[..|b| - 1])
  }

  lemma {:induction false} PlainToTheEnd(b: string)
    requires b != ""
    ensures BreakAt(b) == |b| - 1 <==> IsPlain(b[..|b| - 1])
    decreases b
  {
    if |b| > 1 {
      assert b[..|b| - 1] == [b[0]] + b[1..][..|b| - 2];
      PlainToTheEnd(b[1..]);
    }
  }

  lemma {:induction false} RangeIsRead(a: string, b: string, whole: string, word: string)
    requires IsRange(a, b)
    ensures Scan(a + "-" + b, whole, word, []) == Elements([word + a, b], "-")
    decreases a
  {
    var text := a + "-" + b;
    if a == "" {
      assert text[1..] == b && word + a == word;
      PlainToTheEnd(b);
    } else {
      assert text[1..] == a[1..] + "-" + b;
      RangeIsRead(a[1..], b, whole, word + [a[0]]);
      assert word + [a[0]] + a[1..] == word + a;
    }
  }

  /** Once an element has been found, the text is no range. */
  lemma {:induction false} ListIsNoRange(s: string, whole: string, word: string, elements: seq<string>)
    requires elements != []
    ensures Scan(s, whole, word, elements).delimiter != "-"
    decreases |s|
  {
    if |s| > 1 {
      if s[0] == ',' {
        ListIsNoRange(s[1..], whole, "", elements + [word]);
      } else if s[0] == ' ' {
        ListIsNoRange(s[1..], whole, word, elements);
      } else {
        ListIsNoRange(s[1..], whole, word + [s[0]], elements);
      }
    }
  }

  lemma {:induction false} RangeIsFound(s: string, whole: string, word: string) returns (n: nat, a: string, b: string)
    requires Scan(s, whole, word, []).delimiter == "-"
    ensures IsRange(a, b) && s == Spaces(n) + (a + "-" + b) && (word != "" ==> n == 0)
    decreases |s|
  {
    assert s[0] != ',' by {
      if s[0] == ',' && |s| > 1 {
        ListIsNoRange(s[1..], whole, "", [] + [word]);
      }
    }
    if s[0] == ' ' {
      n, a, b := RangeIsFound(s[1..], whole, word);
      n := n + 1;
    } else if s[0] == '-' {
      n, a, b := 0, "", s[1..];
      PlainToTheEnd(b);
      if BreakAt(b) != |b| - 1 && b[BreakAt(b)] == ',' {
        ListIsNoRange(b[BreakAt(b) + 1..], whole, "", [word + "-" + b[..BreakAt(b)]]);
      }
    } else {
      n, a, b := RangeIsFound(s[1..], whole, word + [s[0]]);
      a := [s[0]] + a;
    }
  }

  /** A range comes back as its two ends, and only a range is taken for one. */
  lemma RangeIff(str: string)
    ensures Extracted(str).delimiter == "-" <==>
      exists n, a, b :: IsRange(a, b) && str == Spaces(n) + (a + "-" + b)
    ensures forall n, a, b :: IsRange(a, b) && str == Spaces(n) + (a + "-" + b) ==>
      Extracted(str) == Elements([a, b], "-")
  {
    forall n: nat, a, b | IsRange(a, b) && str == Spaces(n) + (a + "-" + b)
      ensures Extracted(str) == Elements([a, b], "-")
    {
      SpacesAreSkipped(n, a + "-" + b, str, []);
      RangeIsRead(a, b, str, "");
      assert "" + a == a;
    }
    if Extracted(str).delimiter == "-" {
      var n, a, b := RangeIsFound(str, str, "");
    }
  }

  // ---- How many elements there are -------------------------------------------------------------

  /** A space right after a character of a word. */
  predicate EndsWord(s: string, i: nat, inWord: bool) {
    i < |s| - 1 && s[i] == ' ' && if i == 0 then inWord else s[i - 1] != ' ' && s[i - 1] != ','
  }

  /** Somewhere before the last character a space ends a word. */
  predicate SpaceInside(s: string, inWord: bool) {
    exists i :: 0 <= i < |s| && EndsWord(s, i, inWord)
  }

  /** How many commas there are before the last character. */
  function Commas(s: string): nat {
    if |s| <= 1 then 0 else if s[0] == ',' then 1 + Commas(s[1..]) else Commas(s[1..])
  }

  lemma SpaceInsideStep(s: string, inWord: bool)
    requires |s| > 1
    ensures SpaceInside(s, inWord) <==> (s[0] == ' ' && inWord) || SpaceInside(s[1..], s[0] != ' ' && s[0] != ',')
  {
    var next := s[0] != ' ' && s[0] != ',';
    assert EndsWord(s, 0, inWord) <==> s[0] == ' ' && inWord;
    forall i: nat | i < |s| - 1
      ensures EndsWord(s, i + 1, inWord) <==> EndsWord(s[1..], i, next)
    {
      assert i > 0 ==> s[1..][i - 1] == s[i];
    }
    if SpaceInside(s, inWord) {
      var i :| 0 <= i < |s| && EndsWord(s, i, inWord);
      assert i > 0 ==> EndsWord(s[1..], i - 1, next);
    }
  }

  /** What follows a dash, up to the first comma or space. */
  lemma {:induction false} AfterDashShape(t: string)
    requires t != ""
    ensures var p := BreakAt(t);
      if p == |t| - 1 then !SpaceInside(t, true)
      else if t[p] == ' ' then SpaceInside(t, true)
      else (SpaceInside(t, true) <==> SpaceInside(t[p + 1..], false)) && Commas(t) == 1 + Commas(t[p + 1..])
    decreases |t|
  {
    if |t| > 1 {
      SpaceInsideStep(t, true);
      if t[0] != ' ' && t[0] != ',' {
        AfterDashShape(t[1..]);
        assert t[1..][BreakAt(t[1..]) + 1..] == t[BreakAt(t) + 1..];
      }
    }
  }

  lemma {:induction false} ScanShape(s: string, whole: string, word: string, elements: seq<string>)
    requires s != ""
    ensures var r := Scan(s, whole, word, elements);
      if SpaceInside(s, word != "") then r == Elements([whole], "")
      else r.delimiter == "-" || (|r.words| == |elements| + 1 + Commas(s) && r == Finish(r.words))
    decreases |s|
  {
    if |s| > 1 {
      SpaceInsideStep(s, word != "");
      if s[0] == ',' {
        ScanShape(s[1..], whole, "", elements + [word]);
      } else if s[0] == ' ' {
        if word == "" {
          ScanShape(s[1..], whole, word, elements);
        }
      } else if s[0] == '-' && elements == [] {
        var t := s[1..];
        var p := BreakAt(t);
        AfterDashShape(t);
        if p < |t| - 1 && t[p] == ',' {
          ScanShape(t[p + 1..], whole, "", [word + "-" + t[..p]]);
        }
      } else {
        ScanShape(s[1..], whole, word + [s[0]], elements);
      }
    }
  }

  /** A space that ends a word before the last character makes the whole text the one element. Otherwise a text that is
      no range has one element more than commas, its last character not counted, and no delimiter if it is one. */
  lemma HowMany(str: string)
    requires str != ""
    ensures var r := Extracted(str);
      if SpaceInside(str, false) then r == Elements([str], "")
      else if r.delimiter == "-" then |r.words| == 2
      else |r.words| == Commas(str) + 1 && (r.delimiter == "" <==> Commas(str) == 0) && r.delimiter in {"", ","}
  {
    ScanShape(str, str, "", []);
    if Extracted(str).delimiter == "-" {
      RangeIff(str);
    }
  }

  /** One plain word that is no range comes back alone. */
  lemma OneWord(w: string, n: nat)
    requires IsPlain(w) && w != "" && '-' !in w
    ensures Extracted(Spaces(n) + w) == Elements([w], "")
  {
    SpacesAreSkipped(n, w, Spaces(n) + w, []);
    NoDashIsRead(w, Spaces(n) + w, "");
    assert "" + w == w;
  }

  lemma {:induction false} NoDashIsRead(w: string, whole: string, word: string)
    requires IsPlain(w) && w != "" && '-' !in w
    ensures Scan(w, whole, word, []) == Elements([word + w], "")
    decreases w
  {
    if |w| > 1 {
      NoDashIsRead(w[1..], whole, word + [w[0]]);
      assert word + [w[0]] + w[1..] == word + w;
    }
  }

  // ---- Nothing but spaces is lost --------------------------------------------------------------

  function Visible(s: string): string {
    Filter(c => c != ' ', s)
  }

  lemma VisibleConcat(a: string, b: string)
    ensures Visible(a + b) == Visible(a) + Visible(b)
  {
    FilterConcat(c => c != ' ', a, b);
  }

  function Written(words: seq<string>, delimiter: string): string {
    if words == [] then ""
    else if |words| == 1 then words[0]
    else Written(words[..|words| - 1], delimiter) + delimiter + words[|words| - 1]
  }

  /** The elements and the word begun, as they were written. */
  function SoFar(elements: seq<string>, word: string): string {
    Written(elements + [word], ",")
  }

  lemma SoFarGrows(elements: seq<string>, word: string, c: string)
    ensures SoFar(elements, word + c) == SoFar(elements, word) + c
    ensures SoFar(elements + [word], "") == SoFar(elements, word) + ","
  {
    assert (elements + [word])[..|elements|] == elements;
    assert (elements + [word + c])[..|elements|] == elements;
    assert (elements + [word] + [""])[..|elements| + 1] == elements + [word];
  }

  lemma {:induction false} ScanKeepsTheText(s: string, whole: string, word: string, elements: seq<string>)
    requires s != "" && Visible(SoFar(elements, word) + s) == Visible(whole)
    ensures var r := Scan(s, whole, word, elements);
      Visible(Written(r.words, r.delimiter)) == Visible(whole)
    decreases |s|
  {
    var sofar := SoFar(elements, word);
    SoFarGrows(elements, word, [s[0]]);
    assert sofar + s == sofar + [s[0]] + s[1..];
    if |s| == 1 {
      assert s == [s[0]];
    } else if s[0] == ',' {
      ScanKeepsTheText(s[1..], whole, "", elements + [word]);
    } else if s[0] == ' ' {
      if word == "" {
        VisibleConcat(sofar, s);
        VisibleConcat(sofar, s[1..]);
        ScanKeepsTheText(s[1..], whole, word, elements);
      }
    } else if s[0] == '-' && elements == [] {
      var t := s[1..];
      var p := BreakAt(t);
      assert sofar == word;
      if p == |t| - 1 {
        assert Written([word, t], "-") == word + "-" + t;
      } else if t[p] == ',' {
        var w := word + "-" + t[..p];
        SoFarGrows([], w, "");
        assert [] + [w] == [w] && SoFar([w], "") == w + ",";
        assert w + "," + t[p + 1..] == sofar + s;
        ScanKeepsTheText(t[p + 1..], whole, "", [w]);
      }
    } else {
      ScanKeepsTheText(s[1..], whole, word + [s[0]], elements);
    }
  }

  /** Whatever the text, its elements written with their delimiter show all of it but spaces. */
  lemma ElementsKeepTheText(str: string)
    ensures var r := Extracted(str);
      Visible(Written(r.words, r.delimiter)) == Visible(str)
  {
    if str != "" {
      assert SoFar([], "") + str == str;
      ScanKeepsTheText(str, str, "", []);
    }
  }
}

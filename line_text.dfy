/** The registry's text formats: names written one per line, and lines read
    back the way `BufferedReader.readLine` splits them and the load loop
    filters them. */
module LineText {
  import opened JavaString

  /** A registered name: non-empty and already trimmed. */
  predicate IsName(s: string) {
    s != [] && IsTrimmed(s)
  }

  /** Every line is empty or blank. */
  predicate AllBlankLines(lines: seq<string>) {
    forall i :: 0 <= i < |lines| ==> AllBlank(lines[i])
  }

  /** The names a sequence of read lines yields: every line trimmed, blank
      ones dropped, file order kept. */
  function ParseNames(lines: seq<string>): (r: seq<string>)
    ensures |r| <= |lines|
    ensures forall i :: 0 <= i < |r| ==> IsName(r[i])
  {
    if |lines| == 0 then []
    else
      var name := Trim(lines[|lines| - 1]);
      ParseNames(lines[..|lines| - 1]) + (if name == [] then [] else [name])
  }

  /** A load finds no name exactly when every line is blank. */
  lemma {:induction false} ParseNamesEmpty(lines: seq<string>)
    ensures ParseNames(lines) == [] <==> AllBlankLines(lines)
  {
    if |lines| != 0 {
      var init := lines[..|lines| - 1];
      ParseNamesEmpty(init);
      assert AllBlankLines(lines) <==> AllBlankLines(init) && AllBlank(lines[|lines| - 1]) by {
        assert forall i :: 0 <= i < |init| ==> lines[i] == init[i];
      }
    }
  }

  /** Lines made only of names parse back to exactly those names. */
  lemma {:induction false} ParseNamesOfNames(names: seq<string>)
    requires forall i :: 0 <= i < |names| ==> IsName(names[i])
    ensures ParseNames(names) == names
  {
    if |names| != 0 {
      var init, last := names[..|names| - 1], names[|names| - 1];
      ParseNamesOfNames(init);
      TrimOfTrimmed(last);
      assert ParseNames(names) == init + [last];
      assert names == init + [last];
    }
  }

  /** Each name followed by the line separator, in order: the display text
      (separator "\n") and the saved file (separator `BufferedWriter.newLine`). */
  function Serialize(names: seq<string>, newline: string): (r: string)
    ensures newline != [] ==> (r == [] <==> names == [])
    ensures |r| >= |names| * |newline|
  {
    if |names| == 0 then [] else names[0] + newline + Serialize(names[1..], newline)
  }

  /** Appending a name appends its line, which is what the write loops rely on. */
  lemma {:induction false} SerializeAppend(names: seq<string>, x: string, newline: string)
    ensures Serialize(names + [x], newline) == Serialize(names, newline) + x + newline
  {
    if |names| == 0 {
      assert [x][1..] == [];
    } else {
      assert (names + [x])[1..] == names[1..] + [x];
      SerializeAppend(names[1..], x, newline);
    }
  }

  /** `readLine` ends a line at '\n', at '\r', or at "\r\n". */
  predicate IsTerminator(c: char) { c == '\n' || c == '\r' }

  predicate HasNoTerminator(s: string) {
    forall i :: 0 <= i < |s| ==> !IsTerminator(s[i])
  }

  /** Index of the first line terminator, or the length if there is none. */
  function LineEnd(s: string): (k: nat)
    ensures k <= |s|
    ensures HasNoTerminator(s[..k])
    ensures k < |s| ==> IsTerminator(s[k])
  {
    if |s| == 0 || IsTerminator(s[0]) then 0
    else
      var k := 1 + LineEnd(s[1..]);
      assert forall i :: 1 <= i < k ==> s[..k][i] == s[1..][..k - 1][i - 1];
      k
  }

  /** The lines successive `readLine` calls return for `text`, until null. */
  function ReadLines(text: string): (r: seq<string>)
    ensures r == [] <==> text == []
    ensures forall i :: 0 <= i < |r| ==> HasNoTerminator(r[i])
    decreases |text|
  {
    if |text| == 0 then []
    else
      var k := LineEnd(text);
      if k == |text| then [text]
      else if text[k] == '\r' && k + 1 < |text| && text[k + 1] == '\n' then [text[..k]] + ReadLines(text[k + 2..])
      else [text[..k]] + ReadLines(text[k + 1..])
  }

  /** Trimming cannot introduce a line terminator. */
  lemma TrimKeepsNoTerminator(s: string)
    requires HasNoTerminator(s)
    ensures HasNoTerminator(Trim(s))
  {
    var st := SkipLeading(s, 0);
    var len := SkipTrailing(s, st, |s|);
    assert Trim(s) == s[st..len];
    assert forall i :: 0 <= i < len - st ==> Trim(s)[i] == s[st + i];
  }

  /** Names loaded from terminator-free lines are terminator-free. */
  lemma {:induction false} ParseNamesNoTerminator(lines: seq<string>)
    requires forall i :: 0 <= i < |lines| ==> HasNoTerminator(lines[i])
    ensures forall i :: 0 <= i < |ParseNames(lines)| ==> HasNoTerminator(ParseNames(lines)[i])
  {
    if |lines| != 0 {
      ParseNamesNoTerminator(lines[..|lines| - 1]);
      TrimKeepsNoTerminator(lines[|lines| - 1]);
    }
  }

  lemma {:induction false} LineEndAtTerminator(p: string, q: string)
    requires HasNoTerminator(p) && |q| != 0 && IsTerminator(q[0])
    ensures LineEnd(p + q) == |p|
  {
    if |p| != 0 {
      assert (p + q)[1..] == p[1..] + q;
      LineEndAtTerminator(p[1..], q);
    }
  }

  /** Reading back what was written with either line separator yields the
      same lines, as long as no line holds a terminator of its own. */
  lemma {:induction false} ReadLinesOfSerialize(lines: seq<string>, newline: string)
    requires newline == "\n" || newline == "\r\n"
    requires forall i :: 0 <= i < |lines| ==> HasNoTerminator(lines[i])
    ensures ReadLines(Serialize(lines, newline)) == lines
  {
    if |lines| != 0 {
      var first, rest := lines[0], Serialize(lines[1..], newline);
      var text := Serialize(lines, newline);
      assert text == first + (newline + rest);
      LineEndAtTerminator(first, newline + rest);
      assert text[..|first|] == first;
      assert text[|first| + |newline|..] == rest;
      ReadLinesOfSerialize(lines[1..], newline);
      assert lines == [first] + lines[1..];
    }
  }

  /** Saving names and loading the file again gives back the same names in
      the same order. */
  lemma SaveThenLoad(names: seq<string>, newline: string)
    requires newline == "\n" || newline == "\r\n"
    requires forall i :: 0 <= i < |names| ==> IsName(names[i]) && HasNoTerminator(names[i])
    ensures ParseNames(ReadLines(Serialize(names, newline))) == names
  {
    ReadLinesOfSerialize(names, newline);
    ParseNamesOfNames(names);
  }
}

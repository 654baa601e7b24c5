/** The name registry: the `names` list of the application window and the
    add, sort, display, load and save logic of its button handlers. */
module Registry {
  import opened JavaString
  import opened ListSort
  import opened NameOrder
  import opened LineText

  /** What the save button does: write the text, or refuse when the list is
      empty, with the message the text area then shows. */
  datatype SaveOutcome = Written(text: string) | NothingToSave(message: string)

  const EmptyNameMessage := "Please enter a valid name (non-empty)"
  const NoValidNamesMessage := "No valid names found in the file!"
  const NoNamesToSaveMessage := "No names to save!"

  class NameRegistry {
    var names: seq<string>

    /** Every registered name is non-empty, trimmed and a single line: the
        text field drops control characters on input, and `readLine` never
        returns a terminator. */
    ghost predicate Valid()
      reads this
    {
      forall i :: 0 <= i < |names| ==> IsName(names[i]) && HasNoTerminator(names[i])
    }

    /** What the button handlers keep: the list on display (and saved by
        "Save Sorted Names") is sorted by the comparator. */
    ghost predicate Ordered()
      reads this
    {
      Valid() && Sorted(names, NameLe)
    }

    constructor ()
      ensures Ordered() && names == []
    {
      names := [];
    }

    /** Add button: trim the typed text and append it unless nothing is left.
        The text field holds no line terminator. */
    method Add(text: string) returns (added: bool)
      requires Valid() && HasNoTerminator(text)
      modifies this
      ensures Valid()
      ensures added <==> !AllBlank(text)
      ensures added ==> names == old(names) + [Trim(text)]
      ensures !added ==> names == old(names)
    {
      var name := Trim(text);
      TrimKeepsNoTerminator(text);
      added := name != [];
      if added {
        names := names + [name];
      }
    }

    /** The two-level comparator applied by a stable sort. */
    method Sort()
      requires Valid()
      modifies this
      ensures Valid()
      ensures names == StableSort(old(names), NameLe)
      ensures Sorted(names, NameLe) && multiset(names) == multiset(old(names))
      ensures forall k :: Ties(names, k, NameLe) == Ties(old(names), k, NameLe)
    {
      var a := new string[|names|](i requires 0 <= i < |names| reads this => names[i]);
      assert a[..] == names;
      InsertionSort(a, NameLe);
      ghost var was := names;
      names := a[..];
      NameLeIsTotalPreorder();
      StableSortSorted(was, NameLe);
      StableSortPermutes(was, NameLe);
      forall k
        ensures Ties(names, k, NameLe) == Ties(was, k, NameLe)
      {
        StableSortStable(was, k, NameLe);
      }
      forall i | 0 <= i < |names|
        ensures IsName(names[i]) && HasNoTerminator(names[i])
      {
        assert names[i] in multiset(was);
      }
    }

    /** The display text: every name followed by "\n", in the current order. */
    method Render() returns (text: string)
      ensures text == Serialize(names, "\n")
    {
      text := "";
      for i := 0 to |names|
        invariant text == Serialize(names[..i], "\n")
      {
        SerializeAppend(names[..i], names[i], "\n");
        assert names[..i + 1] == names[..i] + [names[i]];
        text := text + names[i] + "\n";
      }
      assert names[..|names|] == names;
    }

    method SortAndDisplay() returns (text: string)
      requires Valid()
      modifies this
      ensures Valid()
      ensures names == StableSort(old(names), NameLe) && Sorted(names, NameLe)
      ensures text == Serialize(names, "\n")
    {
      Sort();
      text := Render();
    }

    /** Load: clear the list, then append every line's trim unless it is
        empty. Reports whether any name was found. The lines are those
        `readLine` returns, so none holds a terminator. */
    method LoadLines(lines: seq<string>) returns (found: bool)
      requires forall i :: 0 <= i < |lines| ==> HasNoTerminator(lines[i])
      modifies this
      ensures Valid()
      ensures names == ParseNames(lines)
      ensures found <==> !AllBlankLines(lines)
    {
      names := [];
      for i := 0 to |lines|
        invariant names == ParseNames(lines[..i])
      {
        assert lines[..i + 1][..i] == lines[..i];
        var line := Trim(lines[i]);
        if line != [] {
          names := names + [line];
        }
      }
      assert lines[..|lines|] == lines;
      found := names != [];
      ParseNamesEmpty(lines);
      ParseNamesNoTerminator(lines);
    }

    /** Save button and write loop: refused when the list is empty, otherwise
        every name followed by the platform line separator `newline`. */
    method Save(newline: string) returns (outcome: SaveOutcome)
      ensures names == [] ==> outcome == NothingToSave(NoNamesToSaveMessage)
      ensures names != [] ==> outcome == Written(Serialize(names, newline))
      ensures outcome.Written? && Ordered() && (newline == "\n" || newline == "\r\n") ==>
                var back := ParseNames(ReadLines(outcome.text));
                back == names && Sorted(back, NameLe)
    {
      if names == [] {
        return NothingToSave(NoNamesToSaveMessage);
      }
      var text := "";
      for i := 0 to |names|
        invariant text == Serialize(names[..i], newline)
      {
        SerializeAppend(names[..i], names[i], newline);
        assert names[..i + 1] == names[..i] + [names[i]];
        text := text + names[i] + newline;
      }
      assert names[..|names|] == names;
      outcome := Written(text);
      if Valid() && (newline == "\n" || newline == "\r\n") {
        SaveThenLoad(names, newline);
      }
    }

    /** The add button handler: on success the list is re-sorted and shown,
        otherwise the warning is shown and nothing changes, so a sorted list
        stays sorted either way. */
    method OnAdd(text: string) returns (display: string)
      requires Valid() && HasNoTerminator(text)
      modifies this
      ensures Valid()
      ensures Sorted(old(names), NameLe) ==> Sorted(names, NameLe)
      ensures !AllBlank(text) ==> Sorted(names, NameLe)
      ensures AllBlank(text) ==> names == old(names) && display == EmptyNameMessage
      ensures !AllBlank(text) ==> names == StableSort(old(names) + [Trim(text)], NameLe)
                                  && display == Serialize(names, "\n")
    {
      var added := Add(text);
      if added {
        display := SortAndDisplay();
      } else {
        display := EmptyNameMessage;
      }
    }

    /** The body of the load handler once the file is open, given the file's
        text: the previous names are discarded even when the file holds none. */
    method OnLoad(text: string) returns (display: string)
      modifies this
      ensures Ordered()
      ensures names == StableSort(ParseNames(ReadLines(text)), NameLe)
      ensures AllBlankLines(ReadLines(text)) ==> names == [] && display == NoValidNamesMessage
      ensures !AllBlankLines(ReadLines(text)) ==> display == Serialize(names, "\n")
    {
      var lines := ReadLines(text);
      var found := LoadLines(lines);
      ParseNamesEmpty(lines);
      if found {
        display := SortAndDisplay();
      } else {
        display := NoValidNamesMessage;
      }
    }
  }
}

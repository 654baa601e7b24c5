/** Worked instances of the registry's ordering and load behaviour. */
module Scenarios {
  import opened JavaString
  import opened ListSort
  import opened NameOrder
  import opened LineText

  /** One step of the stable sort on concrete lists. */
  lemma SortStep(t: seq<string>, x: string, sorted: seq<string>, r: seq<string>)
    requires StableSort(t, NameLe) == sorted && Insert(sorted, x, NameLe) == r
    ensures StableSort(t + [x], NameLe) == r
  {
    assert (t + [x])[..|t|] == t;
  }

  /** The comparator on the names of the sort example. */
  lemma ExampleOrder()
    ensures !NameLe("bob", "Alice") && !NameLe("bob", "anna")
    ensures NameLe("Alice", "anna") && NameLe("bob", "Bob")
  {
    assert CompareIgnoreCase("lice", "nna") < 0;
    assert CompareIgnoreCase("bob", "Bob") == 0;
  }

  lemma InsertAlice()
    ensures Insert(["bob"], "Alice", NameLe) == ["Alice", "bob"]
  {
    ExampleOrder();
    assert ["bob"][..0] == [];
  }

  lemma InsertAnna()
    ensures Insert(["Alice", "bob"], "anna", NameLe) == ["Alice", "anna", "bob"]
  {
    ExampleOrder();
    assert ["Alice", "bob"][..1] == ["Alice"];
  }

  lemma InsertBobAfterBob()
    ensures Insert(["Alice", "anna", "bob"], "Bob", NameLe) == ["Alice", "anna", "bob", "Bob"]
  {
    ExampleOrder();
  }

  /** Names grouped by first letter ignoring case; "bob" and "Bob" tie and
      keep their order of arrival. */
  lemma SortExample()
    ensures StableSort(["bob", "Alice", "anna", "Bob"], NameLe) == ["Alice", "anna", "bob", "Bob"]
  {
    assert [] + ["bob"] == ["bob"] && ["bob"] + ["Alice"] == ["bob", "Alice"];
    assert ["bob", "Alice"] + ["anna"] == ["bob", "Alice", "anna"];
    assert ["bob", "Alice", "anna"] + ["Bob"] == ["bob", "Alice", "anna", "Bob"];
    assert StableSort([], NameLe) == [];
    SortStep([], "bob", [], ["bob"]);
    InsertAlice();
    SortStep(["bob"], "Alice", ["bob"], ["Alice", "bob"]);
    InsertAnna();
    SortStep(["bob", "Alice"], "anna", ["Alice", "bob"], ["Alice", "anna", "bob"]);
    InsertBobAfterBob();
    SortStep(["bob", "Alice", "anna"], "Bob", ["Alice", "anna", "bob"], ["Alice", "anna", "bob", "Bob"]);
  }

  /** The trimming of the example file's lines. */
  lemma ExampleTrims()
    ensures Trim("  zed  ") == "zed" && Trim("") == "" && Trim("amy") == "amy"
  {
    assert SkipLeading("  zed  ", 0) == 2;
    assert SkipTrailing("  zed  ", 2, 7) == 5;
    TrimOfTrimmed("amy");
  }

  /** The example file's lines parse to its two names in file order. */
  lemma ExampleParse()
    ensures ParseNames(["  zed  ", "", "amy"]) == ["zed", "amy"]
  {
    var lines := ["  zed  ", "", "amy"];
    ExampleTrims();
    assert lines[..2] == ["  zed  ", ""] && lines[..2][..1] == ["  zed  "];
    assert ParseNames(["  zed  "][..0]) == [];
    assert ParseNames(lines[..2][..1]) == ["zed"];
    assert ParseNames(lines[..2]) == ["zed"];
  }

  /** Loading a file with a padded line and a blank line keeps the trimmed
      names, which the load handler then sorts and displays. */
  lemma LoadExample()
    ensures StableSort(ParseNames(["  zed  ", "", "amy"]), NameLe) == ["amy", "zed"]
    ensures Serialize(StableSort(ParseNames(["  zed  ", "", "amy"]), NameLe), "\n") == "amy\nzed\n"
  {
    ExampleParse();
    assert !NameLe("zed", "amy");
    SortStep([], "zed", [], ["zed"]);
    SortStep(["zed"], "amy", ["zed"], ["amy", "zed"]);
    DisplayExample();
  }

  /** The display text of the loaded names: one line per name. */
  lemma DisplayExample()
    ensures Serialize(["amy", "zed"], "\n") == "amy\nzed\n"
  {
    assert ["amy", "zed"][1..] == ["zed"];
    assert Serialize(["zed"], "\n") == "zed\n";
  }
}

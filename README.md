# Name registry, modelled in Dafny

The Name Sorter application keeps an in-memory list of names. A user adds names
one at a time, or loads them from a text file with one name per line. The list
is kept sorted by a two-level comparator: first by the lower-cased first
character, then by `compareToIgnoreCase`. It is shown one name per line and can
be saved back to a text file.

This project models that registry: the `names` field of `Main.java`, the add-
and load-button logic, `sortAndDisplayNames`, the save guard and the write
loop. All JavaFX code around it is left out.

Modules:

- `JavaString` (java_string.dfy) models the parts of `java.lang.String` the
  registry uses:
  - `trim`, as its two scans over characters `<= U+0020`;
  - ASCII `toLowerCase`;
  - `compareToIgnoreCase`, together with its antisymmetry, transitivity and
    zero-iff-equal-folds properties.
- `ListSort` (list_sort.dfy) models `List.sort` for a comparator `le`:
  - the specification function `StableSort` (stable insertion);
  - lemmas that its result is sorted, a permutation and stable;
  - `SortedUnique`: every sorted arrangement with the same tie subsequences
    equals `StableSort`, so any stable sort, TimSort included, gives the same
    list;
  - the in-place `InsertionSort` on an array, proved equal to `StableSort`.
- `NameOrder` (name_order.dfy) holds the comparator of lines 74-75:
  - a proof that it is a total preorder, i.e. it meets the `Comparator`
    contract;
  - a proof that, in a locale whose lower-casing maps `'A'..'Z'` to
    `'a'..'z'` (the one this model fixes), it has the same sign as
    `compareToIgnoreCase` alone, which is what the comment at line 73
    describes;
  - a proof that two names tie exactly when they are equal ignoring case.
- `LineText` (line_text.dfy) holds the text formats:
  - the load loop's filter (`ParseNames`);
  - the one-name-per-line serialiser;
  - `readLine` splitting on `\n`, `\r` and `\r\n`;
  - the save-then-load round trip.
- `Registry` (registry.dfy) holds the class `NameRegistry`. Its `names: seq<string>`
  field is updated in place by `Add`, `Sort`, `LoadLines` and the two button
  handlers `OnAdd` and `OnLoad`. `Render` and `Save` are the display and
  write loops. Every name is non-empty, trimmed and free of line
  terminators (`Valid`). On every path the model covers, the list stays
  sorted: it starts empty, a successful add or load re-sorts it, and a blank
  add leaves it unchanged. On those paths the "Save Sorted Names" button
  therefore writes a sorted list. A failed read, which is not modelled, can
  break this (see "Left out").
- `Scenarios` (scenarios.dfy) has worked instances:
  - `["bob", "Alice", "anna", "Bob"]` sorts to `["Alice", "anna", "bob", "Bob"]`;
  - the lines `["  zed  ", "", "amy"]` load, sort and display as `"amy\nzed\n"`.

The load and add handlers both re-sort after a successful change (lines 45
and 108). The model does the same in `OnAdd` and `OnLoad`. `Add` and
`LoadLines` alone do not sort.

## Model

| member | source | states |
|---|---|---|
| `JavaString.SkipLeading` | Main.java:42 | the forward scan of `trim` stops at the first non-blank character at or after the start, and everything it skipped is blank |
| `JavaString.SkipTrailing` | Main.java:42 | the backward scan of `trim` stops after the last non-blank character and never passes the forward scan's position, and everything it dropped is blank |
| `JavaString.Trim` | Main.java:42 | the trimmed text is no longer than the input, neither starts nor ends with a character `<= U+0020`, and is empty exactly when the input is all blanks |
| `JavaString.TrimIsSlice` | Main.java:101 | the trimmed text is a contiguous slice of the input with only blanks before and after it |
| `JavaString.TrimOfTrimmed` | Main.java:101 | text that neither starts nor ends with a blank is left unchanged by `trim` |
| `JavaString.TrimIdempotent` | Main.java:42 | trimming twice gives the same as trimming once |
| `JavaString.Lower` | Main.java:74 | lower-casing one character leaves no upper-case letter, maps `'A'..'Z'` onto `'a'..'z'` by the fixed offset, and keeps every other character |
| `JavaString.FoldLowerCase` | Main.java:74 | folding a string (`Fold`, the reference meaning of "equal ignoring case") keeps its length, leaves no upper-case letter and keeps every other character |
| `JavaString.FoldIdempotent` | Main.java:74 | folding twice gives the same as folding once |
| `JavaString.CompareIgnoreCase` | Main.java:75 | `compareToIgnoreCase` is never zero for strings of different lengths; its sign properties are the three lemmas below |
| `JavaString.CompareIgnoreCaseAntisymmetric` | Main.java:75 | swapping the arguments of `compareToIgnoreCase` negates the result |
| `JavaString.CompareIgnoreCaseZero` | Main.java:75 | `compareToIgnoreCase` is zero exactly when both strings fold to the same lower-case string |
| `JavaString.CompareIgnoreCaseTransitive` | Main.java:75 | `compareToIgnoreCase(a, b) <= 0` and `compareToIgnoreCase(b, c) <= 0` imply `compareToIgnoreCase(a, c) <= 0` |
| `NameOrder.FirstKey` | Main.java:74 | the primary key is the folded first character of a non-empty name and `'\0'` for the empty string, and is never an upper-case letter |
| `NameOrder.CompareNames` | Main.java:73-75 | the first-letter-then-`compareToIgnoreCase` comparator is negative, zero or positive exactly when `compareToIgnoreCase` alone is, in the locale the model fixes |
| `NameOrder.NameLeTotal` | Main.java:74-75 | any two names are ordered one way or the other by the comparator |
| `NameOrder.NameLeTransitive` | Main.java:74-75 | the comparator's order is transitive |
| `NameOrder.NameLeIsTotalPreorder` | Main.java:74-75 | the comparator is a total preorder, so it meets the `Comparator` contract that `List.sort` relies on |
| `NameOrder.TiedIffSameFold` | Main.java:74-75 | two names compare equal (e.g. "bob" and "Bob") exactly when they are equal ignoring case |
| `ListSort.Insert` | Main.java:74 | inserting one element adds exactly one position, and the element ends up last or behind the old last element |
| `ListSort.InsertAfterLastPredecessor` | Main.java:74 | the insertion places the element right after the last element that may precede it, with everything that must follow it moved one place later |
| `ListSort.InsertPermutes` | Main.java:74 | inserting adds exactly that element to the multiset |
| `ListSort.InsertSorted` | Main.java:74 | inserting into a sorted list under a total preorder keeps it sorted |
| `ListSort.InsertTies` | Main.java:74 | inserting appends the element to the tie subsequence of every key it is tied with and leaves the others unchanged, so it goes after its equals |
| `ListSort.StableSort` | Main.java:74 | the sorted list has as many elements as the input |
| `ListSort.StableSortPrefix` | Main.java:74 | sorting one more input element is inserting it into the sort of the elements before it |
| `ListSort.StableSortPermutes` | Main.java:74 | sorting yields a permutation of the input (same multiset) |
| `ListSort.StableSortSorted` | Main.java:74 | under a total preorder every adjacent pair of the sorted list is in order |
| `ListSort.StableSortStable` | Main.java:74 | sorting is stable: for every key, the elements tied with it appear in the same relative order as in the input |
| `ListSort.SortedUnique` | Main.java:74 | two sorted lists with the same tie subsequence for every key are equal, so every stable sort (TimSort included) gives the same result; `SortedLast`, `TiesMember`, `TiesComplete`, `PrecedesLastOfOther`, `TiesOfLast`, `SameTiesSameLast`, `SortedSameLast` and `DropLastTies` are the proof steps of this lemma and model no line of their own |
| `ListSort.StableSortOfSorted` | Main.java:74 | sorting an already sorted list leaves it unchanged |
| `ListSort.StableSortIdempotent` | Main.java:74 | sorting twice gives the same list as sorting once |
| `ListSort.ShiftFollowers` | Main.java:74 | the shifting loop moves every element that must follow the new one up by one place, stops behind the last element that may precede it, and changes nothing else |
| `ListSort.InsertInPlace` | Main.java:74 | one insertion step turns the array prefix into the insertion of the next element into the sorted prefix, leaving the rest of the array unchanged (the proof step `FilledGap` describes the array after the shift) |
| `ListSort.InsertionSort` | Main.java:74 | sorting the array in place leaves exactly the stable sort of its old contents |
| `LineText.ParseNames` | Main.java:100-105 | loading yields at most one name per line, each non-empty and trimmed |
| `LineText.ParseNamesEmpty` | Main.java:107-110 | a load finds no name exactly when every line is blank |
| `LineText.ParseNamesOfNames` | Main.java:100-105 | lines that are already names load back unchanged and in order |
| `LineText.Serialize` | Main.java:79-81 | with a non-empty separator the text is empty exactly when there are no names, and it holds at least one separator per name; its round trip is `ReadLinesOfSerialize` |
| `LineText.SerializeAppend` | Main.java:79-81 | appending a name appends that name and one line separator to the text |
| `LineText.LineEnd` | Main.java:100 | `readLine` ends a line at the first `\n` or `\r`, and the line itself holds no terminator |
| `LineText.ReadLines` | Main.java:100 | the lines `readLine` returns never hold a terminator, and there are none exactly when the text is empty |
| `LineText.TrimKeepsNoTerminator` | Main.java:101 | trimming a line cannot introduce a terminator |
| `LineText.ParseNamesNoTerminator` | Main.java:100-105 | names loaded from terminator-free lines are terminator-free |
| `LineText.LineEndAtTerminator` | Main.java:100 | text without a terminator followed by a terminator is one whole line |
| `LineText.ReadLinesOfSerialize` | Main.java:134-137 | reading back the text written with `\n` or `\r\n` after each line gives the same lines |
| `LineText.SaveThenLoad` | Main.java:134-137 | loading a saved file gives back exactly the saved names in the same order |
| `Registry.NameRegistry.constructor` | Main.java:17 | the registry starts with an empty list, which is sorted |
| `Registry.NameRegistry.Add` | Main.java:42-48 | the trimmed text is appended at the end exactly when it is non-empty, and otherwise nothing changes; every name stays non-empty, trimmed and a single line |
| `Registry.NameRegistry.Sort` | Main.java:74-75 | the in-place sort leaves the stable sort of the old list: every adjacent pair is in order, the multiset is the same, and names that compare equal keep their relative order |
| `Registry.NameRegistry.Render` | Main.java:78-81 | the display text is every name followed by `\n`, in the current order |
| `Registry.NameRegistry.SortAndDisplay` | Main.java:72-83 | the list is replaced by its stable sort, which is sorted, and the display text is that list, one name per line |
| `Registry.NameRegistry.LoadLines` | Main.java:98-105 | the old names are discarded and replaced by the trimmed non-empty lines in file order; a name was found exactly when some line is not blank |
| `Registry.NameRegistry.Save` | Main.java:59-62 | saving is refused with the "No names to save!" message when the list is empty; otherwise the text is every name followed by the platform line separator, in the current order, and when the list is valid and sorted that text loads back as exactly the same sorted list |
| `Registry.NameRegistry.OnAdd` | Main.java:41-50 | blank text leaves the list unchanged and shows the "enter a valid name" warning; otherwise the list becomes the sorted old list plus the trimmed name, and the display shows it; a successful add always leaves a sorted list, and a blank add leaves a sorted list sorted; every name stays non-empty, trimmed and a single line |
| `Registry.NameRegistry.OnLoad` | Main.java:96-111 | the file's text is split into lines as `readLine` does, and the list becomes the sorted names of those lines; a file of blank lines leaves the list empty and shows the "no valid names" message |
| `Scenarios.SortExample` | Main.java:74-75 | `["bob", "Alice", "anna", "Bob"]` sorts to `["Alice", "anna", "bob", "Bob"]` |
| `Scenarios.LoadExample` | Main.java:98-108 | the lines `["  zed  ", "", "amy"]` load and sort to `["amy", "zed"]` and display as `"amy\nzed\n"` |
| `Scenarios.DisplayExample` | Main.java:78-81 | the names `["amy", "zed"]` display as `"amy\nzed\n"` |

## Left out

- The JavaFX user interface (Main.java:19-70) is not modelled: the stage, scene, widgets, layout, the text area and the `Alert` dialogs. The display text and the messages are returned as strings instead.
- The `FileChooser` dialogs (Main.java:87-94, 124-131) are not modelled, and neither is cancelling them (a `null` file, which does nothing).
- Real file I/O is not modelled. Load takes the lines `readLine` returned, and `ReadLines` models how `readLine` splits text. Save returns the text that would be written.
- The platform line separator written by `BufferedWriter.newLine` is the `newline` parameter of `Save`.
- The `IOException` paths (Main.java:112-118, 144-150) are not modelled.
  - Failing to open the file happens before `names.clear()` and leaves the list untouched.
  - Failing during the read keeps the names read so far, in file order. The re-sort at Main.java:108 is skipped, so that partial list is unsorted and not on display.
  - A later save then writes the partial list unsorted. The sortedness the model proves for the handlers does not cover this path.
- The success alert after a save is not modelled.
- `toLowerCase` at Main.java:74 uses the default locale. The model fixes a locale that lower-cases `'A'..'Z'` to `'a'..'z'` and leaves every other character alone. In a Turkish or Azeri locale `"Ian"` gets the key `'ı'` (U+0131) and sorts after `"Zoe"`. There `CompareNames` does not agree in sign with `compareToIgnoreCase`.
- `compareToIgnoreCase` folds ASCII letters only in this model. Full Unicode case mapping is not modelled.
- Java compares UTF-16 code units, but Dafny's `char` is a Unicode scalar value. So the model's order differs from the source's for names starting with a character in U+E000..U+FFFF against names starting with a supplementary character, such as an emoji. Java puts the supplementary character first, because its high surrogate is below U+E000. The model puts it last.
- `List.sort` uses TimSort. It is modelled by insertion sort, and `ListSort.SortedUnique` shows that every stable sort yields the same list.
- `Registry.NameRegistry.Sort` sorts a copy of the list in a local array and assigns it back. It does not model the aliasing of the `ArrayList` backing array.
- `Registry.NameRegistry.Add` requires the typed text to hold no line terminator. The JavaFX text field drops control characters on input, and that filter is not part of this model. Lines from `readLine` never hold one (`LineText.ReadLines`). So every registered name is a single line, and `LineText.SaveThenLoad` applies to every list the registry can hold.

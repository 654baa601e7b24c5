/** The comparator the registry sorts by: primary key the lower-cased first
    character (with '\0' for the empty string), secondary key
    `compareToIgnoreCase`. */
module NameOrder {
  import opened JavaString
  import opened ListSort

  /** Key extractor of the primary comparison: the folded first character,
      or '\0' for the empty string. */
  function FirstKey(s: string): (k: char)
    ensures !IsUpper(k)
    ensures |s| != 0 ==> k == Fold(s)[0]
    ensures |s| == 0 ==> k as int == 0
  {
    if |s| == 0 then '\0' else Lower(s[0])
  }

  /** `Comparator.comparing(FirstKey).thenComparing(String::compareToIgnoreCase)`.
      Grouping by first letter never disagrees with `compareToIgnoreCase`
      under this folding: the composite comparator has the same sign. */
  function CompareNames(a: string, b: string): (r: int)
    ensures r < 0 <==> CompareIgnoreCase(a, b) < 0
    ensures r == 0 <==> CompareIgnoreCase(a, b) == 0
    ensures r > 0 <==> CompareIgnoreCase(a, b) > 0
  {
    var primary := FirstKey(a) as int - FirstKey(b) as int;
    if primary != 0 then primary else CompareIgnoreCase(a, b)
  }

  /** `a` may precede `b`: the comparator does not put `a` after `b`. */
  predicate NameLe(a: string, b: string) {
    CompareNames(a, b) <= 0
  }

  lemma NameLeTotal(a: string, b: string)
    ensures NameLe(a, b) || NameLe(b, a)
  {
    CompareIgnoreCaseAntisymmetric(a, b);
  }

  lemma NameLeTransitive(a: string, b: string, c: string)
    requires NameLe(a, b) && NameLe(b, c)
    ensures NameLe(a, c)
  {
    CompareIgnoreCaseTransitive(a, b, c);
  }

  /** The comparator meets the `Comparator` contract, so `List.sort` may use it. */
  lemma NameLeIsTotalPreorder()
    ensures IsTotalPreorder(NameLe)
  {
    forall a, b
      ensures NameLe(a, b) || NameLe(b, a)
    {
      NameLeTotal(a, b);
    }
    forall a, b, c | NameLe(a, b) && NameLe(b, c)
      ensures NameLe(a, c)
    {
      NameLeTransitive(a, b, c);
    }
  }

  /** Two names tie exactly when they are equal ignoring case, as "bob" and "Bob". */
  lemma TiedIffSameFold(a: string, b: string)
    ensures Tied(a, b, NameLe) <==> Fold(a) == Fold(b)
  {
    CompareIgnoreCaseAntisymmetric(a, b);
    CompareIgnoreCaseZero(a, b);
  }
}

/** SuggestItem.java: the result record of a lookup, equal to another exactly when the
    terms agree, hashed by the term's String.hashCode. */
module SuggestItem {
  import opened JavaInt

  /** A suggestion: the dictionary word, its edit distance to the input and its frequency. */
  datatype SuggestItem = SuggestItem(term: string, distance: int, count: int)

  /** `new SuggestItem()`: the field initialisers term = "", distance = 0, count = 0. */
  function NewSuggestItem(): (s: SuggestItem)
    ensures s.term == "" && s.distance == 0 && s.count == 0
  {
    SuggestItem("", 0, 0)
  }

  /** The argument of equals(Object): null, a SuggestItem, or an object of another class. */
  datatype JavaObject = Null | Suggest(item: SuggestItem) | OtherClass

  /** equals: false for null and for another class, otherwise equality of the terms. */
  function Equals(x: SuggestItem, obj: JavaObject): bool
  {
    match obj
    case Null => false
    case OtherClass => false
    case Suggest(y) => x.term == y.term
  }

  /** String.hashCode: h = 31 * h + c over the characters, in int arithmetic. */
  function StringHash(s: string): (h: int)
    ensures MIN_VALUE <= h <= MAX_VALUE
  {
    if s == [] then 0 else Wrap32(31 * StringHash(s[..|s| - 1]) + s[|s| - 1] as int)
  }

  /** The polynomial s[0]*31^(n-1) + ... + s[n-1] that String.hashCode documents. */
  function Polynomial(s: string): int
  {
    if s == [] then 0 else 31 * Polynomial(s[..|s| - 1]) + s[|s| - 1] as int
  }

  /** The loop's wrapped result is the documented polynomial reduced to an int. */
  lemma {:induction false} StringHashIsPolynomial(s: string)
    ensures StringHash(s) == Wrap32(Polynomial(s))
  {
    if s != [] {
      var p := s[..|s| - 1];
      StringHashIsPolynomial(p);
      Wrap32Step(Polynomial(p), s[|s| - 1] as int);
    }
  }

  /** hashCode: the hash of the term. */
  function HashCode(x: SuggestItem): (h: int)
    ensures MIN_VALUE <= h <= MAX_VALUE
  {
    StringHash(x.term)
  }

  /** equals ignores distance and count and rejects null and other classes. */
  lemma EqualsIsTermEquality(x: SuggestItem, obj: JavaObject)
    ensures Equals(x, obj) <==> obj.Suggest? && obj.item.term == x.term
    ensures Equals(x, Null) == false && Equals(x, OtherClass) == false
  {
  }

  /** equals is reflexive, symmetric and transitive on SuggestItems. */
  lemma EqualsIsEquivalence(x: SuggestItem, y: SuggestItem, z: SuggestItem)
    ensures Equals(x, Suggest(x))
    ensures Equals(x, Suggest(y)) == Equals(y, Suggest(x))
    ensures Equals(x, Suggest(y)) && Equals(y, Suggest(z)) ==> Equals(x, Suggest(z))
  {
  }

  /** The hashCode contract: equal items have equal hashes. */
  lemma EqualItemsEqualHashes(x: SuggestItem, y: SuggestItem)
    requires Equals(x, Suggest(y))
    ensures HashCode(x) == HashCode(y)
  {
  }

  /** Items differing only in distance and count are equal. */
  lemma SettersKeepEquality(x: SuggestItem, d: int, c: int)
    ensures Equals(x, Suggest(x.(distance := d, count := c)))
    ensures !Equals(x, Suggest(x.(term := x.term + "a")))
  {
    assert |x.term + "a"| != |x.term|;
  }
}

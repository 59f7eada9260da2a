/** A description of one field of a table schema: name, documentation,
    units and type name, ordered and compared by name alone. */
module FieldDescriptions {

  datatype FieldDescription = FieldDescription(name: string, doc: string, units: string, typeName: string)

  /** The constructor stores its four arguments verbatim. */
  function Make(name: string, doc: string, units: string, typeName: string): (d: FieldDescription)
    ensures d.name == name && d.doc == doc && d.units == units && d.typeName == typeName
  {
    FieldDescription(name, doc, units, typeName)
  }

  /** Lexicographic order of strings as `std::string::operator<` gives it:
      the first differing character decides, and a proper prefix is smaller. */
  predicate LexLess(a: string, b: string)
  {
    if |b| == 0 then false
    else if |a| == 0 then true
    else if a[0] != b[0] then a[0] < b[0]
    else LexLess(a[1..], b[1..])
  }

  predicate Less(a: FieldDescription, b: FieldDescription)
  {
    LexLess(a.name, b.name)
  }

  predicate Equal(a: FieldDescription, b: FieldDescription)
  {
    a.name == b.name
  }

  predicate NotEqual(a: FieldDescription, b: FieldDescription)
  {
    a.name != b.name
  }

  /** The text `operator<<` writes: name, type and doc; the units are not printed. */
  function Format(d: FieldDescription): (s: string)
    ensures |s| == |d.name| + |d.typeName| + |d.doc| + 5
    ensures s[..|d.name|] == d.name
    ensures s[|d.name|..|d.name| + 2] == ": "
    ensures s[|s| - 1] == ')'
  {
    d.name + ": " + d.typeName + " (" + d.doc + ")"
  }

  lemma {:induction false} LexLessIrreflexive(a: string)
    ensures !LexLess(a, a)
  {
    if |a| > 0 {
      LexLessIrreflexive(a[1..]);
    }
  }

  lemma {:induction false} LexLessTrichotomy(a: string, b: string)
    ensures a == b || LexLess(a, b) || LexLess(b, a)
  {
    if |a| > 0 && |b| > 0 && a[0] == b[0] {
      LexLessTrichotomy(a[1..], b[1..]);
      if a[1..] == b[1..] {
        assert a == [a[0]] + a[1..] && b == [b[0]] + b[1..];
      }
    }
  }

  lemma {:induction false} LexLessAsymmetric(a: string, b: string)
    requires LexLess(a, b)
    ensures !LexLess(b, a)
  {
    if |a| > 0 && |b| > 0 && a[0] == b[0] {
      LexLessAsymmetric(a[1..], b[1..]);
    }
  }

  lemma {:induction false} LexLessTransitive(a: string, b: string, c: string)
    requires LexLess(a, b) && LexLess(b, c)
    ensures LexLess(a, c)
  {
    if |a| > 0 && a[0] == b[0] && b[0] == c[0] {
      LexLessTransitive(a[1..], b[1..], c[1..]);
    }
  }

  /** Exactly one of `a < b`, `b < a`, `a == b` holds. */
  lemma ExactlyOneOrdering(a: FieldDescription, b: FieldDescription)
    ensures Less(a, b) || Less(b, a) || Equal(a, b)
    ensures !(Less(a, b) && Less(b, a))
    ensures Equal(a, b) ==> !Less(a, b) && !Less(b, a)
  {
    LexLessTrichotomy(a.name, b.name);
    if Less(a, b) {
      LexLessAsymmetric(a.name, b.name);
    }
    if Equal(a, b) {
      LexLessIrreflexive(a.name);
    }
  }

  /** `<` is a strict order on descriptions. */
  lemma LessIsStrictOrder(a: FieldDescription, b: FieldDescription, c: FieldDescription)
    ensures !Less(a, a)
    ensures Less(a, b) && Less(b, c) ==> Less(a, c)
  {
    LexLessIrreflexive(a.name);
    if Less(a, b) && Less(b, c) {
      LexLessTransitive(a.name, b.name, c.name);
    }
  }

  /** `!=` is exactly the negation of `==`; both look at the name only. */
  lemma EqualityByNameOnly(a: FieldDescription, b: FieldDescription)
    ensures NotEqual(a, b) <==> !Equal(a, b)
    ensures Equal(a, b) <==> Equal(Make(a.name, b.doc, b.units, b.typeName), b)
    ensures Equal(a, b) <==> a.name == b.name
  {
  }

  /** Two descriptions that differ only in their units print the same. */
  lemma FormatIgnoresUnits(d: FieldDescription, units: string)
    ensures Format(d.(units := units)) == Format(d)
  {
  }
}

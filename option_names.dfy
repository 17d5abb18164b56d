/**
  The resolvers of the `-t`, `-S` and `-C` option arguments (`find_clip_type`,
  `fill_type`): a 16-entry table of synonyms searched in order with
  `strncmp(entry, f, 16) == 0`, and a fixed default when nothing matches.
*/
module OptionNames {

  /** A C string: a character sequence with no NUL inside. */
  type CString = s: string | '\0' !in s

  /** The character at index `i` of the NUL-terminated array holding `s`. */
  function CharAt(s: CString, i: nat): char
  {
    if i < |s| then s[i] else '\0'
  }

  /** `strncmp(a, b, n) == 0`, with the comparison started at position `i`. */
  predicate StrnEqualFrom(a: CString, b: CString, i: nat, n: nat)
    decreases n - i
  {
    i >= n || (CharAt(a, i) == CharAt(b, i) && (CharAt(a, i) == '\0' || StrnEqualFrom(a, b, i + 1, n)))
  }

  /** `strncmp(a, b, n) == 0`. */
  predicate StrnEqual(a: CString, b: CString, n: nat)
  {
    StrnEqualFrom(a, b, 0, n)
  }

  lemma {:induction false} StrnEqualFromSuffix(a: CString, b: CString, i: nat, n: nat)
    requires i <= |a| < n && i <= |b|
    ensures StrnEqualFrom(a, b, i, n) <==> a[i..] == b[i..]
    decreases |a| - i
  {
    if i == |a| {
      assert i < |b| ==> b[i] in b;
    } else {
      assert a[i] in a;
      if i < |b| {
        StrnEqualFromSuffix(a, b, i + 1, n);
        assert a[i..] == [a[i]] + a[i + 1..];
        assert b[i..] == [b[i]] + b[i + 1..];
      }
    }
  }

  /** Comparing at most `n` characters with a string shorter than `n` is exact equality. */
  lemma StrnEqualIsEquality(a: CString, b: CString, n: nat)
    requires |a| < n
    ensures StrnEqual(a, b, n) <==> a == b
  {
    StrnEqualFromSuffix(a, b, 0, n);
  }

  /**
    The table search of both resolvers: the value of the first entry that
    compares equal to `f` over 16 characters, or `dflt`.
  */
  method FindName<T>(names: seq<CString>, values: seq<T>, dflt: T, f: CString) returns (r: T)
    requires |names| == |values|
    requires forall i :: 0 <= i < |names| ==> |names[i]| < 16
    ensures f !in names ==> r == dflt
    ensures f in names ==> exists i :: 0 <= i < |names| && names[i] == f && r == values[i] &&
                                       forall j :: 0 <= j < i ==> names[j] != f
  {
    for i := 0 to |names|
      invariant forall j :: 0 <= j < i ==> names[j] != f
    {
      StrnEqualIsEquality(names[i], f, 16);
      if StrnEqual(names[i], f, 16) {
        return values[i];
      }
    }
    return dflt;
  }

  datatype ClipType = Intersection | Union | Difference | Xor

  datatype PolyFillType = EvenOdd | NonZero | Positive | Negative

  /** The four clip operations in the order each row of the table lists them. */
  const ClipTypes: seq<ClipType> := [Intersection, Union, Difference, Xor]

  const ClipTypeNames: seq<CString> :=
    ["Intersection", "Union", "Difference", "Xor",
     "intersection", "union", "difference", "xor",
     "int", "un", "diff", "xor",
     "i", "u", "d", "x"]

  const ClipTypeLookup: seq<ClipType> := ClipTypes + ClipTypes + ClipTypes + ClipTypes

  /** The four fill rules in the order each row of the table lists them. */
  const FillTypes: seq<PolyFillType> := [EvenOdd, NonZero, Positive, Negative]

  const FillTypeNames: seq<CString> :=
    ["EvenOdd", "NonZero", "Positive", "Negative",
     "evenodd", "nonzero", "positive", "negative",
     "even-odd", "non-zero", "pos", "neg",
     "eo", "nz", "p", "n"]

  const FillTypeLookup: seq<PolyFillType> := FillTypes + FillTypes + FillTypes + FillTypes

  /** Entries of a table that are equal as strings sit in the same column. */
  ghost predicate ColumnsAgree<T>(names: seq<CString>, values: seq<T>, columns: seq<T>)
  {
    |names| == |values| == 16 && |columns| == 4 &&
    (forall i :: 0 <= i < 16 ==> |names[i]| < 16 && values[i] == columns[i % 4]) &&
    forall i, j :: 0 <= i < 16 && 0 <= j < 16 && names[i] == names[j] ==> i % 4 == j % 4
  }

  /** An entry equal to entry `i` of either table sits in the column of `i`. */
  lemma SameColumn(names: seq<CString>, i: nat)
    requires names == ClipTypeNames || names == FillTypeNames
    requires i < 16
    ensures forall j :: 0 <= j < 16 && names[j] == names[i] ==> j % 4 == i % 4
  {
  }

  lemma ClipTypeNamesConsistent()
    ensures ColumnsAgree(ClipTypeNames, ClipTypeLookup, ClipTypes)
  {
    forall i | 0 <= i < 16 {
      SameColumn(ClipTypeNames, i);
    }
  }

  lemma FillTypeNamesConsistent()
    ensures ColumnsAgree(FillTypeNames, FillTypeLookup, FillTypes)
  {
    forall i | 0 <= i < 16 {
      SameColumn(FillTypeNames, i);
    }
  }

  /** `find_clip_type`: total; entry `i` of the table names operation `i % 4`, anything else is Union. */
  method FindClipType(f: CString) returns (r: ClipType)
    ensures forall i :: 0 <= i < |ClipTypeNames| && ClipTypeNames[i] == f ==> r == ClipTypes[i % 4]
    ensures f !in ClipTypeNames ==> r == Union
  {
    ClipTypeNamesConsistent();
    r := FindName(ClipTypeNames, ClipTypeLookup, Union, f);
  }

  /** `fill_type`: total; entry `i` of the table names fill rule `i % 4`, anything else is NonZero. */
  method FillType(f: CString) returns (r: PolyFillType)
    ensures forall i :: 0 <= i < |FillTypeNames| && FillTypeNames[i] == f ==> r == FillTypes[i % 4]
    ensures f !in FillTypeNames ==> r == NonZero
  {
    FillTypeNamesConsistent();
    r := FindName(FillTypeNames, FillTypeLookup, NonZero, f);
  }
}

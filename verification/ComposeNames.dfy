/** The full names of a project's networks: what the folder's name and the declared names
    come out as. */
module ComposeNames {
  import opened ComposeOrder

  predicate IsProper(c: char) {
    'a' <= c <= 'z' || '0' <= c <= '9' || c == '_' || c == '-'
  }

  predicate IsCapital(c: char) {
    'A' <= c <= 'Z'
  }

  predicate Proper(s: string) {
    forall i :: 0 <= i < |s| ==> IsProper(s[i])
  }

  // Equal but for capitals of the first that are small letters in the second.
  predicate SameLowered(a: string, b: string) {
    |a| == |b| &&
    forall i :: 0 <= i < |a| ==> a[i] == b[i] || (IsCapital(a[i]) && b[i] as int == a[i] as int + 32)
  }

  lemma {:induction false} NameIsProper(folder: string)
    ensures Proper(ProjectName(folder))
  {
    if folder == "" {
    } else {
      NameIsProper(folder[1..]);
    }
  }

  lemma {:induction false} ProperIsKept(folder: string)
    requires Proper(folder)
    ensures ProjectName(folder) == folder
  {
    if folder == "" {
    } else {
      assert IsProper(folder[0]);
      ProperIsKept(folder[1..]);
      assert folder == [folder[0]] + folder[1..];
    }
  }

  lemma {:induction false} CapitalsAreLowered(a: string, b: string)
    requires SameLowered(a, b)
    ensures ProjectName(a) == ProjectName(b)
  {
    if a == "" {
    } else {
      CapitalsAreLowered(a[1..], b[1..]);
    }
  }

  lemma {:induction false} NameOfParts(a: string, b: string)
    ensures ProjectName(a + b) == ProjectName(a) + ProjectName(b)
  {
    if a == "" {
      assert a + b == b;
    } else {
      NameOfParts(a[1..], b);
      assert (a + b)[1..] == a[1..] + b;
    }
  }

  lemma OtherDropped(a: string, c: char, b: string)
    requires !IsProper(c) && !IsCapital(c)
    ensures ProjectName(a + [c] + b) == ProjectName(a + b)
  {
    NameOfParts(a + [c], b);
    NameOfParts(a, [c]);
    NameOfParts(a, b);
    assert [c][1..] == "";
  }

  // A folder's project name has only small letters, digits, `_` and `-`; a folder so named
  // keeps its name; capitals count as small letters; and any other character is dropped.
  lemma ProjectNameExactly(folder: string)
    ensures Proper(ProjectName(folder)) && (Proper(folder) ==> ProjectName(folder) == folder)
    ensures forall other :: SameLowered(folder, other) ==> ProjectName(folder) == ProjectName(other)
    ensures forall a, c, b :: folder == a + [c] + b && !IsProper(c) && !IsCapital(c) ==>
              ProjectName(folder) == ProjectName(a + b)
  {
    NameIsProper(folder);
    if Proper(folder) {
      ProperIsKept(folder);
    }
    forall other | SameLowered(folder, other) ensures ProjectName(folder) == ProjectName(other) {
      CapitalsAreLowered(folder, other);
    }
    forall a, c, b | folder == a + [c] + b && !IsProper(c) && !IsCapital(c)
      ensures ProjectName(folder) == ProjectName(a + b)
    {
      OtherDropped(a, c, b);
    }
  }

  // The networks a project declares: its own names, none empty, each after the project name
  // and an underscore.
  lemma {:induction false} QualifiedExactly(folder: string, nets: seq<string>)
    requires forall i :: 0 <= i < |nets| ==> nets[i] != ""
    ensures |Qualified(folder, nets)| == |nets|
    ensures forall i :: 0 <= i < |nets| ==> Qualified(folder, nets)[i] == ProjectName(folder) + "_" + nets[i]
  {
    if nets == [] {
    } else {
      QualifiedExactly(folder, nets[..|nets| - 1]);
    }
  }
}

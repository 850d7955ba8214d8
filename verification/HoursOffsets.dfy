/** The list of hour offsets a caller asks for: validated, copied, sorted in place, and never shared. */
module HoursOffsets {
  import opened Results
  import opened Counters

  datatype OffsetsError = NoOffsets | OutOfRange(offset: nat) | Duplicate(offset: nat)

  ghost predicate Distinct(s: seq<nat>) {
    forall i, j :: 0 <= i < j < |s| ==> s[i] != s[j]
  }

  ghost predicate Acceptable(s: seq<nat>) {
    (forall i :: 0 <= i < |s| ==> 1 <= s[i] <= 48) && Distinct(s)
  }

  // The error names the first entry that cannot follow the ones before it.
  ghost predicate FirstOffence(s: seq<nat>, i: nat, error: OffsetsError) {
    && i < |s| && Acceptable(s[..i])
    && match error
       case NoOffsets => false
       case OutOfRange(h) => h == s[i] && (h < 1 || h > 48)
       case Duplicate(h) => h == s[i] && 1 <= h <= 48 && h in s[..i]
  }

  method ValidateHoursOffsets(offsets: array<nat>) returns (error: Option<OffsetsError>)
    ensures error.None? <==> offsets.Length > 0 && Acceptable(offsets[..])
    ensures error == Some(NoOffsets) <==> offsets.Length == 0
    ensures error.Some? && offsets.Length > 0 ==> exists i :: FirstOffence(offsets[..], i, error.value)
  {
    if offsets.Length == 0 {
      return Some(NoOffsets);
    }
    var seen := {};
    for i := 0 to offsets.Length
      invariant seen == set j | 0 <= j < i :: offsets[j]
      invariant Acceptable(offsets[..i])
    {
      var h := offsets[i];
      assert offsets[..][..i] == offsets[..i];
      if h > TTL_HOURS || h < 1 {
        assert FirstOffence(offsets[..], i, OutOfRange(h));
        return Some(OutOfRange(h));
      }
      if h in seen {
        assert FirstOffence(offsets[..], i, Duplicate(h));
        return Some(Duplicate(h));
      }
      seen := seen + {h};
    }
    assert offsets[..] == offsets[..offsets.Length];
    return None;
  }

  ghost predicate Sorted(s: seq<nat>) {
    forall i, j :: 0 <= i < j < |s| ==> s[i] <= s[j]
  }

  method Sort(a: array<nat>)
    modifies a
    ensures Sorted(a[..]) && multiset(a[..]) == multiset(old(a[..]))
  {
    for i := 0 to a.Length
      invariant Sorted(a[..i]) && multiset(a[..]) == multiset(old(a[..]))
    {
      Insert(a, i);
    }
    assert a[..] == a[..a.Length];
  }

  method SwapWithPrevious(a: array<nat>, j: nat)
    requires 0 < j < a.Length
    modifies a
    ensures a[..] == old(a[..])[j - 1 := old(a[j])][j := old(a[j - 1])]
    ensures multiset(a[..]) == multiset(old(a[..]))
  {
    a[j - 1], a[j] := a[j], a[j - 1];
  }

  // All but the j-th of the first n + 1 entries are in order, and those after it do not go below it.
  ghost predicate SortedAround(s: seq<nat>, j: nat, n: nat)
    requires j <= n < |s|
  {
    forall p, q :: 0 <= p < q <= n && q != j ==> s[p] <= s[q]
  }

  // Moves a[n] down to its place among the sorted entries before it.
  method Insert(a: array<nat>, n: nat)
    requires n < a.Length && Sorted(a[..n])
    modifies a
    ensures Sorted(a[..n + 1]) && multiset(a[..]) == multiset(old(a[..]))
  {
    var j := n;
    while j > 0 && a[j - 1] > a[j]
      invariant 0 <= j <= n
      invariant multiset(a[..]) == multiset(old(a[..]))
      invariant SortedAround(a[..], j, n)
    {
      SwapWithPrevious(a, j);
      j := j - 1;
    }
  }

  // A sorted list with the same entries as one without duplicates is strictly increasing.
  lemma SortedDistinctIsStrict(s: seq<nat>, t: seq<nat>)
    requires multiset(s) == multiset(t) && Distinct(s) && Sorted(t)
    ensures forall i, j :: 0 <= i < j < |t| ==> t[i] < t[j]
  {
    forall i, j | 0 <= i < j < |t|
      ensures t[i] < t[j]
    {
      if t[i] == t[j] {
        RepeatCountsTwice(t, i, j);
        EachCountedOnce(s, t[i]);
        assert false;
      }
    }
  }

  lemma RepeatCountsTwice(t: seq<nat>, i: nat, j: nat)
    requires i < j < |t| && t[i] == t[j]
    ensures multiset(t)[t[i]] >= 2
  {
    assert t == t[..j] + t[j..];
    assert t[i] in t[..j] && t[j] in t[j..];
  }

  lemma {:induction false} EachCountedOnce(s: seq<nat>, x: nat)
    requires Distinct(s)
    ensures multiset(s)[x] <= 1
  {
    if s != [] {
      EachCountedOnce(s[..|s| - 1], x);
      assert s == s[..|s| - 1] + [s[|s| - 1]];
      assert x == s[|s| - 1] ==> x !in s[..|s| - 1];
    }
  }

  class HoursOffsetGroups {
    const values: array<nat>

    ghost predicate Valid()
      reads values
    {
      ValidOffsets(values[..])
    }

    // NewHoursOffsetGroups, past its validation. The stored list is a private copy.
    constructor (offsets: array<nat>)
      requires offsets.Length > 0 && Acceptable(offsets[..])
      ensures Valid() && fresh(values)
      ensures multiset(values[..]) == multiset(offsets[..])
    {
      var cp := Copy(offsets);
      values := cp;
      new;
      Sort(values);
      SortedDistinctIsStrict(offsets[..], values[..]);
      forall i | 0 <= i < |values[..]|
        ensures 1 <= values[..][i] <= 48
      {
        assert values[..][i] in multiset(offsets[..]);
      }
      assert |multiset(offsets[..])| > 0;
    }

    method Values() returns (cp: array<nat>)
      ensures fresh(cp) && cp[..] == values[..]
    {
      cp := Copy(values);
    }
  }

  method Copy(a: array<nat>) returns (cp: array<nat>)
    ensures fresh(cp) && cp[..] == a[..]
  {
    cp := new nat[a.Length];
    for i := 0 to a.Length
      invariant cp[..i] == a[..i]
    {
      cp[i] := a[i];
    }
    assert cp[..] == cp[..cp.Length] && a[..] == a[..a.Length];
  }

  method NewHoursOffsetGroups(offsets: array<nat>) returns (groups: HoursOffsetGroups?, error: Option<OffsetsError>)
    ensures groups != null <==> error.None?
    ensures error.None? <==> offsets.Length > 0 && Acceptable(offsets[..])
    ensures groups != null ==>
      && fresh(groups) && fresh(groups.values) && groups.Valid()
      && multiset(groups.values[..]) == multiset(offsets[..])
  {
    error := ValidateHoursOffsets(offsets);
    if error.Some? {
      return null, error;
    }
    groups := new HoursOffsetGroups(offsets);
  }
}

/**
 * The search box and the two dropdowns (`filterMaterials` in app.js): an
 * order-preserving filter of `allMaterials` on three criteria.
 */
module Filter {
  import opened Text
  import opened Materials

  /** What the user has typed and selected; "" in a dropdown means "All". */
  datatype Criteria = Criteria(searchText: string, selectedClass: string, selectedYear: string)

  /** The criteria with nothing typed and nothing selected. */
  const NoCriteria := Criteria("", "", "")

  /**
   * The predicate of the filter: the lower-cased name includes the
   * lower-cased search text, and the class and the year are either not
   * selected or equal to the material's.  With nothing typed and nothing
   * selected every material matches.
   */
  predicate Matches(m: Material, c: Criteria): (b: bool)
    ensures c == NoCriteria ==> b
  {
    ContainsEmpty(Lower(m.name));
    && Contains(Lower(m.name), Lower(c.searchText))
    && (c.selectedClass == "" || m.classLabel == c.selectedClass)
    && (c.selectedYear == "" || m.yearLabel == c.selectedYear)
  }

  /** `xs` is `ys` with some elements removed, the rest kept in order. */
  predicate IsSubsequence<T(==)>(xs: seq<T>, ys: seq<T>)
    decreases |ys|
  {
    if xs == [] then true
    else if ys == [] then false
    else if xs[0] == ys[0] then IsSubsequence(xs[1..], ys[1..])
    else IsSubsequence(xs, ys[1..])
  }

  /** A subsequence is no longer than the sequence and holds only its elements. */
  lemma {:induction false} SubsequenceElements<T>(xs: seq<T>, ys: seq<T>)
    requires IsSubsequence(xs, ys)
    ensures |xs| <= |ys|
    ensures forall x :: x in xs ==> x in ys
    decreases |ys|
  {
    if xs != [] {
      if xs[0] == ys[0] {
        SubsequenceElements(xs[1..], ys[1..]);
        assert forall x :: x in xs ==> x == xs[0] || x in xs[1..];
      } else {
        SubsequenceElements(xs, ys[1..]);
      }
    }
  }

  /**
   * `allMaterials.filter(...)`: the materials that match, in their
   * original order, each one that matches and none that does not.
   */
  function FilterMaterials(all: seq<Material>, c: Criteria): (r: seq<Material>)
    ensures IsSubsequence(r, all)
    ensures forall m :: m in r ==> Matches(m, c)
    ensures forall m :: m in all && Matches(m, c) ==> m in r
    decreases |all|
  {
    if all == [] then []
    else
      var rest := FilterMaterials(all[1..], c);
      if Matches(all[0], c) then
        var r := [all[0]] + rest;
        assert r[0] == all[0] && r[1..] == rest;
        r
      else
        assert rest != [] ==> rest[0] != all[0] by {
          if rest != [] {
            assert rest[0] in rest;
          }
        }
        rest
  }

  /** Filtering a concatenation filters each part. */
  lemma {:induction false} FilterAppend(a: seq<Material>, b: seq<Material>, c: Criteria)
    ensures FilterMaterials(a + b, c) == FilterMaterials(a, c) + FilterMaterials(b, c)
    decreases |a|
  {
    if a == [] {
      assert a + b == b;
    } else {
      assert (a + b)[0] == a[0] && (a + b)[1..] == a[1..] + b;
      FilterAppend(a[1..], b, c);
    }
  }

  /** The filter keeps everything exactly when every material matches. */
  lemma {:induction false} FilterKeepsAllIff(all: seq<Material>, c: Criteria)
    ensures FilterMaterials(all, c) == all <==> forall m :: m in all ==> Matches(m, c)
    decreases |all|
  {
    if all != [] {
      FilterKeepsAllIff(all[1..], c);
      assert forall m :: m in all <==> m == all[0] || m in all[1..];
      if forall m :: m in all ==> Matches(m, c) {
        assert all == [all[0]] + all[1..];
      }
    }
  }

  /** The filter keeps nothing exactly when no material matches (the empty state is shown). */
  lemma FilterEmptyIff(all: seq<Material>, c: Criteria)
    ensures FilterMaterials(all, c) == [] <==> forall m :: m in all ==> !Matches(m, c)
  {
    var r := FilterMaterials(all, c);
    if r != [] {
      assert r[0] in r;
      SubsequenceElements(r, all);
    }
  }

  /** With nothing typed and nothing selected every material is shown, in order. */
  lemma NoCriteriaShowsAll(all: seq<Material>)
    ensures FilterMaterials(all, NoCriteria) == all
  {
    FilterKeepsAllIff(all, NoCriteria);
  }

  /** Filtering again with the same criteria changes nothing. */
  lemma FilterIdempotent(all: seq<Material>, c: Criteria)
    ensures FilterMaterials(FilterMaterials(all, c), c) == FilterMaterials(all, c)
  {
    FilterKeepsAllIff(FilterMaterials(all, c), c);
  }

  /** The search is case-insensitive: lower-casing the search text first changes nothing. */
  lemma {:induction false} SearchIgnoresCase(all: seq<Material>, c: Criteria)
    ensures FilterMaterials(all, c.(searchText := Lower(c.searchText))) == FilterMaterials(all, c)
    decreases |all|
  {
    if all != [] {
      LowerIdempotent(c.searchText);
      SearchIgnoresCase(all[1..], c);
    }
  }

  /** Selecting a class that no material carries shows nothing. */
  lemma UnknownClassShowsNothing(all: seq<Material>, c: Criteria)
    requires c.selectedClass != "" && c.selectedClass !in ClassLabels(all)
    ensures FilterMaterials(all, c) == []
  {
    LabelsAreCarried(all);
    FilterEmptyIff(all, c);
  }

  /** Selecting a year that no material carries shows nothing. */
  lemma UnknownYearShowsNothing(all: seq<Material>, c: Criteria)
    requires c.selectedYear != "" && c.selectedYear !in YearLabels(all)
    ensures FilterMaterials(all, c) == []
  {
    LabelsAreCarried(all);
    FilterEmptyIff(all, c);
  }
}

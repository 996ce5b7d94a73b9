/** The category drop-down: its options and which one is selected after it is rebuilt. */
module Categories {
  import opened Quotes

  /** The sentinel option that stands for "no filter". */
  const AllCategories := "all"

  /** The category of each quote, in list order. */
  function CategoriesOf(qs: seq<Quote>): (cs: seq<string>)
    ensures |cs| == |qs|
    ensures forall i :: 0 <= i < |qs| ==> cs[i] == qs[i].category
  {
    if qs == [] then [] else [qs[0].category] + CategoriesOf(qs[1..])
  }

  predicate NoDuplicates(xs: seq<string>)
  {
    forall i, j :: 0 <= i < j < |xs| ==> xs[i] != xs[j]
  }

  /** Every element of `r` occurs in `xs`, and the elements of `r` appear in the
      order in which they first occur in `xs`. */
  predicate InFirstOccurrenceOrder(r: seq<string>, xs: seq<string>)
  {
    forall i, j :: 0 <= i < j < |r| ==>
      r[i] in xs && r[j] in xs && FirstIndex(xs, r[i]) < FirstIndex(xs, r[j])
  }

  /** The position of the first occurrence of `x` in `xs`. */
  function FirstIndex(xs: seq<string>, x: string): (i: nat)
    requires x in xs
    ensures i < |xs| && xs[i] == x && x !in xs[..i]
  {
    if xs[0] == x then 0 else assert x in xs[1..]; 1 + FirstIndex(xs[1..], x)
  }

  /** Where `x` first occurs in a prefix of `xs` is where it first occurs in `xs`. */
  lemma FirstIndexOfPrefix(xs: seq<string>, n: nat, x: string)
    requires n <= |xs|
    requires x in xs[..n]
    ensures FirstIndex(xs, x) == FirstIndex(xs[..n], x)
  {
    var i := FirstIndex(xs, x);
    var k := FirstIndex(xs[..n], x);
    assert xs[k] == x;
    assert xs[..n][..k] == xs[..k];
  }

  /** The contents of `new Set(xs)` in iteration order: the set after the first
      `n` insertions is the set after `n - 1` insertions, plus `xs[n - 1]` at the
      end when it was not yet there. */
  function Distinct(xs: seq<string>): (r: seq<string>)
    ensures forall x :: x in r <==> x in xs
    ensures NoDuplicates(r)
    decreases |xs|
  {
    if xs == [] then []
    else
      var prefix := xs[..|xs| - 1];
      var last := xs[|xs| - 1];
      var d := Distinct(prefix);
      assert xs == prefix + [last];
      if last in d then d else d + [last]
  }

  /** The set iterates in insertion order, so its elements come in the order of
      their first occurrence. */
  lemma {:induction false} DistinctInFirstOccurrenceOrder(xs: seq<string>)
    ensures InFirstOccurrenceOrder(Distinct(xs), xs)
    decreases |xs|
  {
    if xs != [] {
      var prefix := xs[..|xs| - 1];
      DistinctInFirstOccurrenceOrder(prefix);
      DistinctOrderAfterInsert(xs, Distinct(prefix));
    }
  }

  /** Inserting one more element into the set. */
  lemma DistinctSnoc(xs: seq<string>, x: string)
    ensures Distinct(xs + [x]) == if x in xs then Distinct(xs) else Distinct(xs) + [x]
  {
    assert (xs + [x])[..|xs|] == xs;
  }

  /** The step of `Distinct`'s proof: first-occurrence order survives the insertion of `xs`'s last element. */
  lemma DistinctOrderAfterInsert(xs: seq<string>, d: seq<string>)
    requires |xs| > 0
    requires forall x :: x in d <==> x in xs[..|xs| - 1]
    requires InFirstOccurrenceOrder(d, xs[..|xs| - 1])
    ensures InFirstOccurrenceOrder(if xs[|xs| - 1] in d then d else d + [xs[|xs| - 1]], xs)
  {
    var n := |xs| - 1;
    forall x | x in d ensures x in xs[..n] && x in xs && FirstIndex(xs, x) == FirstIndex(xs[..n], x) {
      assert xs[..n] <= xs;
      FirstIndexOfPrefix(xs, n, x);
    }
    if xs[n] !in d {
      assert xs[..n + 1] == xs;
    }
  }

  /** The options of the drop-down: the "all" sentinel, then each category of
      the list once, in the order the set of categories iterates. */
  function CategoryOptions(qs: seq<Quote>): (r: seq<string>)
    ensures |r| >= 1 && r[0] == AllCategories
    ensures forall c :: c in r[1..] <==> exists q :: q in qs && q.category == c
    ensures NoDuplicates(r[1..])
  {
    var cs := CategoriesOf(qs);
    var d := Distinct(cs);
    var r := [AllCategories] + d;
    assert r[1..] == d;
    forall c ensures c in d <==> exists q :: q in qs && q.category == c {
      if c in cs {
        var i :| 0 <= i < |cs| && cs[i] == c;
        assert qs[i] in qs;
      }
      if q :| q in qs && q.category == c {
        var i :| 0 <= i < |qs| && qs[i] == q;
        assert cs[i] == c;
      }
    }
    r
  }

  /** The options after "all" come in the order in which their categories
      first occur in the list. */
  lemma OptionsInFirstOccurrenceOrder(qs: seq<Quote>)
    ensures InFirstOccurrenceOrder(CategoryOptions(qs)[1..], CategoriesOf(qs))
  {
    assert CategoryOptions(qs)[1..] == Distinct(CategoriesOf(qs));
    DistinctInFirstOccurrenceOrder(CategoriesOf(qs));
  }

  /** The value of the drop-down after it is rebuilt: the saved filter when it is
      truthy (non-empty) and one of the options, otherwise the first option. */
  function RestoredFilter(qs: seq<Quote>, saved: Option<string>): (sel: string)
    ensures sel in CategoryOptions(qs)
    ensures saved.Some? && saved.value != "" && saved.value in CategoryOptions(qs) ==> sel == saved.value
    ensures sel != AllCategories ==> saved == Some(sel)
    // a missing, empty or unknown saved filter leaves the first option selected
    ensures !(saved.Some? && saved.value != "" && saved.value in CategoryOptions(qs)) ==> sel == AllCategories
  {
    var options := CategoryOptions(qs);
    if saved.Some? && saved.value != "" && saved.value in options then saved.value else options[0]
  }

  /** A saved filter naming the category of some quote is restored; one naming no
      category of the list falls back to "all". */
  lemma SavedFilterRestoredIffPresent(qs: seq<Quote>, c: string)
    requires c != "" && c != AllCategories
    ensures RestoredFilter(qs, Some(c)) == c <==> exists q :: q in qs && q.category == c
  {
    var options := CategoryOptions(qs);
    if exists q :: q in qs && q.category == c {
      assert c in options[1..];
    }
  }

  /** A list with no repeated element is its own set: `new Set` keeps it as it is. */
  lemma {:induction false} DistinctOfDuplicateFree(xs: seq<string>)
    requires NoDuplicates(xs)
    ensures Distinct(xs) == xs
    decreases |xs|
  {
    if xs != [] {
      var prefix := xs[..|xs| - 1];
      var last := xs[|xs| - 1];
      assert NoDuplicates(prefix) by {
        forall i, j | 0 <= i < j < |prefix| ensures prefix[i] != prefix[j] {
          assert prefix[i] == xs[i] && prefix[j] == xs[j];
        }
      }
      assert last !in prefix by {
        forall i | 0 <= i < |prefix| ensures prefix[i] != last {
          assert prefix[i] == xs[i];
        }
      }
      DistinctOfDuplicateFree(prefix);
      assert prefix + [last] == xs;
      DistinctSnoc(prefix, last);
    }
  }

  /** When no two quotes share a category, the options are "all" followed by the categories in list order. */
  lemma OptionsOfDistinctCategories(qs: seq<Quote>)
    requires NoDuplicates(CategoriesOf(qs))
    ensures CategoryOptions(qs) == [AllCategories] + CategoriesOf(qs)
  {
    DistinctOfDuplicateFree(CategoriesOf(qs));
  }
}

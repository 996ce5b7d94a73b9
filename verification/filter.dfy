/** The category filter shared by the list view and the random-quote button. */
module Filter {
  import opened Quotes
  import Categories

  /** The quotes whose category is exactly `selected`, in list order. */
  function ByCategory(qs: seq<Quote>, selected: string): (r: seq<Quote>)
    ensures |r| <= |qs|
    ensures forall q :: q in r <==> q in qs && q.category == selected
  {
    if qs == [] then []
    else
      var rest := ByCategory(qs[1..], selected);
      if qs[0].category == selected then [qs[0]] + rest else rest
  }

  /** The filter is a selection: each matching quote is kept as often as it
      occurs and every other quote is dropped, without reordering. */
  lemma {:induction false} ByCategorySelects(qs: seq<Quote>, selected: string)
    ensures forall q :: multiset(ByCategory(qs, selected))[q] == if q.category == selected then multiset(qs)[q] else 0
    ensures IsSubsequence(ByCategory(qs, selected), qs)
    decreases |qs|
  {
    if qs != [] {
      var rest := ByCategory(qs[1..], selected);
      ByCategorySelects(qs[1..], selected);
      assert qs == [qs[0]] + qs[1..];
      if qs[0].category == selected {
        assert ([qs[0]] + rest)[1..] == rest;
      }
    }
  }

  /** The list a category selection shows: the whole list for "all", otherwise
      the quotes of that category in list order. */
  function FilterQuotes(qs: seq<Quote>, selected: string): (r: seq<Quote>)
    ensures selected == Categories.AllCategories ==> r == qs
    ensures |r| <= |qs|
    ensures forall q :: multiset(r)[q] == if Shown(q, selected) then multiset(qs)[q] else 0
    ensures IsSubsequence(r, qs)
  {
    if selected == Categories.AllCategories then SubsequenceOfSelf(qs); qs
    else ByCategorySelects(qs, selected); ByCategory(qs, selected)
  }

  /** Filtering commutes with concatenation: together with the one-element case
      this pins the filter down as the order-preserving selection. */
  lemma {:induction false} ByCategoryOfAppend(a: seq<Quote>, b: seq<Quote>, selected: string)
    ensures ByCategory(a + b, selected) == ByCategory(a, selected) + ByCategory(b, selected)
    decreases |a|
  {
    if a == [] {
      assert a + b == b;
    } else {
      assert (a + b)[0] == a[0];
      assert (a + b)[1..] == a[1..] + b;
      ByCategoryOfAppend(a[1..], b, selected);
    }
  }

  lemma ByCategoryOfSingleton(q: Quote, selected: string)
    ensures ByCategory([q], selected) == if q.category == selected then [q] else []
  {
    assert [q][1..] == [];
  }

  /** Whether a quote is shown under a selection. */
  predicate Shown(q: Quote, selected: string)
  {
    selected == Categories.AllCategories || q.category == selected
  }

  /** The random-quote button: `index` stands for the random position drawn
      inside the filtered list, and the quote at that position is shown. Nothing
      is shown when no quote matches. */
  function ShowRandomQuote(qs: seq<Quote>, selected: string, index: nat): (r: Option<Quote>)
    requires FilterQuotes(qs, selected) != [] ==> index < |FilterQuotes(qs, selected)|
    ensures r.None? <==> forall q :: q in qs ==> !Shown(q, selected)
    ensures r.Some? ==> r.value in qs && Shown(r.value, selected)
    ensures r.Some? ==> FilterQuotes(qs, selected) != [] && r.value == FilterQuotes(qs, selected)[index]
  {
    var filtered := FilterQuotes(qs, selected);
    if |filtered| > 0 then
      assert filtered[index] in filtered;
      Some(filtered[index])
    else
      assert forall q :: q in qs ==> !Shown(q, selected) by {
        if selected == Categories.AllCategories {
          assert qs == [];
        }
      }
      None
  }

  /** Every quote shown under a selection is the pick for some position of the
      filtered list, so the random draw can reach each of them. */
  lemma EveryShownQuoteCanBePicked(qs: seq<Quote>, selected: string, q: Quote)
    requires q in qs && Shown(q, selected)
    ensures exists index: nat :: index < |FilterQuotes(qs, selected)| && ShowRandomQuote(qs, selected, index) == Some(q)
  {
    var filtered := FilterQuotes(qs, selected);
    assert multiset(filtered)[q] == multiset(qs)[q] > 0;
    var index :| 0 <= index < |filtered| && filtered[index] == q;
    assert ShowRandomQuote(qs, selected, index) == Some(q);
  }
}

/** The quote records the widget keeps in memory, the helpers every other
    module uses to talk about them, and loading the list at start-up. */
module Quotes {

  datatype Option<+T> = None | Some(value: T)

  datatype Result<+T, +E> = Ok(value: T) | Err(error: E)

  /** One entry of the in-memory list: the text shown and the category it is filed under. */
  datatype Quote = Quote(text: string, category: string)

  /** The texts present in a list: the search for a quote with text `t` succeeds exactly when `t` is in here. */
  function Texts(qs: seq<Quote>): set<string>
  {
    set q | q in qs :: q.text
  }

  /** `a` can be obtained from `b` by deleting elements, keeping the order of the rest. */
  predicate IsSubsequence<T(==)>(a: seq<T>, b: seq<T>)
    decreases |b|
  {
    a == [] || (b != [] && ((a[0] == b[0] && IsSubsequence(a[1..], b[1..])) || IsSubsequence(a, b[1..])))
  }

  lemma {:induction false} SubsequenceOfSelf<T>(s: seq<T>)
    ensures IsSubsequence(s, s)
    decreases |s|
  {
    if s != [] {
      SubsequenceOfSelf(s[1..]);
    }
  }

  /** Each element of a subsequence is an element of the sequence it was taken from. */
  lemma {:induction false} SubsequenceMembers<T>(a: seq<T>, b: seq<T>, k: nat)
    requires IsSubsequence(a, b)
    requires k < |a|
    ensures a[k] in b
    decreases |b|
  {
    if a[0] == b[0] && IsSubsequence(a[1..], b[1..]) {
      if k > 0 {
        SubsequenceMembers(a[1..], b[1..], k - 1);
      }
    } else {
      SubsequenceMembers(a, b[1..], k);
    }
  }

  lemma TextsOfSingleton(q: Quote)
    ensures Texts([q]) == {q.text}
  {
    assert q in [q];
  }

  lemma TextsOfAppend(a: seq<Quote>, b: seq<Quote>)
    ensures Texts(a + b) == Texts(a) + Texts(b)
  {
    forall t | t in Texts(a + b) ensures t in Texts(a) + Texts(b) {
      var q :| q in a + b && q.text == t;
    }
  }

  /** The list used when nothing usable was persisted. */
  const DefaultQuotes: seq<Quote> := [
    Quote("Life is what happens when you're busy making other plans.", "Life"),
    Quote("The purpose of our lives is to be happy.", "Happiness"),
    Quote("Get busy living or get busy dying.", "Motivation")
  ]

  /** What parsing the persisted "quotes" entry yields: the entry may be
      absent (which parses to null), hold text that is not JSON, hold a JSON
      value that is falsy (null, false, 0 or the empty string), or hold a list
      of quotes. */
  datatype Stored = Missing | Unparseable | Falsy | StoredList(quotes: seq<Quote>)

  datatype LoadError = MalformedStorage

  /** The start-up value of the list: the persisted list when there is one
      (an empty list is kept, since an array is truthy), the defaults when the
      parsed value is absent or falsy. A malformed stored string makes the
      top-level `JSON.parse` throw, so the script stops: an error here. */
  function LoadQuotes(stored: Stored): (r: Result<seq<Quote>, LoadError>)
    ensures r.Err? <==> stored.Unparseable?
    ensures stored.StoredList? ==> r == Ok(stored.quotes)
    ensures (stored.Missing? || stored.Falsy?) ==> r == Ok(DefaultQuotes)
  {
    match stored
    case Missing => Ok(DefaultQuotes)
    case Falsy => Ok(DefaultQuotes)
    case Unparseable => Err(MalformedStorage)
    case StoredList(qs) => Ok(qs)
  }

  /** Persisting a list and reloading it gives the same list back, including the empty list. */
  lemma LoadAfterPersist(qs: seq<Quote>)
    ensures LoadQuotes(StoredList(qs)) == Ok(qs)
    ensures qs == [] ==> LoadQuotes(StoredList(qs)) != LoadQuotes(Missing)
  {
  }

  /** The default list has non-empty fields and no two entries share a text. */
  lemma DefaultQuotesWellFormed()
    ensures forall i :: 0 <= i < |DefaultQuotes| ==> DefaultQuotes[i].text != "" && DefaultQuotes[i].category != ""
    ensures forall i, j :: 0 <= i < j < |DefaultQuotes| ==> DefaultQuotes[i].text != DefaultQuotes[j].text
  {
  }
}

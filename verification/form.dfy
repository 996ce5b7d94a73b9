/** Adding a quote: the add-quote form's guard, with the whitespace trimming it
    relies on, and the unconditional append behind it. */
module AddForm {
  import opened Quotes
  import Categories
  import Filter

  /** The characters `String.prototype.trim` removes: the WhiteSpace and
      LineTerminator code points of ECMAScript (ECMA-262, sections 12.2 and
      12.3), with the space separators of Unicode category Zs written out. */
  predicate IsWhitespace(ch: char)
  {
    || ch == '\t' || ch == '\n' || ch == '\U{000B}' || ch == '\U{000C}' || ch == '\r'
    || ch == ' ' || ch == '\U{00A0}' || ch == '\U{1680}'
    || ('\U{2000}' <= ch <= '\U{200A}')
    || ch == '\U{2028}' || ch == '\U{2029}' || ch == '\U{202F}' || ch == '\U{205F}'
    || ch == '\U{3000}' || ch == '\U{FEFF}'
  }

  /** The first position at or after `i` holding a non-whitespace character, or `|s|`. */
  function SkipLeading(s: string, i: nat): (k: nat)
    requires i <= |s|
    ensures i <= k <= |s|
    ensures forall m :: i <= m < k ==> IsWhitespace(s[m])
    ensures k < |s| ==> !IsWhitespace(s[k])
    decreases |s| - i
  {
    if i < |s| && IsWhitespace(s[i]) then SkipLeading(s, i + 1) else i
  }

  /** The end of `s[..j]` once its trailing whitespace is cut off. */
  function SkipTrailing(s: string, j: nat): (k: nat)
    requires j <= |s|
    ensures k <= j
    ensures forall m :: k <= m < j ==> IsWhitespace(s[m])
    ensures k > 0 ==> !IsWhitespace(s[k - 1])
  {
    if j > 0 && IsWhitespace(s[j - 1]) then SkipTrailing(s, j - 1) else j
  }

  /** `s[i..j]` is what is left of `s` once its whitespace ends are cut off. */
  predicate StripsTo(s: string, i: int, j: int)
  {
    && 0 <= i <= j <= |s|
    && (forall k :: 0 <= k < i ==> IsWhitespace(s[k]))
    && (forall k :: j <= k < |s| ==> IsWhitespace(s[k]))
    && (i < j ==> !IsWhitespace(s[i]) && !IsWhitespace(s[j - 1]))
  }

  /** Some character of `s` is not whitespace. */
  predicate HasVisibleChar(s: string)
  {
    exists k :: 0 <= k < |s| && !IsWhitespace(s[k])
  }

  /** `String.prototype.trim`. */
  function Trim(s: string): (r: string)
    ensures exists i, j :: StripsTo(s, i, j) && r == s[i..j]
    ensures r != [] <==> HasVisibleChar(s)
  {
    var i := SkipLeading(s, 0);
    if i == |s| then
      assert StripsTo(s, i, i) && s[i..i] == [];
      []
    else
      var j := SkipTrailing(s, |s|);
      // `s[i]` is not whitespace, so the scan from the end stops after it
      assert i < j;
      assert StripsTo(s, i, j);
      assert !IsWhitespace(s[i]);
      s[i..j]
  }

  /** A trimmed string neither starts nor ends with whitespace. */
  lemma TrimmedHasNoWhitespaceEnds(s: string)
    ensures Trim(s) != [] ==> !IsWhitespace(Trim(s)[0]) && !IsWhitespace(Trim(s)[|Trim(s)| - 1])
  {
    var r := Trim(s);
    var i, j :| StripsTo(s, i, j) && r == s[i..j];
    if r != [] {
      assert r[0] == s[i] && r[|r| - 1] == s[j - 1];
    }
  }

  /** Trimming twice is trimming once. */
  lemma TrimIdempotent(s: string)
    ensures Trim(Trim(s)) == Trim(s)
  {
    var r := Trim(s);
    TrimmedHasNoWhitespaceEnds(s);
    if r != [] {
      assert SkipLeading(r, 0) == 0;
      assert SkipTrailing(r, |r|) == |r|;
      assert r[0..|r|] == r;
    }
  }

  /** `addQuote`: the new quote is pushed at the end, whether or not its text is
      already present. */
  function AddQuote(qs: seq<Quote>, text: string, category: string): (r: seq<Quote>)
    ensures |r| == |qs| + 1
    ensures r[..|qs|] == qs
    ensures r[|qs|] == Quote(text, category)
  {
    qs + [Quote(text, category)]
  }

  /** A quote just added is the last quote shown under its own category (and
      under "all"), and its category is offered in the drop-down. */
  lemma AddedQuoteIsRetrievable(qs: seq<Quote>, text: string, category: string)
    ensures Filter.FilterQuotes(AddQuote(qs, text, category), category)
      == Filter.FilterQuotes(qs, category) + [Quote(text, category)]
    ensures category in Categories.CategoryOptions(AddQuote(qs, text, category))
  {
    var q := Quote(text, category);
    var r := AddQuote(qs, text, category);
    assert r == qs + [q];
    if category != Categories.AllCategories {
      Filter.ByCategoryOfAppend(qs, [q], category);
      Filter.ByCategoryOfSingleton(q, category);
    }
    assert q in r;
    var options := Categories.CategoryOptions(r);
    if category != Categories.AllCategories {
      assert category in options[1..];
    }
  }

  /** The form's state after the add button is pressed: the list, the two input
      fields, and the notification shown, if any. */
  datatype FormState = FormState(quotes: seq<Quote>, textField: string, categoryField: string, notice: Option<string>)

  const MissingFieldsNotice := "Please enter both a quote and a category."

  /** The click handler of the add button: both fields are trimmed; when both are
      non-empty the trimmed quote is added and the fields are cleared, otherwise
      the list and fields stay as they are and the user is told to fill both in. */
  function SubmitAddQuoteForm(qs: seq<Quote>, textField: string, categoryField: string): (r: FormState)
    ensures r.notice.None? <==> HasVisibleChar(textField) && HasVisibleChar(categoryField)
    ensures r.notice.None? ==>
      && r.quotes == qs + [Quote(Trim(textField), Trim(categoryField))]
      && r.textField == "" && r.categoryField == ""
    ensures r.notice.Some? ==> r == FormState(qs, textField, categoryField, Some(MissingFieldsNotice))
  {
    var text := Trim(textField);
    var category := Trim(categoryField);
    if text != "" && category != "" then
      FormState(AddQuote(qs, text, category), "", "", None)
    else
      FormState(qs, textField, categoryField, Some(MissingFieldsNotice))
  }

  /** A quote that enters through the form has non-empty fields with no
      whitespace at either end. */
  lemma FormAddsTrimmedQuote(qs: seq<Quote>, textField: string, categoryField: string)
    requires SubmitAddQuoteForm(qs, textField, categoryField).notice.None?
    ensures var q := SubmitAddQuoteForm(qs, textField, categoryField).quotes[|qs|];
      && q.text != "" && !IsWhitespace(q.text[0]) && !IsWhitespace(q.text[|q.text| - 1])
      && q.category != "" && !IsWhitespace(q.category[0]) && !IsWhitespace(q.category[|q.category| - 1])
  {
    var r := SubmitAddQuoteForm(qs, textField, categoryField);
    assert r.quotes[|qs|] == Quote(Trim(textField), Trim(categoryField));
    TrimmedHasNoWhitespaceEnds(textField);
    TrimmedHasNoWhitespaceEnds(categoryField);
  }
}

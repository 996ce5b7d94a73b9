# Quote generator: the list logic of `dom-manipulation/script.js`

The widget keeps an ordered list of `{text, category}` quotes in memory. The
list can be filtered by category, extended through an add-quote form, merged
with an imported JSON file, and reconciled every 30 seconds against a remote
placeholder endpoint. This project models the list operations behind those
features as pure Dafny functions over `seq<Quote>`. It proves what the
operations promise:

- The merge never disturbs the existing quotes.
- The merge adds only texts that are new, and merging the same batch again
  changes nothing.
- The sync's `localChanged` flag is raised exactly when the list grew.
- The category drop-down lists each category once, in first-occurrence order.
- The filter is the order-preserving selection of one category.
- The add form adds a trimmed quote only when both fields have visible text.

Modules, one per part of the script:

- `Quotes` (`quotes.dfy`): the `Quote` record, the text set `find` looks
  into, the default list, and start-up loading.
- `Merge` (`merge.dfy`): the append-if-absent-by-text loop shared by sync and
  import, written as a left fold of one `forEach` step.
- `ServerSync` (`sync.dfy`): the projection of fetched posts, the fetch with
  its failure fallback, and the sync loop with its `localChanged` flag.
- `Import` (`import.dfy`): the file import with its three outcomes.
- `Categories` (`categories.dfy`): the drop-down options and the
  saved-filter restore.
- `Filter` (`filter.dfy`): the category filter and the random pick.
- `AddForm` (`form.dfy`): `String.prototype.trim`, `addQuote` and the form's
  guard.

Three behaviours of the code to note:

- A malformed persisted list is not treated as absent. The top-level
  `JSON.parse` at line 5 throws, so `LoadQuotes` returns an error for it.
- An import file that parses but is not an array is ignored without any
  notification (lines 190-200). Only a parse error is announced (lines 201-202).
- The dedup key is the text alone, never text plus category (lines 51 and 192).

One quirk of the code is modelled as written: a quote whose category is the
string `"all"` makes `"all"` appear twice among the options. Selecting it
still shows every quote.

## Model

| member | source | states |
|---|---|---|
| Quotes.LoadQuotes | dom-manipulation/script.js:5-9 | the start-up list is the persisted list, even when empty; it is the three defaults when the key is missing or parses to a falsy value; unparseable storage is an error |
| Quotes.LoadAfterPersist | dom-manipulation/script.js:5-9 | a corollary of `LoadQuotes`, spelling out the empty-list case: a stored list, even an empty one, is kept and not replaced by the defaults; serialisation itself is not modelled |
| Quotes.DefaultQuotesWellFormed | dom-manipulation/script.js:5-9 | the default quotes have non-empty fields and pairwise distinct texts |
| Merge.MergeByText | dom-manipulation/script.js:50-55 | the old list is a prefix of the result, so nothing is removed, reordered or changed; at most one quote is added per incoming record |
| Merge.MergeTexts | dom-manipulation/script.js:50-55 | the merged list's texts are exactly the old texts plus the incoming texts |
| Merge.AppendedTextsFresh | dom-manipulation/script.js:191-195 | each appended quote's text occurs nowhere before it in the merged list, neither among the old quotes nor among those appended earlier in the batch |
| Merge.AppendedAreNewByText | dom-manipulation/script.js:51-52 | no appended quote's text was in the original list, and no two appended quotes share a text |
| Merge.AppendedFormSubsequence | dom-manipulation/script.js:50-55 | the appended quotes are records of the incoming batch, kept in batch order |
| Merge.FirstNewRecordIsAppended | dom-manipulation/script.js:191-195 | an incoming record whose text is absent from the list and from all earlier batch records is appended, so the first of several same-text records wins |
| Merge.MergeOfKnownTextsIsIdentity | dom-manipulation/script.js:191-195 | a batch whose texts are all already present leaves the list unchanged |
| Merge.MergeIdempotent | dom-manipulation/script.js:50-55 | merging the same batch twice gives the same list as merging it once |
| Merge.MergeWithSelf | dom-manipulation/script.js:191-195 | merging a list into itself changes nothing |
| Merge.MergeConcat | dom-manipulation/script.js:50-55 | two successive batches give the same list as their concatenation in one batch |
| Merge.MergeGrowsIffNewText | dom-manipulation/script.js:48-56 | the list grows exactly when some incoming text is not yet present |
| Merge.MergeTwoNewTexts | dom-manipulation/script.js:50-55 | two records with distinct texts, both unknown to the list, are both appended in batch order |
| Merge.WithinBatchDuplicate | dom-manipulation/script.js:191-195 | of two same-text records in one batch merged into an empty list, only the first is kept |
| ServerSync.AsServerQuotes | dom-manipulation/script.js:21-24 | the mapped list has one quote per record, with the record's title as text and category "Server" |
| ServerSync.ProjectServerData | dom-manipulation/script.js:21-24 | the snapshot has min(5, number of records) quotes; quote i has record i's title as text and category "Server" |
| ServerSync.ProjectionIgnoresTail | dom-manipulation/script.js:21 | records after the fifth never affect the snapshot |
| ServerSync.FetchQuotesFromServer | dom-manipulation/script.js:17-29 | a failed fetch yields the empty list; a successful one yields min(5, number of records) quotes, quote i having record i's title as text and category "Server" |
| ServerSync.SyncQuotes | dom-manipulation/script.js:46-63 | the snapshot it works on is what the fetch returns; the loop's list equals the merge of that snapshot, and every quote it adds is one of the fetched quotes; `localChanged` holds exactly when the list grew, which is exactly when some fetched text was new |
| ServerSync.SyncAppendsServerQuotes | dom-manipulation/script.js:46-55 | every quote a sync adds has category "Server" and the title of one of the first five remote records |
| ServerSync.FailedFetchChangesNothing | dom-manipulation/script.js:25-28 | when the fetch fails, the sync leaves the list unchanged |
| ServerSync.SyncTwoNewPosts | dom-manipulation/script.js:46-55 | posts titled "A" and "B", both unknown locally, become two "Server" quotes appended in that order |
| Import.ImportFromJsonFile | dom-manipulation/script.js:182-207 | an array is merged by text and announced as a success; a parse error is announced and changes nothing; no file, or a non-array, changes nothing silently |
| Import.ReimportExportIsIdentity | dom-manipulation/script.js:169-195 | importing the exported list back leaves the list unchanged |
| Import.ImportTwiceIsImportOnce | dom-manipulation/script.js:191-195 | importing the same file twice gives the list one import gives |
| Import.ImportSingleRecord | dom-manipulation/script.js:191-195 | a one-record file with a known text changes nothing; one with a new text appends the record at the end |
| Categories.Distinct | dom-manipulation/script.js:78 | the insertion-ordered set holds exactly the list's elements and has no repeats |
| Categories.DistinctInFirstOccurrenceOrder | dom-manipulation/script.js:78 | the set's elements come in the order of their first occurrence in the list |
| Categories.DistinctSnoc | dom-manipulation/script.js:78 | inserting one more element appends it exactly when it was not present yet |
| Categories.DistinctOfDuplicateFree | dom-manipulation/script.js:78 | a list with no repeats is kept as it is |
| Categories.CategoryOptions | dom-manipulation/script.js:78 | the options start with "all"; the rest are exactly the quotes' categories, each once |
| Categories.OptionsInFirstOccurrenceOrder | dom-manipulation/script.js:78 | the options after "all" come in the order in which their categories first occur among the quotes |
| Categories.OptionsOfDistinctCategories | dom-manipulation/script.js:78 | when no two quotes share a category, the options are "all" followed by the categories in list order |
| Categories.RestoredFilter | dom-manipulation/script.js:88-91 | the selection is always an option; a non-empty saved filter that is an option is restored; any selection other than "all" is the saved filter; a missing, empty or unknown saved filter leaves "all" selected |
| Categories.SavedFilterRestoredIffPresent | dom-manipulation/script.js:88-91 | a saved filter other than "all" is restored exactly when some quote has that category |
| Filter.ByCategory | dom-manipulation/script.js:101 | a quote is in the result exactly when it is in the list and has the selected category; the result is no longer than the list |
| Filter.ByCategorySelects | dom-manipulation/script.js:101 | the result is a subsequence of the list; it keeps each quote of the category with its multiplicity and drops every other quote |
| Filter.FilterQuotes | dom-manipulation/script.js:99-101 | "all" gives the whole list; any selection gives the order-preserving subsequence of the quotes shown under it, never longer than the list |
| Filter.ByCategoryOfAppend | dom-manipulation/script.js:101 | filtering a concatenation is concatenating the filtered parts |
| Filter.ByCategoryOfSingleton | dom-manipulation/script.js:101 | a one-quote list is kept exactly when its category matches |
| Filter.ShowRandomQuote | dom-manipulation/script.js:121-133 | nothing is shown exactly when no quote matches the selection; otherwise the quote shown is the one at the drawn position of the filtered list, and it is in the list and matches the selection |
| Filter.EveryShownQuoteCanBePicked | dom-manipulation/script.js:127-129 | every quote of the list that matches the selection is shown for some position the draw can produce |
| AddForm.Trim | dom-manipulation/script.js:156-157 | the result is the input with its whitespace ends cut off; it is empty exactly when the input has no visible character |
| AddForm.TrimmedHasNoWhitespaceEnds | dom-manipulation/script.js:156-157 | a non-empty trimmed string neither starts nor ends with whitespace |
| AddForm.TrimIdempotent | dom-manipulation/script.js:156-157 | trimming twice is the same as trimming once |
| AddForm.AddQuote | dom-manipulation/script.js:136-138 | the list grows by exactly one, keeps its old quotes as a prefix, and ends with the new quote, even when its text is already present |
| AddForm.AddedQuoteIsRetrievable | dom-manipulation/script.js:136-143 | after an add, filtering by the new quote's category gives the old filtered list plus the new quote, and the category is offered in the drop-down |
| AddForm.SubmitAddQuoteForm | dom-manipulation/script.js:155-164 | a quote is added exactly when both fields have a visible character; the added quote has the trimmed fields and both inputs are cleared; otherwise list and fields are unchanged and the user is told to fill both in |
| AddForm.FormAddsTrimmedQuote | dom-manipulation/script.js:155-159 | a quote entered through the form has non-empty text and category, neither starting nor ending with whitespace |

## Left out

- Network I/O is not modelled. This covers `fetch`, `res.json()` and the fire-and-forget POST in `postQuoteToServer` (lines 19-20, 32-43). A fetch is an `Option` input: `None` for a failed request or body, `Some(records)` for the parsed posts.
- ServerSync.ProjectServerData: a post's `title` is taken to be a string. A missing or non-string title, which the code would copy as is, is not modelled.
- Browser storage reads and writes are not modelled, nor the `JSON.stringify`/`JSON.parse` around them (lines 5, 58, 88, 97, 117, 139, 196). The stored list and the saved filter become inputs. A parsed stored value that is truthy but not an array is not modelled.
- DOM rendering is not modelled. This covers `displayQuotes` markup and its last-viewed entry, the `showNotification` element, the form's HTML and `alert`. Notifications are not displayed but signalled: `ImportFromJsonFile` and `SubmitAddQuoteForm` return the message text; `SyncQuotes` signals "Quotes updated from server!" and its alert through `localChanged` being true; `ShowRandomQuote` signals "No quotes available for this category." by returning `None`.
- The 30-second `setInterval` and the notification's `setTimeout` are not modelled (lines 65, 71-73). A sync is one call.
- Filter.ShowRandomQuote: `Math.random` is not modelled. The index it would produce is a parameter that must lie inside the filtered list.
- The `FileReader`, `Blob` and object-URL plumbing of export and import is not modelled (lines 171-178, 186-206). Export is modelled as the list itself, and import starts from the already-parsed value.
- Import.ImportFromJsonFile: array elements are taken to be `{text, category}` records with string fields. The code does not check element shape. A `null` element would make `find` throw partway through, with some records already pushed.
- The follow-up calls after a change are not modelled. These are `populateCategories()` and `filterQuotes()` after a sync, import or add; the model gives their results as separate functions.

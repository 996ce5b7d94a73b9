/** Importing a JSON file of quotes, and the file export it is meant to undo. */
module Import {
  import opened Quotes
  import opened Merge

  /** What the file input and `JSON.parse` deliver: no file chosen, text that
      does not parse, a parsed value that is not an array, or an array of quote
      records. */
  datatype ImportInput = NoFile | Unparseable | NotAnArray | QuoteArray(records: seq<Quote>)

  /** The list after the import, and the notification shown, if any. */
  datatype ImportOutcome = ImportOutcome(quotes: seq<Quote>, notice: Option<string>)

  const ImportedNotice := "Quotes imported successfully!"
  const ImportErrorNotice := "Error importing quotes file."

  /** `importFromJsonFile`: an array is merged by text and announced; a parse
      error is announced and changes nothing; no file, or a parsed value that is
      not an array, changes nothing silently. */
  function ImportFromJsonFile(local: seq<Quote>, input: ImportInput): (r: ImportOutcome)
    ensures input.QuoteArray? ==> r.quotes == MergeByText(local, input.records)
    ensures !input.QuoteArray? ==> r.quotes == local
    ensures r.notice == Some(ImportedNotice) <==> input.QuoteArray?
    ensures r.notice == Some(ImportErrorNotice) <==> input.Unparseable?
    ensures r.notice.None? <==> input.NoFile? || input.NotAnArray?
  {
    match input
    case NoFile => ImportOutcome(local, None)
    case Unparseable => ImportOutcome(local, Some(ImportErrorNotice))
    case NotAnArray => ImportOutcome(local, None)
    case QuoteArray(records) => ImportOutcome(MergeByText(local, records), Some(ImportedNotice))
  }

  /** The exported file holds the list itself, serialised as it stands, so
      importing it back changes nothing. */
  lemma ReimportExportIsIdentity(local: seq<Quote>)
    ensures ImportFromJsonFile(local, QuoteArray(local)).quotes == local
  {
    MergeWithSelf(local);
  }

  /** Importing the same file twice leaves the list as one import did. */
  lemma ImportTwiceIsImportOnce(local: seq<Quote>, input: ImportInput)
    ensures ImportFromJsonFile(ImportFromJsonFile(local, input).quotes, input).quotes
      == ImportFromJsonFile(local, input).quotes
  {
    if input.QuoteArray? {
      MergeIdempotent(local, input.records);
    }
  }

  /** A one-record file: a record whose text is known is not duplicated, a
      record with new text is appended at the end. */
  lemma ImportSingleRecord(local: seq<Quote>, q: Quote)
    ensures q.text in Texts(local) ==> ImportFromJsonFile(local, QuoteArray([q])).quotes == local
    ensures q.text !in Texts(local) ==> ImportFromJsonFile(local, QuoteArray([q])).quotes == local + [q]
  {
    assert [q][1..] == [];
    var next := PushIfAbsent(local, q);
    assert MergeByText(local, [q]) == MergeByText(next, []);
  }
}

/** Reconciling the list with the remote placeholder endpoint: projecting the
    fetched posts into quotes, and the periodic sync that merges them. */
module ServerSync {
  import opened Quotes
  import opened Merge

  /** A record of the remote list; only its `title` is used. */
  datatype ServerItem = ServerItem(title: string)

  /** How many remote records a fetch keeps: the first five, the rest are dropped. */
  const MaxServerQuotes: nat := 5

  /** The category every fetched quote is filed under. */
  const ServerCategory := "Server"

  /** Each remote record becomes a quote whose text is the record's title, filed under "Server". */
  function AsServerQuotes(items: seq<ServerItem>): (r: seq<Quote>)
    ensures |r| == |items|
    ensures forall i :: 0 <= i < |r| ==> r[i].text == items[i].title && r[i].category == ServerCategory
  {
    if items == [] then [] else [Quote(items[0].title, ServerCategory)] + AsServerQuotes(items[1..])
  }

  /** The snapshot a successful fetch returns: the first five records, projected. */
  function ProjectServerData(data: seq<ServerItem>): (r: seq<Quote>)
    ensures |r| == if |data| < MaxServerQuotes then |data| else MaxServerQuotes
    ensures forall i :: 0 <= i < |r| ==> r[i] == Quote(data[i].title, ServerCategory)
  {
    var n := if |data| < MaxServerQuotes then |data| else MaxServerQuotes;
    AsServerQuotes(data[..n])
  }

  /** Records after the fifth never influence the snapshot. */
  lemma ProjectionIgnoresTail(data: seq<ServerItem>, extra: seq<ServerItem>)
    requires |data| >= MaxServerQuotes
    ensures ProjectServerData(data + extra) == ProjectServerData(data)
  {
    assert (data + extra)[..MaxServerQuotes] == data[..MaxServerQuotes];
  }

  /** `fetchQuotesFromServer`: a failed request or body parse is caught and yields
      the empty list; otherwise the projected snapshot. `None` stands for the
      failure, `Some(data)` for the parsed response body. */
  function FetchQuotesFromServer(response: Option<seq<ServerItem>>): (r: seq<Quote>)
    ensures response.None? ==> r == []
    ensures response.Some? ==> |r| == if |response.value| < MaxServerQuotes then |response.value| else MaxServerQuotes
    ensures response.Some? ==> forall i :: 0 <= i < |r| ==> r[i] == Quote(response.value[i].title, ServerCategory)
  {
    match response
    case None => []
    case Some(data) => ProjectServerData(data)
  }

  /** One tick of `syncQuotes`: the snapshot is fetched, then the loop pushes
      every fetched quote whose text the search does not find in the growing
      list, and raises `localChanged` on each push. The flag is what decides
      whether the list is persisted, the view refreshed and the user notified.
      The snapshot is returned as well so that the contract can speak of it;
      every quote added is filed under "Server" by `SyncAppendsServerQuotes`. */
  method SyncQuotes(local: seq<Quote>, response: Option<seq<ServerItem>>)
    returns (serverQuotes: seq<Quote>, quotes: seq<Quote>, localChanged: bool)
    ensures serverQuotes == FetchQuotesFromServer(response)
    ensures forall j :: |local| <= j < |quotes| ==> quotes[j] in serverQuotes
    ensures localChanged <==> |quotes| > |local|
    ensures localChanged <==> exists q :: q in serverQuotes && q.text !in Texts(local)
    ensures quotes == MergeByText(local, serverQuotes)
  {
    serverQuotes := FetchQuotesFromServer(response);
    quotes := local;
    localChanged := false;
    var i := 0;
    while i < |serverQuotes|
      invariant 0 <= i <= |serverQuotes|
      invariant MergeByText(quotes, serverQuotes[i..]) == MergeByText(local, serverQuotes)
      invariant local <= quotes
      invariant localChanged <==> |quotes| > |local|
    {
      var sq := serverQuotes[i];
      assert serverQuotes[i..][1..] == serverQuotes[i + 1..];
      if sq.text !in Texts(quotes) {
        quotes := quotes + [sq];
        localChanged := true;
      }
      i := i + 1;
    }
    assert serverQuotes[i..] == [];
    MergeGrowsIffNewText(local, serverQuotes);
    AppendedFormSubsequence(local, serverQuotes);
    forall j | |local| <= j < |quotes| ensures quotes[j] in serverQuotes {
      assert quotes[|local|..][j - |local|] == quotes[j];
      SubsequenceMembers(quotes[|local|..], serverQuotes, j - |local|);
    }
  }

  /** Every quote a sync adds is a projected server record: category "Server"
      and the title of one of the first five remote records. */
  lemma SyncAppendsServerQuotes(local: seq<Quote>, response: Option<seq<ServerItem>>)
    ensures forall j :: |local| <= j < |MergeByText(local, FetchQuotesFromServer(response))| ==>
      MergeByText(local, FetchQuotesFromServer(response))[j].category == ServerCategory
    ensures response.Some? ==> forall j :: |local| <= j < |MergeByText(local, FetchQuotesFromServer(response))| ==>
      exists k :: 0 <= k < MaxServerQuotes && k < |response.value| &&
        MergeByText(local, FetchQuotesFromServer(response))[j].text == response.value[k].title
  {
    var snapshot := FetchQuotesFromServer(response);
    var r := MergeByText(local, snapshot);
    AppendedFormSubsequence(local, snapshot);
    forall j | |local| <= j < |r|
      ensures r[j].category == ServerCategory
      ensures response.Some? ==> exists k :: 0 <= k < MaxServerQuotes && k < |response.value| && r[j].text == response.value[k].title
    {
      assert r[|local|..][j - |local|] == r[j];
      SubsequenceMembers(r[|local|..], snapshot, j - |local|);
      var k :| 0 <= k < |snapshot| && snapshot[k] == r[j];
    }
  }

  /** A failed fetch leaves the list alone and raises no notification. */
  lemma FailedFetchChangesNothing(local: seq<Quote>)
    ensures MergeByText(local, FetchQuotesFromServer(None)) == local
  {
  }

  /** Two remote posts titled "A" and "B", neither text known locally, become two
      new "Server" quotes at the end of the list. */
  lemma SyncTwoNewPosts(local: seq<Quote>)
    requires "A" !in Texts(local) && "B" !in Texts(local)
    ensures MergeByText(local, FetchQuotesFromServer(Some([ServerItem("A"), ServerItem("B")])))
      == local + [Quote("A", ServerCategory), Quote("B", ServerCategory)]
  {
    var qa := Quote("A", ServerCategory);
    var qb := Quote("B", ServerCategory);
    var snapshot := FetchQuotesFromServer(Some([ServerItem("A"), ServerItem("B")]));
    assert snapshot == [qa, qb] by {
      assert |snapshot| == 2 && snapshot[0] == qa && snapshot[1] == qb;
    }
    MergeTwoNewTexts(local, qa, qb);
  }
}

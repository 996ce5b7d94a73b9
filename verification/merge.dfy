/** Append-if-absent by text: the loop shared by the server sync and the file
    import. Each incoming record is pushed only when no record of the list as
    it stands at that moment (the original quotes plus those pushed earlier in
    the same batch) has the same text. */
module Merge {
  import opened Quotes

  /** One iteration of the `forEach`: push `q` unless `find` sees its text. */
  function PushIfAbsent(qs: seq<Quote>, q: Quote): seq<Quote>
  {
    if q.text in Texts(qs) then qs else qs + [q]
  }

  /** The whole `forEach` over `incoming`, as a left fold of `PushIfAbsent`. */
  function MergeByText(local: seq<Quote>, incoming: seq<Quote>): (r: seq<Quote>)
    // nothing already in the list is removed, reordered or changed
    ensures local <= r
    // at most one push per incoming record
    ensures |r| <= |local| + |incoming|
    decreases |incoming|
  {
    if incoming == [] then local
    else MergeByText(PushIfAbsent(local, incoming[0]), incoming[1..])
  }

  /** Every text offered is present after the merge, and no other text appears. */
  lemma {:induction false} MergeTexts(local: seq<Quote>, incoming: seq<Quote>)
    ensures Texts(MergeByText(local, incoming)) == Texts(local) + Texts(incoming)
    decreases |incoming|
  {
    if incoming != [] {
      var q := incoming[0];
      var rest := incoming[1..];
      var next := PushIfAbsent(local, q);
      assert Texts(next) == Texts(local) + {q.text} by {
        TextsOfSingleton(q);
        if q.text !in Texts(local) {
          TextsOfAppend(local, [q]);
        }
      }
      assert Texts(incoming) == {q.text} + Texts(rest) by {
        TextsOfSingleton(q);
        assert incoming == [q] + rest;
        TextsOfAppend([q], rest);
      }
      assert Texts(MergeByText(local, incoming)) == Texts(next) + Texts(rest) by {
        MergeTexts(next, rest);
      }
    }
  }

  /** One step of the fold, unfolded: merging a batch that starts with `q`. */
  lemma MergeCons(local: seq<Quote>, q: Quote, rest: seq<Quote>)
    ensures MergeByText(local, [q] + rest) == MergeByText(PushIfAbsent(local, q), rest)
  {
    assert ([q] + rest)[0] == q && ([q] + rest)[1..] == rest;
  }

  /** Each appended quote's text occurs nowhere before it in the merged list:
      neither in the original list nor among the quotes appended earlier in the
      same batch. */
  lemma {:induction false} AppendedTextsFresh(local: seq<Quote>, incoming: seq<Quote>)
    ensures forall j :: |local| <= j < |MergeByText(local, incoming)| ==>
      MergeByText(local, incoming)[j].text !in Texts(MergeByText(local, incoming)[..j])
    decreases |incoming|
  {
    if incoming != [] {
      var q := incoming[0];
      var next := PushIfAbsent(local, q);
      var r := MergeByText(next, incoming[1..]);
      AppendedTextsFresh(next, incoming[1..]);
      assert MergeByText(local, incoming) == r;
      if q.text !in Texts(local) {
        assert r[..|next|] == next;
        forall j | |local| <= j < |r| ensures r[j].text !in Texts(r[..j]) {
          if j == |local| {
            assert r[..j] == local;
            assert r[j] == q;
          }
        }
      }
    }
  }

  /** The two freshness facts of the merge, spelled out: appended texts are
      new with respect to the original list, and pairwise distinct. */
  lemma AppendedAreNewByText(local: seq<Quote>, incoming: seq<Quote>)
    ensures forall j :: |local| <= j < |MergeByText(local, incoming)| ==>
      MergeByText(local, incoming)[j].text !in Texts(local)
    ensures forall i, j :: |local| <= i < j < |MergeByText(local, incoming)| ==>
      MergeByText(local, incoming)[i].text != MergeByText(local, incoming)[j].text
  {
    var r := MergeByText(local, incoming);
    AppendedTextsFresh(local, incoming);
    forall j | |local| <= j < |r| ensures r[j].text !in Texts(local) {
      assert local == r[..j][..|local|];
      assert Texts(local) <= Texts(r[..j]);
    }
    forall i, j | |local| <= i < j < |r| ensures r[i].text != r[j].text {
      assert r[i] in r[..j];
    }
  }

  /** The appended quotes are records of the batch, kept in batch order. */
  lemma {:induction false} AppendedFormSubsequence(local: seq<Quote>, incoming: seq<Quote>)
    ensures IsSubsequence(MergeByText(local, incoming)[|local|..], incoming)
    decreases |incoming|
  {
    var r := MergeByText(local, incoming);
    if incoming == [] {
      assert r[|local|..] == [];
    } else {
      var next := PushIfAbsent(local, incoming[0]);
      AppendedFormSubsequence(next, incoming[1..]);
      if incoming[0].text in Texts(local) {
        assert r[|local|..] == r[|next|..];
      } else {
        assert r[|local|..][0] == incoming[0];
        assert r[|local|..][1..] == r[|next|..];
      }
    }
  }

  /** A record whose text is new when its turn comes (absent from the original
      list and from every earlier record of the batch) is appended; so of
      several batch records sharing a new text, the first one wins. */
  lemma {:induction false} FirstNewRecordIsAppended(local: seq<Quote>, incoming: seq<Quote>, k: nat)
    requires k < |incoming|
    requires incoming[k].text !in Texts(local) + Texts(incoming[..k])
    ensures incoming[k] in MergeByText(local, incoming)[|local|..]
    decreases |incoming|
  {
    var r := MergeByText(local, incoming);
    var next := PushIfAbsent(local, incoming[0]);
    if k == 0 {
      assert next == local + [incoming[0]];
      assert r[|local|] == incoming[0];
    } else {
      assert incoming[..k] == [incoming[0]] + incoming[1..][..k - 1];
      TextsOfAppend([incoming[0]], incoming[1..][..k - 1]);
      TextsOfAppend(local, [incoming[0]]);
      assert Texts(next) <= Texts(local) + Texts([incoming[0]]);
      FirstNewRecordIsAppended(next, incoming[1..], k - 1);
      assert r[|next|..] == r[|local|..][|next| - |local|..];
    }
  }

  /** Merging a batch whose texts are all present already changes nothing. */
  lemma {:induction false} MergeOfKnownTextsIsIdentity(local: seq<Quote>, incoming: seq<Quote>)
    requires Texts(incoming) <= Texts(local)
    ensures MergeByText(local, incoming) == local
    decreases |incoming|
  {
    if incoming != [] {
      assert incoming[0] in incoming;
      assert Texts(incoming[1..]) <= Texts(incoming) by {
        forall t | t in Texts(incoming[1..]) ensures t in Texts(incoming) {
          var q :| q in incoming[1..] && q.text == t;
        }
      }
      MergeOfKnownTextsIsIdentity(local, incoming[1..]);
    }
  }

  /** Syncing the same snapshot twice is the same as syncing it once. */
  lemma MergeIdempotent(local: seq<Quote>, incoming: seq<Quote>)
    ensures MergeByText(MergeByText(local, incoming), incoming) == MergeByText(local, incoming)
  {
    MergeTexts(local, incoming);
    MergeOfKnownTextsIsIdentity(MergeByText(local, incoming), incoming);
  }

  /** Re-importing a file holding the list itself changes nothing. */
  lemma MergeWithSelf(local: seq<Quote>)
    ensures MergeByText(local, local) == local
  {
    MergeOfKnownTextsIsIdentity(local, local);
  }

  /** Two batches in a row give the same list as their concatenation in one batch. */
  lemma {:induction false} MergeConcat(local: seq<Quote>, first: seq<Quote>, second: seq<Quote>)
    ensures MergeByText(MergeByText(local, first), second) == MergeByText(local, first + second)
    decreases |first|
  {
    if first == [] {
      assert first + second == second;
    } else {
      assert (first + second)[0] == first[0];
      assert (first + second)[1..] == first[1..] + second;
      MergeConcat(PushIfAbsent(local, first[0]), first[1..], second);
    }
  }

  /** The merge grows the list exactly when some incoming text is not yet present. */
  lemma {:induction false} MergeGrowsIffNewText(local: seq<Quote>, incoming: seq<Quote>)
    ensures |MergeByText(local, incoming)| > |local| <==> exists q :: q in incoming && q.text !in Texts(local)
  {
    var r := MergeByText(local, incoming);
    if |r| > |local| {
      var t := r[|local|].text;
      assert t !in Texts(local) by {
        AppendedTextsFresh(local, incoming);
        assert r[..|local|] == local;
      }
      assert t in Texts(incoming) by {
        MergeTexts(local, incoming);
        assert t in Texts(r);
      }
      var q :| q in incoming && q.text == t;
    } else {
      assert r == local;
      MergeTexts(local, incoming);
      forall q | q in incoming ensures q.text in Texts(local) {
        assert q.text in Texts(incoming);
      }
    }
  }

  /** Within one batch, only the first of several records sharing a new text is kept. */
  lemma WithinBatchDuplicate(a: Quote, b: Quote)
    requires a.text == b.text
    ensures MergeByText([], [a, b]) == [a]
  {
    assert MergeByText([], [a, b]) == MergeByText([a], [b]) by {
      assert [a, b] == [a] + [b];
      MergeCons([], a, [b]);
      assert PushIfAbsent([], a) == [a];
    }
    assert MergeByText([a], [b]) == [a] by {
      assert [b] == [b] + [];
      MergeCons([a], b, []);
      assert a in [a];
      assert PushIfAbsent([a], b) == [a];
    }
  }

  /** Two records with distinct texts, both unknown to the list, are both appended in batch order. */
  lemma MergeTwoNewTexts(local: seq<Quote>, a: Quote, b: Quote)
    requires a.text !in Texts(local) && b.text !in Texts(local) && a.text != b.text
    ensures MergeByText(local, [a, b]) == local + [a, b]
  {
    var next := local + [a];
    assert MergeByText(local, [a, b]) == MergeByText(next, [b]) by {
      assert [a, b] == [a] + [b];
      MergeCons(local, a, [b]);
    }
    assert b.text !in Texts(next) by {
      TextsOfAppend(local, [a]);
      assert b.text !in Texts([a]);
    }
    assert MergeByText(next, [b]) == next + [b] by {
      assert [b] == [b] + [];
      MergeCons(next, b, []);
    }
    assert next + [b] == local + [a, b];
  }
}

/**
 * Paging through the GBIF occurrence search for one species name, and the
 * loop over the whole search list. A page carries the offset and limit it
 * was served with (None when the JSON lacks the key), the end-of-records
 * flag and its result records; every record appended to the output is
 * tagged with the name it was searched under.
 */
module GbifHarvest {
  import opened Wrappers
  import opened Dedup
  import Retry

  datatype Page<R> = Page(offset: Option<int>, limit: Option<int>, endOfRecords: bool, results: seq<R>)

  /**
   * A reply as the loop sees it: a page, or a reply that fails before any
   * of its rows are appended (the request raised, the body is not JSON, or
   * it lacks the end-of-records flag or the results).
   */
  datatype Reply<R> = Decoded(page: Page<R>) | Undecodable

  /**
   * The page is not the last one and carries the offset and limit that the
   * next request is computed from.
   */
  predicate Continues<R>(page: Page<R>) {
    !page.endOfRecords && page.offset.Some? && page.limit.Some?
  }

  /** The offset requested after a page that continues. */
  function NextOffset<R>(page: Page<R>): int
    requires Continues(page)
  {
    page.offset.value + page.limit.value
  }

  datatype TaggedRow<R> = TaggedRow(searchName: string, record: R)

  /**
   * How paging for one name ended: the end-of-records flag was seen, a
   * reply could not be decoded or a page lacked its offset or limit (the
   * exception handler skips the rest of the name), or the replies given to
   * the model ran out first.
   */
  datatype Outcome = Complete | Failed | Unfinished

  /** The rows appended, the offsets requested after the first page, and how it ended. */
  datatype Harvest<R> = Harvest(rows: seq<TaggedRow<R>>, requested: seq<int>, outcome: Outcome)

  /** One page's results with the search name column added. */
  function Tag<R>(name: string, results: seq<R>): seq<TaggedRow<R>> {
    seq(|results|, i requires 0 <= i < |results| => TaggedRow(name, results[i]))
  }

  /**
   * Paging from `page` on: while the page is not the last one, append it,
   * request offset + limit and continue with the reply; `followUps[k]` is
   * the reply to the k-th such request. A page that is not the last one
   * but lacks its offset or limit is appended before paging fails.
   */
  function Walk<R>(name: string, page: Page<R>, followUps: seq<Reply<R>>): (h: Harvest<R>)
    ensures forall i :: 0 <= i < |h.rows| ==> h.rows[i].searchName == name
    ensures |h.requested| <= |followUps| + 1
    ensures h.outcome == Complete ==> |h.requested| <= |followUps|
    decreases |followUps|
  {
    var here := Tag(name, page.results);
    if page.endOfRecords then Harvest(here, [], Complete)
    else if !Continues(page) then Harvest(here, [], Failed)
    else
      var next := NextOffset(page);
      var rest :=
        if followUps == [] then Harvest([], [], Unfinished)
        else if followUps[0].Undecodable? then Harvest([], [], Failed)
        else Walk(name, followUps[0].page, followUps[1..]);
      Harvest(here + rest.rows, [next] + rest.requested, rest.outcome)
  }

  /** Paging for one name, starting from the decoded first response. */
  function HarvestSpec<R>(name: string, first: Reply<R>, followUps: seq<Reply<R>>): Harvest<R> {
    match first
    case Undecodable => Harvest([], [], Failed)
    case Decoded(page) => Walk(name, page, followUps)
  }

  /**
   * The pages the loop reads: the first one, then each decoded follow-up
   * reply, up to and including the first that does not continue.
   */
  function PagesRead<R>(page: Page<R>, followUps: seq<Reply<R>>): (pages: seq<Page<R>>)
    ensures 1 <= |pages| <= |followUps| + 1 && pages[0] == page
    decreases |followUps|
  {
    if !Continues(page) || followUps == [] || followUps[0].Undecodable? then [page]
    else [page] + PagesRead(followUps[0].page, followUps[1..])
  }

  /** The results of every page, in order, each tagged with the name. */
  function TagPages<R>(name: string, pages: seq<Page<R>>): seq<TaggedRow<R>> {
    if pages == [] then [] else Tag(name, pages[0].results) + TagPages(name, pages[1..])
  }

  /**
   * Paging appends every page read, in order, and nothing else; the pages
   * read after the first are the follow-up replies, in order.
   */
  lemma {:induction false} WalkAppendsPagesRead<R>(name: string, page: Page<R>, followUps: seq<Reply<R>>)
    ensures var pages := PagesRead(page, followUps);
      && Walk(name, page, followUps).rows == TagPages(name, pages)
      && (forall k :: 1 <= k < |pages| ==> followUps[k - 1] == Decoded(pages[k]))
    decreases |followUps|
  {
    var pages := PagesRead(page, followUps);
    if !Continues(page) || followUps == [] || followUps[0].Undecodable? {
      assert TagPages(name, pages) == Tag(name, page.results) + TagPages(name, []);
    } else {
      WalkAppendsPagesRead(name, followUps[0].page, followUps[1..]);
      assert pages[1..] == PagesRead(followUps[0].page, followUps[1..]);
      forall k | 1 <= k < |pages| ensures followUps[k - 1] == Decoded(pages[k]) {
        if k > 1 {
          assert followUps[k - 1] == followUps[1..][k - 2];
        }
      }
    }
  }

  /**
   * Every page read but the last continues, so only the last can carry the
   * end-of-records flag, and it does exactly when paging completed.
   */
  lemma {:induction false} WalkStopsAtEndOfRecords<R>(name: string, page: Page<R>, followUps: seq<Reply<R>>)
    ensures var pages, h := PagesRead(page, followUps), Walk(name, page, followUps);
      && (forall k :: 0 <= k < |pages| - 1 ==> Continues(pages[k]))
      && (h.outcome == Complete <==> pages[|pages| - 1].endOfRecords)
    decreases |followUps|
  {
    if Continues(page) && followUps != [] && followUps[0].Decoded? {
      WalkStopsAtEndOfRecords(name, followUps[0].page, followUps[1..]);
      var pages := PagesRead(page, followUps);
      assert pages[1..] == PagesRead(followUps[0].page, followUps[1..]);
    }
  }

  /**
   * After each page read that continues, paging requests that page's
   * offset plus its limit, and it requests nothing else.
   */
  lemma {:induction false} WalkRequestsNextOffsets<R>(name: string, page: Page<R>, followUps: seq<Reply<R>>)
    ensures var pages, h := PagesRead(page, followUps), Walk(name, page, followUps);
      && |h.requested| == (if Continues(pages[|pages| - 1]) then |pages| else |pages| - 1)
      && (forall j :: 0 <= j < |h.requested| ==> Continues(pages[j]) && h.requested[j] == NextOffset(pages[j]))
    decreases |followUps|
  {
    if Continues(page) && followUps != [] && followUps[0].Decoded? {
      WalkRequestsNextOffsets(name, followUps[0].page, followUps[1..]);
      var pages := PagesRead(page, followUps);
      assert pages[1..] == PagesRead(followUps[0].page, followUps[1..]);
    }
  }

  /** When the replies reach a stopping point, paging does not run out of replies. */
  lemma {:induction false} WalkStops<R>(name: string, page: Page<R>, followUps: seq<Reply<R>>, stop: nat)
    requires stop < |followUps|
    requires followUps[stop].Undecodable? || !Continues(followUps[stop].page)
    ensures Walk(name, page, followUps).outcome != Unfinished
    decreases |followUps|
  {
    if Continues(page) && followUps[0].Decoded? && stop > 0 {
      WalkStops(name, followUps[0].page, followUps[1..], stop - 1);
    }
  }

  /**
   * Why paging ended, read off the last page read. It is Unfinished exactly
   * when that page continues and every reply was used. It is Failed exactly
   * when that page is not the last one but lacks its offset or limit, or
   * when it continues and the reply that follows it is undecodable.
   */
  lemma {:induction false} WalkOutcome<R>(name: string, page: Page<R>, followUps: seq<Reply<R>>)
    ensures var pages, h := PagesRead(page, followUps), Walk(name, page, followUps);
      var last := pages[|pages| - 1];
      && (h.outcome == Unfinished <==> Continues(last) && |pages| == |followUps| + 1)
      && (h.outcome == Failed <==>
        || (!last.endOfRecords && !Continues(last))
        || (Continues(last) && |pages| <= |followUps| && followUps[|pages| - 1].Undecodable?))
    decreases |followUps|
  {
    if Continues(page) && followUps != [] && followUps[0].Decoded? {
      WalkOutcome(name, followUps[0].page, followUps[1..]);
      var pages := PagesRead(page, followUps);
      assert pages[1..] == PagesRead(followUps[0].page, followUps[1..]);
      if |pages| <= |followUps| {
        assert followUps[|pages| - 1] == followUps[1..][|pages| - 2];
      }
    }
  }

  /** Every decoded follow-up page is served at the offset that was requested for it. */
  predicate EchoesOffsets<R>(page: Page<R>, followUps: seq<Reply<R>>)
    decreases |followUps|
  {
    Continues(page) && followUps != [] && followUps[0].Decoded? ==>
      && followUps[0].page.offset == Some(NextOffset(page))
      && EchoesOffsets(followUps[0].page, followUps[1..])
  }

  /** A page whose limit, when present, is positive. */
  predicate PositiveLimit<R>(page: Page<R>) {
    page.limit.Some? ==> page.limit.value > 0
  }

  predicate StrictlyIncreasing(s: seq<int>) {
    forall i, j :: 0 <= i < j < |s| ==> s[i] < s[j]
  }

  /**
   * When the server echoes the requested offset and every follow-up page
   * has a positive limit, the requested offsets strictly increase, so no
   * offset is requested twice.
   */
  lemma {:induction false} RequestedOffsetsIncrease<R>(name: string, page: Page<R>, followUps: seq<Reply<R>>)
    requires EchoesOffsets(page, followUps)
    requires forall k :: 0 <= k < |followUps| && followUps[k].Decoded? ==> PositiveLimit(followUps[k].page)
    ensures StrictlyIncreasing(Walk(name, page, followUps).requested)
    decreases |followUps|
  {
    var h := Walk(name, page, followUps);
    if Continues(page) && followUps != [] && followUps[0].Decoded? {
      var next := followUps[0].page;
      var rest := Walk(name, next, followUps[1..]);
      assert forall k :: 0 <= k < |followUps[1..]| && followUps[1..][k].Decoded? ==> PositiveLimit(followUps[1..][k].page) by {
        forall k | 0 <= k < |followUps[1..]| && followUps[1..][k].Decoded?
          ensures PositiveLimit(followUps[1..][k].page)
        {
          assert followUps[1..][k] == followUps[k + 1];
        }
      }
      RequestedOffsetsIncrease(name, next, followUps[1..]);
      assert h.requested == [NextOffset(page)] + rest.requested;
      if rest.requested != [] {
        assert Continues(next);
        assert rest.requested[0] == NextOffset(next);
        assert h.requested[0] < rest.requested[0];
      }
      forall i, j | 0 <= i < j < |h.requested| ensures h.requested[i] < h.requested[j] {
        if i > 0 {
          assert h.requested[i] == rest.requested[i - 1];
        }
        assert h.requested[j] == rest.requested[j - 1];
      }
    }
  }

  /** Paging ends at a page that carries the end-of-records flag. */
  lemma WalkAtLastPage<R>(name: string, page: Page<R>, rest: seq<Reply<R>>)
    requires page.endOfRecords
    ensures Walk(name, page, rest) == Harvest(Tag(name, page.results), [], Complete)
  {
  }

  /** Paging fails after a page that is not the last one but lacks its offset or limit. */
  lemma WalkWithoutOffset<R>(name: string, page: Page<R>, rest: seq<Reply<R>>)
    requires !page.endOfRecords && !Continues(page)
    ensures Walk(name, page, rest) == Harvest(Tag(name, page.results), [], Failed)
  {
  }

  /** After a page that continues, paging stops when the replies have run out or the next one is undecodable. */
  lemma WalkCutOff<R>(name: string, page: Page<R>, rest: seq<Reply<R>>)
    requires Continues(page) && (rest == [] || rest[0].Undecodable?)
    ensures Walk(name, page, rest)
      == Harvest(Tag(name, page.results), [NextOffset(page)], if rest == [] then Unfinished else Failed)
  {
  }

  /** One step of paging: a page that continues, followed by a decoded reply. */
  lemma WalkContinues<R>(name: string, page: Page<R>, rest: seq<Reply<R>>)
    requires Continues(page) && rest != [] && rest[0].Decoded?
    ensures var h, t := Walk(name, page, rest), Walk(name, rest[0].page, rest[1..]);
      && h.rows == Tag(name, page.results) + t.rows
      && h.requested == [NextOffset(page)] + t.requested
      && h.outcome == t.outcome
  {
  }

  lemma ConcatAssoc<T>(a: seq<T>, b: seq<T>, c: seq<T>)
    ensures (a + b) + c == a + (b + c)
  {
  }

  /**
   * The paging loop for one name: `first` is the decoded response of the
   * retried first request, `followUps` the replies to the later requests.
   */
  method HarvestPages<R>(name: string, first: Reply<R>, followUps: seq<Reply<R>>)
    returns (rows: seq<TaggedRow<R>>, requested: seq<int>, outcome: Outcome)
    ensures Harvest(rows, requested, outcome) == HarvestSpec(name, first, followUps)
    ensures forall i :: 0 <= i < |rows| ==> rows[i].searchName == name
  {
    rows, requested := [], [];
    if first.Undecodable? {
      outcome := Failed;
      return;
    }
    var page := first.page;
    var rest := followUps;
    ghost var whole := Walk(name, page, followUps);
    ghost var h := whole;
    assert rows + h.rows == whole.rows && requested + h.requested == whole.requested;
    while !page.endOfRecords
      invariant h == Walk(name, page, rest)
      invariant rows + h.rows == whole.rows
      invariant requested + h.requested == whole.requested
      invariant h.outcome == whole.outcome
      decreases |rest|
    {
      var here := Tag(name, page.results);
      if page.offset.None? || page.limit.None? {
        WalkWithoutOffset(name, page, rest);
        rows, outcome := rows + here, Failed;
        assert requested + [] == requested;
        return;
      }
      var next := page.offset.value + page.limit.value;
      if rest == [] || rest[0].Undecodable? {
        WalkCutOff(name, page, rest);
        rows, requested := rows + here, requested + [next];
        outcome := if rest == [] then Unfinished else Failed;
        return;
      }
      WalkContinues(name, page, rest);
      ConcatAssoc(rows, here, h.rows[|here|..]);
      ConcatAssoc(requested, [next], h.requested[1..]);
      page, rest := rest[0].page, rest[1..];
      h := Walk(name, page, rest);
      rows, requested := rows + here, requested + [next];
    }
    WalkAtLastPage(name, page, rest);
    rows, outcome := rows + Tag(name, page.results), Complete;
    assert requested + [] == requested;
  }

  /** What the network does for one name: the retried first request, then the follow-up replies. */
  datatype NameReplies<R> = NameReplies(call: nat -> Retry.Attempt<Reply<R>>, followUps: seq<Reply<R>>)

  /**
   * One iteration of the loop over the search list: retry the first
   * request, then page from the body of the response it ends with. A name
   * whose attempts all raised contributes nothing.
   */
  function HarvestName<R>(name: string, replies: NameReplies<R>): (h: Harvest<R>)
    ensures forall i :: 0 <= i < |h.rows| ==> h.rows[i].searchName == name
    ensures (forall k :: 0 <= k < Retry.AttemptsMade(replies.call) ==> replies.call(k).Raised?) ==>
      h == Harvest([], [], Failed)
  {
    match Retry.LastResponse(replies.call, Retry.AttemptsMade(replies.call))
    case None => Harvest([], [], Failed)
    case Some(response) => HarvestSpec(name, response.body, replies.followUps)
  }

  /**
   * A name pages from the body of the latest response its attempts
   * received; when its last attempt returned 200, from that response.
   */
  lemma HarvestNameUsesLatestResponse<R>(name: string, replies: NameReplies<R>, k: nat)
    requires k < Retry.AttemptsMade(replies.call) && replies.call(k).Responded?
    requires forall j :: k < j < Retry.AttemptsMade(replies.call) ==> replies.call(j).Raised?
    ensures HarvestName(name, replies) == HarvestSpec(name, replies.call(k).response.body, replies.followUps)
  {
  }

  /** The rows appended for each name of the list, in list order. */
  function HarvestList<R>(names: seq<string>, replies: seq<NameReplies<R>>): (data: seq<TaggedRow<R>>)
    requires |replies| == |names|
    ensures forall i :: 0 <= i < |data| ==> data[i].searchName in names
  {
    if names == [] then []
    else
      var init := HarvestList(names[..|names| - 1], replies[..|names| - 1]);
      var last := HarvestName(names[|names| - 1], replies[|names| - 1]);
      init + last.rows
  }

  /** The rows of `data` tagged with `name`, in order. */
  function RowsUnder<R>(name: string, data: seq<TaggedRow<R>>): seq<TaggedRow<R>> {
    if data == [] then []
    else (if data[0].searchName == name then [data[0]] else []) + RowsUnder(name, data[1..])
  }

  lemma {:induction false} RowsUnderAppend<R>(name: string, a: seq<TaggedRow<R>>, b: seq<TaggedRow<R>>)
    ensures RowsUnder(name, a + b) == RowsUnder(name, a) + RowsUnder(name, b)
    decreases |a|
  {
    if a == [] {
      assert a + b == b;
    } else {
      assert (a + b)[1..] == a[1..] + b;
      RowsUnderAppend(name, a[1..], b);
    }
  }

  lemma {:induction false} RowsUnderAll<R>(name: string, rows: seq<TaggedRow<R>>)
    requires forall i :: 0 <= i < |rows| ==> rows[i].searchName == name
    ensures RowsUnder(name, rows) == rows
    decreases |rows|
  {
    if rows != [] {
      RowsUnderAll(name, rows[1..]);
    }
  }

  lemma {:induction false} RowsUnderNone<R>(name: string, rows: seq<TaggedRow<R>>)
    requires forall i :: 0 <= i < |rows| ==> rows[i].searchName != name
    ensures RowsUnder(name, rows) == []
    decreases |rows|
  {
    if rows != [] {
      RowsUnderNone(name, rows[1..]);
    }
  }

  /**
   * Over a search list without duplicates, the rows tagged with a name are
   * exactly the rows that name's own harvest produced, in order: no name's
   * rows are lost, reordered or credited to another name.
   */
  lemma {:induction false} HarvestListByName<R>(names: seq<string>, replies: seq<NameReplies<R>>, i: nat)
    requires |replies| == |names| && NoDuplicates(names) && i < |names|
    ensures RowsUnder(names[i], HarvestList(names, replies)) == HarvestName(names[i], replies[i]).rows
    decreases |names|
  {
    var m := |names| - 1;
    var init, initReplies := names[..m], replies[..m];
    var before := HarvestList(init, initReplies);
    var last := HarvestName(names[m], replies[m]);
    HarvestListLast(names, replies);
    NoDuplicatesDropLast(names);
    RowsUnderAppend(names[i], before, last.rows);
    if i == m {
      RowsUnderNone(names[m], before);
      RowsUnderAll(names[m], last.rows);
    } else {
      HarvestListByName(init, initReplies, i);
      RowsUnderNone(names[i], last.rows);
    }
  }

  /** The harvest of a list is the harvest of all names but the last, then the last name's rows. */
  lemma HarvestListLast<R>(names: seq<string>, replies: seq<NameReplies<R>>)
    requires |replies| == |names| && names != []
    ensures var m := |names| - 1;
      HarvestList(names, replies) == HarvestList(names[..m], replies[..m]) + HarvestName(names[m], replies[m]).rows
  {
  }

  /**
   * The loop over the search list: `replies[k]` is what the network does
   * for `searchList[k]`. Rows from a name whose paging failed part-way stay
   * in the output.
   */
  method HarvestAll<R>(searchList: seq<string>, replies: seq<NameReplies<R>>) returns (data: seq<TaggedRow<R>>)
    requires |replies| == |searchList|
    ensures data == HarvestList(searchList, replies)
    ensures forall i :: 0 <= i < |data| ==> data[i].searchName in searchList
  {
    data := [];
    for k := 0 to |searchList|
      invariant data == HarvestList(searchList[..k], replies[..k])
    {
      assert searchList[..k + 1][..k] == searchList[..k];
      assert replies[..k + 1][..k] == replies[..k];
      HarvestListLast(searchList[..k + 1], replies[..k + 1]);
      ghost var pass := HarvestName(searchList[k], replies[k]);
      var response, _ := Retry.FetchWithRetry(replies[k].call);
      if response.Some? {
        var rows, _, _ := HarvestPages(searchList[k], response.value.body, replies[k].followUps);
        assert rows == pass.rows;
        data := data + rows;
      } else {
        assert pass.rows == [];
        assert data + [] == data;
      }
    }
    assert searchList[..|searchList|] == searchList;
    assert replies[..|replies|] == replies;
  }
}

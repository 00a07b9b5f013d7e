/** The in-memory revision store `DocumentsDb` of run_server.py: a dict from
    document title to that document's dictionary of revisions. */
module Server {
  import opened Decimal
  import opened InsertionOrder
  import opened Revisions

  datatype Option<T> = None | Some(value: T)

  /** What `get_revisions` returns, or the KeyError it raises. */
  datatype Result<T> = Ok(value: T) | KeyError(key: string)

  /** The dict `{"title", "timestamp", "content"}` built by `get_document`. */
  datatype Document = Document(title: string, timestamp: PyValue, content: PyValue)

  /** The dict `{"title", "revisions"}` built by `get_revisions`. */
  datatype RevisionListing = RevisionListing(title: string, revisions: map<PyValue, PyValue>)

  /** The store's invariant: `titles` lists the titles of `docs` in the order
      of their first write, and every document's dict is well formed. */
  ghost predicate StoreInvariant(docs: map<string, map<PyValue, PyValue>>, titles: seq<string>, history: seq<string>) {
    && titles == FirstWrites(history)
    && (forall t :: t in docs <==> t in titles)
    && (forall t :: t in docs ==> WellFormed(docs[t]))
  }

  /** A write keeps the invariant, whether its title is new or not. */
  lemma AddKeepsInvariant(docs: map<string, map<PyValue, PyValue>>, titles: seq<string>, history: seq<string>,
                          title: string, content: string, now: nat)
    requires StoreInvariant(docs, titles, history)
    ensures StoreInvariant(docs[title := Write(if title in docs then docs[title] else map[], content, now)],
                           if title in docs then titles else titles + [title],
                           history + [title])
  {
    var revisions := if title in docs then docs[title] else map[];
    var docs' := docs[title := Write(revisions, content, now)];
    AddKeepsTitleOrder(docs, titles, history, title);
    assert OnlyRevisions(revisions);
    forall t | t in docs'
      ensures WellFormed(docs'[t])
    {
      if t != title {
        assert docs'[t] == docs[t];
      }
    }
  }

  /** A write appends its title to the order if and only if the title is new. */
  lemma AddKeepsTitleOrder(docs: map<string, map<PyValue, PyValue>>, titles: seq<string>, history: seq<string>,
                           title: string)
    requires titles == FirstWrites(history)
    requires forall t :: t in docs <==> t in titles
    ensures (if title in docs then titles else titles + [title]) == FirstWrites(history + [title])
  {
    assert (history + [title])[..|history|] == history;
  }

  class DocumentsDb {
    /** `_docs`, without its key order. */
    var docs: map<string, map<PyValue, PyValue>>
    /** The key order of `_docs`: titles in the order they were first inserted. */
    var titles: seq<string>
    /** The title of every `add`, in call order. */
    ghost var history: seq<string>

    ghost predicate Valid()
      reads this
    {
      StoreInvariant(docs, titles, history)
    }

    /** `__init__`: an empty store. */
    constructor ()
      ensures Valid()
      ensures docs == map[] && titles == [] && history == []
    {
      docs := map[];
      titles := [];
      history := [];
    }

    /** `add`, with the current second passed in as `now`. The content goes
        under `str(now)`, replacing what an earlier write in the same second
        stored there, and "latest_ts" becomes `now` whatever it was before.
        Nothing else in the store changes. */
    method Add(title: string, content: string, now: nat) returns (ts: nat)
      requires Valid()
      modifies this
      ensures Valid()
      ensures ts == now
      ensures docs == old(docs)[title := Write(if title in old(docs) then old(docs)[title] else map[], content, now)]
      ensures titles == if title in old(docs) then old(titles) else old(titles) + [title]
      ensures history == old(history) + [title]
    {
      ts := now;
      // the document's dict: the existing one, or a new empty one whose
      // title becomes the last key of `_docs`
      var revisions: map<PyValue, PyValue>;
      if title in docs {
        revisions := docs[title];
      } else {
        revisions := map[];
        titles := titles + [title];
      }
      revisions := revisions[RevisionKey(ts) := Str(content)];
      revisions := revisions[LatestKey := Int(ts)];
      docs := docs[title := revisions];
      AddKeepsInvariant(old(docs), old(titles), history, title, content, now);
      history := history + [title];
    }

    /** `get_all_titles`: every title once, in the order of its first write. */
    function GetAllTitles(): (r: seq<string>)
      reads this
      requires Valid()
      ensures NoDuplicates(r)
      ensures forall t :: t in r <==> t in docs
      ensures forall i :: 0 <= i < |r| ==> r[i] in history
      ensures forall i, j :: 0 <= i < j < |r| ==> FirstIndex(history, r[i]) < FirstIndex(history, r[j])
    {
      FirstWritesDistinct(history);
      FirstWritesOrdered(history);
      titles
    }

    /** `get_revisions`: the whole dictionary of the document, bookkeeping
        entry included; an unknown title raises KeyError. */
    function GetRevisions(title: string): (r: Result<RevisionListing>)
      reads this
      requires Valid()
      ensures r.KeyError? <==> title !in docs
      ensures r.KeyError? ==> r.key == title
      ensures r.Ok? ==> r.value.title == title && r.value.revisions == docs[title]
      ensures r.Ok? ==> LatestKey in r.value.revisions && r.value.revisions[LatestKey] == Int(LatestStamp(docs[title]))
    {
      if title in docs then Ok(RevisionListing(title, docs[title])) else KeyError(title)
    }

    /** `get_document`: exact-match lookup of the selector `ts` among the keys
        of the document. "latest" and "" are replaced by the int stored under
        "latest_ts", which never equals a string key, so they find nothing. */
    function GetDocument(title: string, ts: string): (r: Option<Document>)
      reads this
      requires Valid()
      ensures title !in docs ==> r == None
      ensures ts == "latest" || ts == "" ==> r == None
      ensures ts != "latest" && ts != "" ==> (r.Some? <==> title in docs && Str(ts) in docs[title])
      ensures r.Some? ==> title in docs && r.value.title == title && r.value.timestamp == Str(ts)
                          && r.value.content == docs[title][Str(ts)]
    {
      if title !in docs then None
      else
        var key := if ts == "latest" || ts == "" then docs[title][LatestKey] else Str(ts);
        if key !in docs[title] then None
        else Some(Document(title, key, docs[title][key]))
    }

    /** `get_document` as the tests expect it: "latest" and "" resolve to
        the key `str(latest_ts)`, and the bookkeeping entry is not a revision. */
    function GetDocumentIntended(title: string, ts: string): (r: Option<Document>)
      reads this
      requires Valid()
      ensures title !in docs ==> r == None
      ensures (ts == "latest" || ts == "") && title in docs ==>
        r == Some(Document(title, RevisionKey(LatestStamp(docs[title])), docs[title][RevisionKey(LatestStamp(docs[title]))]))
      ensures ts == LatestKey.s ==> r == None
      ensures ts != "latest" && ts != "" && ts != LatestKey.s ==> r == GetDocument(title, ts)
      ensures r.Some? ==> r.value.timestamp != LatestKey && r.value.content.Str?
    {
      if title !in docs then None
      else
        var key := if ts == "latest" || ts == "" then RevisionKey(LatestStamp(docs[title])) else Str(ts);
        if key == LatestKey || key !in docs[title] then None
        else Some(Document(title, key, docs[title][key]))
    }

    /** `get_revisions` as the HTTP layer expects it: an unknown title gives
        no result (a 404) and the bookkeeping entry is left out. */
    function GetRevisionsIntended(title: string): (r: Option<RevisionListing>)
      reads this
      requires Valid()
      ensures r.None? <==> title !in docs
      ensures r.Some? ==> r.value.title == title && r.value.revisions.Keys == docs[title].Keys - {LatestKey}
      ensures r.Some? ==> forall k :: k in r.value.revisions ==>
        k.Str? && IsDecimal(k.s) && r.value.revisions[k].Str?
      ensures r.Some? ==> forall k :: k in docs[title] && k != LatestKey ==>
        k in r.value.revisions && r.value.revisions[k] == docs[title][k]
    {
      if title in docs then Some(RevisionListing(title, docs[title] - {LatestKey})) else None
    }
  }

  /** A printed timestamp is looked up as an exact key: it is neither of the
      selectors that `get_document` redirects through "latest_ts". */
  lemma PrintedStampIsExactSelector(ts: nat)
    ensures NatToDecimal(ts) != "latest" && NatToDecimal(ts) != ""
  {
    assert IsDigit(NatToDecimal(ts)[0]);
  }

  /** A selector that is not a string of digits (a float such as
      "1700000000.25", say) never finds a revision: only "latest_ts" can. */
  lemma NonNumericSelectorNotFound(db: DocumentsDb, title: string, ts: string, i: nat)
    requires db.Valid()
    requires i < |ts| && !IsDigit(ts[i]) && ts != LatestKey.s
    ensures db.GetDocument(title, ts) == None
  {
  }

  /** The bookkeeping entry is reachable as if it were a revision: the
      selector "latest_ts" returns the stored int as the document's content. */
  lemma SentinelSelectorLeaks(db: DocumentsDb, title: string)
    requires db.Valid() && title in db.docs
    ensures db.GetDocument(title, LatestKey.s) == Some(Document(title, LatestKey, Int(LatestStamp(db.docs[title]))))
  {
  }

  /** Numerically equal but differently written selectors ("0042" for 42)
      do not match: lookup compares strings. */
  lemma LeadingZeroSelectorNotFound(db: DocumentsDb, title: string, n: nat)
    requires db.Valid()
    ensures db.GetDocument(title, "0" + NatToDecimal(n)) == None
  {
    var ts := "0" + NatToDecimal(n);
    assert ts[0] == '0' && |ts| > 1;
    assert ts[0] != LatestKey.s[0];
  }

  /** Two writes to one title, read back by the first timestamp: a second
      write in the same second has overwritten the first. */
  method ReadFirstOfTwoWrites(title: string, c1: string, c2: string, now1: nat, now2: nat)
    returns (first: Option<Document>)
    ensures first == Some(Document(title, Str(NatToDecimal(now1)), Str(if now1 == now2 then c2 else c1)))
  {
    var db := new DocumentsDb();
    var ts1 := db.Add(title, c1, now1);
    var ts2 := db.Add(title, c2, now2);
    WriteOtherSecond(Write(map[], c1, now1), c2, now2, now1);
    PrintedStampIsExactSelector(now1);
    first := db.GetDocument(title, NatToDecimal(ts1));
  }

  /** Two writes to one title, read back by "latest" as written and as
      intended. As intended, "latest" follows the last call, even when its
      timestamp is the smaller one. */
  method ReadLatestOfTwoWrites(title: string, c1: string, c2: string, now1: nat, now2: nat)
    returns (latest: Option<Document>, latestIntended: Option<Document>)
    ensures latest == None
    ensures latestIntended == Some(Document(title, Str(NatToDecimal(now2)), Str(c2)))
  {
    var db := new DocumentsDb();
    var ts1 := db.Add(title, c1, now1);
    var ts2 := db.Add(title, c2, now2);
    latest := db.GetDocument(title, "latest");
    latestIntended := db.GetDocumentIntended(title, "latest");
  }

  /** A timestamp strictly between two revisions finds nothing: there is no
      nearest-prior match. */
  method ReadBetweenRevisions(title: string, c1: string, c2: string, now1: nat, q: nat, now2: nat)
    returns (r: Option<Document>)
    requires now1 < q < now2
    ensures r == None
  {
    var db := new DocumentsDb();
    var ts1 := db.Add(title, c1, now1);
    var ts2 := db.Add(title, c2, now2);
    if RevisionKey(q) == RevisionKey(now1) {
      NatToDecimalInjective(q, now1);
    }
    if RevisionKey(q) == RevisionKey(now2) {
      NatToDecimalInjective(q, now2);
    }
    PrintedStampIsExactSelector(q);
    r := db.GetDocument(title, NatToDecimal(q));
  }

  /** On any store, a write reads back by its returned timestamp, and, as
      intended, by "latest". */
  method ReadBackAfterAdd(db: DocumentsDb, title: string, content: string, now: nat)
    returns (exact: Option<Document>, latestIntended: Option<Document>)
    requires db.Valid()
    modifies db
    ensures exact == Some(Document(title, Str(NatToDecimal(now)), Str(content)))
    ensures latestIntended == exact
  {
    var ts := db.Add(title, content, now);
    PrintedStampIsExactSelector(ts);
    exact := db.GetDocument(title, NatToDecimal(ts));
    latestIntended := db.GetDocumentIntended(title, "latest");
  }

  /** Writes to `a`, `b`, `a` list `a` once and before `b`; an empty store
      lists nothing. */
  method TitlesAfterWrites(a: string, b: string, now1: nat, now2: nat, now3: nat)
    returns (before: seq<string>, after: seq<string>)
    ensures before == []
    ensures after == if a == b then [a] else [a, b]
  {
    var db := new DocumentsDb();
    before := db.GetAllTitles();
    var ts1 := db.Add(a, "", now1);
    assert db.titles == [a];
    var ts2 := db.Add(b, "", now2);
    assert db.titles == if a == b then [a] else [a, b];
    var ts3 := db.Add(a, "", now3);
    assert db.titles == if a == b then [a] else [a, b];
    after := db.GetAllTitles();
  }
}

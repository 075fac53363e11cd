/**
 * The request handlers of the flat-file generation of the blog: the `find`
 * helper, the article lookup behind the article page, and `publish`, which
 * allocates a date-keyed id, puts the new entry at the front of the article
 * index and moves the entry's content out to its own markdown file.
 */
module Pages {
  import opened Wrappers
  import opened Text
  import opened DateKey

  // ---------------------------------------------------------------------------
  // find

  /** `k` is the position of the first item satisfying `p`. */
  predicate FirstMatch<T>(p: T -> bool, items: seq<T>, k: int)
  {
    0 <= k < |items| && p(items[k]) && forall j :: 0 <= j < k ==> !p(items[j])
  }

  /** `find(predicate, items)`: the first item satisfying the predicate, or `None`. */
  function Find<T>(p: T -> bool, items: seq<T>): (r: Option<T>)
    ensures r.None? <==> forall i :: 0 <= i < |items| ==> !p(items[i])
    ensures r.Some? ==> exists k :: FirstMatch(p, items, k) && r.value == items[k]
  {
    if items == [] then None
    else if p(items[0]) then
      assert FirstMatch(p, items, 0);
      Some(items[0])
    else
      var r := Find(p, items[1..]);
      assert r.Some? ==> exists k :: FirstMatch(p, items, k) && r.value == items[k] by {
        if r.Some? {
          var k :| FirstMatch(p, items[1..], k) && r.value == items[1..][k];
          assert FirstMatch(p, items, k + 1);
        }
      }
      r
  }

  /** Items after one that already satisfies the predicate are never consulted. */
  lemma {:induction false} FindIgnoresSuffix<T>(p: T -> bool, items: seq<T>, more: seq<T>)
    requires exists i :: 0 <= i < |items| && p(items[i])
    ensures Find(p, items + more) == Find(p, items)
  {
    assert (items + more)[0] == items[0];
    if !p(items[0]) {
      assert (items + more)[1..] == items[1..] + more;
      var i :| 0 <= i < |items| && p(items[i]);
      assert p(items[1..][i - 1]);
      FindIgnoresSuffix(p, items[1..], more);
    }
  }

  // ---------------------------------------------------------------------------
  // The article index: a JSON list of objects

  datatype Json = JInt(n: int) | JStr(s: string)

  /** One JSON object of the index, as a map from key to value. */
  type Entry = map<string, Json>

  /** `entry['id'] == articleId`, for an entry that has an `id`. */
  predicate HasId(entry: Entry, articleId: int)
  {
    "id" in entry && entry["id"] == JInt(articleId)
  }

  /** Some entry of the index already carries `articleId`. */
  predicate Taken(entries: seq<Entry>, articleId: int)
  {
    exists k :: 0 <= k < |entries| && HasId(entries[k], articleId)
  }

  /** `if find(lambda a: a['id'] == articleId, entries)`: whether the id is in the index. */
  function InIndex(entries: seq<Entry>, articleId: int): (b: bool)
    ensures b <==> Taken(entries, articleId)
  {
    Find((e: Entry) => HasId(e, articleId), entries).Some?
  }

  /** `k` is the first entry carrying `articleId`. */
  predicate FirstWithId(entries: seq<Entry>, articleId: int, k: int)
  {
    0 <= k < |entries| && HasId(entries[k], articleId)
    && forall j :: 0 <= j < k ==> !HasId(entries[j], articleId)
  }

  /** The Http404 the article page raises. */
  datatype HttpError = NotFound

  /** The lookup of `article`: the first index entry with that id, or Http404. */
  function ArticleLookup(entries: seq<Entry>, articleId: int): (r: Result<Entry, HttpError>)
    ensures r == Failure(NotFound) <==> !Taken(entries, articleId)
    ensures r.Success? ==> exists k :: FirstWithId(entries, articleId, k) && r.value == entries[k]
  {
    var p := (e: Entry) => HasId(e, articleId);
    match Find(p, entries)
    case None => Failure(NotFound)
    case Some(e) =>
      assert exists k :: FirstWithId(entries, articleId, k) && e == entries[k] by {
        var k :| FirstMatch(p, entries, k) && e == entries[k];
        assert FirstWithId(entries, articleId, k);
      }
      Success(e)
  }

  /** Putting an entry in front leaves the lookup of every other id as it was. */
  lemma {:induction false} LookupPastNewEntry(entry: Entry, entries: seq<Entry>, articleId: int)
    requires !HasId(entry, articleId)
    ensures ArticleLookup([entry] + entries, articleId) == ArticleLookup(entries, articleId)
  {
    var p := (e: Entry) => HasId(e, articleId);
    assert ([entry] + entries)[1..] == entries;
    assert Find(p, [entry] + entries) == Find(p, entries);
  }

  // ---------------------------------------------------------------------------
  // Id allocation in publish

  /** `str(year) + str(month) + str(day)`: the date without zero-padding. */
  function PublishPrefix(date: Date): (s: string)
    ensures |s| >= 3 && IsDigits(s)
  {
    Str(date.year) + Str(date.month) + Str(date.day)
  }

  /**
   * `int(f'{year}{month}{day}{iteration:02d}'[2:])`: below 100 the iteration is
   * the last two decimal digits, and the digits before them are the date prefix
   * with its first two characters dropped.
   */
  function PublishCandidate(date: Date, iteration: nat): (c: nat)
    ensures iteration < 100 ==> c % 100 == iteration && c / 100 == Int(PublishPrefix(date)[2..])
  {
    var prefix := PublishPrefix(date);
    if iteration < 100 then
      TwoDigitSuffixCandidate(prefix, iteration);
      DivMod100(Candidate(prefix, iteration), Int(prefix[2..]), iteration);
      Candidate(prefix, iteration)
    else
      Candidate(prefix, iteration)
  }

  /** Iteration `k` is the first whose candidate is not yet in the index. */
  predicate FirstFreeIteration(entries: seq<Entry>, date: Date, k: nat)
  {
    1 <= k && !Taken(entries, PublishCandidate(date, k))
    && forall j :: 1 <= j < k ==> Taken(entries, PublishCandidate(date, j))
  }

  /** The integer ids the index holds. */
  ghost function Ids(entries: seq<Entry>): set<int>
  {
    if entries == [] then {}
    else
      var head := entries[0];
      (if "id" in head && head["id"].JInt? then {head["id"].n} else {}) + Ids(entries[1..])
  }

  lemma {:induction false} IdsTaken(entries: seq<Entry>, articleId: int)
    ensures articleId in Ids(entries) <==> Taken(entries, articleId)
    ensures |Ids(entries)| <= |entries|
  {
    if entries != [] {
      IdsTaken(entries[1..], articleId);
      if Taken(entries[1..], articleId) {
        var k :| 0 <= k < |entries[1..]| && HasId(entries[1..][k], articleId);
        assert HasId(entries[k + 1], articleId);
      }
      if Taken(entries, articleId) && !HasId(entries[0], articleId) {
        var k :| 0 <= k < |entries| && HasId(entries[k], articleId);
        assert HasId(entries[1..][k - 1], articleId);
      }
    }
  }

  /**
   * The allocation loop of `publish`: starting at iteration 1, step the
   * iteration while an index entry already has the candidate id.
   */
  method NextArticleId(entries: seq<Entry>, date: Date) returns (articleId: nat)
    ensures !Taken(entries, articleId)
    ensures exists k: nat :: k <= |entries| + 1 && FirstFreeIteration(entries, date, k)
                        && articleId == PublishCandidate(date, k)
  {
    ghost var ids := Ids(entries);
    forall x: int ensures InIndex(entries, x) <==> x in ids {
      IdsTaken(entries, x);
    }
    forall i: nat, j: nat | 1 <= i < j ensures PublishCandidate(date, i) < PublishCandidate(date, j) {
      CandidateIncreasing(PublishPrefix(date), i, j);
    }
    IdsTaken(entries, 0);
    var candidate := (i: nat) => PublishCandidate(date, i);
    var inUse := (x: int) => InIndex(entries, x);
    var k;
    articleId, k := FirstFreeCandidate(candidate, inUse, ids);
    forall j | 1 <= j < k ensures Taken(entries, PublishCandidate(date, j)) {
      assert inUse(candidate(j));
    }
    assert FirstFreeIteration(entries, date, k);
  }

  /** Month and day are not zero-padded: the first candidate of 2024-3-9 is 243901. */
  lemma {:induction false} PublishCandidateExample()
    ensures PublishCandidate(Date(2024, 3, 9), 1) == 243901
  {
    var prefix := PublishPrefix(Date(2024, 3, 9));
    PublishPrefixExample();
    assert prefix[2..] == "2439";
    IntExample();
    TwoDigitSuffixCandidate(prefix, 1);
  }

  lemma PublishPrefixExample()
    ensures PublishPrefix(Date(2024, 3, 9)) == "202439"
  {
    assert Str(2024) == Str(202) + "4" && Str(202) == Str(20) + "2" && Str(20) == Str(2) + "0";
  }

  lemma IntExample()
    ensures Int("2439") == 2439
  {
    assert "2439"[..3] == "243" && "243"[..2] == "24" && "24"[..1] == "2";
  }

  /** Month and day are not zero-padded, so 2024-1-11 and 2024-11-1 share every candidate. */
  lemma {:induction false} PublishCandidateDatesCollide(iteration: nat)
    ensures PublishCandidate(Date(2024, 1, 11), iteration) == PublishCandidate(Date(2024, 11, 1), iteration)
  {
    assert Str(1) == "1";
    assert Str(11) == Str(1) + "1";
    assert PublishPrefix(Date(2024, 1, 11)) == PublishPrefix(Date(2024, 11, 1));
  }

  // ---------------------------------------------------------------------------
  // publish: the index update

  /** A JSON object held by reference, as a Python dict is. */
  class JsonObject {
    var fields: Entry

    constructor (fields: Entry)
      ensures this.fields == fields
    {
      this.fields := fields;
    }

    /** `dict.pop(key)`. */
    method Pop(key: string) returns (value: Json)
      requires key in fields
      modifies this
      ensures value == old(fields)[key] && fields == old(fields) - {key}
    {
      value := fields[key];
      fields := fields - {key};
    }
  }

  /** The list of index objects `get_articles` returns. */
  class ArticleList {
    var items: seq<JsonObject>

    constructor (items: seq<JsonObject>)
      ensures this.items == items
    {
      this.items := items;
    }

    /** The index as it would be written out as JSON. */
    function Entries(): seq<Entry>
      reads this, items
    {
      seq(|items|, i reads this, items requires 0 <= i < |items| => items[i].fields)
    }

    /** `list.insert(0, item)`. */
    method InsertFront(item: JsonObject)
      modifies this
      ensures items == [item] + old(items)
    {
      items := [item] + items;
    }
  }

  /** `f'{year}-{month}-{day}'`. */
  function DateText(date: Date): string
  {
    Str(date.year) + "-" + Str(date.month) + "-" + Str(date.day)
  }

  /** The date text of an article splits at its dashes into year, month and day. */
  lemma {:induction false} DateTextReadsBack(date: Date)
    ensures Split(DateText(date), '-') == [Str(date.year), Str(date.month), Str(date.day)]
    ensures Int(Split(DateText(date), '-')[0]) == date.year && Int(Split(DateText(date), '-')[1]) == date.month
         && Int(Split(DateText(date), '-')[2]) == date.day
  {
    SplitThreeNumbers(date.year, date.month, date.day, '-');
    IntStr(date.year);
    IntStr(date.month);
    IntStr(date.day);
  }

  /**
   * The dict `publish` builds for the new article: it carries the new id, the
   * posted fields, and the content that is later popped out of it.
   */
  function ArticleData(articleId: nat, date: Date, title: string, description: string, content: string)
    : (e: Entry)
    ensures e.Keys == {"id", "date", "title", "description", "content"}
    ensures HasId(e, articleId) && e["content"] == JStr(content)
    ensures e["date"] == JStr(DateText(date)) && e["title"] == JStr(title) && e["description"] == JStr(description)
  {
    map["id" := JInt(articleId), "date" := JStr(DateText(date)), "title" := JStr(title),
        "description" := JStr(description), "content" := JStr(content)]
  }

  /**
   * The POST branch of `publish`, without its file writes: allocate the id,
   * put the new dict at the front of the index, then pop its content out (the
   * index holds the same dict, so the written index loses `content` too).
   * Returns the id and the text written to the article's markdown file.
   */
  method Publish(articles: ArticleList, date: Date, title: string, description: string, content: string)
    returns (articleId: nat, markdown: string)
    modifies articles
    ensures !Taken(old(articles.Entries()), articleId)
    ensures exists k: nat :: k <= |old(articles.Entries())| + 1
                        && FirstFreeIteration(old(articles.Entries()), date, k)
                        && articleId == PublishCandidate(date, k)
    ensures articles.Entries()
         == [ArticleData(articleId, date, title, description, content) - {"content"}] + old(articles.Entries())
    ensures articles.Entries()[0].Keys == {"id", "date", "title", "description"}
    ensures ArticleLookup(articles.Entries(), articleId) == Success(articles.Entries()[0])
    ensures markdown == content
  {
    ghost var before := articles.Entries();
    ghost var oldItems := articles.items;
    articleId := NextArticleId(articles.Entries(), date);
    var articleData := new JsonObject(ArticleData(articleId, date, title, description, content));
    articles.InsertFront(articleData);
    var body := articleData.Pop("content");
    markdown := body.s;
    ghost var entry := ArticleData(articleId, date, title, description, content) - {"content"};
    assert articles.items[1..] == oldItems;
    assert articles.Entries() == [entry] + before;
    LookupNewEntry(entry, before, articleId);
  }

  /** An entry put in front is the one the lookup of its id finds. */
  lemma LookupNewEntry(entry: Entry, entries: seq<Entry>, articleId: int)
    requires HasId(entry, articleId)
    ensures ArticleLookup([entry] + entries, articleId) == Success(entry)
  {
    assert FirstWithId([entry] + entries, articleId, 0);
  }
}

/** The export step: parsed rows are joined with the capture index on the
    post identifier, given their retweet handle, and sorted by identifier.
    `Export` is the table the step evidently means to write; `AsWritten`
    adds the points at which the code as written stops without writing
    anything. */
module Export {
  import opened Options
  import opened FileNames
  import opened CaptureIndex
  import opened Extract
  import Retweet
  import Snowflake

  /** One line of the output table, in column order. */
  datatype Record = Record(
    handle: string,
    tweetId: int,
    utcTime: int,
    archiveUrl: string,
    text: string,
    kind: Kind,
    quotedHandle: Option<Json>,
    quotedText: Option<Json>,
    replyToHandle: Option<Json>,
    retweetHandle: string)

  /** The index rows with the same identifier as `row`, each paired with
      `row`, in index order. */
  function Matches(row: Row, index: seq<Candidate>): (j: seq<(Row, string)>)
    ensures forall k :: 0 <= k < |j| ==> j[k].0 == row
    decreases |index|
  {
    if index == [] then []
    else (if index[0].id == row.id then [(row, index[0].archiveUrl)] else []) + Matches(row, index[1..])
  }

  /** The inner join on the identifier: every parsed row paired with the
      snapshot URL of every index row that carries its identifier. */
  function Join(rows: seq<Row>, index: seq<Candidate>): (j: seq<(Row, string)>)
    ensures forall k :: 0 <= k < |j| ==> j[k].0 in rows
    decreases |rows|
  {
    if rows == [] then [] else Matches(rows[0], index) + Join(rows[1..], index)
  }

  /** The index holds a candidate with this identifier and snapshot URL. */
  predicate Indexed(index: seq<Candidate>, id: int, url: string) {
    exists c :: c in index && c.id == id && c.archiveUrl == url
  }

  lemma {:induction false} MatchesIn(row: Row, index: seq<Candidate>, url: string)
    ensures (row, url) in Matches(row, index) <==> Indexed(index, row.id, url)
    decreases |index|
  {
    if index != [] {
      MatchesIn(row, index[1..], url);
      if Indexed(index, row.id, url) {
        var c :| c in index && c.id == row.id && c.archiveUrl == url;
        if c != index[0] {
          assert c in index[1..];
        }
      }
      if Indexed(index[1..], row.id, url) {
        var c :| c in index[1..] && c.id == row.id && c.archiveUrl == url;
        assert c in index;
      }
    }
  }

  /** A pair is in the join exactly when its row was parsed and the index
      holds its identifier with that snapshot URL. */
  lemma {:induction false} JoinIn(rows: seq<Row>, index: seq<Candidate>, row: Row, url: string)
    ensures (row, url) in Join(rows, index) <==> row in rows && Indexed(index, row.id, url)
    decreases |rows|
  {
    if rows != [] {
      JoinIn(rows[1..], index, row, url);
      MatchesIn(rows[0], index, url);
      if (row, url) in Matches(rows[0], index) {
        var k :| 0 <= k < |Matches(rows[0], index)| && Matches(rows[0], index)[k] == (row, url);
        assert row == rows[0];
      }
      if row in rows && row != rows[0] {
        assert row in rows[1..];
      }
    }
  }

  predicate HasText(row: Row) {
    row.text.Some? && row.text.value.JString?
  }

  /** `get_retweet` is applied to every joined text: all must be strings. */
  predicate TextsAreStrings(joined: seq<(Row, string)>) {
    forall k :: 0 <= k < |joined| ==> HasText(joined[k].0)
  }

  function ToRecord(handle: string, p: (Row, string)): (r: Record)
    requires HasText(p.0)
    ensures r.tweetId == p.0.id && r.archiveUrl == p.1 && r.handle == handle
  {
    var row := p.0;
    var t := row.text.value.s;
    Record(handle, row.id, row.utcTime, p.1, t, row.kind,
           row.quotedHandle, row.quotedText, row.replyToHandle, Retweet.GetRetweet(t))
  }

  function Records(handle: string, joined: seq<(Row, string)>): (rs: seq<Record>)
    requires TextsAreStrings(joined)
    ensures |rs| == |joined|
  {
    seq(|joined|, k requires 0 <= k < |joined| && TextsAreStrings(joined) => ToRecord(handle, joined[k]))
  }

  predicate SortedById(rs: seq<Record>) {
    forall i, j :: 0 <= i < j < |rs| ==> rs[i].tweetId <= rs[j].tweetId
  }

  /** Places one record among records sorted by identifier. */
  function Insert(x: Record, rs: seq<Record>): (r: seq<Record>)
    requires SortedById(rs)
    ensures SortedById(r)
    ensures multiset(r) == multiset(rs) + multiset{x}
    ensures r[0] == x || (rs != [] && r[0] == rs[0])
    decreases |rs|
  {
    if rs == [] || x.tweetId <= rs[0].tweetId then
      ConsSorted(x, rs);
      [x] + rs
    else
      var rest := Insert(x, rs[1..]);
      assert rs == [rs[0]] + rs[1..];
      ConsSorted(rs[0], rest);
      [rs[0]] + rest
  }

  /** A record no later than the head of a sorted sequence extends it. */
  lemma ConsSorted(a: Record, rs: seq<Record>)
    requires SortedById(rs) && (rs != [] ==> a.tweetId <= rs[0].tweetId)
    ensures SortedById([a] + rs)
  {
    forall i, j | 0 <= i < j < |[a] + rs| ensures ([a] + rs)[i].tweetId <= ([a] + rs)[j].tweetId {
      if i == 0 { assert rs[0].tweetId <= rs[j - 1].tweetId; }
    }
  }

  /** `sort_values("tweetID")`: ascending by identifier. The library's
      default sort is not stable, so only the order by identifier and the
      multiset of records are promised; this insertion sort is one valid
      choice. */
  function SortById(rs: seq<Record>): (r: seq<Record>)
    ensures SortedById(r)
    ensures multiset(r) == multiset(rs)
    decreases |rs|
  {
    if rs == [] then []
    else
      assert rs == [rs[0]] + rs[1..];
      Insert(rs[0], SortById(rs[1..]))
  }

  /** The table: joined, given its retweet handles, sorted. It fails only
      when a joined text is not a string. */
  function Export(handle: string, rows: seq<Row>, index: seq<Candidate>): (out: Option<seq<Record>>)
    ensures out.Some? <==> TextsAreStrings(Join(rows, index))
    ensures out.Some? ==> SortedById(out.value)
    ensures out.Some? ==> |out.value| == |Join(rows, index)|
  {
    var joined := Join(rows, index);
    if TextsAreStrings(joined) then
      var recs := Records(handle, joined);
      var sorted := SortById(recs);
      assert |sorted| == |multiset(sorted)| == |multiset(recs)| == |recs|;
      Some(sorted)
    else None
  }

  /** The table's lines are exactly the joined pairs, each a record of a
      parsed row with an indexed snapshot URL and the retweet handle of its
      own text. */
  lemma ExportContents(handle: string, rows: seq<Row>, index: seq<Candidate>, r: Record)
    requires Export(handle, rows, index).Some?
    ensures var out := Export(handle, rows, index).value;
      r in out <==> exists row :: row in rows && HasText(row) && Indexed(index, row.id, r.archiveUrl)
                                && r == ToRecord(handle, (row, r.archiveUrl))
    ensures r in Export(handle, rows, index).value ==>
      r.retweetHandle == Retweet.GetRetweet(r.text) && r.handle == handle
  {
    var joined := Join(rows, index);
    var recs := Records(handle, joined);
    var out := Export(handle, rows, index).value;
    assert multiset(out) == multiset(recs);
    SameElements(out, recs, r);
    if r in recs {
      RecordFromJoin(handle, rows, index, r);
    }
    if exists row :: row in rows && HasText(row) && Indexed(index, row.id, r.archiveUrl)
                     && r == ToRecord(handle, (row, r.archiveUrl)) {
      var row :| row in rows && HasText(row) && Indexed(index, row.id, r.archiveUrl)
                 && r == ToRecord(handle, (row, r.archiveUrl));
      RecordOfJoin(handle, rows, index, row, r.archiveUrl);
    }
  }

  lemma SameElements<T>(a: seq<T>, b: seq<T>, x: T)
    requires multiset(a) == multiset(b)
    ensures x in a <==> x in b
  {
    assert x in a <==> x in multiset(a);
    assert x in b <==> x in multiset(b);
  }

  /** Every record comes from a joined pair. */
  lemma RecordFromJoin(handle: string, rows: seq<Row>, index: seq<Candidate>, r: Record)
    requires TextsAreStrings(Join(rows, index)) && r in Records(handle, Join(rows, index))
    ensures exists row :: row in rows && HasText(row) && Indexed(index, row.id, r.archiveUrl)
                          && r == ToRecord(handle, (row, r.archiveUrl))
    ensures r.retweetHandle == Retweet.GetRetweet(r.text) && r.handle == handle
  {
    var joined := Join(rows, index);
    var recs := Records(handle, joined);
    var k :| 0 <= k < |recs| && recs[k] == r;
    var p := joined[k];
    assert p in joined;
    JoinIn(rows, index, p.0, p.1);
    assert r == ToRecord(handle, (p.0, r.archiveUrl));
  }

  /** Every joined pair gives a record. */
  lemma RecordOfJoin(handle: string, rows: seq<Row>, index: seq<Candidate>, row: Row, url: string)
    requires TextsAreStrings(Join(rows, index))
    requires row in rows && HasText(row) && Indexed(index, row.id, url)
    ensures ToRecord(handle, (row, url)) in Records(handle, Join(rows, index))
  {
    var joined := Join(rows, index);
    JoinIn(rows, index, row, url);
    var k :| 0 <= k < |joined| && joined[k] == (row, url);
    assert Records(handle, joined)[k] == ToRecord(handle, (row, url));
  }

  // ----- as written -----

  /** Some parsed row sets the field: the frame built from the rows has that
      column. */
  predicate HasQuotedHandle(rows: seq<Row>) { exists k :: 0 <= k < |rows| && rows[k].quotedHandle.Some? }
  predicate HasQuotedText(rows: seq<Row>) { exists k :: 0 <= k < |rows| && rows[k].quotedText.Some? }
  predicate HasReplyTo(rows: seq<Row>) { exists k :: 0 <= k < |rows| && rows[k].replyToHandle.Some? }

  /** pandas holds a datetime as nanoseconds in a signed 64-bit integer:
      the largest millisecond count whose nanoseconds fit, either way. */
  const DatetimeMaxMs: int := 9_223_372_036_854

  /** `pd.to_datetime(ms, unit="ms")` has a timestamp for `ms`. */
  predicate ConvertsToDatetime(ms: int) {
    -DatetimeMaxMs <= ms <= DatetimeMaxMs
  }

  const Int64Min: int := -0x8000_0000_0000_0000

  /** `astype(int)` holds `x` in a signed 64-bit integer. */
  predicate FitsInt64(x: int) {
    Int64Min <= x <= Int64Max
  }

  predicate TimesConvert(rows: seq<Row>) {
    forall k :: 0 <= k < |rows| ==> ConvertsToDatetime(rows[k].utcTime)
  }

  predicate IdsFitInt64(rows: seq<Row>) {
    forall k :: 0 <= k < |rows| ==> FitsInt64(rows[k].id)
  }

  /** The step as written: a frame built from no rows has no `utcTime`
      column to convert; a time beyond the datetime range stops the
      conversion; an identifier beyond 64 bits stops the cast; a non-string
      text breaks `get_retweet`; and the final column selection needs every
      named column, so it fails when no row ever set a quoted or reply
      field. */
  function AsWritten(handle: string, rows: seq<Row>, index: seq<Candidate>): (out: Option<seq<Record>>)
    ensures out.Some? ==> out == Export(handle, rows, index)
  {
    if rows == [] then None
    else if !TimesConvert(rows) then None
    else if !IdsFitInt64(rows) then None
    else if !TextsAreStrings(Join(rows, index)) then None
    else if !HasQuotedHandle(rows) || !HasQuotedText(rows) || !HasReplyTo(rows) then None
    else Export(handle, rows, index)
  }

  /** With no parsed capture the code writes no table at all, where the
      empty table is meant. */
  lemma AsWrittenFailsOnNoRows(handle: string, index: seq<Candidate>)
    ensures AsWritten(handle, [], index) == None
    ensures Export(handle, [], index) == Some([])
  {
  }

  /** A parsed row whose identifier fits in 64 bits has a time the datetime
      conversion accepts: the conversion stops the step only on identifiers
      the cast would refuse anyway. */
  lemma ParsedTimeConverts(id: int)
    requires FitsInt64(id)
    ensures ConvertsToDatetime(Snowflake.ToUtc(id))
  {
    Snowflake.ToUtcMonotone(Int64Min, id);
    Snowflake.ToUtcMonotone(id, Int64Max);
    Snowflake.ToUtcClosedForm(Int64Min);
    Snowflake.ToUtcClosedForm(Int64Max);
  }

  /** A capture named after post 10^20, with every field set: its time lies
      past the datetime range, so the code stops at the conversion, where
      the intended (here empty) table exists. */
  lemma AsWrittenFailsOnWideId(handle: string)
    ensures var id := 100000000000000000000;
      var row := Row(id, Snowflake.ToUtc(id), Json, Some(JString("x")),
                     Some(JString("a")), Some(JString("b")), Some(JString("c")));
      && !FitsInt64(id) && !ConvertsToDatetime(row.utcTime)
      && AsWritten(handle, [row], []) == None
      && Export(handle, [row], []) == Some([])
  {
    var id := 100000000000000000000;
    Snowflake.ToUtcClosedForm(id);
    var row := Row(id, Snowflake.ToUtc(id), Json, Some(JString("x")),
                   Some(JString("a")), Some(JString("b")), Some(JString("c")));
    assert [row][0].utcTime == row.utcTime;
    assert !ConvertsToDatetime([row][0].utcTime);
    assert !TimesConvert([row]);
    assert Join([row], []) == [];
  }

  /** A run whose rows never set a reply handle writes no table. */
  lemma AsWrittenFailsWithoutReplies(handle: string, rows: seq<Row>, index: seq<Candidate>)
    requires forall k :: 0 <= k < |rows| ==> rows[k].replyToHandle.None?
    ensures AsWritten(handle, rows, index) == None
  {
  }

  /** A single JSON capture `{"text": "hello world", "in_reply_to_screen_name":
      "bob"}` of post 300000000000000000, present in the index: the code
      stops at the column selection because no row has quoted fields, while
      the intended table has its one line. */
  lemma AsWrittenFailsWithoutQuotes(handle: string, url: string)
    ensures var id := 300000000000000000;
      var data := JObject([("text", JString("hello world")), ("in_reply_to_screen_name", JString("bob"))]);
      var row := ParseJson(Some(data), NewRow(id, Json));
      var index := [Candidate(url, "application/json", "20170101000000", id, ArchivePrefix + "20170101000000/" + url)];
      && row.Some?
      && AsWritten(handle, [row.value], index) == None
      && Export(handle, [row.value], index).Some?
      && |Export(handle, [row.value], index).value| == 1
  {
    var id := 300000000000000000;
    var data := JObject([("text", JString("hello world")), ("in_reply_to_screen_name", JString("bob"))]);
    var ms := data.members;
    ParseJsonFields(ms, NewRow(id, Json));
    assert Has(ms, "text") by { assert ms[0].0 == "text"; }
    assert !Has(ms, "quoted_status") by {
      forall i | 0 <= i < |ms| ensures ms[i].0 != "quoted_status" {
        assert ms[i].0[0] != 'q';
      }
    }
    var row := ParseJson(Some(data), NewRow(id, Json)).value;
    assert row.quotedHandle == None;
    assert row.text == Get(ms, "text");
    assert Get(ms, "text") == Some(JString("hello world"));
    var url2 := ArchivePrefix + "20170101000000/" + url;
    var index := [Candidate(url, "application/json", "20170101000000", id, url2)];
    assert Matches(row, index[1..]) == [];
    assert Join([row], index) == [(row, url2)];
    assert TextsAreStrings(Join([row], index));
    assert !HasQuotedHandle([row]);
    assert AsWritten(handle, [row], index) == None;
    assert Export(handle, [row], index).Some?;
  }

  /** The corrected step writes a table for every run whose texts are
      strings: no rows, or rows missing quoted or reply fields, are not
      failures, and missing fields are empty cells. */
  lemma ExportSucceeds(handle: string, rows: seq<Row>, index: seq<Candidate>)
    requires forall k :: 0 <= k < |rows| ==> HasText(rows[k])
    ensures Export(handle, rows, index).Some?
    ensures AsWritten(handle, rows, index).Some? <==>
      && rows != [] && TimesConvert(rows) && IdsFitInt64(rows)
      && HasQuotedHandle(rows) && HasQuotedText(rows) && HasReplyTo(rows)
  {
    var joined := Join(rows, index);
    forall k | 0 <= k < |joined| ensures HasText(joined[k].0) {
      assert joined[k] in joined;
      JoinIn(rows, index, joined[k].0, joined[k].1);
      var i :| 0 <= i < |rows| && rows[i] == joined[k].0;
    }
  }
}

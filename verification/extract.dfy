/** The parse phase: each stored capture becomes a row of post fields. A
    JSON capture is read through its decoded object; an HTML capture through
    the first of four page-era handlers that finds exactly one matching
    element and produces a row. The markup parser and the JSON decoder are
    parameters: what they produce is modelled, how they produce it is not. */
module Extract {
  import opened Options
  import opened Text
  import opened FileNames
  import Snowflake
  import opened Counters

  /** A decoded JSON value (numbers restricted to integers). */
  datatype Json =
    | JNull
    | JBool(b: bool)
    | JNumber(n: int)
    | JString(s: string)
    | JArray(items: seq<Json>)
    | JObject(members: seq<(string, Json)>)

  /** `key in obj`, for a decoded object's members. */
  predicate Has(members: seq<(string, Json)>, key: string) {
    exists i :: 0 <= i < |members| && members[i].0 == key
  }

  /** `obj[key]`: a repeated key keeps its last value, as the decoder's
      dictionary does. */
  function Get(members: seq<(string, Json)>, key: string): (r: Option<Json>)
    ensures r.Some? <==> Has(members, key)
    ensures r.Some? ==> exists i :: (0 <= i < |members| && members[i] == (key, r.value)
      && forall j :: i < j < |members| ==> members[j].0 != key)
    decreases |members|
  {
    if members == [] then None
    else
      var n := |members| - 1;
      if members[n].0 == key then Some(members[n].1)
      else
        var r := Get(members[..n], key);
        assert forall i :: 0 <= i < n ==> members[..n][i] == members[i];
        r
  }

  /** `value[key]`: only an object can be subscripted by a string;
      anything else raises, modelled as `None`. */
  function Index(value: Json, key: string): Option<Json> {
    if value.JObject? then Get(value.members, key) else None
  }

  /** The row of one capture. The first three fields are set from the file
      name; the others are absent until a parser sets them. */
  datatype Row = Row(
    id: int,
    utcTime: int,
    kind: Kind,
    text: Option<Json>,
    quotedHandle: Option<Json>,
    quotedText: Option<Json>,
    replyToHandle: Option<Json>)

  function NewRow(id: int, kind: Kind): Row {
    Row(id, Snowflake.ToUtc(id), kind, None, None, None, None)
  }

  /** A JSON capture. `data` is what the decoder made of the file, `None`
      when decoding failed. A missing `text`, or a quoted post without a
      `text` or a `user.screen_name`, raises, which is `None` here too. */
  function ParseJson(data: Option<Json>, row: Row): (r: Option<Row>)
    ensures r.Some? ==> r.value.id == row.id && r.value.utcTime == row.utcTime && r.value.kind == row.kind
  {
    if data.None? || !data.value.JObject? then None
    else
      var ms := data.value.members;
      match Get(ms, "text")
      case None => None
      case Some(text) =>
        var withText := row.(text := Some(text));
        var withReply :=
          if Has(ms, "in_reply_to_screen_name")
          then withText.(replyToHandle := Get(ms, "in_reply_to_screen_name"))
          else withText;
        match Get(ms, "quoted_status")
        case None => Some(withReply)
        case Some(quote) =>
          if QuoteReadable(quote)
          then Some(withReply.(quotedText := Index(quote, "text"),
                               quotedHandle := Index(Index(quote, "user").value, "screen_name")))
          else None
  }

  /** The quoted post is well formed: an object with a `text` and a `user`
      object with a `screen_name`. */
  predicate QuoteReadable(quote: Json) {
    && Index(quote, "text").Some?
    && Index(quote, "user").Some?
    && Index(Index(quote, "user").value, "screen_name").Some?
  }

  /** The fields of a parsed JSON capture: the text is the object's `text`;
      the reply handle is set exactly when its key is present; the quoted
      fields are set exactly when a (readable) quoted post is present; the
      row's own fields are kept. Parsing fails exactly when the object has
      no text or its quoted post is unreadable. */
  lemma ParseJsonFields(ms: seq<(string, Json)>, row: Row)
    ensures var r := ParseJson(Some(JObject(ms)), row);
      && (r.Some? <==> Has(ms, "text") && (Has(ms, "quoted_status") ==> QuoteReadable(Get(ms, "quoted_status").value)))
      && (r.Some? ==>
        && r.value.text == Get(ms, "text")
        && r.value.replyToHandle == (if Has(ms, "in_reply_to_screen_name") then Get(ms, "in_reply_to_screen_name") else row.replyToHandle)
        && r.value.quotedText == (if Has(ms, "quoted_status") then Index(Get(ms, "quoted_status").value, "text") else row.quotedText)
        && r.value.quotedHandle == (if Has(ms, "quoted_status") then Index(Index(Get(ms, "quoted_status").value, "user").value, "screen_name") else row.quotedHandle))
  {
  }

  /** On a fresh row, as the parse phase supplies it: the reply handle is
      present exactly when the object has the reply key, the quoted fields
      exactly when it has a quoted post, and the text always. */
  lemma ParseJsonCapture(id: int, ms: seq<(string, Json)>)
    ensures var r := ParseJson(Some(JObject(ms)), NewRow(id, Json));
      r.Some? ==>
        && r.value.text.Some?
        && (r.value.replyToHandle.Some? <==> Has(ms, "in_reply_to_screen_name"))
        && (r.value.quotedText.Some? <==> Has(ms, "quoted_status"))
        && (r.value.quotedHandle.Some? <==> Has(ms, "quoted_status"))
        && r.value.utcTime == Snowflake.ToUtc(id)
  {
    ParseJsonFields(ms, NewRow(id, Json));
  }

  /** Only an object can be read: any other decoded value, or a failed
      decode, is an error. */
  lemma ParseJsonNeedsObject(data: Option<Json>, row: Row)
    requires data.None? || !data.value.JObject?
    ensures ParseJson(data, row) == None
  {
  }

  // ----- HTML captures -----

  /** The quoted-post box next to a jumbo post: its username span and its
      quote text, each `None` when the lookup finds nothing. */
  datatype QuoteBox = QuoteBox(username: Option<string>, quoteText: Option<string>)

  /** The block before a jumbo post: its text, and its username span. */
  datatype ReplyBox = ReplyBox(text: string, username: Option<string>)

  /** What the handlers can see of a matched element: its text with emoji
      images replaced by their alt text (`None` when an emoji has no alt and
      the replacement raises), the sibling blocks around its parent, and the
      text of its inner `js-tweet-text` paragraph (`None` when there is none
      or it cannot be read). */
  datatype Element = Element(
    text: Option<string>,
    quote: Option<QuoteBox>,
    replyTo: Option<ReplyBox>,
    tweetText: Option<string>)

  /** A parsed page, as the lookups see it: the elements of a tag carrying a
      class, in document order. */
  type Markup = map<(string, string), seq<Element>>

  /** The three handler bodies. */
  datatype Strategy = Jumbo | Compact | Opened

  /** A handler: the class and tag it looks for, and the body it runs on
      the single match. */
  datatype Handler = Handler(cls: string, tag: string, strategy: Strategy)

  /** The handler table, oldest layout last. */
  const Handlers: seq<Handler> := [
    Handler("TweetTextSize--jumbo", "p", Jumbo),
    Handler("TweetTextSize--26px", "p", Compact),
    Handler("opened-tweet", "div", Opened),
    Handler("preexpanded", "div", Opened)
  ]

  function FindAll(m: Markup, h: Handler): seq<Element> {
    if (h.tag, h.cls) in m then m[(h.tag, h.cls)] else []
  }

  /** What a handler body does: returns a row or `None`, or raises. */
  datatype Attempt = Returned(row: Option<Row>) | Threw

  /** The reply rule of the compact and opened layouts: a text that starts
      with `@` replies to its first word, with every `@` removed. */
  function MentionReply(t: string): (h: Option<string>)
    ensures h.Some? <==> StartsWith(t, "@")
  {
    if StartsWith(t, "@") then
      WordsOfToken(t);
      Some(RemoveAll(Words(t)[0], "@"))
    else None
  }

  /** The reply handle is a run of non-whitespace characters of the text,
      without any `@`. */
  lemma MentionReplyShape(t: string)
    requires StartsWith(t, "@")
    ensures var h := MentionReply(t).value;
      && '@' !in h && NoSpace(h)
      && forall c :: c in h ==> c in t
  {
    WordsOfToken(t);
    var w := Words(t)[0];
    assert w == t[..TokenLen(t)];
    var h := RemoveAll(w, "@");
    RemoveAllSingle(w, '@');
    forall i | 0 <= i < |h| ensures !IsSpace(h[i]) {
      assert h[i] in w;
    }
  }

  /** `@h` followed by whitespace (or nothing) replies to `h`. */
  lemma MentionReplyOf(h: string, rest: string)
    requires NoSpace(h) && '@' !in h
    requires rest == [] || IsSpace(rest[0])
    ensures MentionReply("@" + h + rest) == Some(h)
  {
    var t := "@" + h + rest;
    assert t == ("@" + h) + rest;
    TokenLenOfWord("@" + h, rest);
    WordsOfToken(t);
    assert Words(t)[0] == "@" + h;
    RemoveAbsentChar(h, '@');
    assert RemoveAll("@" + h, "@") == RemoveAll(h, "@");
  }

  /** The fields the compact and opened layouts set from a post text. */
  function TextRow(row: Row, t: string): Row {
    row.(text := Some(JString(t)), quotedHandle := Some(JString("")), quotedText := Some(JString("")),
         replyToHandle := match MentionReply(t)
                          case Some(h) => Some(JString(h))
                          case None => row.replyToHandle)
  }

  /** The jumbo layout: an empty text gives `None` before the row is
      touched; otherwise the text, the quoted post (both fields empty when
      the quote box cannot be read) and, when the block before says
      "Replying to", the reply handle (empty when it cannot be read). */
  function JumboRow(e: Element, row: Option<Row>): Attempt {
    match e.text
    case None => Threw
    case Some(raw) =>
      var t := Strip(raw);
      if |t| == 0 then Returned(None)
      else if row.None? then Threw
      else
        var withText := row.value.(text := Some(JString(t)));
        var withQuote := match e.quote
          case None => withText
          case Some(q) =>
            if q.username.Some? && q.quoteText.Some?
            then withText.(quotedHandle := Some(JString(RemoveAll(q.username.value, "@"))),
                           quotedText := Some(JString(Strip(q.quoteText.value))))
            else withText.(quotedHandle := Some(JString("")), quotedText := Some(JString("")));
        var withReply := match e.replyTo
          case Some(b) =>
            if Contains(b.text, "Replying to")
            then withQuote.(replyToHandle := Some(JString(if b.username.Some? then RemoveAll(b.username.value, "@") else "")))
            else withQuote
          case None => withQuote;
        Returned(Some(withReply))
  }

  /** Runs a handler body on its single match. Storing into a row that is
      `None` raises. */
  function Apply(s: Strategy, e: Element, row: Option<Row>): Attempt {
    match s
    case Jumbo => JumboRow(e, row)
    case Compact =>
      if e.text.None? || row.None? then Threw else Returned(Some(TextRow(row.value, Strip(e.text.value))))
    case Opened =>
      if e.tweetText.None? || row.None? then Threw else Returned(Some(TextRow(row.value, Strip(e.tweetText.value))))
  }

  /** Where `parse_html`'s loop goes after one handler: it stops with a
      row, or goes on with the row it now holds. */
  datatype Next = Stop(found: Row) | Go(row: Option<Row>)

  /** One turn of the loop: a handler runs only when exactly one element
      matches; a raise is swallowed and leaves `row` alone; a returned
      `None` is stored back into `row`. */
  function Step(h: Handler, m: Markup, row: Option<Row>): Next {
    var es := FindAll(m, h);
    if |es| != 1 then Go(row)
    else
      match Apply(h.strategy, es[0], row)
      case Threw => Go(row)
      case Returned(r) => if r.Some? then Stop(r.value) else Go(None)
  }

  /** `parse_html`'s loop: the first row returned wins. */
  function Dispatch(hs: seq<Handler>, m: Markup, row: Option<Row>): (r: Option<Row>)
    ensures row.None? ==> r.None?
    decreases |hs|
  {
    if hs == [] then None
    else
      match Step(hs[0], m, row)
      case Stop(r) => Some(r)
      case Go(next) => Dispatch(hs[1..], m, next)
  }

  /** `parse_html`: every row it returns has the handler shape. */
  function ParseHtml(m: Markup, row: Row): (r: Option<Row>)
    ensures r.Some? ==> HtmlShape(row, r.value)
  {
    var d := Dispatch(Handlers, m, Some(row));
    if d.Some? then
      DispatchSound(Handlers, m, row, d.value);
      var i :| 0 <= i < |Handlers| && Hits(Handlers[i], m, row, d.value) && forall j :: 0 <= j < i ==> Passes(Handlers[j], m, row);
      ApplyShape(Handlers[i].strategy, FindAll(m, Handlers[i])[0], row, d.value);
      d
    else d
  }

  /** The handler runs, on the given row, and returns a row. */
  predicate Hits(h: Handler, m: Markup, row: Row, r: Row) {
    |FindAll(m, h)| == 1 && Apply(h.strategy, FindAll(m, h)[0], Some(row)) == Returned(Some(r))
  }

  /** The handler is passed over: it does not run, or it raises. */
  predicate Passes(h: Handler, m: Markup, row: Row) {
    |FindAll(m, h)| != 1 || Apply(h.strategy, FindAll(m, h)[0], Some(row)) == Threw
  }

  /** No handler body can produce a row from `None`. */
  lemma ApplyNoRow(s: Strategy, e: Element)
    ensures Apply(s, e, None) == Threw || Apply(s, e, None) == Returned(None)
  {
  }

  /** Once `row` is `None`, every later handler fails. */
  lemma {:induction false} DispatchNoRow(hs: seq<Handler>, m: Markup)
    ensures Dispatch(hs, m, None) == None
    decreases |hs|
  {
    if hs != [] {
      var es := FindAll(m, hs[0]);
      if |es| == 1 {
        ApplyNoRow(hs[0].strategy, es[0]);
      }
      DispatchNoRow(hs[1..], m);
    }
  }

  /** A row returned by the loop comes from the first handler that runs
      and returns one; every handler before it was passed over. */
  lemma {:induction false} DispatchSound(hs: seq<Handler>, m: Markup, row: Row, r: Row)
    requires Dispatch(hs, m, Some(row)) == Some(r)
    ensures exists i :: 0 <= i < |hs| && Hits(hs[i], m, row, r) && forall j :: 0 <= j < i ==> Passes(hs[j], m, row)
    decreases |hs|
  {
    var es := FindAll(m, hs[0]);
    if !Hits(hs[0], m, row, r) {
      assert Passes(hs[0], m, row) by {
        if |es| == 1 && Apply(hs[0].strategy, es[0], Some(row)).Returned? {
          DispatchNoRow(hs[1..], m);
        }
      }
      assert Dispatch(hs, m, Some(row)) == Dispatch(hs[1..], m, Some(row));
      DispatchSound(hs[1..], m, row, r);
      var i :| 0 <= i < |hs[1..]| && Hits(hs[1..][i], m, row, r) && forall j :: 0 <= j < i ==> Passes(hs[1..][j], m, row);
      assert Hits(hs[i + 1], m, row, r);
      forall j | 0 <= j < i + 1 ensures Passes(hs[j], m, row) {
        if j > 0 { assert hs[j] == hs[1..][j - 1]; }
      }
    }
  }

  /** Conversely, the first handler that runs and returns a row, after
      handlers that were all passed over, decides the result. */
  lemma {:induction false} DispatchReaches(hs: seq<Handler>, m: Markup, row: Row, r: Row, i: nat)
    requires i < |hs| && Hits(hs[i], m, row, r)
    requires forall j :: 0 <= j < i ==> Passes(hs[j], m, row)
    ensures Dispatch(hs, m, Some(row)) == Some(r)
    decreases i
  {
    if i > 0 {
      assert Passes(hs[0], m, row);
      forall j | 0 <= j < i - 1 ensures Passes(hs[1..][j], m, row) {
        assert hs[1..][j] == hs[j + 1];
      }
      DispatchReaches(hs[1..], m, row, r, i - 1);
    }
  }

  /** First-hit characterisation of the loop. */
  lemma DispatchFirstHit(hs: seq<Handler>, m: Markup, row: Row, r: Row)
    ensures Dispatch(hs, m, Some(row)) == Some(r) <==>
      exists i :: 0 <= i < |hs| && Hits(hs[i], m, row, r) && forall j :: 0 <= j < i ==> Passes(hs[j], m, row)
  {
    if Dispatch(hs, m, Some(row)) == Some(r) {
      DispatchSound(hs, m, row, r);
    }
    if exists i :: 0 <= i < |hs| && Hits(hs[i], m, row, r) && forall j :: 0 <= j < i ==> Passes(hs[j], m, row) {
      var i :| 0 <= i < |hs| && Hits(hs[i], m, row, r) && forall j :: 0 <= j < i ==> Passes(hs[j], m, row);
      DispatchReaches(hs, m, row, r, i);
    }
  }

  /** A handler with zero or several matches never runs: removing it
      changes nothing. */
  lemma {:induction false} DispatchSkipsUnmatched(hs: seq<Handler>, m: Markup, row: Option<Row>, k: nat)
    requires k < |hs| && |FindAll(m, hs[k])| != 1
    ensures Dispatch(hs, m, row) == Dispatch(hs[..k] + hs[k + 1..], m, row)
    decreases k
  {
    var rest := hs[..k] + hs[k + 1..];
    if k > 0 {
      DropAt(hs, k);
      assert FindAll(m, hs[1..][k - 1]) == FindAll(m, hs[k]);
      match Step(hs[0], m, row)
      case Stop(_) =>
      case Go(next) => DispatchSkipsUnmatched(hs[1..], m, next, k - 1);
    } else {
      assert rest == hs[1..];
    }
  }

  /** Removing the element at `k > 0` keeps the head and removes the
      element at `k - 1` of the tail. */
  lemma DropAt<T>(s: seq<T>, k: nat)
    requires 0 < k < |s|
    ensures (s[..k] + s[k + 1..])[0] == s[0]
    ensures (s[..k] + s[k + 1..])[1..] == s[1..][..k - 1] + s[1..][k..]
  {
  }

  /** The jumbo layout returns `None` exactly on an empty (all-whitespace)
      text. */
  lemma JumboEmpty(e: Element, row: Option<Row>)
    ensures JumboRow(e, row) == Returned(None) <==> e.text.Some? && AllSpace(e.text.value)
  {
    if e.text.Some? {
      StripEmpty(e.text.value);
    }
  }

  /** When the jumbo handler runs on an all-whitespace text, the page is
      lost: whatever the later handlers would have found, the parse yields
      `None`. */
  lemma JumboEmptyPoisons(m: Markup, row: Row)
    requires |FindAll(m, Handlers[0])| == 1
    requires var e := FindAll(m, Handlers[0])[0]; e.text.Some? && AllSpace(e.text.value)
    ensures ParseHtml(m, row) == None
  {
    var e := FindAll(m, Handlers[0])[0];
    JumboEmpty(e, Some(row));
    DispatchNoRow(Handlers[1..], m);
  }

  /** A text without surrounding whitespace. */
  predicate Stripped(t: string) {
    t == [] || (!IsSpace(t[0]) && !IsSpace(t[|t| - 1]))
  }

  /** What every handler promises of a row it returns: the identity fields
      are kept, the text is a stripped string, and a reply handle it sets
      holds no `@`. */
  predicate HtmlShape(row: Row, r: Row) {
    && r.id == row.id && r.utcTime == row.utcTime && r.kind == row.kind
    && r.text.Some? && r.text.value.JString? && Stripped(r.text.value.s)
    && (r.replyToHandle != row.replyToHandle ==> r.replyToHandle.Some? && r.replyToHandle.value.JString?)
  }

  lemma TextRowShape(row: Row, t: string)
    requires Stripped(t)
    ensures HtmlShape(row, TextRow(row, t))
    ensures TextRow(row, t).replyToHandle != row.replyToHandle ==> '@' !in TextRow(row, t).replyToHandle.value.s
  {
    if StartsWith(t, "@") {
      MentionReplyShape(t);
    }
  }

  lemma JumboShape(e: Element, row: Row, r: Row)
    requires JumboRow(e, Some(row)) == Returned(Some(r))
    ensures HtmlShape(row, r)
  {
    var t := Strip(e.text.value);
    assert r.text == Some(JString(t));
  }

  lemma ApplyShape(s: Strategy, e: Element, row: Row, r: Row)
    requires Apply(s, e, Some(row)) == Returned(Some(r))
    ensures HtmlShape(row, r)
  {
    match s
    case Jumbo => JumboShape(e, row, r);
    case Compact => TextRowShape(row, Strip(e.text.value));
    case Opened => TextRowShape(row, Strip(e.tweetText.value));
  }

  // ----- the phase -----

  /** A directory entry: its name, and its contents (`None` when the file
      cannot be read). */
  datatype File = File(name: string, contents: Option<string>)

  /** One file: the name gives the identifier and the parser; any failure
      along the way is `None`. */
  function ParseFile(f: File, soup: string -> Markup, loads: string -> Option<Json>): (r: Option<Row>)
    ensures r.Some? ==> (Decode(f.name) == Some((r.value.id, r.value.kind))
      && r.value.utcTime == Snowflake.ToUtc(r.value.id))
  {
    match Decode(f.name)
    case None => None
    case Some((id, kind)) =>
      if f.contents.None? then None
      else
        var row := NewRow(id, kind);
        match kind
        case Html => ParseHtml(soup(f.contents.value), row)
        case Json => ParseJson(loads(f.contents.value), row)
  }

  /** Rows parsed so far and the counters: `count` restarts at zero,
      `errors` carries on from the fetch phase. */
  datatype Parsed = Parsed(rows: seq<Row>, tally: Tally)

  /** The loop over the directory listing, given each file's outcome in
      listing order: a row is appended and counted, a failure is an error. */
  function Collect(outcomes: seq<Option<Row>>, errors: nat): (p: Parsed)
    ensures |p.rows| == p.tally.count
    ensures p.tally.count + p.tally.errors == errors + |outcomes|
    decreases |outcomes|
  {
    if outcomes == [] then Parsed([], Tally(0, errors))
    else
      var n := |outcomes| - 1;
      var p := Collect(outcomes[..n], errors);
      match outcomes[n]
      case Some(row) => Parsed(p.rows + [row], p.tally.Retrieved())
      case None => Parsed(p.rows, p.tally.Error())
  }

  /** The rows of the successful outcomes, in order. */
  function Successes(outcomes: seq<Option<Row>>): (rows: seq<Row>)
    ensures |rows| <= |outcomes|
  {
    if outcomes == [] then []
    else (if outcomes[0].Some? then [outcomes[0].value] else []) + Successes(outcomes[1..])
  }

  /** One more outcome adds its row, if any, at the end. */
  lemma {:induction false} SuccessesSnoc(outcomes: seq<Option<Row>>, o: Option<Row>)
    ensures Successes(outcomes + [o]) == Successes(outcomes) + (if o.Some? then [o.value] else [])
    decreases |outcomes|
  {
    if outcomes == [] {
      assert outcomes + [o] == [o];
      assert [o][1..] == [];
    } else {
      assert (outcomes + [o])[0] == outcomes[0];
      assert (outcomes + [o])[1..] == outcomes[1..] + [o];
      SuccessesSnoc(outcomes[1..], o);
    }
  }

  /** The loop keeps the successful rows, in listing order and each once,
      counts them, and counts every failure as an error. */
  lemma {:induction false} CollectIsSuccesses(outcomes: seq<Option<Row>>, errors: nat)
    ensures var p := Collect(outcomes, errors);
      && p.rows == Successes(outcomes)
      && p.tally.count == |Successes(outcomes)|
      && p.tally.errors == errors + |outcomes| - |Successes(outcomes)|
    decreases |outcomes|
  {
    if outcomes != [] {
      var n := |outcomes| - 1;
      CollectIsSuccesses(outcomes[..n], errors);
      SuccessesSnoc(outcomes[..n], outcomes[n]);
      assert outcomes[..n] + [outcomes[n]] == outcomes;
    }
  }

  /** The rows collected are exactly the successful outcomes, in order. */
  lemma {:induction false} CollectRows(outcomes: seq<Option<Row>>, errors: nat)
    ensures var p := Collect(outcomes, errors);
      && (forall k :: 0 <= k < |p.rows| ==> Some(p.rows[k]) in outcomes)
      && (forall i :: 0 <= i < |outcomes| && outcomes[i].Some? ==> outcomes[i].value in p.rows)
    decreases |outcomes|
  {
    if outcomes != [] {
      var n := |outcomes| - 1;
      CollectRows(outcomes[..n], errors);
      var q := Collect(outcomes[..n], errors);
      var p := Collect(outcomes, errors);
      assert p.rows == if outcomes[n].Some? then q.rows + [outcomes[n].value] else q.rows;
      forall k | 0 <= k < |p.rows| ensures Some(p.rows[k]) in outcomes {
        if k < |q.rows| {
          assert p.rows[k] == q.rows[k];
          assert Some(q.rows[k]) in outcomes[..n];
        } else {
          assert outcomes[n] == Some(p.rows[k]);
        }
      }
      forall i | 0 <= i < |outcomes| && outcomes[i].Some? ensures outcomes[i].value in p.rows {
        if i < n {
          assert outcomes[..n][i] == outcomes[i];
        } else {
          assert outcomes[n].value == p.rows[|p.rows| - 1];
        }
      }
    }
  }

  /** What each file of the listing yields. */
  function Outcomes(files: seq<File>, soup: string -> Markup, loads: string -> Option<Json>): (os: seq<Option<Row>>)
    ensures |os| == |files|
  {
    seq(|files|, i requires 0 <= i < |files| => ParseFile(files[i], soup, loads))
  }

  /** The loop over the directory listing, in listing order. */
  function ParsePhase(files: seq<File>, errors: nat, soup: string -> Markup, loads: string -> Option<Json>): (p: Parsed)
    ensures |p.rows| == p.tally.count
    ensures p.tally.count + p.tally.errors == errors + |files|
  {
    Collect(Outcomes(files, soup, loads), errors)
  }

  /** The rows handed on are the successful parses in listing order, and
      every file that does not parse is one more error. */
  lemma ParsePhaseInOrder(files: seq<File>, errors: nat, soup: string -> Markup, loads: string -> Option<Json>)
    ensures var p := ParsePhase(files, errors, soup, loads);
      && p.rows == Successes(Outcomes(files, soup, loads))
      && p.tally.count == |p.rows|
      && p.tally.errors == errors + |files| - |p.rows|
  {
    CollectIsSuccesses(Outcomes(files, soup, loads), errors);
  }

  /** The rows are exactly the successful parses: each comes from a file of
      the listing, and each file that parses contributes its row. */
  lemma ParsePhaseRows(files: seq<File>, errors: nat, soup: string -> Markup, loads: string -> Option<Json>)
    ensures var p := ParsePhase(files, errors, soup, loads);
      && (forall row :: row in p.rows ==> exists i :: 0 <= i < |files| && ParseFile(files[i], soup, loads) == Some(row))
      && (forall i :: 0 <= i < |files| && ParseFile(files[i], soup, loads).Some? ==> ParseFile(files[i], soup, loads).value in p.rows)
  {
    RowsFromFiles(files, errors, soup, loads);
    FilesIntoRows(files, errors, soup, loads);
  }

  lemma RowsFromFiles(files: seq<File>, errors: nat, soup: string -> Markup, loads: string -> Option<Json>)
    ensures var p := ParsePhase(files, errors, soup, loads);
      forall row :: row in p.rows ==> exists i :: 0 <= i < |files| && ParseFile(files[i], soup, loads) == Some(row)
  {
    var os := Outcomes(files, soup, loads);
    CollectRows(os, errors);
    RowsFromOutcomes(files, soup, loads, Collect(os, errors).rows);
  }

  /** A row found among the outcomes is the parse of some file. */
  lemma RowsFromOutcomes(files: seq<File>, soup: string -> Markup, loads: string -> Option<Json>, rows: seq<Row>)
    requires forall row :: row in rows ==> Some(row) in Outcomes(files, soup, loads)
    ensures forall row :: row in rows ==> exists i :: 0 <= i < |files| && ParseFile(files[i], soup, loads) == Some(row)
  {
    forall row | row in rows
      ensures exists i :: 0 <= i < |files| && ParseFile(files[i], soup, loads) == Some(row)
    {
      RowFromOutcome(files, soup, loads, row);
    }
  }

  lemma RowFromOutcome(files: seq<File>, soup: string -> Markup, loads: string -> Option<Json>, row: Row)
    requires Some(row) in Outcomes(files, soup, loads)
    ensures exists i :: 0 <= i < |files| && ParseFile(files[i], soup, loads) == Some(row)
  {
    var os := Outcomes(files, soup, loads);
    var i :| 0 <= i < |os| && os[i] == Some(row);
    assert os[i] == ParseFile(files[i], soup, loads);
  }

  lemma FilesIntoRows(files: seq<File>, errors: nat, soup: string -> Markup, loads: string -> Option<Json>)
    ensures var p := ParsePhase(files, errors, soup, loads);
      forall i :: 0 <= i < |files| && ParseFile(files[i], soup, loads).Some? ==> ParseFile(files[i], soup, loads).value in p.rows
  {
    var os := Outcomes(files, soup, loads);
    CollectRows(os, errors);
    var p := Collect(os, errors);
    assert p == ParsePhase(files, errors, soup, loads);
    forall i | 0 <= i < |files| && ParseFile(files[i], soup, loads).Some?
      ensures ParseFile(files[i], soup, loads).value in p.rows
    {
      assert os[i] == ParseFile(files[i], soup, loads);
    }
  }
}

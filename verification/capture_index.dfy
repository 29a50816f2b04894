/** The capture index: which archived URLs are post pages worth fetching,
    what identifier each carries, and where its snapshot lives. */
module CaptureIndex {
  import opened Options
  import opened Text

  /** The path segment that introduces a post identifier. */
  const StatusSegment: string := "/status/"

  /** Identifiers at or below this are legacy sequential ids, which do not
      encode a creation time. */
  const MinSnowflake: nat := 292000000000000

  /** Largest value of the 64-bit column the identifiers are cast into. */
  const Int64Max: nat := 0x7fff_ffff_ffff_ffff

  const ArchivePrefix: string := "https://web.archive.org/web/"

  /** One row of the archive's index: original URL, mime type, capture time. */
  datatype Entry = Entry(url: string, mime: string, timestamp: string)

  /** An index row that names a post, with its identifier and snapshot URL. */
  datatype Candidate = Candidate(url: string, mime: string, timestamp: string, id: nat, archiveUrl: string)

  /** `u.split("/status/")[-1]` */
  function IdText(url: string): string {
    SplitLast(url, StatusSegment)
  }

  /** Survives the first two filters: mentions "status" and the last piece
      is all digits. */
  predicate IsStatusUrl(url: string) {
    Contains(url, "status") && IsNumeric(IdText(url))
  }

  function IdOf(url: string): nat
    requires IsStatusUrl(url)
  {
    DigitsValue(IdText(url))
  }

  /** The three filters together: a post page whose identifier is a
      snowflake. */
  predicate Accepts(url: string) {
    IsStatusUrl(url) && IdOf(url) > MinSnowflake
  }

  /** `"https://web.archive.org/web/" + t + "/" + url` */
  function ArchiveUrl(timestamp: string, url: string): string {
    ArchivePrefix + timestamp + "/" + url
  }

  function ToCandidate(e: Entry): Candidate
    requires Accepts(e.url)
  {
    Candidate(e.url, e.mime, e.timestamp, IdOf(e.url), ArchiveUrl(e.timestamp, e.url))
  }

  /** The accepted entries, in index order, as candidates. */
  function Select(entries: seq<Entry>): (cs: seq<Candidate>)
    ensures |cs| <= |entries|
    ensures forall c :: c in cs ==>
      && Accepts(c.url)
      && c.id == IdOf(c.url) > MinSnowflake
      && c.archiveUrl == ArchiveUrl(c.timestamp, c.url)
    ensures forall e :: e in entries && Accepts(e.url) ==> ToCandidate(e) in cs
    ensures forall c :: c in cs ==> exists e :: e in entries && Accepts(e.url) && c == ToCandidate(e)
  {
    if entries == [] then []
    else
      var rest := Select(entries[1..]);
      assert forall e :: e in entries[1..] ==> e in entries;
      if Accepts(entries[0].url) then [ToCandidate(entries[0])] + rest else rest
  }

  /** Selecting from a concatenation selects from each part, in order. */
  lemma {:induction false} SelectAppend(a: seq<Entry>, b: seq<Entry>)
    ensures Select(a + b) == Select(a) + Select(b)
  {
    if a == [] {
      assert a + b == b;
    } else {
      assert (a + b)[0] == a[0];
      assert (a + b)[1..] == a[1..] + b;
      SelectAppend(a[1..], b);
    }
  }

  /** One numeric identifier too large for a 64-bit integer. */
  predicate Overflows(entries: seq<Entry>) {
    exists e :: e in entries && IsStatusUrl(e.url) && IdOf(e.url) > Int64Max
  }

  /** Building the index. The identifier column is cast to a 64-bit integer
      after the digit filter and before the threshold filter, so one numeric
      identifier too large for it stops the whole run (`None`). The run also
      stops when no entry survives the filters: building the snapshot URL
      column row by row over an empty frame yields a frame, not a column,
      and storing that frame as one column raises. */
  function BuildIndex(entries: seq<Entry>): (r: Option<seq<Candidate>>)
    ensures r.None? <==> Overflows(entries) || (forall e :: e in entries ==> !Accepts(e.url))
    ensures r.Some? ==> r.value == Select(entries) && r.value != []
    ensures r.Some? ==> forall c :: c in r.value ==> MinSnowflake < c.id <= Int64Max
  {
    if Overflows(entries) then None
    else
      var cs := Select(entries);
      if cs == [] then None
      else
        assert cs[0] in cs;
        Some(cs)
  }

  /** Every URL that passes the first two filters has the shape
      `prefix + "/status/" + digits`, the digits being exactly the
      identifier's text. */
  lemma AcceptedShape(url: string)
    requires IsStatusUrl(url)
    ensures |IdText(url)| + |StatusSegment| <= |url|
    ensures url == url[..|url| - |IdText(url)| - |StatusSegment|] + StatusSegment + IdText(url)
  {
    var k := LastPieceStart(url, StatusSegment);
    LastPieceSpec(url, StatusSegment);
    assert k > 0 by {
      MentionIsNotNumeric(url, "status");
      assert url[0..] == url;
    }
    SplitThree(url, k - |StatusSegment|, k);
  }

  /** For a URL whose first `/status/` introduces a digit string, the filter
      accepts exactly when the digits' value exceeds the threshold; an
      identifier equal to the threshold is excluded. */
  lemma AcceptsStatusUrl(prefix: string, digits: string)
    requires Find(prefix + StatusSegment, StatusSegment) == |prefix|
    requires IsNumeric(digits)
    ensures IdText(prefix + StatusSegment + digits) == digits
    ensures Accepts(prefix + StatusSegment + digits) <==> DigitsValue(digits) > MinSnowflake
  {
    IdTextAfterFirstSegment(prefix, digits);
    MentionsStatus(prefix, digits);
  }

  /** The first `/status/` of the URL is the one after the prefix, and
      the digits hold none, so the last piece is the digits. */
  lemma IdTextAfterFirstSegment(prefix: string, digits: string)
    requires Find(prefix + StatusSegment, StatusSegment) == |prefix|
    requires IsNumeric(digits)
    ensures IdText(prefix + StatusSegment + digits) == digits
  {
    NoSeparatorInDigits(digits);
    IdTextAfterFirst(prefix, digits);
  }

  /** After the first `/status/`, a tail that holds no `/status/` is the
      last piece. */
  lemma IdTextAfterFirst(prefix: string, tail: string)
    requires Find(prefix + StatusSegment, StatusSegment) == |prefix|
    requires Find(tail, StatusSegment) < 0
    ensures IdText(prefix + StatusSegment + tail) == tail
  {
    var url := prefix + StatusSegment + tail;
    FirstSegment(prefix, tail);
    DropDrop(url, |prefix|, |StatusSegment|);
    assert url[|prefix| + |StatusSegment|..] == tail;
    SplitLastStep(url, StatusSegment, |prefix|);
    assert tail[0..] == tail;
  }

  /** The posts of an account named `status` are never selected: in
      `…/status/status/<digits>` the scan takes the first `/status/`, whose
      closing `/` the second one would need, so the last piece is
      `status/<digits>`, which is not a digit string. */
  lemma StatusNamedAccount(prefix: string, digits: string)
    requires Find(prefix + StatusSegment, StatusSegment) == |prefix|
    requires IsNumeric(digits)
    ensures IdText(prefix + StatusSegment + "status/" + digits) == "status/" + digits
    ensures !Accepts(prefix + StatusSegment + "status/" + digits)
  {
    var tail := "status/" + digits;
    var url := prefix + StatusSegment + tail;
    NoSegmentAfterStatus(digits);
    IdTextAfterFirst(prefix, tail);
    assert tail[0] == 's';
    LetterPieceRejected(url);
    assert prefix + StatusSegment + "status/" + digits == url;
  }

  lemma StatusAccountSpelling()
    ensures "https://twitter.com" + StatusSegment + "status/" + "123" == "https://twitter.com/status/status/123"
  {
  }

  /** A last piece that opens with a non-digit is refused. */
  lemma LetterPieceRejected(url: string)
    requires IdText(url) != [] && !IsDigit(IdText(url)[0])
    ensures !Accepts(url)
  {
  }

  lemma NoSegmentAfterStatus(digits: string)
    requires IsNumeric(digits)
    ensures Find("status/" + digits, StatusSegment) < 0
  {
    var tail := "status/" + digits;
    forall i | 0 <= i <= |tail| - |StatusSegment| ensures !OccursAt(tail, StatusSegment, i) {
      if i < 6 {
        assert tail[i] == "status/"[i];
      } else if i == 6 {
        assert tail[7] == digits[0];
      } else {
        assert tail[i] == digits[i - 7];
      }
      NotSegmentAt(tail, i);
    }
    AbsentNotFound(tail, StatusSegment);
  }

  /** `/status/` does not start where `/` is not followed by `s`. */
  lemma NotSegmentAt(t: string, i: int)
    requires 0 <= i && i + 1 < |t| && !(t[i] == '/' && t[i + 1] == 's')
    ensures !OccursAt(t, StatusSegment, i)
  {
    if i + 8 <= |t| {
      var w := t[i..i + 8];
      assert w[0] == t[i] && w[1] == t[i + 1];
    }
  }

  /** A prefix in which no `/` is followed by `s`. */
  predicate NoSlashS(prefix: string) {
    forall i :: 0 <= i < |prefix| - 1 && prefix[i] == '/' ==> prefix[i + 1] != 's'
  }

  /** In such a prefix, the first `/status/` is the one appended to it. */
  lemma SegmentAfterPrefix(prefix: string)
    requires NoSlashS(prefix)
    ensures Find(prefix + StatusSegment, StatusSegment) == |prefix|
  {
    var head := prefix + StatusSegment;
    AppendedSegment(prefix);
    var f := Find(head, StatusSegment);
    if f < |prefix| {
      NoEarlySegment(prefix, f);
    }
  }

  lemma AppendedSegment(prefix: string)
    ensures OccursAt(prefix + StatusSegment, StatusSegment, |prefix|)
  {
    var head := prefix + StatusSegment;
    assert head[|prefix|..] == StatusSegment;
  }

  lemma NoEarlySegment(prefix: string, r: int)
    requires NoSlashS(prefix)
    requires r < |prefix|
    ensures !OccursAt(prefix + StatusSegment, StatusSegment, r)
  {
    var head := prefix + StatusSegment;
    if 0 <= r {
      assert head[r] == prefix[r];
      if r + 1 < |prefix| {
        assert head[r + 1] == prefix[r + 1];
      } else {
        assert head[r + 1] == StatusSegment[0];
      }
      NotSegmentAt(head, r);
    }
  }

  /** The account `status` itself. */
  lemma StatusAccountUrl()
    ensures !Accepts("https://twitter.com/status/status/123")
  {
    var prefix := "https://twitter.com";
    SegmentAfterPrefix(prefix);
    StatusNamedAccount(prefix, "123");
    StatusAccountSpelling();
  }

  lemma FirstSegment(prefix: string, digits: string)
    requires Find(prefix + StatusSegment, StatusSegment) == |prefix|
    ensures Find(prefix + StatusSegment + digits, StatusSegment) == |prefix|
  {
    var head := prefix + StatusSegment;
    var url := head + digits;
    assert url[..|head|] == head;
    forall i | OccursAt(url, StatusSegment, i) && i < |prefix|
      ensures OccursAt(head, StatusSegment, i)
    {
      assert url[i..i + 8] == head[i..i + 8];
    }
    assert OccursAt(url, StatusSegment, |prefix|) by {
      assert url[|prefix|..|prefix| + 8] == head[|prefix|..];
    }
  }

  lemma MentionsStatus(prefix: string, digits: string)
    ensures Contains(prefix + StatusSegment + digits, "status")
  {
    var url := prefix + StatusSegment + digits;
    assert url[|prefix| + 1..|prefix| + 7] == "status";
    assert OccursAt(url, "status", |prefix| + 1);
  }

  /** A string that mentions a word starting with a non-digit is not a digit
      string. */
  lemma MentionIsNotNumeric(s: string, word: string)
    requires word != [] && !IsDigit(word[0]) && Contains(s, word)
    ensures !IsNumeric(s)
  {
    var i := Find(s, word);
    assert s[i] == s[i..i + |word|][0] == word[0];
  }

  lemma NoSeparatorInDigits(digits: string)
    requires IsNumeric(digits)
    ensures Find(digits, StatusSegment) < 0
  {
    forall i | 0 <= i <= |digits| - |StatusSegment|
      ensures !OccursAt(digits, StatusSegment, i)
    {
      assert IsDigit(digits[i]);
    }
  }
}

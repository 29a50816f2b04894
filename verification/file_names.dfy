/** How a fetched capture is named on disk, and how the parse phase reads
    the identifier and the parser back out of that name. */
module FileNames {
  import opened Options
  import opened Text

  /** The two parsers, keyed by file extension. */
  datatype Kind = Html | Json {
    function Name(): string {
      match this
      case Html => "html"
      case Json => "json"
    }
  }

  /** `mime[mime.find("/") + 1:]`: the subtype, or the whole mime type when
      it has no `/`. */
  function Subtype(mime: string): string {
    AfterFirst(mime, '/')
  }

  /** `str(id) + "." + ftype` */
  function FileName(id: nat, mime: string): string {
    Decimal(id) + "." + Subtype(mime)
  }

  /** The text after the first `.` of a stored name is the subtype written. */
  lemma FileNameExtension(id: nat, mime: string)
    ensures AfterFirst(FileName(id, mime), '.') == Subtype(mime)
  {
    DecimalHasNoDot(id);
    AfterFirstPast(Decimal(id), '.', Subtype(mime));
  }

  /** The extension selects the parser; any extension other than `json` or
      `html` falls back to the HTML parser. */
  function KindOf(ext: string): (k: Kind)
    ensures ext == k.Name() || (k == Html && ext != "json")
  {
    if ext == "json" then Json else Html
  }

  /** The parse side: the extension is the text after the first `.`, the
      identifier is `int(name.replace("." + kind, ""))`; `None` is a name
      `int` refuses, which the parse phase counts as an error. */
  function Decode(name: string): (r: Option<(int, Kind)>)
    ensures r.Some? ==> (r.value.1 == Json <==> AfterFirst(name, '.') == "json")
  {
    var kind := KindOf(AfterFirst(name, '.'));
    match PyInt(RemoveAll(name, "." + kind.Name()))
    case Some(id) => Some((id, kind))
    case None => None
  }

  /** Deleting a pattern that starts with a character the head never holds
      leaves the head alone. */
  lemma {:induction false} RemoveAllAfterHead(head: string, tail: string, pat: string)
    requires |pat| > 0 && pat[0] !in head
    ensures RemoveAll(head + tail, pat) == head + RemoveAll(tail, pat)
    decreases |head|
  {
    if head != [] {
      var s := head + tail;
      assert s[0] == head[0] != pat[0];
      assert s[1..] == head[1..] + tail;
      RemoveAllAfterHead(head[1..], tail, pat);
      if |s| >= |pat| {
        assert s[..|pat|][0] == head[0];
      }
    } else {
      assert head + tail == tail;
    }
  }

  lemma DecimalHasNoDot(id: nat)
    ensures '.' !in Decimal(id)
  {
    var d := Decimal(id);
    forall i | 0 <= i < |d| ensures d[i] != '.' { assert IsDigit(d[i]); }
  }

  /** What `int` is handed: the file name with every `.` + kind removed. */
  lemma Leftover(id: nat, mime: string, kind: Kind)
    ensures RemoveAll(FileName(id, mime), "." + kind.Name())
         == Decimal(id) + RemoveAll("." + Subtype(mime), "." + kind.Name())
  {
    DecimalHasNoDot(id);
    assert FileName(id, mime) == Decimal(id) + ("." + Subtype(mime));
    RemoveAllAfterHead(Decimal(id), "." + Subtype(mime), "." + kind.Name());
  }

  /** Decoding a file name: the parser from the extension, the identifier
      from what `int` makes of the leftover. */
  lemma DecodeFileName(id: nat, mime: string)
    ensures var kind := KindOf(Subtype(mime));
      Decode(FileName(id, mime))
        == match PyInt(Decimal(id) + RemoveAll("." + Subtype(mime), "." + kind.Name()))
           case Some(n) => Some((n, kind))
           case None => None
  {
    FileNameExtension(id, mime);
    Leftover(id, mime, KindOf(Subtype(mime)));
  }

  /** Round trip: a capture stored with mime subtype `html` or `json` is
      read back with its own identifier and the matching parser. */
  lemma RoundTrip(id: nat, mime: string, kind: Kind)
    requires Subtype(mime) == kind.Name()
    ensures Decode(FileName(id, mime)) == Some((id, kind))
  {
    var ext := Subtype(mime);
    assert KindOf(ext) == kind;
    var pat := "." + kind.Name();
    assert RemoveAll(pat, pat) == [];
    assert Decimal(id) + RemoveAll("." + ext, pat) == Decimal(id);
    PyIntOfDecimal(id);
    DecodeWhen(id, mime, ext, kind, Decimal(id), id);
  }

  /** A leftover that opens with `.` and does not open with the pattern
      keeps its `.`. */
  lemma DotSurvives(rest: string, pat: string)
    requires |pat| > 0 && rest != [] && rest[0] == '.' && !StartsWith(rest, pat)
    ensures '.' in RemoveAll(rest, pat)
  {
    if |rest| >= |pat| {
      assert RemoveAll(rest, pat) == [rest[0]] + RemoveAll(rest[1..], pat);
    }
  }

  lemma LeftoverKeepsDot(d: string, ext: string)
    requires !StartsWith(ext, "html")
    ensures '.' in d + RemoveAll("." + ext, ".html")
  {
    var rest := "." + ext;
    assert !StartsWith(rest, ".html") by {
      if |rest| >= 5 {
        assert rest[1..5] == ext[..4];
      }
    }
    DotSurvives(rest, ".html");
    var r := RemoveAll(rest, ".html");
    var j :| 0 <= j < |r| && r[j] == '.';
    assert (d + r)[|d| + j] == '.';
  }

  /** Any other subtype that does not itself begin with `html` cannot be
      read back: the leftover text still holds a `.`, which `int` refuses. */
  lemma OtherSubtypeFails(id: nat, mime: string)
    requires Subtype(mime) != "html" && Subtype(mime) != "json"
    requires !StartsWith(Subtype(mime), "html")
    ensures Decode(FileName(id, mime)) == None
  {
    var ext := Subtype(mime);
    assert KindOf(ext) == Html;
    assert "." + Html.Name() == ".html";
    DecodeFileName(id, mime);
    var leftover := Decimal(id) + RemoveAll("." + ext, ".html");
    LeftoverKeepsDot(Decimal(id), ext);
    PyIntRejectsDot(leftover);
  }

  /** But a subtype that extends `html` with a digit is misread: the digit
      runs on into the identifier. A capture of post 123 stored as
      `123.html5` is parsed as post 1235. */
  lemma HtmlDigitSubtypeMisread(id: nat, mime: string, c: char)
    requires IsDigit(c) && Subtype(mime) == "html" + [c]
    ensures Decode(FileName(id, mime)) == Some((10 * id + (c as int - '0' as int), Html))
  {
    var ext := Subtype(mime);
    HtmlPrefixedKind(ext, c);
    HtmlDigitLeftover(ext, c);
    NumericPlusDigit(id, c);
    DecodeWhen(id, mime, ext, Html, Decimal(id) + [c], 10 * id + (c as int - '0' as int));
  }

  /** A name whose extension ends in one of the separators U+001C..U+001F
      is not read, although `strip()` would count that character as
      whitespace: `int` does not skip it, so `123.html\x1f` raises and the
      parse phase counts an error. */
  lemma SeparatorSuffixFails(id: nat, c: char)
    requires '\U{1c}' <= c <= '\U{1f}'
    ensures Decode(Decimal(id) + ".html" + [c]) == None
  {
    DecimalHasNoDot(id);
    SeparatorKind(Decimal(id), c);
    SeparatorLeftover(Decimal(id), c);
    assert "." + Html.Name() == ".html";
    PyIntRejectsSeparator(Decimal(id) + [c], |Decimal(id)|);
  }

  lemma SeparatorKind(d: string, c: char)
    requires '.' !in d && '\U{1c}' <= c <= '\U{1f}'
    ensures KindOf(AfterFirst(d + ".html" + [c], '.')) == Html
  {
    var ext := "html" + [c];
    assert d + ".html" + [c] == d + ['.'] + ext;
    AfterFirstPast(d, '.', ext);
    HtmlPrefixedKind(ext, c);
  }

  lemma SeparatorLeftover(d: string, c: char)
    requires '.' !in d && '\U{1c}' <= c <= '\U{1f}'
    ensures RemoveAll(d + ".html" + [c], ".html") == d + [c]
  {
    var ext := "html" + [c];
    assert d + ".html" + [c] == d + ("." + ext);
    RemoveAllAfterHead(d, "." + ext, ".html");
    HtmlDigitLeftover(ext, c);
  }

  lemma HtmlPrefixedKind(ext: string, c: char)
    requires ext == "html" + [c]
    ensures KindOf(ext) == Html
  {
    assert ext[0] == 'h';
  }

  lemma DecodeWhen(id: nat, mime: string, ext: string, kind: Kind, leftover: string, n: int)
    requires ext == Subtype(mime) && KindOf(ext) == kind
    requires leftover == Decimal(id) + RemoveAll("." + ext, "." + kind.Name())
    requires PyInt(leftover) == Some(n)
    ensures Decode(FileName(id, mime)) == Some((n, kind))
  {
    DecodeFileName(id, mime);
  }

  lemma HtmlDigitLeftover(ext: string, c: char)
    requires ext == "html" + [c]
    ensures RemoveAll("." + ext, "." + Html.Name()) == [c]
  {
    assert "." + Html.Name() == ".html";
    var rest := "." + ext;
    assert rest[..5] == ".html";
    assert rest[5..] == [c];
  }

  lemma NumericPlusDigit(id: nat, c: char)
    requires IsDigit(c)
    ensures PyInt(Decimal(id) + [c]) == Some(10 * id + (c as int - '0' as int))
  {
    var d := Decimal(id) + [c];
    assert IsNumeric(d);
    assert d[..|d| - 1] == Decimal(id);
    DecimalValue(id);
    PyIntOfNumeric(d);
  }
}

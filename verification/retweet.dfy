/** `get_retweet`: the handle a retweet's text credits, by the convention
    that a retweet reads `RT @handle: ...`. */
module Retweet {
  import opened Text

  const Marker: string := "RT @"

  /** A run of whitespace before a non-whitespace character does not change
      the words of a string. */
  lemma WordsAfterSpace(s: string)
    requires |s| >= 2 && IsSpace(s[0]) && !IsSpace(s[1])
    ensures Words(s) == Words(s[1..])
  {
    assert LeadingSpace(s) == 1 + LeadingSpace(s[1..]) == 1;
    assert s[1..][0..] == s[1..];
  }

  /** The first four characters of a marked text. */
  lemma MarkerLetters(text: string)
    requires StartsWith(text, Marker)
    ensures |text| >= 4 && text[0] == 'R' && text[1] == 'T' && text[2] == ' ' && text[3] == '@'
  {
    assert text[..4] == Marker;
    assert text[0] == text[..4][0] && text[1] == text[..4][1];
    assert text[2] == text[..4][2] && text[3] == text[..4][3];
  }

  /** When the first word of `s` is followed by exactly one whitespace
      character, the remaining words are those of the text after it. */
  lemma WordsPastSpace(s: string, n: nat)
    requires s != [] && !IsSpace(s[0]) && n == TokenLen(s)
    requires n + 1 < |s| && !IsSpace(s[n + 1])
    ensures Words(s) == [s[..n]] + Words(s[n + 1..])
  {
    var u := s[n..];
    var v := s[n + 1..];
    WordsOfToken(s);
    assert Words(s) == [s[..n]] + Words(u);
    WordsAfterSpace(u);
    DropDrop(s, n, 1);
    assert u[1..] == v;
    assert Words(u) == Words(v);
  }

  /** In a text that starts with the marker, the second word is the run of
      non-whitespace that starts at the `@`. */
  lemma SecondWord(text: string)
    requires StartsWith(text, Marker)
    ensures |Words(text)| >= 2
    ensures Words(text)[1] == text[3..3 + TokenLen(text[3..])]
    ensures TokenLen(text[3..]) >= 1
  {
    MarkerLetters(text);
    assert text == text[..2] + text[2..];
    TokenLenOfWord(text[..2], text[2..]);
    WordsPastSpace(text, 2);
    var t := text[3..];
    WordsOfToken(t);
    var n := TokenLen(t);
    SliceOfSuffix(text, 3, n);
  }

  /** `get_retweet(text)`: when the text starts with `RT @`, the second
      whitespace-separated word without its `@`, provided that it ends in
      `:`, and then without the colon; otherwise the empty string. */
  function GetRetweet(text: string): (handle: string)
    ensures handle != "" ==> StartsWith(text, Marker)
  {
    if StartsWith(text, Marker) then
      SecondWord(text);
      HandleOf(Words(text)[1])
    else ""
  }

  /** The credited handle of a word that starts with `@`: the rest of the
      word when it ends in `:`, less the colon; otherwise nothing. */
  function HandleOf(word: string): string
    requires |word| >= 1
  {
    var handle := word[1..];
    if EndsWith(handle, ":") then handle[..|handle| - 1] else ""
  }

  /** `HandleOf` applied to the slice `text[3..e]`, by position. */
  lemma HandleOfSlice(text: string, e: nat)
    requires 4 <= e <= |text|
    ensures HandleOf(text[3..e]) == if e >= 5 && text[e - 1] == ':' then text[4..e - 1] else ""
  {
    var word := text[3..e];
    SliceOfSlice(text, 3, e, 1, e - 3);
    var handle := text[4..e];
    assert word[1..] == handle;
    EndsWithChar(handle, ':');
    if e >= 5 && text[e - 1] == ':' {
      assert handle[|handle| - 1] == text[e - 1];
      TakeOfSlice(text, 4, e, e - 5);
    }
  }

  /** The same rule stated by position: `e` is where the word that starts at
      the `@` ends; the handle is what lies between the `@` and a final
      colon of that word. */
  lemma GetRetweetByPosition(text: string)
    requires StartsWith(text, Marker)
    ensures var e := 3 + TokenLen(text[3..]);
      GetRetweet(text) == if e >= 5 && text[e - 1] == ':' then text[4..e - 1] else ""
  {
    SecondWord(text);
    var e := 3 + TokenLen(text[3..]);
    assert GetRetweet(text) == HandleOf(text[3..e]);
    HandleOfSlice(text, e);
  }

  /** Every non-empty result is spelled out in the text right after `RT @`,
      is followed by `:` and then by whitespace or the end of the text, and
      holds no whitespace itself. */
  lemma GetRetweetInText(text: string)
    ensures var h := GetRetweet(text);
      h != "" ==>
        && StartsWith(text, Marker)
        && 5 + |h| <= |text|
        && text[4..4 + |h|] == h
        && text[4 + |h|] == ':'
        && (5 + |h| == |text| || IsSpace(text[5 + |h|]))
        && NoSpace(h)
  {
    var h := GetRetweet(text);
    if h != "" {
      GetRetweetByPosition(text);
      var n := TokenLen(text[3..]);
      assert NoSpace(text[3..][..n]);
      forall i | 0 <= i < |h| ensures !IsSpace(h[i]) {
        assert h[i] == text[3..][..n][i + 1];
      }
      if 3 + n < |text| {
        assert IsSpace(text[3..][n]);
      }
    }
  }

  /** Conversely, a text of the form `RT @h:` followed by whitespace or
      nothing credits `h`, whatever else `h` holds besides whitespace. */
  lemma GetRetweetOfMarked(h: string, rest: string)
    requires |h| > 0 && NoSpace(h)
    requires rest == [] || IsSpace(rest[0])
    ensures GetRetweet(Marker + h + ":" + rest) == h
  {
    var text := Marker + h + ":" + rest;
    MarkedShape(h, rest);
    TokenLenOfWord("@" + h + ":", rest);
    GetRetweetByPosition(text);
  }

  /** How a text `RT @h:rest` is laid out. */
  lemma MarkedShape(h: string, rest: string)
    requires NoSpace(h)
    ensures var text := Marker + h + ":" + rest;
      && StartsWith(text, Marker)
      && text[3..] == ("@" + h + ":") + rest
      && NoSpace("@" + h + ":")
      && text[3 + |h| + 1] == ':'
      && text[4..3 + |h| + 1] == h
  {
    var text := Marker + h + ":" + rest;
    assert text[..4] == Marker;
    var w := "@" + h + ":";
    forall i | 0 <= i < |w| ensures !IsSpace(w[i]) {
      if 0 < i <= |h| { assert w[i] == h[i - 1]; }
    }
  }

  /** The boundary case with the colon: the handle is credited. */
  lemma RetweetWithColon()
    ensures GetRetweet("RT @bob: hi") == "bob"
  {
    assert "RT @bob: hi" == Marker + "bob" + ":" + " hi";
    GetRetweetOfMarked("bob", " hi");
  }

  /** The boundary case without the colon: nothing is credited. */
  lemma RetweetWithoutColon()
    ensures GetRetweet("RT @bob hi") == ""
  {
    var text := "RT @bob hi";
    assert text[3..] == "@bob" + " hi";
    TokenLenOfWord("@bob", " hi");
    GetRetweetByPosition(text);
  }

  /** The marker must open the text. */
  lemma RetweetMarkerNotFirst()
    ensures GetRetweet("hello RT @bob: hi") == ""
  {
    var text := "hello RT @bob: hi";
    assert text[..4] != Marker by {
      assert text[..4][0] == 'h';
    }
  }
}

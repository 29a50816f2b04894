/** The handful of Python `str` operations the scraper relies on, each with
    the exact meaning CPython gives it on the inputs that occur here. */
module Text {
  import opened Options

  /** A character `str.split()` and `str.strip()` treat as whitespace
      (CPython's `Py_UNICODE_ISSPACE`): U+0009..U+000D, U+001C..U+001F,
      space, U+0085, U+00A0, U+1680, U+2000..U+200A, U+2028, U+2029,
      U+202F, U+205F and U+3000. */
  predicate IsSpace(c: char) {
    || c == ' '
    || '\U{9}' <= c <= '\U{d}'
    || '\U{1c}' <= c <= '\U{1f}'
    || c == '\U{85}' || c == '\U{a0}' || c == '\U{1680}'
    || '\U{2000}' <= c <= '\U{200a}'
    || c == '\U{2028}' || c == '\U{2029}' || c == '\U{202f}' || c == '\U{205f}'
    || c == '\U{3000}'
  }

  predicate IsDigit(c: char) {
    '0' <= c <= '9'
  }

  predicate AllSpace(s: string) {
    forall i :: 0 <= i < |s| ==> IsSpace(s[i])
  }

  predicate NoSpace(s: string) {
    forall i :: 0 <= i < |s| ==> !IsSpace(s[i])
  }

  /** `s.startswith(p)` */
  predicate StartsWith(s: string, p: string) {
    |p| <= |s| && s[..|p|] == p
  }

  /** `s.endswith(p)` */
  predicate EndsWith(s: string, p: string) {
    |p| <= |s| && s[|s| - |p|..] == p
  }

  /** `p` occurs in `s` starting at index `i`. */
  predicate OccursAt(s: string, p: string, i: int) {
    0 <= i <= |s| - |p| && s[i..i + |p|] == p
  }

  /** An occurrence in a suffix of `s` is an occurrence in `s`, shifted. */
  lemma OccursInSuffix(s: string, p: string, k: nat, j: int)
    requires k <= |s|
    ensures OccursAt(s[k..], p, j) <==> j >= 0 && OccursAt(s, p, k + j)
  {
    if 0 <= j <= |s| - k - |p| {
      assert s[k..][j..j + |p|] == s[k + j..k + j + |p|];
    }
  }

  lemma EndsWithChar(s: string, c: char)
    ensures EndsWith(s, [c]) <==> |s| > 0 && s[|s| - 1] == c
  {
    if |s| > 0 {
      assert s[|s| - 1..] == [s[|s| - 1]];
    }
  }

  /** Slices of slices are slices. */
  lemma SliceOfSuffix(s: string, k: nat, n: nat)
    requires k + n <= |s|
    ensures s[k..][..n] == s[k..k + n]
  {
  }

  lemma SliceOfSlice(s: string, i: nat, j: nat, k: nat, l: nat)
    requires i <= j <= |s| && k <= l <= j - i
    ensures s[i..j][k..l] == s[i + k..i + l]
  {
    assert forall x :: 0 <= x < l - k ==> s[i..j][k..l][x] == s[i + k + x];
  }

  lemma SplitThree(s: string, i: nat, j: nat)
    requires i <= j <= |s|
    ensures s == s[..i] + s[i..j] + s[j..]
  {
  }

  lemma TakeOfSlice(s: string, i: nat, j: nat, k: nat)
    requires i <= j <= |s| && k <= j - i
    ensures s[i..j][..k] == s[i..i + k]
  {
    assert forall x :: 0 <= x < k ==> s[i..j][..k][x] == s[i + x];
  }

  lemma DropDrop(s: string, i: nat, j: nat)
    requires i + j <= |s|
    ensures s[i..][j..] == s[i + j..]
  {
  }

  /** `s.find(p)`: the first index at which `p` occurs in `s`, or -1. */
  function Find(s: string, p: string): (r: int)
    ensures r == -1 || OccursAt(s, p, r)
    ensures forall i :: OccursAt(s, p, i) ==> 0 <= r <= i
    decreases |s|
  {
    if |s| < |p| then -1
    else if s[..|p|] == p then
      assert OccursAt(s, p, 0);
      0
    else
      assert !OccursAt(s, p, 0);
      var k := Find(s[1..], p);
      assert forall i :: OccursAt(s, p, i) ==> OccursAt(s[1..], p, i - 1) by {
        forall i | OccursAt(s, p, i) ensures OccursAt(s[1..], p, i - 1) {
          OccursInSuffix(s, p, 1, i - 1);
        }
      }
      OccursInSuffix(s, p, 1, k);
      if k < 0 then -1 else k + 1
  }

  /** `p` occurs nowhere in `s`. */
  predicate Absent(s: string, p: string) {
    forall i :: 0 <= i <= |s| - |p| ==> !OccursAt(s, p, i)
  }

  lemma AbsentNotFound(s: string, p: string)
    ensures Absent(s, p) <==> Find(s, p) < 0
  {
  }

  /** `p in s` for strings: substring containment. */
  predicate Contains(s: string, p: string) {
    Find(s, p) >= 0
  }

  lemma OccursChar(s: string, c: char, j: int)
    ensures OccursAt(s, [c], j) <==> 0 <= j < |s| && s[j] == c
  {
    if 0 <= j < |s| {
      assert s[j..j + 1] == [s[j]];
    }
  }

  /** `s[s.find(c) + 1:]`: the text after the first `c`, or all of `s` when
      `c` does not occur (find's -1 turns the slice into `s[0:]`). */
  function AfterFirst(s: string, c: char): (r: string)
    ensures |r| <= |s| && r == s[|s| - |r|..]
    ensures c in s ==> |r| < |s| && s[|s| - |r| - 1] == c && c !in s[..|s| - |r| - 1]
    ensures c !in s ==> r == s
  {
    var i := Find(s, [c]);
    assert c in s ==> i >= 0 by {
      if c in s {
        var j :| 0 <= j < |s| && s[j] == c;
        OccursChar(s, c, j);
      }
    }
    assert i >= 0 ==> s[i] == c && c !in s[..i] by {
      if i >= 0 {
        OccursChar(s, c, i);
        if c in s[..i] {
          var j :| 0 <= j < i && s[..i][j] == c;
          OccursChar(s, c, j);
        }
      }
    }
    s[i + 1..]
  }

  /** The text after the first `c` of `d + [c] + x`, when `d` holds no `c`,
      is `x`. */
  lemma AfterFirstPast(d: string, c: char, x: string)
    requires c !in d
    ensures AfterFirst(d + [c] + x, c) == x
  {
    var s := d + [c] + x;
    assert s[|d|] == c;
    var r := AfterFirst(s, c);
    assert r == s[|d| + 1..];
  }

  /** Where the last piece of `s.split(sep)` begins: just after the last
      separator found by the left-to-right, non-overlapping scan. */
  function LastPieceStart(s: string, sep: string): (k: nat)
    requires |sep| > 0
    ensures k <= |s|
    decreases |s|
  {
    var i := Find(s, sep);
    if i < 0 then 0 else i + |sep| + LastPieceStart(s[i + |sep|..], sep)
  }

  /** The last piece holds no separator, and starts either at 0 or right
      after a separator occurrence. */
  predicate IsLastPieceStart(s: string, sep: string, k: int) {
    0 <= k <= |s| && Absent(s[k..], sep) && (k == 0 || (k >= |sep| && OccursAt(s, sep, k - |sep|)))
  }

  lemma {:induction false} LastPieceSpec(s: string, sep: string)
    requires |sep| > 0
    ensures IsLastPieceStart(s, sep, LastPieceStart(s, sep))
    decreases |s|
  {
    var i := Find(s, sep);
    if i < 0 {
      LastPieceWhole(s, sep);
    } else {
      var rest := s[i + |sep|..];
      LastPieceSpec(rest, sep);
      LastPieceAfter(s, sep, i, LastPieceStart(rest, sep));
    }
  }

  lemma LastPieceWhole(s: string, sep: string)
    requires |sep| > 0 && Find(s, sep) < 0
    ensures IsLastPieceStart(s, sep, LastPieceStart(s, sep))
  {
    AbsentNotFound(s, sep);
    assert s[0..] == s;
  }

  lemma LastPieceAfter(s: string, sep: string, i: int, j: nat)
    requires |sep| > 0 && i == Find(s, sep) >= 0
    requires j == LastPieceStart(s[i + |sep|..], sep)
    requires IsLastPieceStart(s[i + |sep|..], sep, j)
    ensures IsLastPieceStart(s, sep, LastPieceStart(s, sep))
  {
    LastPieceUnfold(s, sep, i);
    LastPieceStep(s, sep, i, j);
  }

  /** A separator found moves the start past it and into the rest. */
  lemma LastPieceUnfold(s: string, sep: string, i: int)
    requires |sep| > 0 && i == Find(s, sep) >= 0
    ensures LastPieceStart(s, sep) == i + |sep| + LastPieceStart(s[i + |sep|..], sep)
  {
  }

  lemma LastPieceStep(s: string, sep: string, i: nat, j: nat)
    requires OccursAt(s, sep, i) && IsLastPieceStart(s[i + |sep|..], sep, j)
    ensures IsLastPieceStart(s, sep, i + |sep| + j)
  {
    assert s[i + |sep| + j..] == s[i + |sep|..][j..];
    if j > 0 {
      OccursInSuffix(s, sep, i + |sep|, j - |sep|);
    }
  }

  /** `s.split(sep)[-1]`: the piece after the last separator, or all of `s`
      when it holds none. */
  function SplitLast(s: string, sep: string): (r: string)
    requires |sep| > 0
  {
    s[LastPieceStart(s, sep)..]
  }

  /** `s.split(sep)`: the pieces between the separators found by a
      left-to-right, non-overlapping scan. */
  function Split(s: string, sep: string): (pieces: seq<string>)
    requires |sep| > 0
    ensures |pieces| > 0
    decreases |s|
  {
    var i := Find(s, sep);
    if i < 0 then [s] else [s[..i]] + Split(s[i + |sep|..], sep)
  }

  /** `sep.join(pieces)` */
  function JoinWith(pieces: seq<string>, sep: string): string
    requires |pieces| > 0
  {
    if |pieces| == 1 then pieces[0] else pieces[0] + sep + JoinWith(pieces[1..], sep)
  }

  /** Joining the pieces with the separator gives the string back. */
  lemma {:induction false} SplitRejoins(s: string, sep: string)
    requires |sep| > 0
    ensures JoinWith(Split(s, sep), sep) == s
    decreases |s|
  {
    var i := Find(s, sep);
    if i >= 0 {
      var rest := s[i + |sep|..];
      var tail := Split(rest, sep);
      SplitHeadStep(s, sep, i);
      SplitRejoins(rest, sep);
      assert JoinWith([s[..i]] + tail, sep) == s[..i] + sep + JoinWith(tail, sep);
      assert s[i..i + |sep|] == sep;
      SplitThree(s, i, i + |sep|);
    }
  }

  /** A separator found splits off the first piece. */
  lemma SplitHeadStep(s: string, sep: string, i: int)
    requires |sep| > 0 && i == Find(s, sep) >= 0
    ensures Split(s, sep) == [s[..i]] + Split(s[i + |sep|..], sep)
  {
  }

  /** ... and leaves the last piece where it was. */
  lemma SplitLastStep(s: string, sep: string, i: int)
    requires |sep| > 0 && i == Find(s, sep) >= 0
    ensures SplitLast(s, sep) == SplitLast(s[i + |sep|..], sep)
  {
    LastPieceUnfold(s, sep, i);
    DropDrop(s, i + |sep|, LastPieceStart(s[i + |sep|..], sep));
  }

  /** `SplitLast` is the last piece of `split`. */
  lemma {:induction false} SplitLastIsLastPiece(s: string, sep: string)
    requires |sep| > 0
    ensures var pieces := Split(s, sep);
      SplitLast(s, sep) == pieces[|pieces| - 1]
    decreases |s|
  {
    var i := Find(s, sep);
    if i < 0 {
      assert s[0..] == s;
    } else {
      var rest := s[i + |sep|..];
      SplitHeadStep(s, sep, i);
      SplitLastStep(s, sep, i);
      SplitLastIsLastPiece(rest, sep);
      var tail := Split(rest, sep);
      assert ([s[..i]] + tail)[|tail|] == tail[|tail| - 1];
    }
  }

  /** `s.replace(pat, "")`: every occurrence found by a left-to-right,
      non-overlapping scan is deleted. */
  function RemoveAll(s: string, pat: string): (r: string)
    requires |pat| > 0
    ensures |r| <= |s|
    ensures forall c :: c in r ==> c in s
    decreases |s|
  {
    if |s| < |pat| then s
    else if s[..|pat|] == pat then RemoveAll(s[|pat|..], pat)
    else [s[0]] + RemoveAll(s[1..], pat)
  }

  /** The characters of `s` other than `c`, in order. */
  function Filter(s: string, c: char): string {
    if |s| == 0 then [] else (if s[0] == c then [] else [s[0]]) + Filter(s[1..], c)
  }

  /** The characters other than `c` keep their number of occurrences, and
      `c` has none. */
  lemma {:induction false} FilterCounts(s: string, c: char)
    ensures multiset(Filter(s, c)) == multiset(s)[c := 0]
    decreases |s|
  {
    if |s| > 0 {
      FilterCounts(s[1..], c);
      assert s == [s[0]] + s[1..];
    }
  }

  /** A pattern that does not occur is not removed: the string is unchanged. */
  lemma {:induction false} RemoveAllAbsent(s: string, pat: string)
    requires |pat| > 0 && Absent(s, pat)
    ensures RemoveAll(s, pat) == s
    decreases |s|
  {
    if |s| >= |pat| {
      assert !OccursAt(s, pat, 0);
      assert Absent(s[1..], pat) by {
        forall i | 0 <= i <= |s[1..]| - |pat| ensures !OccursAt(s[1..], pat, i) {
          OccursInSuffix(s, pat, 1, i);
        }
      }
      RemoveAllAbsent(s[1..], pat);
      assert s == [s[0]] + s[1..];
    }
  }

  /** Number of whitespace characters that start `s`. */
  function LeadingSpace(s: string): (n: nat)
    ensures n <= |s| && AllSpace(s[..n])
    ensures n < |s| ==> !IsSpace(s[n])
  {
    if |s| > 0 && IsSpace(s[0]) then 1 + LeadingSpace(s[1..]) else 0
  }

  /** Number of whitespace characters that end `s`. */
  function TrailingSpace(s: string): (n: nat)
    ensures n <= |s| && AllSpace(s[|s| - n..])
    ensures n < |s| ==> !IsSpace(s[|s| - n - 1])
  {
    if |s| > 0 && IsSpace(s[|s| - 1]) then
      var init := s[..|s| - 1];
      var m := TrailingSpace(init);
      assert s[|s| - (m + 1)..] == init[|init| - m..] + [s[|s| - 1]];
      AllSpaceJoin(init[|init| - m..], [s[|s| - 1]]);
      1 + m
    else 0
  }

  /** `s.strip()` */
  function Strip(s: string): (r: string)
    ensures |r| == 0 || (!IsSpace(r[0]) && !IsSpace(r[|r| - 1]))
  {
    var t := s[LeadingSpace(s)..];
    t[..|t| - TrailingSpace(t)]
  }

  /** `strip()` removes whitespace only: `s` is the result framed by
      whitespace, so it is empty exactly when `s` is all whitespace and it
      keeps every other character. */
  lemma StripFrame(s: string) returns (a: nat, b: nat)
    ensures a <= b <= |s| && Strip(s) == s[a..b]
    ensures AllSpace(s[..a]) && AllSpace(s[b..])
  {
    a := LeadingSpace(s);
    b := a + |s[a..]| - TrailingSpace(s[a..]);
    StripIsSlice(s, a, b);
    TrailIsSpace(s, a, b);
  }

  lemma StripIsSlice(s: string, a: nat, b: int)
    requires a == LeadingSpace(s) && b == a + |s[a..]| - TrailingSpace(s[a..])
    ensures a <= b <= |s| && Strip(s) == s[a..b]
  {
    SliceOfSuffix(s, a, b - a);
  }

  lemma TrailIsSpace(s: string, a: nat, b: int)
    requires a == LeadingSpace(s) && b == a + |s[a..]| - TrailingSpace(s[a..])
    ensures a <= b <= |s| && AllSpace(s[b..])
  {
    DropDrop(s, a, b - a);
  }

  lemma AllSpaceJoin(x: string, y: string)
    requires AllSpace(x) && AllSpace(y)
    ensures AllSpace(x + y)
  {
    forall i | 0 <= i < |x + y| ensures IsSpace((x + y)[i]) {
      if i >= |x| { assert (x + y)[i] == y[i - |x|]; }
    }
  }

  lemma StripEmpty(s: string)
    ensures Strip(s) == [] <==> AllSpace(s)
  {
    var a, b := StripFrame(s);
    if Strip(s) == [] {
      assert s == s[..a] + s[b..];
      AllSpaceJoin(s[..a], s[b..]);
    } else {
      assert Strip(s)[0] == s[a];
    }
  }

  lemma StripKeeps(s: string, i: int)
    requires 0 <= i < |s| && !IsSpace(s[i])
    ensures s[i] in Strip(s)
  {
    var a, b := StripFrame(s);
    assert s[i] == Strip(s)[i - a];
  }

  /** Length of the run of non-whitespace characters that starts `s`. */
  function TokenLen(s: string): (n: nat)
    ensures n <= |s| && NoSpace(s[..n])
    ensures n < |s| ==> IsSpace(s[n])
  {
    if |s| == 0 || IsSpace(s[0]) then 0 else 1 + TokenLen(s[1..])
  }

  /** The leading run of a word followed by whitespace or nothing is the word. */
  lemma {:induction false} TokenLenOfWord(w: string, rest: string)
    requires NoSpace(w)
    requires rest == [] || IsSpace(rest[0])
    ensures TokenLen(w + rest) == |w|
    decreases |w|
  {
    if w != [] {
      assert (w + rest)[1..] == w[1..] + rest;
      TokenLenOfWord(w[1..], rest);
    }
  }

  /** Removing a one-character pattern that never occurs changes nothing. */
  lemma {:induction false} RemoveAbsentChar(s: string, c: char)
    requires c !in s
    ensures RemoveAll(s, [c]) == s
    decreases |s|
  {
    if |s| >= 1 {
      RemoveAbsentChar(s[1..], c);
      assert s == [s[0]] + s[1..];
    }
  }

  /** `s.split()`: the maximal runs of non-whitespace characters, in order. */
  function Words(s: string): seq<string>
    decreases |s|
  {
    var t := s[LeadingSpace(s)..];
    if |t| == 0 then []
    else
      var n := TokenLen(t);
      [t[..n]] + Words(t[n..])
  }

  /** Every word is non-empty and free of whitespace. */
  lemma {:induction false} WordsAreWords(s: string)
    ensures forall k :: 0 <= k < |Words(s)| ==> |Words(s)[k]| > 0 && NoSpace(Words(s)[k])
    decreases |s|
  {
    var a := LeadingSpace(s);
    var t := s[a..];
    if t != [] {
      var n := TokenLen(t);
      var rest := t[n..];
      var ws := Words(rest);
      assert Words(s) == [t[..n]] + ws;
      WordsAreWords(rest);
      assert t[0] == s[a];
      assert |t[..n]| > 0 && NoSpace(t[..n]);
    }
  }

  /** When `s` starts with a non-whitespace character, its first word is the
      run that starts it. */
  lemma WordsOfToken(s: string)
    requires s != [] && !IsSpace(s[0])
    ensures Words(s) == [s[..TokenLen(s)]] + Words(s[TokenLen(s)..])
  {
    assert LeadingSpace(s) == 0;
    assert s[0..] == s;
  }

  predicate IsNumeric(s: string) {
    |s| > 0 && forall i :: 0 <= i < |s| ==> IsDigit(s[i])
  }

  /** The value of a string of ASCII digits (the empty string reads as 0). */
  function DigitsValue(s: string): nat
    requires forall i :: 0 <= i < |s| ==> IsDigit(s[i])
  {
    if |s| == 0 then 0
    else
      assert IsDigit(s[|s| - 1]);
      DigitsValue(s[..|s| - 1]) * 10 + (s[|s| - 1] as int - '0' as int)
  }

  /** `str(n)` for a non-negative integer. */
  function Decimal(n: nat): (s: string)
    ensures IsNumeric(s)
  {
    var d := ['0' + (n % 10) as char];
    if n < 10 then d else Decimal(n / 10) + d
  }

  lemma {:induction false} DecimalValue(n: nat)
    ensures DigitsValue(Decimal(n)) == n
  {
    if n >= 10 {
      DecimalValue(n / 10);
      var s := Decimal(n);
      assert s[..|s| - 1] == Decimal(n / 10);
    }
  }

  /** The body `int()` accepts after its sign: ASCII digits, with single
      underscores allowed between two digits. */
  predicate IsIntBody(b: string) {
    && |b| > 0
    && IsDigit(b[0])
    && forall i :: 0 <= i < |b| ==> IntBodyChar(b, i)
  }

  predicate IntBodyChar(b: string, i: int)
    requires 0 <= i < |b|
  {
    IsDigit(b[i]) || (b[i] == '_' && i + 1 < |b| && IsDigit(b[i + 1]))
  }

  lemma IntBodyDigits(b: string)
    requires IsIntBody(b)
    ensures forall i :: 0 <= i < |RemoveAll(b, "_")| ==> IsDigit(RemoveAll(b, "_")[i])
  {
    forall i | 0 <= i < |RemoveAll(b, "_")| ensures IsDigit(RemoveAll(b, "_")[i]) {
      var c := RemoveAll(b, "_")[i];
      assert c in RemoveAll(b, "_");
      RemoveAllSingle(b, '_');
      var j :| 0 <= j < |b| && b[j] == c;
      assert IntBodyChar(b, j);
    }
  }

  /** Removing a one-character pattern keeps exactly the other characters,
      in order. */
  lemma RemoveAllSingle(s: string, c: char)
    ensures RemoveAll(s, [c]) == Filter(s, c)
    ensures forall x :: x in RemoveAll(s, [c]) <==> x in s && x != c
  {
    RemoveAllFilter(s, c);
    FilterMembers(s, c);
  }

  lemma {:induction false} RemoveAllFilter(s: string, c: char)
    ensures RemoveAll(s, [c]) == Filter(s, c)
    decreases |s|
  {
    if |s| >= 1 {
      RemoveAllFilter(s[1..], c);
      if s[0] == c {
        assert s[..1] == [c];
      } else {
        assert s[..1] != [c];
      }
    }
  }

  /** `Filter` keeps every character but `c`. */
  lemma FilterMembers(s: string, c: char)
    ensures forall x :: x in Filter(s, c) <==> x in s && x != c
  {
    FilterCounts(s, c);
    forall x ensures x in Filter(s, c) <==> x in s && x != c {
      assert x in Filter(s, c) <==> x in multiset(Filter(s, c));
      assert x in s <==> x in multiset(s);
    }
  }

  /** A character `int()` skips around its digits. CPython hands `int` an
      ASCII copy of the text in which every non-ASCII whitespace character
      has become a space, and then skips only `\t`, `\n`, `\v`, `\f`, `\r`
      and space: the separators U+001C..U+001F, whitespace to `strip()`
      and `split()`, are not skipped. */
  predicate IsIntSpace(c: char) {
    IsSpace(c) && !('\U{1c}' <= c <= '\U{1f}')
  }

  predicate AllIntSpace(s: string) {
    forall i :: 0 <= i < |s| ==> IsIntSpace(s[i])
  }

  /** The whitespace `int()` trims before it reads a sign and digits. */
  function IntStrip(s: string): (r: string)
    ensures |r| == 0 || (!IsIntSpace(r[0]) && !IsIntSpace(r[|r| - 1]))
    decreases |s|
  {
    if |s| > 0 && IsIntSpace(s[0]) then IntStrip(s[1..])
    else if |s| > 0 && IsIntSpace(s[|s| - 1]) then IntStrip(s[..|s| - 1])
    else s
  }

  /** The trimming keeps every character that is not `int`'s whitespace. */
  lemma {:induction false} IntStripKeeps(s: string, i: int)
    requires 0 <= i < |s| && !IsIntSpace(s[i])
    ensures s[i] in IntStrip(s)
    decreases |s|
  {
    if IsIntSpace(s[0]) {
      assert s[i] == s[1..][i - 1];
      IntStripKeeps(s[1..], i - 1);
    } else if IsIntSpace(s[|s| - 1]) {
      assert s[i] == s[..|s| - 1][i];
      IntStripKeeps(s[..|s| - 1], i);
    }
  }

  /** ... and removes all of `int`'s whitespace around a text that neither
      starts nor ends with it. */
  lemma {:induction false} IntStripFramed(w: string, d: string, v: string)
    requires AllIntSpace(w) && AllIntSpace(v)
    requires d != [] && !IsIntSpace(d[0]) && !IsIntSpace(d[|d| - 1])
    ensures IntStrip(w + d + v) == d
    decreases |w| + |v|
  {
    var s := w + d + v;
    if |w| > 0 {
      assert s[0] == w[0];
      assert s[1..] == w[1..] + d + v;
      IntStripFramed(w[1..], d, v);
    } else if |v| > 0 {
      assert s == d + v;
      assert s[0] == d[0];
      assert s[|s| - 1] == v[|v| - 1];
      assert s[..|s| - 1] == w + d + v[..|v| - 1];
      IntStripFramed(w, d, v[..|v| - 1]);
    } else {
      assert s == d;
    }
  }

  /** `int(s)` on a string (base 10): surrounding whitespace, an optional
      sign, then an underscore-separated run of ASCII digits; anything else
      raises, modelled as `None`. */
  function PyInt(s: string): (r: Option<int>)
  {
    var t := IntStrip(s);
    var signed := |t| > 0 && (t[0] == '-' || t[0] == '+');
    var body := if signed then t[1..] else t;
    if IsIntBody(body) then
      IntBodyDigits(body);
      var v: int := DigitsValue(RemoveAll(body, "_"));
      Some(if signed && t[0] == '-' then -v else v)
    else None
  }

  lemma IntBodyNoDot(b: string)
    requires IsIntBody(b)
    ensures '.' !in b
  {
    forall j | 0 <= j < |b| ensures b[j] != '.' {
      assert IntBodyChar(b, j);
    }
  }

  /** `int()` refuses any text holding a character that is neither its
      whitespace, an ASCII digit, `_` nor a sign. */
  lemma PyIntRejectsChar(s: string, k: int)
    requires 0 <= k < |s| && !IsIntSpace(s[k]) && !IsDigit(s[k])
    requires s[k] != '_' && s[k] != '+' && s[k] != '-'
    ensures PyInt(s) == None
  {
    var c := s[k];
    var t := IntStrip(s);
    IntStripKeeps(s, k);
    var signed := |t| > 0 && (t[0] == '-' || t[0] == '+');
    var body := if signed then t[1..] else t;
    var j :| 0 <= j < |t| && t[j] == c;
    var i := if signed then j - 1 else j;
    assert body[i] == c;
    assert !IntBodyChar(body, i);
  }

  /** `int()` accepts nothing that has a `.` in it. */
  lemma PyIntRejectsDot(s: string)
    requires '.' in s
    ensures PyInt(s) == None
  {
    var k :| 0 <= k < |s| && s[k] == '.';
    PyIntRejectsChar(s, k);
  }

  /** The separators U+001C..U+001F are whitespace to `strip()`, yet
      `int()` refuses a text that holds one, even at its end. */
  lemma PyIntRejectsSeparator(s: string, k: int)
    requires 0 <= k < |s| && '\U{1c}' <= s[k] <= '\U{1f}'
    ensures IsSpace(s[k]) && PyInt(s) == None
  {
    PyIntRejectsChar(s, k);
  }

  /** `int` reads a run of ASCII digits as its decimal value. */
  lemma PyIntOfNumeric(d: string)
    requires IsNumeric(d)
    ensures PyInt(d) == Some(DigitsValue(d))
  {
    assert IntStrip(d) == d;
    assert IsIntBody(d);
    assert '_' !in d by {
      forall i | 0 <= i < |d| ensures d[i] != '_' { assert IsDigit(d[i]); }
    }
    RemoveAbsentChar(d, '_');
  }

  /** `int` reads the same value when the digits are surrounded by its
      whitespace, non-ASCII whitespace such as U+00A0 included. */
  lemma PyIntTrims(w: string, d: string, v: string)
    requires AllIntSpace(w) && AllIntSpace(v) && IsNumeric(d)
    ensures PyInt(w + d + v) == Some(DigitsValue(d))
  {
    IntStripFramed(w, d, v);
    PyIntOfNumeric(d);
  }

  /** `int(str(n)) == n` */
  lemma PyIntOfDecimal(n: nat)
    ensures PyInt(Decimal(n)) == Some(n)
  {
    PyIntOfNumeric(Decimal(n));
    DecimalValue(n);
  }
}

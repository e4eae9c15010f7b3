/** The string operations the email classes borrow from Python's `str`:
    `isspace`, `lower`, `strip`, `split()` with no argument, `" ".join`,
    `endswith`, slicing and `split("@", 1)`. */
module Text {

  /** Whitespace for `split()` and `strip()`: space, tab, line feed,
      vertical tab, form feed and carriage return. */
  predicate IsSpace(c: char) {
    c == ' ' || '\t' <= c <= '\r'
  }

  predicate AllSpace(s: string) {
    forall i :: 0 <= i < |s| ==> IsSpace(s[i])
  }

  /** `s` holds at least one character that is not whitespace. */
  predicate HasText(s: string) {
    exists i :: 0 <= i < |s| && !IsSpace(s[i])
  }

  function Min(a: int, b: int): int {
    if a <= b then a else b
  }

  /** The first `n` characters of `s`, or all of it when it is shorter (Python's `s[:n]`). */
  function Take(s: string, n: nat): (r: string)
    ensures |r| == Min(|s|, n)
    ensures r <= s
  {
    s[..Min(|s|, n)]
  }

  predicate EndsWith(s: string, suffix: string) {
    |suffix| <= |s| && s[|s| - |suffix|..] == suffix
  }

  /** The position of the first `c` in `s` (where Python's `split(c, 1)` cuts). */
  function FirstIndex(s: string, c: char): (i: nat)
    requires c in s
    ensures i < |s| && s[i] == c
    ensures c !in s[..i]
  {
    if s[0] == c then 0
    else
      assert c in s[1..] by { assert s == [s[0]] + s[1..]; }
      var j := FirstIndex(s[1..], c);
      assert s[..j + 1] == [s[0]] + s[1..][..j];
      j + 1
  }

  /** `FirstIndex` is the only position holding `c` with no `c` before it. */
  lemma {:induction false} FirstIndexUnique(s: string, c: char, i: nat)
    requires i < |s| && s[i] == c && c !in s[..i]
    ensures FirstIndex(s, c) == i
  {
    var j := FirstIndex(s, c);
    assert forall k :: 0 <= k < i ==> s[..i][k] == s[k];
    assert forall k :: 0 <= k < j ==> s[..j][k] == s[k];
  }

  // ---------------------------------------------------------------- lower case

  function LowerChar(c: char): char {
    if 'A' <= c <= 'Z' then (c as int + 32) as char else c
  }

  /** Python's `str.lower`, on ASCII letters. */
  function Lower(s: string): (r: string)
    ensures |r| == |s|
    ensures forall i :: 0 <= i < |s| ==> r[i] == LowerChar(s[i])
  {
    if |s| == 0 then [] else [LowerChar(s[0])] + Lower(s[1..])
  }

  predicate IsLowered(s: string) {
    forall i :: 0 <= i < |s| ==> !('A' <= s[i] <= 'Z')
  }

  // ---------------------------------------------------------------- strip

  /** The number of whitespace characters `s` starts with. */
  function LeftEnd(s: string): (n: nat)
    ensures n <= |s|
    ensures forall i :: 0 <= i < n ==> IsSpace(s[i])
    ensures n == |s| || !IsSpace(s[n])
    decreases |s|
  {
    if |s| > 0 && IsSpace(s[0]) then 1 + LeftEnd(s[1..]) else 0
  }

  /** The length of `s` without its trailing whitespace. */
  function RightEnd(s: string): (n: nat)
    ensures n <= |s|
    ensures forall i :: n <= i < |s| ==> IsSpace(s[i])
    ensures n == 0 || !IsSpace(s[n - 1])
    decreases |s|
  {
    if |s| > 0 && IsSpace(s[|s| - 1]) then RightEnd(s[..|s| - 1]) else |s|
  }

  /** `s` with its leading whitespace removed (Python's `lstrip()`). */
  function TrimLeft(s: string): (r: string)
    ensures |r| <= |s| && r == s[|s| - |r|..]
    ensures AllSpace(s[..|s| - |r|])
    ensures |r| == 0 || !IsSpace(r[0])
  {
    var n := LeftEnd(s);
    assert forall i :: 0 <= i < n ==> s[..n][i] == s[i];
    s[n..]
  }

  /** `s` with its trailing whitespace removed (Python's `rstrip()`). */
  function TrimRight(s: string): (r: string)
    ensures |r| <= |s| && r == s[..|r|]
    ensures AllSpace(s[|r|..])
    ensures |r| == 0 || !IsSpace(r[|r| - 1])
  {
    var n := RightEnd(s);
    assert forall i :: 0 <= i < |s| - n ==> s[n..][i] == s[n + i];
    s[..n]
  }

  /** `TrimLeft` drops exactly the whitespace run that ends where the first
      other character (or the end) is. */
  lemma {:induction false} TrimLeftUnique(s: string, k: nat)
    requires k <= |s| && AllSpace(s[..k])
    requires k == |s| || !IsSpace(s[k])
    ensures TrimLeft(s) == s[k..]
  {
    assert forall i :: 0 <= i < k ==> IsSpace(s[i]) by {
      assert forall i :: 0 <= i < k ==> s[i] == s[..k][i];
    }
    assert LeftEnd(s) == k;
  }

  /** `TrimRight` keeps exactly the prefix that is followed only by
      whitespace and does not itself end in whitespace. */
  lemma {:induction false} TrimRightUnique(s: string, k: nat)
    requires k <= |s| && AllSpace(s[k..])
    requires k == 0 || !IsSpace(s[k - 1])
    ensures TrimRight(s) == s[..k]
  {
    assert forall i :: k <= i < |s| ==> IsSpace(s[i]) by {
      assert forall i :: k <= i < |s| ==> s[i] == s[k..][i - k];
    }
    assert RightEnd(s) == k;
  }

  /** `r` is `s` with only whitespace cut from each end. */
  ghost predicate IsInnerPart(s: string, r: string) {
    exists i :: 0 <= i <= |s| - |r| && r == s[i..i + |r|] && AllSpace(s[..i]) && AllSpace(s[i + |r|..])
  }

  /** Python's `str.strip()` with no argument. */
  function Strip(s: string): (r: string)
    ensures |r| == 0 || (!IsSpace(r[0]) && !IsSpace(r[|r| - 1]))
    ensures IsInnerPart(s, r)
    ensures r == "" <==> AllSpace(s)
  {
    StripFacts(s);
    TrimRight(TrimLeft(s))
  }

  lemma {:induction false} StripFacts(s: string)
    ensures IsInnerPart(s, TrimRight(TrimLeft(s)))
    ensures TrimRight(TrimLeft(s)) == "" <==> AllSpace(s)
  {
    StripInner(s);
    StripEmptyIff(s);
  }

  lemma {:induction false} StripInner(s: string)
    ensures IsInnerPart(s, TrimRight(TrimLeft(s)))
  {
    var t := TrimLeft(s);
    var r := TrimRight(t);
    var i := |s| - |t|;
    assert t == s[i..];
    assert r == s[i..i + |r|] by {
      assert r == t[..|r|];
      assert s[i..][..|r|] == s[i..i + |r|];
    }
    assert AllSpace(s[i + |r|..]) by {
      assert s[i + |r|..] == t[|r|..];
    }
    assert AllSpace(s[..i]);
  }

  lemma {:induction false} StripEmptyIff(s: string)
    ensures TrimRight(TrimLeft(s)) == "" <==> AllSpace(s)
  {
    var t := TrimLeft(s);
    var r := TrimRight(t);
    var i := |s| - |t|;
    if |r| > 0 {
      assert r[0] == t[0] == s[i];
    } else {
      assert t[|r|..] == t;
      assert |t| == 0;
      assert s[..i] == s;
    }
  }

  // ---------------------------------------------------------------- words

  /** A word of `str.split()`: a non-empty run of non-whitespace characters. */
  predicate IsWord(w: string) {
    |w| > 0 && forall i :: 0 <= i < |w| ==> !IsSpace(w[i])
  }

  predicate AllWords(ws: seq<string>) {
    forall k :: 0 <= k < |ws| ==> IsWord(ws[k])
  }

  /** The longest prefix of `s` free of whitespace. */
  function TakeWord(s: string): (w: string)
    ensures |w| <= |s| && w <= s
    ensures forall i :: 0 <= i < |w| ==> !IsSpace(w[i])
    ensures |w| == |s| || IsSpace(s[|w|])
  {
    if |s| == 0 || IsSpace(s[0]) then "" else [s[0]] + TakeWord(s[1..])
  }

  /** Python's `s.split()`: the maximal runs of non-whitespace, in order.
      Consecutive words are separated by at least one whitespace character,
      so a text of `n` characters holds at most `(n + 1) / 2` words. */
  function Words(s: string): (r: seq<string>)
    ensures 2 * |r| <= |s| + 1
    decreases |s|
  {
    if |s| == 0 then []
    else if IsSpace(s[0]) then Words(s[1..])
    else
      var w := TakeWord(s);
      var rest := s[|w|..];
      assert |rest| > 0 ==> IsSpace(rest[0]) && Words(rest) == Words(rest[1..]);
      [w] + Words(rest)
  }

  /** The characters of `s` that are not whitespace, in order. */
  function NonSpace(s: string): string {
    if |s| == 0 then "" else (if IsSpace(s[0]) then "" else [s[0]]) + NonSpace(s[1..])
  }

  /** The items of `ws` put one after the other, with nothing between them. */
  function Concat(ws: seq<string>): string {
    if |ws| == 0 then "" else ws[0] + Concat(ws[1..])
  }

  /** Python's `" ".join(ws)`: the items with one space between neighbours. */
  function Join(ws: seq<string>): (r: string)
    ensures ws == [] ==> r == ""
    ensures ws != [] ==> |r| == |Concat(ws)| + |ws| - 1
  {
    if |ws| == 0 then ""
    else if |ws| == 1 then ws[0]
    else ws[0] + " " + Join(ws[1..])
  }

  /** Text in the shape `_clean_text` produces: the only whitespace is a single
      space between two non-whitespace characters. */
  predicate IsClean(s: string) {
    && (forall i :: 0 <= i < |s| ==> s[i] == ' ' || !IsSpace(s[i]))
    && (|s| > 0 ==> s[0] != ' ' && s[|s| - 1] != ' ')
    && (forall i, j :: 0 <= i < |s| && 0 <= j < |s| && j == i + 1 && s[i] == ' ' ==> s[j] != ' ')
  }

  function ReplaceChar(s: string, from: char, to: char): (r: string)
    ensures |r| == |s|
    ensures forall i :: 0 <= i < |s| && s[i] != from ==> r[i] == s[i]
    ensures from != to ==> from !in r
    ensures IsSpace(from) && IsSpace(to) ==> SameSpacing(r, s)
  {
    seq(|s|, i requires 0 <= i < |s| => if s[i] == from then to else s[i])
  }

  /** `_clean_text` of both email classes (src/email_models.py:146-154,
      src/dataclass_email.py:53-61): tabs and newlines become spaces, then the
      words are re-joined with single spaces. */
  function CleanText(text: string): (r: string)
    ensures IsClean(r)
    ensures Words(r) == Words(text)
    ensures r == "" <==> !HasText(text)
  {
    if text == "" then ""
    else
      var spaced := ReplaceChar(ReplaceChar(text, '\t', ' '), '\n', ' ');
      CleanTextIsJoin(text);
      WordsAreWords(text);
      WordsOfJoin(Words(text));
      JoinIsClean(Words(text));
      WordsEmptyIff(text);
      JoinEmptyIff(Words(text));
      Join(Words(spaced))
  }

  // ---------------------------------------------------------------- lemmas

  lemma {:induction false} TakeWordOfWord(w: string, rest: string)
    requires forall i :: 0 <= i < |w| ==> !IsSpace(w[i])
    requires |rest| == 0 || IsSpace(rest[0])
    ensures TakeWord(w + rest) == w
    decreases |w|
  {
    if |w| > 0 {
      assert (w + rest)[1..] == w[1..] + rest;
      TakeWordOfWord(w[1..], rest);
      assert w == [w[0]] + w[1..];
    }
  }

  /** Every item of `split()` is a word. */
  lemma {:induction false} WordsAreWords(s: string)
    ensures AllWords(Words(s))
    decreases |s|
  {
    if |s| > 0 {
      if IsSpace(s[0]) {
        WordsAreWords(s[1..]);
      } else {
        var w := TakeWord(s);
        var rest := Words(s[|w|..]);
        WordsAreWords(s[|w|..]);
        assert IsWord(w);
        var ws := [w] + rest;
        forall k | 0 <= k < |ws| ensures IsWord(ws[k]) {
          if k > 0 {
            assert ws[k] == rest[k - 1];
          }
        }
        assert Words(s) == ws;
      }
    }
  }

  lemma {:induction false} SingleWord(w: string)
    requires IsWord(w)
    ensures Words(w) == [w]
  {
    TakeWordOfWord(w, "");
    assert w + "" == w;
    assert w[|w|..] == "";
  }

  /** A word followed by a space: `split()` yields the word, then carries on after the space. */
  lemma {:induction false} WordThenSpace(w: string, rest: string)
    requires IsWord(w)
    ensures Words(w + " " + rest) == [w] + Words(rest)
  {
    var j := w + " " + rest;
    assert j[0] == w[0];
    assert j == w + (" " + rest);
    TakeWordOfWord(w, " " + rest);
    assert j[|w|..] == " " + rest;
    assert (" " + rest)[1..] == rest;
  }

  /** Splitting the joined words gives the words back. */
  lemma {:induction false} WordsOfJoin(ws: seq<string>)
    requires AllWords(ws)
    ensures Words(Join(ws)) == ws
    decreases |ws|
  {
    if |ws| == 1 {
      SingleWord(ws[0]);
    } else if |ws| > 1 {
      JoinStartsWithWord(ws[1..]);
      WordThenSpace(ws[0], Join(ws[1..]));
      WordsOfJoin(ws[1..]);
      assert ws == [ws[0]] + ws[1..];
    }
  }

  lemma {:induction false} JoinStartsWithWord(ws: seq<string>)
    requires AllWords(ws) && |ws| > 0
    ensures |Join(ws)| > 0 && !IsSpace(Join(ws)[0])
  {
    if |ws| > 1 {
      assert Join(ws)[0] == ws[0][0];
    }
  }

  lemma {:induction false} JoinEmptyIff(ws: seq<string>)
    requires AllWords(ws)
    ensures Join(ws) == "" <==> ws == []
  {
    if |ws| > 0 {
      JoinStartsWithWord(ws);
    }
  }

  lemma {:induction false} JoinIsClean(ws: seq<string>)
    requires AllWords(ws)
    ensures IsClean(Join(ws))
    decreases |ws|
  {
    if |ws| == 1 {
      assert Join(ws) == ws[0];
    } else if |ws| > 1 {
      JoinIsClean(ws[1..]);
      JoinStartsWithWord(ws[1..]);
      assert IsWord(ws[0]);
      CleanAfterWord(ws[0], Join(ws[1..]));
    }
  }

  /** A word, a space and clean text that starts with a word make clean text. */
  lemma {:induction false} CleanAfterWord(w: string, rest: string)
    requires IsWord(w) && IsClean(rest) && |rest| > 0 && !IsSpace(rest[0])
    ensures IsClean(w + " " + rest)
  {
    var j := w + " " + rest;
    forall i | 0 <= i < |j| ensures j[i] == ' ' || !IsSpace(j[i]) {
      if i > |w| {
        assert j[i] == rest[i - |w| - 1];
      }
    }
    forall i, k | 0 <= i && k == i + 1 && k < |j| && j[i] == ' ' ensures j[k] != ' ' {
      if i > |w| {
        assert j[i] == rest[i - |w| - 1];
        assert j[k] == rest[i - |w|];
      }
    }
    assert j[|j| - 1] == rest[|rest| - 1];
  }

  /** Two strings with whitespace at the same places and the same other characters. */
  predicate SameSpacing(a: string, b: string) {
    |a| == |b| && forall i :: 0 <= i < |a| ==> a[i] == b[i] || (IsSpace(a[i]) && IsSpace(b[i]))
  }

  lemma {:induction false} DropSameSpacing(a: string, b: string, k: nat)
    requires SameSpacing(a, b) && k <= |a|
    ensures SameSpacing(a[k..], b[k..])
  {
    assert forall i :: 0 <= i < |a| - k ==> a[k..][i] == a[k + i] && b[k..][i] == b[k + i];
  }

  lemma {:induction false} TakeWordSameSpacing(a: string, b: string)
    requires SameSpacing(a, b)
    ensures TakeWord(a) == TakeWord(b)
    decreases |a|
  {
    if |a| > 0 && !IsSpace(a[0]) {
      TakeWordSameSpacing(a[1..], b[1..]);
    }
  }

  /** `split()` only looks at where the whitespace is, not at which whitespace it is. */
  lemma {:induction false} WordsSameSpacing(a: string, b: string)
    requires SameSpacing(a, b)
    ensures Words(a) == Words(b)
    decreases |a|
  {
    if |a| > 0 {
      if IsSpace(a[0]) {
        DropSameSpacing(a, b, 1);
        WordsSameSpacing(a[1..], b[1..]);
      } else {
        TakeWordSameSpacing(a, b);
        var w := TakeWord(a);
        DropSameSpacing(a, b, |w|);
        WordsSameSpacing(a[|w|..], b[|w|..]);
      }
    }
  }

  /** Replacing tabs and newlines by spaces does not change `_clean_text`'s words,
      so the cleaned text is exactly the words joined by single spaces. */
  lemma {:induction false} CleanTextIsJoin(text: string)
    ensures text != "" ==> Join(Words(ReplaceChar(ReplaceChar(text, '\t', ' '), '\n', ' '))) == Join(Words(text))
  {
    if text != "" {
      var spaced := ReplaceChar(ReplaceChar(text, '\t', ' '), '\n', ' ');
      assert SameSpacing(spaced, text);
      WordsSameSpacing(spaced, text);
    }
  }

  lemma {:induction false} WordsEmptyIff(s: string)
    ensures Words(s) == [] <==> !HasText(s)
    decreases |s|
  {
    if |s| > 0 && IsSpace(s[0]) {
      WordsEmptyIff(s[1..]);
      if HasText(s) {
        var i :| 0 <= i < |s| && !IsSpace(s[i]);
        assert !IsSpace(s[1..][i - 1]);
      }
      if HasText(s[1..]) {
        var i :| 0 <= i < |s[1..]| && !IsSpace(s[1..][i]);
        assert !IsSpace(s[i + 1]);
      }
    }
  }

  /** Replacing a character by one the text does not contain can be undone:
      every replaced position holds the replacement and nothing else does. */
  lemma {:induction false} ReplaceRoundTrip(s: string, from: char, to: char)
    requires to !in s
    ensures ReplaceChar(ReplaceChar(s, from, to), to, from) == s
  {
    var r := ReplaceChar(s, from, to);
    assert forall i :: 0 <= i < |s| ==> r[i] == (if s[i] == from then to else s[i]);
    assert forall i :: 0 <= i < |s| ==> ReplaceChar(r, to, from)[i] == s[i];
  }

  /** A whitespace character splits the text in two: `split()` of the whole
      is `split()` of the part before it followed by `split()` of the part after. */
  lemma {:induction false} WordsSplitAtSpace(a: string, c: char, b: string)
    requires IsSpace(c)
    ensures Words(a + [c] + b) == Words(a) + Words(b)
    decreases |a|
  {
    var s := a + [c] + b;
    if |a| == 0 {
      assert s == [c] + b;
      assert s[1..] == b;
    } else if IsSpace(a[0]) {
      assert s[1..] == a[1..] + [c] + b;
      WordsSplitAtSpace(a[1..], c, b);
    } else {
      var w := TakeWord(a);
      var a' := a[|w|..];
      var rest := a' + [c] + b;
      assert a == w + a';
      assert s == w + rest;
      assert |rest| == 0 || IsSpace(rest[0]) by {
        if |a'| > 0 { assert rest[0] == a'[0]; } else { assert rest[0] == c; }
      }
      TakeWordOfWord(w, rest);
      assert s[|w|..] == rest;
      WordsSplitAtSpace(a', c, b);
    }
  }

  /** Removing whitespace distributes over concatenation. */
  lemma {:induction false} NonSpaceAppend(a: string, b: string)
    ensures NonSpace(a + b) == NonSpace(a) + NonSpace(b)
    decreases |a|
  {
    if |a| > 0 {
      assert (a + b)[1..] == a[1..] + b;
      NonSpaceAppend(a[1..], b);
    } else {
      assert a + b == b;
    }
  }

  /** A word has no whitespace to remove. */
  lemma {:induction false} NonSpaceOfWord(w: string)
    requires forall i :: 0 <= i < |w| ==> !IsSpace(w[i])
    ensures NonSpace(w) == w
    decreases |w|
  {
    if |w| > 0 {
      NonSpaceOfWord(w[1..]);
      assert w == [w[0]] + w[1..];
    }
  }

  /** `split()` loses nothing but whitespace: its words, put together, are
      exactly the non-whitespace characters of the text, in order. */
  lemma {:induction false} WordsKeepText(s: string)
    ensures Concat(Words(s)) == NonSpace(s)
    decreases |s|
  {
    if |s| > 0 {
      if IsSpace(s[0]) {
        WordsKeepText(s[1..]);
      } else {
        var w := TakeWord(s);
        NonSpaceOfLeadingWord(s);
        WordsKeepText(s[|w|..]);
      }
    }
  }

  /** The first word of a text that starts with one is kept whole. */
  lemma {:induction false} NonSpaceOfLeadingWord(s: string)
    requires |s| > 0 && !IsSpace(s[0])
    ensures var w := TakeWord(s);
            && 0 < |w| && NonSpace(s) == w + NonSpace(s[|w|..])
  {
    var w := TakeWord(s);
    assert s == w + s[|w|..];
    NonSpaceAppend(w, s[|w|..]);
    NonSpaceOfWord(w);
  }

  /** `_clean_text` keeps every non-whitespace character, in order. */
  lemma {:induction false} CleanTextKeepsText(text: string)
    ensures NonSpace(CleanText(text)) == NonSpace(text)
  {
    WordsKeepText(text);
    WordsKeepText(CleanText(text));
  }

  /** `_clean_text` is idempotent. */
  lemma {:induction false} CleanTextIdempotent(text: string)
    ensures CleanText(CleanText(text)) == CleanText(text)
  {
    var c := CleanText(text);
    if c != "" {
      CleanTextIsJoin(c);
    }
    if text != "" {
      CleanTextIsJoin(text);
    }
  }
}

/** ASCII text primitives shared by the three tools: Python's whitespace
    class, `str.lower()`, `str.strip()` and `str.split()` with no argument,
    and the line-by-line tokenisation of an input file. */
module Text {

  /** `str.isspace()` on ASCII: space, tab, line feed, vertical tab, form
      feed, carriage return and the four separators U+001C..U+001F. */
  predicate IsSpace(c: char) {
    c == ' ' || ('\t' <= c <= '\r') || ('\U{1C}' <= c <= '\U{1F}')
  }

  predicate IsDigit(c: char) {
    '0' <= c <= '9'
  }

  predicate IsUpper(c: char) {
    'A' <= c <= 'Z'
  }

  predicate NoSpace(s: string) {
    forall i :: 0 <= i < |s| ==> !IsSpace(s[i])
  }

  /** A string with no upper-case ASCII letter, i.e. one `lower()` leaves alone. */
  predicate IsLowerCase(s: string) {
    forall i :: 0 <= i < |s| ==> !IsUpper(s[i])
  }

  function LowerChar(c: char): (r: char)
    ensures !IsUpper(r)
    ensures IsUpper(c) ==> r as int == c as int + 32
    ensures !IsUpper(c) ==> r == c
  {
    if IsUpper(c) then (c as int + 32) as char else c
  }

  /** `str.lower()` on ASCII. */
  function Lower(s: string): (r: string)
    ensures |r| == |s|
    ensures forall i :: 0 <= i < |s| ==> r[i] == LowerChar(s[i])
  {
    seq(|s|, i requires 0 <= i < |s| => LowerChar(s[i]))
  }

  /** Lower-casing yields a lower-case string, which it then leaves unchanged;
      a string is a fixed point of `Lower` exactly when it is lower-case. */
  lemma LowerIsLowerCase(s: string)
    ensures IsLowerCase(Lower(s))
    ensures Lower(Lower(s)) == Lower(s)
    ensures Lower(s) == s <==> IsLowerCase(s)
  {
    if IsLowerCase(s) {
      assert Lower(s) == s;
    }
  }

  // ---------------------------------------------------------------------
  // strip()

  /** The index of the first non-whitespace character of `s` at or after
      `i`, or `|s|` if there is none. */
  function SkipSpace(s: string, i: nat): (k: nat)
    requires i <= |s|
    ensures i <= k <= |s|
    ensures forall j :: i <= j < k ==> IsSpace(s[j])
    ensures k < |s| ==> !IsSpace(s[k])
    decreases |s| - i
  {
    if i < |s| && IsSpace(s[i]) then SkipSpace(s, i + 1) else i
  }

  /** The end of `s[a..j]` once its trailing whitespace is dropped. */
  function SkipSpaceBack(s: string, a: nat, j: nat): (k: nat)
    requires a <= j <= |s|
    ensures a <= k <= j
    ensures forall i :: k <= i < j ==> IsSpace(s[i])
    ensures k > a ==> !IsSpace(s[k - 1])
    decreases j - a
  {
    if j > a && IsSpace(s[j - 1]) then SkipSpaceBack(s, a, j - 1) else j
  }

  /** `str.strip()`: the text between the leading and the trailing run of
      whitespace; it neither starts nor ends with whitespace. */
  function Strip(s: string): (r: string)
    ensures |r| <= |s|
    ensures r == [] || (!IsSpace(r[0]) && !IsSpace(r[|r| - 1]))
  {
    var a := SkipSpace(s, 0);
    s[a..SkipSpaceBack(s, a, |s|)]
  }

  /** The text kept by `Strip` is the slice of `s` at `p`, and everything
      before and after that slice is whitespace. */
  lemma StripPosition(s: string) returns (p: nat)
    ensures p + |Strip(s)| <= |s|
    ensures Strip(s) == s[p..p + |Strip(s)|]
    ensures forall i :: 0 <= i < p ==> IsSpace(s[i])
    ensures forall i :: p + |Strip(s)| <= i < |s| ==> IsSpace(s[i])
  {
    p := SkipSpace(s, 0);
  }

  // ---------------------------------------------------------------------
  // split()

  /** The pending token `cur` closes here, if there is one. */
  function Flush(cur: string): seq<string> {
    if cur == [] then [] else [cur]
  }

  /** Every character of `s` that is not whitespace, in order. */
  function NonSpace(s: string): (r: string)
    ensures NoSpace(r)
    ensures |r| <= |s|
  {
    if s == [] then []
    else if IsSpace(s[0]) then NonSpace(s[1..])
    else [s[0]] + NonSpace(s[1..])
  }

  function Concat(ws: seq<string>): string {
    if ws == [] then [] else ws[0] + Concat(ws[1..])
  }

  lemma ConcatAppend(a: seq<string>, b: seq<string>)
    ensures Concat(a + b) == Concat(a) + Concat(b)
  {
    if a == [] {
      assert a + b == b;
    } else {
      assert (a + b)[1..] == a[1..] + b;
      ConcatAppend(a[1..], b);
    }
  }

  /** Tokens made of non-empty, whitespace-free words. */
  predicate AreWords(ws: seq<string>) {
    forall i :: 0 <= i < |ws| ==> ws[i] != [] && NoSpace(ws[i])
  }

  /** Scans `s` left to right; `cur` holds the characters of the token being
      read. A whitespace character closes the pending token, any other
      character extends it. */
  function SplitFrom(s: string, cur: string): seq<string>
    decreases |s|
  {
    if s == [] then Flush(cur)
    else if IsSpace(s[0]) then Flush(cur) + SplitFrom(s[1..], [])
    else SplitFrom(s[1..], cur + [s[0]])
  }

  lemma ConcatFlush(cur: string)
    ensures Concat(Flush(cur)) == cur
  {
    if cur != [] {
      assert Concat([cur]) == cur + Concat([]);
    }
  }

  /** Every token is a non-empty run of non-whitespace characters. */
  lemma {:induction false} SplitFromWords(s: string, cur: string)
    requires NoSpace(cur)
    ensures AreWords(SplitFrom(s, cur))
    decreases |s|
  {
    if s != [] {
      if IsSpace(s[0]) {
        SplitFromWords(s[1..], []);
      } else {
        SplitFromWords(s[1..], cur + [s[0]]);
      }
    }
  }

  /** The tokens together hold exactly the non-whitespace characters of the
      input, in order. */
  lemma {:induction false} SplitFromConcat(s: string, cur: string)
    ensures Concat(SplitFrom(s, cur)) == cur + NonSpace(s)
    decreases |s|
  {
    ConcatFlush(cur);
    if s == [] {
      assert cur + NonSpace(s) == cur;
    } else if IsSpace(s[0]) {
      var rest := SplitFrom(s[1..], []);
      SplitFromConcat(s[1..], []);
      assert Concat(rest) == NonSpace(s[1..]) == NonSpace(s);
      ConcatAppend(Flush(cur), rest);
      assert SplitFrom(s, cur) == Flush(cur) + rest;
    } else {
      SplitFromConcat(s[1..], cur + [s[0]]);
      assert SplitFrom(s, cur) == SplitFrom(s[1..], cur + [s[0]]);
      assert NonSpace(s) == [s[0]] + NonSpace(s[1..]);
      assert cur + [s[0]] + NonSpace(s[1..]) == cur + NonSpace(s);
    }
  }

  /** `str.split()` with no separator. */
  function Split(s: string): (r: seq<string>)
    ensures AreWords(r)
    ensures Concat(r) == NonSpace(s)
  {
    SplitFromWords(s, []);
    SplitFromConcat(s, []);
    SplitFrom(s, [])
  }

  lemma {:induction false} SplitFromAtSpace(a: string, c: char, b: string, cur: string)
    requires IsSpace(c)
    ensures SplitFrom(a + [c] + b, cur) == SplitFrom(a, cur) + SplitFrom(b, [])
    decreases |a|
  {
    if a == [] {
      assert a + [c] + b == [c] + b;
      assert ([c] + b)[1..] == b;
    } else {
      var s := a + [c] + b;
      assert s[0] == a[0] && s[1..] == a[1..] + [c] + b;
      if IsSpace(a[0]) {
        SplitFromAtSpace(a[1..], c, b, []);
        assert SplitFrom(s, cur) == Flush(cur) + SplitFrom(a[1..] + [c] + b, []);
        assert SplitFrom(a, cur) == Flush(cur) + SplitFrom(a[1..], []);
      } else {
        SplitFromAtSpace(a[1..], c, b, cur + [a[0]]);
        assert SplitFrom(s, cur) == SplitFrom(a[1..] + [c] + b, cur + [a[0]]);
      }
    }
  }

  /** Splitting at a whitespace character splits the token list there too. */
  lemma SplitAtSpace(a: string, c: char, b: string)
    requires IsSpace(c)
    ensures Split(a + [c] + b) == Split(a) + Split(b)
  {
    SplitFromAtSpace(a, c, b, []);
  }

  lemma {:induction false} SplitFromWord(w: string, cur: string)
    requires NoSpace(w) && cur + w != []
    ensures SplitFrom(w, cur) == [cur + w]
    decreases |w|
  {
    if w == [] {
      assert cur + w == cur;
    } else {
      assert cur + w == (cur + [w[0]]) + w[1..];
      SplitFromWord(w[1..], cur + [w[0]]);
    }
  }

  /** The words joined by single spaces. */
  function JoinSpaced(ws: seq<string>): string {
    if ws == [] then []
    else if |ws| == 1 then ws[0]
    else ws[0] + " " + JoinSpaced(ws[1..])
  }

  /** `split()` inverts joining words with spaces. */
  lemma {:induction false} SplitJoinSpaced(ws: seq<string>)
    requires AreWords(ws)
    ensures Split(JoinSpaced(ws)) == ws
  {
    if ws == [] {
    } else if |ws| == 1 {
      SplitFromWord(ws[0], []);
      assert [] + ws[0] == ws[0];
    } else {
      SplitFromWord(ws[0], []);
      assert [] + ws[0] == ws[0];
      assert ws[0] + " " + JoinSpaced(ws[1..]) == ws[0] + [' '] + JoinSpaced(ws[1..]);
      SplitAtSpace(ws[0], ' ', JoinSpaced(ws[1..]));
      SplitJoinSpaced(ws[1..]);
      assert ws == [ws[0]] + ws[1..];
    }
  }

  // ---------------------------------------------------------------------
  // Reading a file line by line

  /** The tokens of a file read line by line, each line split on whitespace. */
  function TokensOfLines(lines: seq<string>): (r: seq<string>)
    ensures AreWords(r)
  {
    if lines == [] then [] else Split(lines[0]) + TokensOfLines(lines[1..])
  }

  /** The lines joined by line feeds, i.e. the text of the file. */
  function JoinLines(lines: seq<string>): string {
    if lines == [] then []
    else if |lines| == 1 then lines[0]
    else lines[0] + "\n" + JoinLines(lines[1..])
  }

  /** Splitting line by line gives the same tokens as splitting the whole
      text: a line break is itself whitespace. */
  lemma {:induction false} TokensOfLinesIsSplitOfText(lines: seq<string>)
    ensures TokensOfLines(lines) == Split(JoinLines(lines))
  {
    if lines == [] {
    } else if |lines| == 1 {
      assert TokensOfLines(lines) == Split(lines[0]) + [];
    } else {
      assert lines[0] + "\n" + JoinLines(lines[1..]) == lines[0] + ['\n'] + JoinLines(lines[1..]);
      SplitAtSpace(lines[0], '\n', JoinLines(lines[1..]));
      TokensOfLinesIsSplitOfText(lines[1..]);
    }
  }

  /** Reading two runs of lines gives the tokens of the first, then those
      of the second. */
  lemma {:induction false} TokensOfLinesAppend(a: seq<string>, b: seq<string>)
    ensures TokensOfLines(a + b) == TokensOfLines(a) + TokensOfLines(b)
  {
    if a == [] {
      assert a + b == b;
    } else {
      assert (a + b)[1..] == a[1..] + b;
      TokensOfLinesAppend(a[1..], b);
    }
  }

  /** The tokens of the first `i + 1` lines. */
  lemma TokensNextLine(lines: seq<string>, i: nat)
    requires i < |lines|
    ensures TokensOfLines(lines[..i + 1]) == TokensOfLines(lines[..i]) + Split(lines[i])
  {
    assert lines[..i + 1] == lines[..i] + [lines[i]];
    TokensOfLinesAppend(lines[..i], [lines[i]]);
    assert TokensOfLines([lines[i]]) == Split(lines[i]) + [];
  }

  /** A token of one line is a token of the file. */
  lemma {:induction false} TokenOfLine(lines: seq<string>, i: nat, w: string)
    requires i < |lines| && w in Split(lines[i])
    ensures w in TokensOfLines(lines)
  {
    if i > 0 {
      TokenOfLine(lines[1..], i - 1, w);
    }
  }
}

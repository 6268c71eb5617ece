/** The word counter: every whitespace-separated token of the input, lower-
    cased, is tallied in a table that keeps words in the order they were
    first seen; the saved report lists one `word<TAB>count` row per word and
    ends with the grand total. */
module WordCount {
  import opened Wrappers
  import Text
  import Frequency
  import Radix

  /** `palabra.lower()` for every token. */
  function LowerAll(ws: seq<string>): (r: seq<string>)
    ensures |r| == |ws|
    ensures forall i :: 0 <= i < |ws| ==> r[i] == Text.Lower(ws[i])
  {
    seq(|ws|, i requires 0 <= i < |ws| => Text.Lower(ws[i]))
  }

  /** The lower-cased tokens of a file, in reading order. */
  function Words(lines: seq<string>): seq<string> {
    LowerAll(Text.TokensOfLines(lines))
  }

  lemma LowerAllSnoc(ws: seq<string>, w: string)
    ensures LowerAll(ws + [w]) == LowerAll(ws) + [Text.Lower(w)]
  {
    assert |LowerAll(ws + [w])| == |LowerAll(ws) + [Text.Lower(w)]|;
    forall i | 0 <= i < |ws| + 1
      ensures LowerAll(ws + [w])[i] == (LowerAll(ws) + [Text.Lower(w)])[i]
    {
      if i < |ws| {
        assert (ws + [w])[i] == ws[i];
      }
    }
  }

  lemma TallySnoc<T(!new)>(xs: seq<T>, x: T)
    ensures Frequency.Tally(xs + [x]) == Frequency.Add(Frequency.Tally(xs), x)
  {
    assert (xs + [x])[..|xs|] == xs;
  }

  /** Counting one more token. */
  lemma CountStep(seen: seq<string>, words: seq<string>, j: nat)
    requires j < |words|
    ensures Frequency.Add(Frequency.Tally(LowerAll(seen + words[..j])), Text.Lower(words[j]))
            == Frequency.Tally(LowerAll(seen + words[..j + 1]))
  {
    assert seen + words[..j + 1] == (seen + words[..j]) + [words[j]] by {
      assert words[..j + 1] == words[..j] + [words[j]];
    }
    LowerAllSnoc(seen + words[..j], words[j]);
    TallySnoc(LowerAll(seen + words[..j]), Text.Lower(words[j]));
  }

  /** Counting the last token of a line ends the line. */
  lemma LineDone(lines: seq<string>, i: nat)
    requires i < |lines|
    ensures LowerAll(Text.TokensOfLines(lines[..i]) + Text.Split(lines[i])[..|Text.Split(lines[i])|])
            == Words(lines[..i + 1])
  {
    var words := Text.Split(lines[i]);
    assert words[..|words|] == words;
    Text.TokensNextLine(lines, i);
  }

  /** `contar_palabras` once the file is split into lines: the dictionary
      is updated once per token, line by line. */
  method CountWords(lines: seq<string>) returns (t: Frequency.Table<string>)
    ensures t == Frequency.Tally(Words(lines))
  {
    t := [];
    var i := 0;
    while i < |lines|
      invariant 0 <= i <= |lines|
      invariant t == Frequency.Tally(Words(lines[..i]))
    {
      t := CountLine(lines, i, t);
      i := i + 1;
    }
    assert lines[..i] == lines;
  }

  /** The inner loop over the tokens of line `i`. */
  method CountLine(lines: seq<string>, i: nat, t0: Frequency.Table<string>) returns (t: Frequency.Table<string>)
    requires i < |lines| && t0 == Frequency.Tally(Words(lines[..i]))
    ensures t == Frequency.Tally(Words(lines[..i + 1]))
  {
    t := t0;
    var words := Text.Split(lines[i]);
    ghost var seen := Text.TokensOfLines(lines[..i]);
    assert seen + words[..0] == seen;
    var j := 0;
    while j < |words|
      invariant 0 <= j <= |words|
      invariant t == Frequency.Tally(LowerAll(seen + words[..j]))
    {
      CountStep(seen, words, j);
      t := Frequency.Add(t, Text.Lower(words[j]));
      j := j + 1;
    }
    LineDone(lines, i);
  }

  /** Lower-casing neither creates nor removes whitespace. */
  lemma LowerKeepsWords(w: string)
    requires w != [] && Text.NoSpace(w)
    ensures Text.Lower(w) != [] && Text.NoSpace(Text.Lower(w))
  {
    forall i | 0 <= i < |w|
      ensures !Text.IsSpace(Text.Lower(w)[i])
    {
      assert !Text.IsSpace(w[i]);
    }
  }

  /** The words of the table are non-empty, free of whitespace and
      lower-case. */
  lemma CountedWordsShape(lines: seq<string>)
    ensures forall i :: 0 <= i < |Frequency.Tally(Words(lines))| ==>
              var w := Frequency.Tally(Words(lines))[i].key;
              w != [] && Text.NoSpace(w) && Text.IsLowerCase(w) && Text.Lower(w) == w
  {
    var tokens := Text.TokensOfLines(lines);
    var ws := Words(lines);
    var t := Frequency.Tally(ws);
    forall i | 0 <= i < |t|
      ensures t[i].key != [] && Text.NoSpace(t[i].key) && Text.IsLowerCase(t[i].key) && Text.Lower(t[i].key) == t[i].key
    {
      assert Frequency.Keys(t)[i] == t[i].key;
      assert t[i].key in Frequency.Keys(t);
      assert t[i].key in ws;
      var k :| 0 <= k < |ws| && ws[k] == t[i].key;
      LowerKeepsWords(tokens[k]);
      Text.LowerIsLowerCase(tokens[k]);
    }
  }

  lemma InLowerAll(ws: seq<string>, w: string)
    ensures w in LowerAll(ws) <==> exists k :: 0 <= k < |ws| && Text.Lower(ws[k]) == w
  {
    if w in LowerAll(ws) {
      var k :| 0 <= k < |ws| && LowerAll(ws)[k] == w;
    }
    if exists k :: 0 <= k < |ws| && Text.Lower(ws[k]) == w {
      var k :| 0 <= k < |ws| && Text.Lower(ws[k]) == w;
      assert LowerAll(ws)[k] == w;
    }
  }

  /** A word is in the table exactly when some token of the file lower-cases
      to it. */
  lemma CountedWordsAreTokens(lines: seq<string>, w: string)
    ensures w in Frequency.Keys(Frequency.Tally(Words(lines))) <==>
              exists k :: 0 <= k < |Text.TokensOfLines(lines)| && Text.Lower(Text.TokensOfLines(lines)[k]) == w
  {
    var tokens := Text.TokensOfLines(lines);
    var ws := Words(lines);
    var t := Frequency.Tally(ws);
    assert ws == LowerAll(tokens);
    assert w in Frequency.Keys(t) <==> w in ws;
    InLowerAll(tokens, w);
  }

  /** Each word's count is the number of tokens that lower-case to it, so at
      least one; the counts add up to the number of tokens; and the table has
      one entry per distinct word, in the order words were first seen. */
  lemma CountedOccurrences(lines: seq<string>)
    ensures forall i :: 0 <= i < |Frequency.Tally(Words(lines))| ==>
              Frequency.Tally(Words(lines))[i].count
              == multiset(Words(lines))[Frequency.Tally(Words(lines))[i].key] >= 1
    ensures Frequency.Total(Frequency.Tally(Words(lines))) == |Text.TokensOfLines(lines)|
    ensures Frequency.Distinct(Frequency.Keys(Frequency.Tally(Words(lines))))
    ensures Frequency.FirstSeenOrder(Frequency.Keys(Frequency.Tally(Words(lines))), Words(lines))
  {
    Frequency.TallyCounts(Words(lines));
    Frequency.TallyOrder(Words(lines));
  }

  // ---------------------------------------------------------------------
  // The saved report

  const Header: string := "Etiquetas de Fila\tConteo"

  const TotalLabel: string := "Total General: "

  /** One report row: `f"{palabra}\t{conteo}"`. */
  function Row(e: Frequency.Entry<string>): (r: string)
    ensures |r| > |e.key| && r[..|e.key|] == e.key && r[|e.key|] == '\t'
    ensures r[|e.key| + 1..] == Radix.ShowInt(e.count)
    ensures Radix.ParseInt(r[|e.key| + 1..]) == Some(e.count as int)
  {
    var r := e.key + "\t" + Radix.ShowInt(e.count);
    assert r[|e.key| + 1..] == Radix.ShowInt(e.count);
    Radix.ParseShowInt(e.count);
    r
  }

  /** A row splits back at its first tab into the word and a count that
      `int()` reads back, because a word holds no whitespace. */
  lemma RowRoundTrip(e: Frequency.Entry<string>)
    requires Text.NoSpace(e.key)
    ensures Frequency.IndexOf(Row(e), '\t') == |e.key|
    ensures Row(e)[..|e.key|] == e.key
    ensures Radix.ParseInt(Row(e)[|e.key| + 1..]) == Some(e.count as int)
  {
    var r := Row(e);
    assert r[|e.key|] == '\t';
    forall k | 0 <= k < |e.key|
      ensures r[k] != '\t'
    {
      assert r[k] == e.key[k];
      assert !Text.IsSpace(e.key[k]);
    }
    assert r[|e.key| + 1..] == Radix.ShowInt(e.count);
    Radix.ParseShowInt(e.count);
  }

  lemma {:induction false} TotalSnoc<T>(t: Frequency.Table<T>, e: Frequency.Entry<T>)
    ensures Frequency.Total(t + [e]) == Frequency.Total(t) + e.count
  {
    if t == [] {
      assert (t + [e])[1..] == [];
    } else {
      assert (t + [e])[1..] == t[1..] + [e];
      TotalSnoc(t[1..], e);
    }
  }

  lemma TotalStep<T>(t: Frequency.Table<T>, k: nat)
    requires k < |t|
    ensures Frequency.Total(t[..k + 1]) == Frequency.Total(t[..k]) + t[k].count
  {
    assert t[..k + 1] == t[..k] + [t[k]];
    TotalSnoc(t[..k], t[k]);
  }

  /** `guardar_resultados` without the timing line: the header, one row per
      word in table order, a blank line and the running total of the
      counts. */
  method SaveResults(t: Frequency.Table<string>) returns (report: seq<string>, total: nat)
    ensures total == Frequency.Total(t)
    ensures |report| == |t| + 3
    ensures report[0] == Header
    ensures forall i :: 0 <= i < |t| ==> report[i + 1] == Row(t[i])
    ensures report[|t| + 1] == [] && report[|t| + 2] == TotalLabel + Radix.ShowInt(total)
  {
    var rows := Rows(t);
    total := 0;
    var k := 0;
    while k < |t|
      invariant 0 <= k <= |t|
      invariant total == Frequency.Total(t[..k])
    {
      TotalStep(t, k);
      total := total + t[k].count;
      k := k + 1;
    }
    assert t[..k] == t;
    var last := TotalLabel + Radix.ShowInt(total);
    report := Assemble(rows, last);
  }

  /** One row per entry, in table order. */
  function Rows(t: Frequency.Table<string>): (rows: seq<string>)
    ensures |rows| == |t|
    ensures forall i :: 0 <= i < |t| ==> rows[i] == Row(t[i])
  {
    seq(|t|, i requires 0 <= i < |t| => Row(t[i]))
  }

  /** The header, the rows, a blank line and the total line, in that order. */
  function Assemble(rows: seq<string>, last: string): (report: seq<string>)
    ensures |report| == |rows| + 3
    ensures report[0] == Header
    ensures forall i :: 0 <= i < |rows| ==> report[i + 1] == rows[i]
    ensures report[|rows| + 1] == [] && report[|rows| + 2] == last
  {
    [Header] + rows + [[], last]
  }

  /** The whole program on a file: the grand total it reports is the number
      of tokens in the file, and every row reads back as a word of the file
      and its count. */
  method Run(lines: seq<string>) returns (table: Frequency.Table<string>, report: seq<string>)
    ensures table == Frequency.Tally(Words(lines))
    ensures |report| == |table| + 3
    ensures report[0] == Header && report[|table| + 1] == []
    ensures report[|table| + 2] == TotalLabel + Radix.ShowInt(|Text.TokensOfLines(lines)|)
    ensures forall i :: 0 <= i < |table| ==>
              report[i + 1] == Row(table[i]) && table[i].count == multiset(Words(lines))[table[i].key]
  {
    table := CountWords(lines);
    var total;
    report, total := SaveResults(table);
    CountedOccurrences(lines);
  }
}

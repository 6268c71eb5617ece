/** Reading the statistics tool's data: every whitespace-separated token of
    the input becomes a number, is ignored, or aborts the run. A token that
    `float()` rejects after turning ';' and ',' into '.' is reduced to its
    digits, dots and commas; nothing left means the token is ignored, and
    otherwise the reduced text is parsed again, this time with no handler,
    so a second rejection ends the program. */
module Coercion {
  import opened Wrappers
  import Text
  import Radix
  import Frequency

  /** The outcome of `manejar_datos_invalidos` for one token: a value, `None`
      (ignored), or the `ValueError` that escapes from the second `float()`. */
  datatype Coerced = Number(value: real) | Ignored | Crash

  // ---------------------------------------------------------------------
  // Character rewriting

  /** `s.replace(a, b)` for single characters. */
  function ReplaceChar(s: string, a: char, b: char): (r: string)
    ensures |r| == |s|
    ensures forall i :: 0 <= i < |s| ==> r[i] == if s[i] == a then b else s[i]
  {
    seq(|s|, i requires 0 <= i < |s| => if s[i] == a then b else s[i])
  }

  /** Every `a` becomes a `b`: none is left, and the `b`s are the old ones
      plus the replaced ones. */
  lemma {:induction false} ReplaceCharCounts(s: string, a: char, b: char)
    requires a != b
    ensures multiset(ReplaceChar(s, a, b))[a] == 0
    ensures multiset(ReplaceChar(s, a, b))[b] == multiset(s)[b] + multiset(s)[a]
  {
    if s != [] {
      ReplaceCharCounts(s[1..], a, b);
      ReplaceCharHead(s, a, b);
    }
  }

  /** Rewriting a non-empty string is rewriting its first character and then
      the rest. */
  lemma ReplaceCharHead(s: string, a: char, b: char)
    requires s != []
    ensures multiset(ReplaceChar(s, a, b))
            == multiset{if s[0] == a then b else s[0]} + multiset(ReplaceChar(s[1..], a, b))
    ensures multiset(s) == multiset{s[0]} + multiset(s[1..])
  {
    var r := ReplaceChar(s, a, b);
    assert r == [r[0]] + ReplaceChar(s[1..], a, b);
    assert s == [s[0]] + s[1..];
  }

  /** `s.replace(';', '.').replace(',', '.')`: both separators become dots. */
  function Normalize(s: string): (r: string)
    ensures |r| == |s|
    ensures forall i :: 0 <= i < |s| ==> r[i] == if s[i] == ';' || s[i] == ',' then '.' else s[i]
  {
    ReplaceChar(ReplaceChar(s, ';', '.'), ',', '.')
  }

  predicate IsNumericChar(c: char) {
    Text.IsDigit(c) || c == '.' || c == ','
  }

  predicate HasNumeric(s: string) {
    exists i :: 0 <= i < |s| && IsNumericChar(s[i])
  }

  predicate HasDigit(s: string) {
    exists i :: 0 <= i < |s| && Text.IsDigit(s[i])
  }

  /** `''.join(c if c.isdigit() or c in ('.', ',') else '' for c in s)`:
      the digits, dots and commas of `s`, in order, each as often as in `s`. */
  function KeepNumeric(s: string): (r: string)
    ensures |r| <= |s|
    ensures forall i :: 0 <= i < |r| ==> IsNumericChar(r[i])
    ensures forall c {:trigger multiset(r)[c]} ::
              multiset(r)[c] == if IsNumericChar(c) then multiset(s)[c] else 0
  {
    if s == [] then []
    else
      assert s == [s[0]] + s[1..];
      (if IsNumericChar(s[0]) then [s[0]] else []) + KeepNumeric(s[1..])
  }

  /** Filtering distributes over concatenation, so the kept characters stay
      in their original order. */
  lemma {:induction false} KeepNumericAppend(a: string, b: string)
    ensures KeepNumeric(a + b) == KeepNumeric(a) + KeepNumeric(b)
  {
    if a != [] {
      assert (a + b)[1..] == a[1..] + b;
      KeepNumericAppend(a[1..], b);
    } else {
      assert a + b == b;
    }
  }

  /** Filtering twice is filtering once. */
  lemma {:induction false} KeepNumericIdempotent(s: string)
    ensures KeepNumeric(KeepNumeric(s)) == KeepNumeric(s)
  {
    if s != [] {
      var head := if IsNumericChar(s[0]) then [s[0]] else [];
      KeepNumericIdempotent(s[1..]);
      KeepNumericAppend(head, KeepNumeric(s[1..]));
      assert KeepNumeric(head) == head by {
        if head != [] {
          assert head[1..] == [];
        }
      }
    }
  }

  lemma KeptEmpty(s: string)
    ensures KeepNumeric(s) == [] <==> !HasNumeric(s)
  {
    var r := KeepNumeric(s);
    if HasNumeric(s) {
      var i :| 0 <= i < |s| && IsNumericChar(s[i]);
      assert s[i] in multiset(s);
      assert multiset(r)[s[i]] > 0;
    }
    if r != [] {
      assert multiset(r)[r[0]] > 0;
      assert r[0] in multiset(s);
    }
  }

  // ---------------------------------------------------------------------
  // `float()` on a text of digits and dots

  function Pow10(k: nat): (r: nat)
    ensures r >= 1
  {
    if k == 0 then 1 else 10 * Pow10(k - 1)
  }

  /** Digits, optionally followed by one dot and more digits, with at least
      one digit somewhere: `1`, `1.`, `.5`, `1.25`. */
  predicate IsDecimalText(s: string) {
    var p := Frequency.IndexOf(s, '.');
    Radix.IsDigits(s[..p])
    && (p == |s| || Radix.IsDigits(s[p + 1..]))
    && |s| > (if p < |s| then 1 else 0)
  }

  /** `float(s)` where `s` holds only digits and dots (the only text the
      second conversion ever sees): the whole part plus the fraction,
      `None` where Python raises. */
  function DecimalValue(s: string): (r: Option<real>)
    ensures r.Some? <==> IsDecimalText(s)
    ensures r.Some? ==> r.value >= 0.0
    ensures r.Some? && '.' !in s ==> r.value == Radix.FromDecimal(s) as real
  {
    if !IsDecimalText(s) then None
    else
      var p := Frequency.IndexOf(s, '.');
      var frac := if p < |s| then s[p + 1..] else [];
      assert s[..|s|] == s;
      Some(Radix.FromDecimal(s[..p]) as real
           + Radix.FromDecimal(frac) as real / Pow10(|frac|) as real)
  }

  predicate DigitsAndDots(s: string) {
    forall i :: 0 <= i < |s| ==> Text.IsDigit(s[i]) || s[i] == '.'
  }

  /** A text of digits and dots is a decimal exactly when it has at most one
      dot and at least one digit. */
  lemma DecimalTextIff(s: string)
    requires DigitsAndDots(s)
    ensures IsDecimalText(s) <==> multiset(s)['.'] <= 1 && HasDigit(s)
  {
    var p := Frequency.IndexOf(s, '.');
    assert Radix.IsDigits(s[..p]);
    if p == |s| {
      assert multiset(s)['.'] == 0;
      if |s| > 0 {
        assert Text.IsDigit(s[0]);
      }
    } else {
      AfterFirstDot(s, p);
      var tail := s[p + 1..];
      if Radix.IsDigits(tail) && HasDigit(s) {
        var i :| 0 <= i < |s| && Text.IsDigit(s[i]);
        assert i != p;
      }
      if |s| > 1 && Radix.IsDigits(tail) {
        if p > 0 {
          assert Text.IsDigit(s[0]);
        } else {
          assert s[1] == tail[0];
        }
      }
    }
  }

  /** What follows the first dot holds the remaining dots. */
  lemma AfterFirstDot(s: string, p: nat)
    requires DigitsAndDots(s) && p == Frequency.IndexOf(s, '.') && p < |s|
    ensures multiset(s)['.'] == 1 + multiset(s[p + 1..])['.']
    ensures Radix.IsDigits(s[p + 1..]) <==> '.' !in s[p + 1..]
  {
    var tail := s[p + 1..];
    assert s == s[..p] + [s[p]] + tail;
    assert multiset(s) == multiset(s[..p]) + multiset{'.'} + multiset(tail);
    assert '.' !in s[..p];
    assert forall i :: 0 <= i < |tail| ==> tail[i] == s[p + 1 + i];
  }

  /** `FromDecimal` reads a concatenation as the first part shifted left by
      the length of the second. */
  lemma {:induction false} FromDecimalAppend(a: string, b: string)
    requires Radix.IsDigits(a) && Radix.IsDigits(b)
    ensures Radix.IsDigits(a + b)
    ensures Radix.FromDecimal(a + b) == Radix.FromDecimal(a) * Pow10(|b|) + Radix.FromDecimal(b)
    decreases |b|
  {
    if b == [] {
      assert a + b == a;
    } else {
      var b0 := b[..|b| - 1];
      var ab := a + b;
      assert ab[..|ab| - 1] == a + b0;
      assert ab[|ab| - 1] == b[|b| - 1];
      FromDecimalAppend(a, b0);
      var d := b[|b| - 1] as int - '0' as int;
      var x := Radix.FromDecimal(a);
      var y := Radix.FromDecimal(b0);
      var q := Pow10(|b0|);
      assert Radix.FromDecimal(ab) == 10 * Radix.FromDecimal(a + b0) + d;
      assert Radix.FromDecimal(b) == 10 * y + d;
      assert Pow10(|b|) == 10 * q;
      ShiftStep(x, q, y, d);
    }
  }

  lemma ShiftStep(x: int, q: int, y: int, d: int)
    ensures 10 * (x * q + y) + d == x * (10 * q) + (10 * y + d)
  {
  }

  /** `v` times `q` is `n`. */
  predicate ScaledBy(v: real, q: nat, n: nat) {
    v * (q as real) == n as real
  }

  lemma ScaleBack(v: real, w: nat, f: nat, q: nat, n: nat)
    requires q > 0 && v == (w as real) + (f as real) / (q as real) && n == w * q + f
    ensures ScaledBy(v, q, n)
  {
    var wr, fr, qr := w as real, f as real, q as real;
    assert (wr + fr / qr) * qr == wr * qr + fr;
    CastProduct(w, q);
  }

  lemma CastProduct(w: nat, q: nat)
    ensures (w * q) as real == (w as real) * (q as real)
  {
  }

  /** The decimal read with its dot removed is the value scaled by ten to
      the number of fractional digits. */
  lemma DecimalValueScaled(s: string, p: nat) returns (digits: string, k: nat)
    requires IsDecimalText(s) && p == Frequency.IndexOf(s, '.') && p < |s|
    ensures digits == s[..p] + s[p + 1..] && k == |s| - p - 1
    ensures Radix.IsDigits(digits)
    ensures ScaledBy(DecimalValue(s).value, Pow10(k), Radix.FromDecimal(digits))
  {
    var whole := s[..p];
    var frac := s[p + 1..];
    FromDecimalAppend(whole, frac);
    digits := whole + frac;
    k := |frac|;
    var w := Radix.FromDecimal(whole);
    var f := Radix.FromDecimal(frac);
    var q := Pow10(k);
    var v := DecimalValue(s).value;
    assert v == (w as real) + (f as real) / (q as real);
    ScaleBack(v, w, f, q, Radix.FromDecimal(digits));
  }

  // ---------------------------------------------------------------------
  // One token

  /** `manejar_datos_invalidos`; `parse` is Python's `float()` for the
      first, guarded attempt. */
  function Coerce(tok: string, parse: string -> Option<real>): (r: Coerced)
    ensures parse(Normalize(tok)).Some? ==> r == Number(parse(Normalize(tok)).value)
  {
    match parse(Normalize(tok))
    case Some(v) => Number(v)
    case None =>
      var kept := KeepNumeric(tok);
      if kept == [] then Ignored
      else
        match DecimalValue(Reduced(tok))
        case Some(v) => Number(v)
        case None => Crash
  }

  /** The number of dots and commas in `s`. */
  function Separators(s: string): nat {
    multiset(s)['.'] + multiset(s)[',']
  }

  /** The text handed to the second `float()`: the token's digits, with
      every dot and comma as a dot. */
  function Reduced(tok: string): (r: string)
    ensures |r| <= |tok|
    ensures r == [] <==> !HasNumeric(tok)
    ensures forall i :: 0 <= i < |r| ==> r[i] != ','
  {
    KeptEmpty(tok);
    ReplaceChar(KeepNumeric(tok), ',', '.')
  }

  lemma ReducedShape(tok: string)
    ensures DigitsAndDots(Reduced(tok))
    ensures multiset(Reduced(tok))['.'] == Separators(tok)
  {
    var kept := KeepNumeric(tok);
    ReplaceCharCounts(kept, ',', '.');
    forall i | 0 <= i < |Reduced(tok)|
      ensures Text.IsDigit(Reduced(tok)[i]) || Reduced(tok)[i] == '.'
    {
      assert IsNumericChar(kept[i]);
    }
  }

  lemma ReducedDigits(tok: string)
    ensures HasDigit(Reduced(tok)) <==> HasDigit(tok)
  {
    var kept := KeepNumeric(tok);
    var dotted := Reduced(tok);
    if HasDigit(dotted) {
      var i :| 0 <= i < |dotted| && Text.IsDigit(dotted[i]);
      assert dotted[i] == kept[i];
      assert multiset(kept)[kept[i]] > 0;
      assert kept[i] in multiset(tok);
    }
    if HasDigit(tok) {
      var i :| 0 <= i < |tok| && Text.IsDigit(tok[i]);
      assert tok[i] in multiset(tok);
      assert multiset(kept)[tok[i]] > 0;
      var k :| 0 <= k < |kept| && kept[k] == tok[i];
      assert Text.IsDigit(dotted[k]);
    }
  }

  /** When `float()` rejects the normalised token: it is ignored exactly
      when it has no digit, dot or comma; the program aborts exactly when it
      has some but they are two or more separators or no digit at all; and
      otherwise the value is `float()` of the reduced text, non-negative
      since signs are dropped. */
  lemma CoerceFallback(tok: string, parse: string -> Option<real>)
    requires parse(Normalize(tok)).None?
    ensures Coerce(tok, parse) == Ignored <==> !HasNumeric(tok)
    ensures Coerce(tok, parse) == Crash <==>
              HasNumeric(tok) && (Separators(tok) >= 2 || !HasDigit(tok))
    ensures Coerce(tok, parse).Number? ==> Coerce(tok, parse).value >= 0.0
    ensures Coerce(tok, parse).Number? ==> DecimalValue(Reduced(tok)) == Some(Coerce(tok, parse).value)
  {
    KeptEmpty(tok);
    ReducedShape(tok);
    ReducedDigits(tok);
    DecimalTextIff(Reduced(tok));
  }

  // ---------------------------------------------------------------------
  // The whole file

  function CoerceAll(tokens: seq<string>, parse: string -> Option<real>): (cs: seq<Coerced>)
    ensures |cs| == |tokens|
    ensures forall i :: 0 <= i < |tokens| ==> cs[i] == Coerce(tokens[i], parse)
  {
    seq(|tokens|, i requires 0 <= i < |tokens| => Coerce(tokens[i], parse))
  }

  lemma CoerceAllAppend(a: seq<string>, b: seq<string>, parse: string -> Option<real>)
    ensures CoerceAll(a + b, parse) == CoerceAll(a, parse) + CoerceAll(b, parse)
  {
    var l := CoerceAll(a + b, parse);
    var r := CoerceAll(a, parse) + CoerceAll(b, parse);
    assert |l| == |r|;
    forall i | 0 <= i < |l|
      ensures l[i] == r[i]
    {
      if i < |a| {
        assert (a + b)[i] == a[i];
      } else {
        assert (a + b)[i] == b[i - |a|];
      }
    }
  }

  /** The values the loader keeps, in order; `None` as soon as any token
      aborts the program. */
  function Collect(cs: seq<Coerced>): (r: Option<seq<real>>)
    ensures r.None? <==> Crash in cs
  {
    if cs == [] then Some([])
    else
      assert cs == [cs[0]] + cs[1..];
      match Collect(cs[1..])
      case None => None
      case Some(rest) =>
        match cs[0]
        case Crash => None
        case Ignored => Some(rest)
        case Number(v) => Some([v] + rest)
  }

  /** Every outcome that is not ignored contributes exactly one value. */
  lemma {:induction false} CollectLength(cs: seq<Coerced>)
    requires Collect(cs).Some?
    ensures |Collect(cs).value| + multiset(cs)[Ignored] == |cs|
  {
    if cs != [] {
      assert cs == [cs[0]] + cs[1..];
      CollectLength(cs[1..]);
    }
  }

  /** When every outcome is a number, every outcome yields its value. */
  lemma {:induction false} CollectNumbers(cs: seq<Coerced>)
    requires forall i :: 0 <= i < |cs| ==> cs[i].Number?
    ensures Collect(cs).Some?
    ensures |Collect(cs).value| == |cs|
  {
    if cs != [] {
      assert cs == [cs[0]] + cs[1..];
      CollectNumbers(cs[1..]);
    }
  }

  /** Every collected value comes from a `Number` outcome. */
  lemma {:induction false} CollectOrigin(cs: seq<Coerced>, v: real)
    requires Collect(cs).Some? && v in Collect(cs).value
    ensures Number(v) in cs
  {
    assert cs != [];
    assert cs == [cs[0]] + cs[1..];
    if cs[0] != Number(v) {
      CollectOrigin(cs[1..], v);
    }
  }

  /** Collecting two runs of tokens concatenates their values. */
  lemma {:induction false} CollectAppend(a: seq<Coerced>, b: seq<Coerced>)
    requires Crash !in a + b
    ensures Collect(a + b) == Some(Collect(a).value + Collect(b).value)
  {
    if a == [] {
      assert a + b == b;
      assert Collect(a).value + Collect(b).value == Collect(b).value;
    } else {
      assert (a + b)[1..] == a[1..] + b;
      assert (a + b)[0] == a[0] && a[0] != Crash;
      assert Crash !in a[1..] + b by {
        assert forall i :: 0 <= i < |a| + |b| - 1 ==> (a[1..] + b)[i] == (a + b)[i + 1];
      }
      assert a == [a[0]] + a[1..];
      assert Crash !in a[1..];
      CollectAppend(a[1..], b);
      var x, y := Collect(a[1..]).value, Collect(b).value;
      if a[0].Number? {
        assert [a[0].value] + (x + y) == ([a[0].value] + x) + y;
      }
    }
  }

  /** `leer_datos_desde_archivo` once the file is split into lines: it
      yields no data exactly when some token aborts. */
  function Load(lines: seq<string>, parse: string -> Option<real>): (r: Option<seq<real>>)
    ensures r.None? <==> SomeTokenAborts(Text.TokensOfLines(lines), parse)
  {
    CrashInAll(Text.TokensOfLines(lines), parse);
    Collect(CoerceAll(Text.TokensOfLines(lines), parse))
  }

  /** Some token makes the second `float()` raise. */
  predicate SomeTokenAborts(tokens: seq<string>, parse: string -> Option<real>) {
    exists k :: 0 <= k < |tokens| && Coerce(tokens[k], parse) == Crash
  }

  lemma CrashInAll(tokens: seq<string>, parse: string -> Option<real>)
    ensures Collect(CoerceAll(tokens, parse)).None? <==> SomeTokenAborts(tokens, parse)
  {
    var cs := CoerceAll(tokens, parse);
    assert Collect(cs).None? <==> Crash in cs;
    if Crash in cs {
      var k :| 0 <= k < |cs| && cs[k] == Crash;
      assert Coerce(tokens[k], parse) == Crash;
    }
    if exists k :: 0 <= k < |tokens| && Coerce(tokens[k], parse) == Crash {
      var k :| 0 <= k < |tokens| && Coerce(tokens[k], parse) == Crash;
      assert cs[k] == Crash;
    }
  }

  /** One more outcome that does not abort: its value, if any, goes last. */
  lemma CollectStep(cs: seq<Coerced>, c: Coerced, acc: seq<real>)
    requires Collect(cs) == Some(acc) && c != Crash
    ensures Collect(cs + [c]) == Some(if c.Number? then acc + [c.value] else acc)
  {
    assert Crash !in cs + [c];
    CollectAppend(cs, [c]);
    assert [c][1..] == [];
    assert Collect([c][1..]) == Some([]);
    if c.Number? {
      assert [c.value] + [] == [c.value];
    }
    assert Collect([c]) == Some(if c.Number? then [c.value] else []);
    assert acc + [] == acc;
  }

  /** A token that aborts makes the whole file abort, wherever it sits. */
  lemma CollectCrash(tokens: seq<string>, tok: string, parse: string -> Option<real>)
    requires tok in tokens && Coerce(tok, parse) == Crash
    ensures Collect(CoerceAll(tokens, parse)).None?
  {
    var k :| 0 <= k < |tokens| && tokens[k] == tok;
    assert CoerceAll(tokens, parse)[k] == Crash;
  }

  /** The tokens read before the `j`-th token of line `i`. */
  function TokensBefore(lines: seq<string>, i: nat, j: nat): seq<string>
    requires i < |lines| && j <= |Text.Split(lines[i])|
  {
    Text.TokensOfLines(lines[..i]) + Text.Split(lines[i])[..j]
  }

  /** Reading one more token of the current line. */
  lemma ReadStep(lines: seq<string>, i: nat, j: nat, parse: string -> Option<real>, acc: seq<real>)
    requires i < |lines| && j < |Text.Split(lines[i])|
    requires Collect(CoerceAll(TokensBefore(lines, i, j), parse)) == Some(acc)
    requires Coerce(Text.Split(lines[i])[j], parse) != Crash
    ensures var c := Coerce(Text.Split(lines[i])[j], parse);
            Collect(CoerceAll(TokensBefore(lines, i, j + 1), parse))
            == Some(if c.Number? then acc + [c.value] else acc)
  {
    var words := Text.Split(lines[i]);
    var seen := TokensBefore(lines, i, j);
    var c := Coerce(words[j], parse);
    NextWord(Text.TokensOfLines(lines[..i]), words, j);
    CoerceAllAppend(seen, [words[j]], parse);
    assert CoerceAll([words[j]], parse) == [c];
    CollectStep(CoerceAll(seen, parse), c, acc);
  }

  /** A token that aborts the loader aborts the whole file. */
  lemma ReadCrash(lines: seq<string>, i: nat, j: nat, parse: string -> Option<real>)
    requires i < |lines| && j < |Text.Split(lines[i])|
    requires Coerce(Text.Split(lines[i])[j], parse) == Crash
    ensures Load(lines, parse).None?
  {
    Text.TokenOfLine(lines, i, Text.Split(lines[i])[j]);
    CollectCrash(Text.TokensOfLines(lines), Text.Split(lines[i])[j], parse);
  }

  /** After the last token of a line come the tokens of the next lines. */
  lemma ReadLineDone(lines: seq<string>, i: nat)
    requires i < |lines|
    ensures TokensBefore(lines, i, |Text.Split(lines[i])|) == Text.TokensOfLines(lines[..i + 1])
  {
    var words := Text.Split(lines[i]);
    assert words[..|words|] == words;
    Text.TokensNextLine(lines, i);
  }

  /** The loader's two nested loops: one pass per line, one per token of the
      line; a crashing token ends the run with no data. */
  method ReadData(lines: seq<string>, parse: string -> Option<real>) returns (data: Option<seq<real>>)
    ensures data == Load(lines, parse)
  {
    var acc: seq<real> := [];
    var i := 0;
    while i < |lines|
      invariant 0 <= i <= |lines|
      invariant Collect(CoerceAll(Text.TokensOfLines(lines[..i]), parse)) == Some(acc)
    {
      var next := ReadLine(lines, i, parse, acc);
      if next.None? {
        return None;
      }
      acc := next.value;
      i := i + 1;
    }
    assert lines[..i] == lines;
    data := Some(acc);
  }

  /** The inner loop over the tokens of line `i`: the values read so far
      grow by the values of the line, or the file yields no data at all. */
  method ReadLine(lines: seq<string>, i: nat, parse: string -> Option<real>, acc0: seq<real>)
      returns (next: Option<seq<real>>)
    requires i < |lines|
    requires Collect(CoerceAll(Text.TokensOfLines(lines[..i]), parse)) == Some(acc0)
    ensures next.None? ==> Load(lines, parse).None?
    ensures next.Some? ==> Collect(CoerceAll(Text.TokensOfLines(lines[..i + 1]), parse)) == next
  {
    var words := Text.Split(lines[i]);
    assert TokensBefore(lines, i, 0) == Text.TokensOfLines(lines[..i]);
    var acc := acc0;
    var j := 0;
    while j < |words|
      invariant 0 <= j <= |words|
      invariant Collect(CoerceAll(TokensBefore(lines, i, j), parse)) == Some(acc)
    {
      var c := Coerce(words[j], parse);
      if c == Crash {
        ReadCrash(lines, i, j, parse);
        return None;
      }
      ReadStep(lines, i, j, parse, acc);
      if c.Number? {
        acc := acc + [c.value];
      }
      j := j + 1;
    }
    ReadLineDone(lines, i);
    next := Some(acc);
  }

  lemma NextWord(done: seq<string>, words: seq<string>, j: nat)
    requires j < |words|
    ensures done + words[..j + 1] == done + words[..j] + [words[j]]
  {
    assert words[..j + 1] == words[..j] + [words[j]];
  }

  /** Each token yields at most one value. */
  lemma LoadLength(lines: seq<string>, parse: string -> Option<real>)
    requires Load(lines, parse).Some?
    ensures |Load(lines, parse).value| <= |Text.TokensOfLines(lines)|
  {
    var cs := CoerceAll(Text.TokensOfLines(lines), parse);
    CollectLength(cs);
  }

  /** Every kept value is the conversion of some token. */
  lemma LoadOrigin(lines: seq<string>, parse: string -> Option<real>, v: real)
    requires Load(lines, parse).Some? && v in Load(lines, parse).value
    ensures exists tok :: tok in Text.TokensOfLines(lines) && Coerce(tok, parse) == Number(v)
  {
    var tokens := Text.TokensOfLines(lines);
    var cs := CoerceAll(tokens, parse);
    var data := Collect(cs).value;
    CollectOrigin(cs, v);
    var k :| 0 <= k < |cs| && cs[k] == Number(v);
    assert tokens[k] in tokens;
  }
}

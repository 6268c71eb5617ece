/** The per-file loop of the number converter: every line of the input file
    becomes one numbered report row holding the stripped text of the line
    and its binary and hexadecimal renderings, or the `#VALUE!` marker in
    both columns when the line is not an integer. */
module Conversion {
  import opened Wrappers
  import Text
  import Radix

  const Sentinel: string := "#VALUE!"

  /** One output row `<index>\t<text>\t<binary>\t<hex>`. */
  datatype Row = Row(index: nat, text: string, binary: string, hex: string)

  /** The converted columns of one stripped line. */
  function ConvertLine(index: nat, text: string): (row: Row)
    ensures row.index == index && row.text == text
    ensures row.binary == Sentinel <==> Radix.ParseInt(text).None?
    ensures row.hex == Sentinel <==> Radix.ParseInt(text).None?
    ensures Radix.ParseInt(text).Some? ==>
              row.binary == Radix.Binary(Radix.ParseInt(text).value)
              && row.hex == Radix.Hex(Radix.ParseInt(text).value)
  {
    match Radix.ParseInt(text)
    case Some(n) =>
      SentinelIsNotBinary(n);
      SentinelIsNotHex(n);
      Row(index, text, Radix.Binary(n), Radix.Hex(n))
    case None => Row(index, text, Sentinel, Sentinel)
  }

  /** The marker cannot be mistaken for a binary rendering: it starts with
      '#', which no rendering does. */
  lemma SentinelIsNotBinary(n: int)
    ensures Radix.Binary(n) != Sentinel
  {
    var b := Radix.Binary(n);
    assert b[0] == '0' || b[0] == '1' || b[0] == '-';
    assert Sentinel[0] == '#';
  }

  /** Nor for a hexadecimal rendering. */
  lemma SentinelIsNotHex(n: int)
    ensures Radix.Hex(n) != Sentinel
  {
    var h := Radix.Hex(n);
    assert Radix.IsHexDigit(h[0]) || h[0] == '-';
    assert Sentinel[0] == '#';
  }

  /** `convertir_numeros` after the file has been read: one row per line,
      numbered from 1, carrying the stripped line; a line that does not
      parse yields the marker and the loop goes on with the next line. */
  method ConvertLines(lines: seq<string>) returns (rows: seq<Row>)
    ensures |rows| == |lines|
    ensures forall i :: 0 <= i < |lines| ==> rows[i] == ConvertLine(i + 1, Text.Strip(lines[i]))
  {
    rows := [];
    var k := 0;
    while k < |lines|
      invariant 0 <= k <= |lines|
      invariant |rows| == k
      invariant forall i :: 0 <= i < k ==> rows[i] == ConvertLine(i + 1, Text.Strip(lines[i]))
    {
      var row := ConvertLine(k + 1, Text.Strip(lines[k]));
      rows := rows + [row];
      k := k + 1;
    }
  }

  /** The lines "5", "-3" and "0": the non-zero values carry the leading
      '0' of the recursion, and -3 is printed in hexadecimal as 2^32 - 3. */
  lemma ExampleRows()
    ensures ConvertLine(1, "5") == Row(1, "5", "0101", "5")
    ensures ConvertLine(2, "-3") == Row(2, "-3", "-011", "FFFFFFFD")
    ensures ConvertLine(3, "0") == Row(3, "0", "0", "0")
    ensures ConvertLine(4, "x7") == Row(4, "x7", Sentinel, Sentinel)
  {
    assert Radix.ParseInt("5") == Some(5);
    assert Radix.ParseInt("-3") == Some(-3) by {
      assert "-3"[1..] == "3";
    }
    assert Radix.ParseInt("0") == Some(0);
    assert Radix.ParseInt("x7") == None by {
      assert !Text.IsDigit("x7"[0]);
    }
    Radix.BinaryExamples();
    Radix.HexExamples();
  }
}

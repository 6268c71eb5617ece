/** `procesar_archivo` without the clock: the data of one input file and the
    aggregates computed from it. */
module Statistics {
  import opened Wrappers
  import Text
  import Coercion
  import Aggregates

  /** The statistics of one file. `None` when a token aborts the loader or
      when no token yields a value, where the median raises on the empty
      list. */
  function ProcessFile(lines: seq<string>, parse: string -> Option<real>, sqrt: real -> real)
    : (r: Option<Aggregates.Summary>)
    ensures r.Some? <==> Coercion.Load(lines, parse).Some? && |Coercion.Load(lines, parse).value| > 0
    ensures r.Some? ==> r.value.count <= |Text.TokensOfLines(lines)|
    ensures r.Some? ==> r.value.count == |Coercion.Load(lines, parse).value|
                        && r == Aggregates.Summarize(Coercion.Load(lines, parse).value, sqrt)
  {
    match Coercion.Load(lines, parse)
    case None => None
    case Some(data) =>
      Coercion.LoadLength(lines, parse);
      Aggregates.Summarize(data, sqrt)
  }

  /** A file whose tokens are all ignored, or that has no tokens, has no
      statistics. */
  lemma NothingToSummarize(lines: seq<string>, parse: string -> Option<real>, sqrt: real -> real)
    requires forall k :: 0 <= k < |Text.TokensOfLines(lines)| ==>
               Coercion.Coerce(Text.TokensOfLines(lines)[k], parse) == Coercion.Ignored
    ensures ProcessFile(lines, parse, sqrt).None?
  {
    var tokens := Text.TokensOfLines(lines);
    var cs := Coercion.CoerceAll(tokens, parse);
    assert Coercion.Crash !in cs;
    if |Coercion.Load(lines, parse).value| > 0 {
      var v := Coercion.Load(lines, parse).value[0];
      Coercion.LoadOrigin(lines, parse, v);
    }
  }

  /** A file whose every token converts has one value per token. */
  lemma EveryTokenCounts(lines: seq<string>, parse: string -> Option<real>)
    requires forall k :: 0 <= k < |Text.TokensOfLines(lines)| ==>
               Coercion.Coerce(Text.TokensOfLines(lines)[k], parse).Number?
    ensures Coercion.Load(lines, parse).Some?
    ensures |Coercion.Load(lines, parse).value| == |Text.TokensOfLines(lines)|
  {
    Coercion.CollectNumbers(Coercion.CoerceAll(Text.TokensOfLines(lines), parse));
  }
}

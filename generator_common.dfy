/**
 * `GeneratorParams` (src/GeneratorCommon.hpp) and the value-drawing loop that
 * opens every generator.  The random engine is replaced by the sequence of
 * values it would have drawn.
 */
module GeneratorCommon {
  import opened Edges

  datatype GeneratorParams = GeneratorParams(size: nat, minValue: int, maxValue: int)

  /** Enough draws, each inside the distribution's closed range. */
  predicate DrawsFit(params: GeneratorParams, draws: seq<int>) {
    && |draws| >= params.size
    && forall k :: 0 <= k < params.size ==> params.minValue <= draws[k] <= params.maxValue
  }

  /** One value per node, `values[nodeIt] = valueDist(random)` in node order. */
  method DrawValues(params: GeneratorParams, draws: seq<int>) returns (values: seq<int>)
    requires params.size <= NullNode && DrawsFit(params, draws)
    ensures |values| == params.size
    ensures forall k :: 0 <= k < |values| ==> params.minValue <= values[k] <= params.maxValue
    ensures values == draws[..params.size]
  {
    values := seq(params.size, _ => 0);
    var nodeIt := 0;
    while nodeIt < params.size
      invariant 0 <= nodeIt <= params.size && |values| == params.size
      invariant values[..nodeIt] == draws[..nodeIt]
    {
      values := values[nodeIt := draws[nodeIt]];
      nodeIt := nodeIt + 1;
    }
  }
}

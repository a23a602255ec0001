/**
 * src/bresse/result.py: CounterResult, an earlier copy of OutputGeneration
 * with the same Result record, loop and most_common; it shares Output's
 * definitions.
 */
module ResultCounter {
  import Wrappers
  import opened ChessLib
  import opened Counting
  import Output

  /** CounterResult: the counter and every Result, in input order. */
  datatype CounterResult = CounterResult(counter: Counter, listResult: seq<Output.Result>) {

    /** most_common: ValueError on an empty counter, otherwise the first key of maximal count. */
    function MostCommon(): (r: Wrappers.Result<string, Output.NoValidSan>)
      ensures r.Failure? <==> counter.counts == map[]
      ensures r.Success? ==> exists i: nat :: FirstPlurality(counter, i) && counter.order[i] == r.value
    {
      Output.OutputGeneration(counter, listResult).MostCommon()
    }
  }

  /**
   * CounterResult.from_inference: one Result per raw candidate, in order,
   * probed in the board's position; the board ends where it started, and
   * the counter is the tally of the accepted ones.
   */
  method FromInference(board: Board, listSan: seq<string>, preprocess: Wrappers.Option<string -> string>)
    returns (cr: CounterResult)
    modifies board
    ensures board.moveStack == old(board.moveStack)
    ensures cr.listResult == Output.ProbeAll(board.rules, old(board.moveStack), Output.Normaliser(preprocess), listSan)
    ensures cr.counter == Output.Tally(cr.listResult)
  {
    var gen := Output.FromInference(board, listSan, preprocess);
    cr := CounterResult(gen.counter, gen.listResult);
  }
}

/**
 * src/bresse/output.py: validating the candidate moves an LLM proposed and
 * counting the legal ones, and picking the most common.
 */
module Output {
  import Wrappers
  import opened ChessLib
  import opened Counting
  import Process
  import Identifiers

  /** Result: a raw candidate, its normalised text, and the exception the legality probe raised, if any. */
  datatype Result = Result(san: string, postprocessSan: string, exception: Wrappers.Option<MoveError>)

  /** ValueError("No valid SAN move found, ...") listing the raw candidates. */
  datatype NoValidSan = NoValidSan(sans: seq<string>)

  /** The preprocess_func argument: None stands for postprocess_result. */
  function Normaliser(preprocess: Wrappers.Option<string -> string>): string -> string {
    match preprocess
    case None => Process.PostprocessResult
    case Some(f) => f
  }

  /** The Result recorded for one raw candidate probed in the position reached by `stack`. */
  function Probe(rules: Rules, stack: seq<Move>, normalise: string -> string, san: string): Result {
    var post := normalise(san);
    match rules.parseSan(stack, post)
    case Success(_) => Result(san, post, Wrappers.None)
    case Failure(e) => Result(san, post, Wrappers.Some(e))
  }

  /** The Results for a list of raw candidates, each probed in the same position, in input order. */
  function ProbeAll(rules: Rules, stack: seq<Move>, normalise: string -> string, sans: seq<string>): (rs: seq<Result>)
    ensures |rs| == |sans|
    ensures forall i | 0 <= i < |sans| :: rs[i] == Probe(rules, stack, normalise, sans[i])
  {
    if sans == [] then []
    else ProbeAll(rules, stack, normalise, sans[..|sans| - 1]) + [Probe(rules, stack, normalise, sans[|sans| - 1])]
  }

  /** A candidate the board accepted. */
  predicate Accepted(r: Result) {
    r.exception.None?
  }

  /** The counter after counting, in order, the normalised text of each accepted result. */
  function Tally(results: seq<Result>): Counter {
    if results == [] then Empty()
    else
      var c := Tally(results[..|results| - 1]);
      var r := results[|results| - 1];
      if Accepted(r) then Add(c, r.postprocessSan) else c
  }

  /** The normalised texts of the accepted results, in order: the votes. */
  function Votes(results: seq<Result>): (v: seq<string>)
    ensures |v| <= |results|
  {
    if results == [] then []
    else
      var r := results[|results| - 1];
      Votes(results[..|results| - 1]) + if Accepted(r) then [r.postprocessSan] else []
  }

  /** Where a key was first voted for. */
  function FirstVote(votes: seq<string>, k: string): (p: nat)
    requires k in votes
    ensures p < |votes| && votes[p] == k
    ensures forall i | 0 <= i < p :: votes[i] != k
  {
    if votes[0] == k then 0 else 1 + FirstVote(votes[1..], k)
  }

  /** A vote appended after a key's first vote does not move it. */
  lemma FirstVoteAppend(votes: seq<string>, x: string, k: string)
    requires k in votes
    ensures FirstVote(votes + [x], k) == FirstVote(votes, k)
  {
    var p := FirstVote(votes, k);
    assert (votes + [x])[p] == k;
  }

  /** Every key's count is the number of accepted candidates that normalised to it; rejected ones never count. */
  lemma {:induction false} TallyCounts(results: seq<Result>)
    ensures forall k :: Get(Tally(results), k) == multiset(Votes(results))[k]
  {
    if results != [] {
      var init := results[..|results| - 1];
      var r := results[|results| - 1];
      TallyCounts(init);
      if Accepted(r) {
        var v := r.postprocessSan;
        var c := Tally(init);
        assert Tally(results) == Add(c, v);
        assert multiset(Votes(results)) == multiset(Votes(init)) + multiset{v} by {
          assert Votes(results) == Votes(init) + [v];
        }
        forall k ensures Get(Add(c, v), k) == multiset(Votes(results))[k] {
          if k == v {
            assert Get(Add(c, v), k) == Get(c, k) + 1;
          } else {
            assert Get(Add(c, v), k) == Get(c, k);
          }
        }
      } else {
        assert Votes(results) == Votes(init);
      }
    }
  }

  /** The keys of the tally are exactly the voted-for texts. */
  lemma TallyKeys(results: seq<Result>)
    ensures forall k :: k in Tally(results).counts <==> k in Votes(results)
  {
    TallyCounts(results);
    forall k ensures k in Tally(results).counts <==> k in Votes(results) {
      assert Get(Tally(results), k) == multiset(Votes(results))[k];
    }
  }

  /** The counts add up to the number of accepted candidates. */
  lemma {:induction false} TallyTotal(results: seq<Result>)
    ensures Total(Tally(results)) == |Votes(results)| <= |results|
  {
    if results != [] {
      var init := results[..|results| - 1];
      var r := results[|results| - 1];
      TallyTotal(init);
      if Accepted(r) {
        assert Votes(results) == Votes(init) + [r.postprocessSan];
        AddTotal(Tally(init), r.postprocessSan);
      } else {
        assert Votes(results) == Votes(init);
      }
    }
  }

  /** The tally lists its keys in the order of their first votes. */
  lemma {:induction false} TallyOrder(results: seq<Result>)
    ensures forall i | 0 <= i < |Tally(results).order| :: Tally(results).order[i] in Votes(results)
    ensures forall i, j | 0 <= i < j < |Tally(results).order| ::
      FirstVote(Votes(results), Tally(results).order[i]) < FirstVote(Votes(results), Tally(results).order[j])
  {
    if results != [] {
      var init := results[..|results| - 1];
      var r := results[|results| - 1];
      TallyOrder(init);
      if Accepted(r) {
        assert Votes(results) == Votes(init) + [r.postprocessSan];
        TallyKeys(init);
        if r.postprocessSan in Tally(init).counts {
          OrderAfterVote(Tally(init).order, Votes(init), r.postprocessSan);
        } else {
          OrderAfterNewVote(Tally(init).order, Votes(init), r.postprocessSan);
        }
      } else {
        assert Votes(results) == Votes(init);
      }
    }
  }

  /** Keys ordered by first vote stay so after one more vote. */
  lemma OrderAfterVote(order: seq<string>, v: seq<string>, x: string)
    requires forall i | 0 <= i < |order| :: order[i] in v
    requires forall i, j | 0 <= i < j < |order| :: FirstVote(v, order[i]) < FirstVote(v, order[j])
    ensures forall i | 0 <= i < |order| :: order[i] in v + [x]
    ensures forall i, j | 0 <= i < j < |order| :: FirstVote(v + [x], order[i]) < FirstVote(v + [x], order[j])
  {
    forall i | 0 <= i < |order| ensures FirstVote(v + [x], order[i]) == FirstVote(v, order[i]) {
      FirstVoteAppend(v, x, order[i]);
    }
  }

  /** A key voted for the first time goes after all the others. */
  lemma OrderAfterNewVote(order: seq<string>, v: seq<string>, x: string)
    requires forall i | 0 <= i < |order| :: order[i] in v
    requires forall i, j | 0 <= i < j < |order| :: FirstVote(v, order[i]) < FirstVote(v, order[j])
    requires x !in v
    ensures forall i | 0 <= i < |order + [x]| :: (order + [x])[i] in v + [x]
    ensures forall i, j | 0 <= i < j < |order + [x]| ::
      FirstVote(v + [x], (order + [x])[i]) < FirstVote(v + [x], (order + [x])[j])
  {
    OrderAfterVote(order, v, x);
    assert FirstVote(v + [x], x) == |v|;
    forall i | 0 <= i < |order| ensures FirstVote(v + [x], order[i]) < |v| {
      FirstVoteAppend(v, x, order[i]);
    }
  }

  /** There are no votes exactly when the board rejected every candidate. */
  lemma {:induction false} NoVotes(results: seq<Result>)
    ensures Votes(results) == [] <==> forall i | 0 <= i < |results| :: !Accepted(results[i])
  {
    if results != [] {
      var init := results[..|results| - 1];
      NoVotes(init);
      assert forall i | 0 <= i < |init| :: init[i] == results[i];
    }
  }

  /** With no accepted candidate the counter is empty, and conversely. */
  lemma TallyEmpty(results: seq<Result>)
    ensures Tally(results).counts == map[] <==> forall i | 0 <= i < |results| :: !Accepted(results[i])
  {
    TallyKeys(results);
    NoVotes(results);
    if Votes(results) != [] {
      assert Votes(results)[0] in Tally(results).counts;
    }
  }

  /** A key gets votes exactly when some accepted candidate normalised to it. */
  lemma {:induction false} VotesExist(results: seq<Result>)
    ensures forall k :: k in Votes(results) <==>
      exists i | 0 <= i < |results| :: Accepted(results[i]) && results[i].postprocessSan == k
  {
    if results != [] {
      var init := results[..|results| - 1];
      VotesExist(init);
      forall k ensures k in Votes(results) <==>
        exists i | 0 <= i < |results| :: Accepted(results[i]) && results[i].postprocessSan == k
      {
        if exists i | 0 <= i < |results| :: Accepted(results[i]) && results[i].postprocessSan == k {
          var i :| 0 <= i < |results| && Accepted(results[i]) && results[i].postprocessSan == k;
          if i < |init| {
            assert init[i] == results[i];
          }
        }
        if k in Votes(init) {
          var i :| 0 <= i < |init| && Accepted(init[i]) && init[i].postprocessSan == k;
          assert results[i] == init[i];
        }
      }
    }
  }

  /** OutputGeneration: the counter and every Result, in input order. */
  datatype OutputGeneration = OutputGeneration(counter: Counter, listResult: seq<Result>) {

    /**
     * The most_common property: the plurality key, the earliest inserted among
     * ties; ValueError, listing the raw candidates, when nothing was counted.
     */
    function MostCommon(): (r: Wrappers.Result<string, NoValidSan>)
      ensures r.Failure? <==> counter.counts == map[]
      ensures r.Failure? ==> (|r.error.sans| == |listResult| &&
        forall i | 0 <= i < |listResult| :: r.error.sans[i] == listResult[i].san)
      ensures r.Success? ==> exists i: nat :: FirstPlurality(counter, i) && counter.order[i] == r.value
    {
      match Counting.MostCommon(counter)
      case None => Wrappers.Failure(NoValidSan(seq(|listResult|, i requires 0 <= i < |listResult| => listResult[i].san)))
      case Some(k) => Wrappers.Success(k)
    }
  }

  /**
   * OutputGeneration.from_inference: postprocess_result unless another
   * normaliser is given; then probe every raw candidate and count the accepted
   * ones. The Results are the probes of the inputs, in order, all in the
   * starting position, which the board is back in at the end.
   */
  method FromInference(board: Board, listSan: seq<string>, preprocess: Wrappers.Option<string -> string>)
    returns (gen: OutputGeneration)
    modifies board
    ensures board.moveStack == old(board.moveStack)
    ensures gen.listResult == ProbeAll(board.rules, old(board.moveStack), Normaliser(preprocess), listSan)
    ensures gen.counter == Tally(gen.listResult)
  {
    var normalise := Normaliser(preprocess);
    gen := ProbeCandidates(board, listSan, normalise);
  }

  /** from_inference's loop: record a Result for every candidate and count the accepted ones. */
  method ProbeCandidates(board: Board, listSan: seq<string>, normalise: string -> string)
    returns (gen: OutputGeneration)
    modifies board
    ensures board.moveStack == old(board.moveStack)
    ensures gen.listResult == ProbeAll(board.rules, old(board.moveStack), normalise, listSan)
    ensures gen.counter == Tally(gen.listResult)
  {
    ghost var stack := board.moveStack;
    var listResults: seq<Result> := [];
    var counter := Empty();
    for n := 0 to |listSan|
      invariant board.moveStack == stack
      invariant listResults == ProbeAll(board.rules, stack, normalise, listSan[..n])
      invariant counter == Tally(listResults)
    {
      var result := ProbeOne(board, normalise, listSan[n]);
      if Accepted(result) {
        counter := Add(counter, result.postprocessSan);
      }
      TallySnoc(listResults, result);
      assert listSan[..n + 1][..n] == listSan[..n];
      listResults := listResults + [result];
    }
    assert listSan[..|listSan|] == listSan;
    gen := OutputGeneration(counter, listResults);
  }

  /**
   * The body of from_inference's loop for one raw candidate: normalise it, try
   * push_san, pop again when that succeeded, and record the outcome.
   */
  method ProbeOne(board: Board, normalise: string -> string, san: string) returns (result: Result)
    modifies board
    ensures board.moveStack == old(board.moveStack)
    ensures result == Probe(board.rules, old(board.moveStack), normalise, san)
  {
    var exception: Wrappers.Option<MoveError> := Wrappers.None;
    var postprocessSan := normalise(san);
    var pushed := board.PushSan(postprocessSan);
    if pushed.Failure? {
      exception := Wrappers.Some(pushed.error);
    } else {
      ghost var pushedStack := board.moveStack;
      var _ := board.Pop();
      assert pushedStack[..|pushedStack| - 1] == board.moveStack;
      assert pushedStack[..|pushedStack| - 1] == old(board.moveStack);
    }
    result := Result(san, postprocessSan, exception);
  }

  /** Counting one more Result: an accepted one adds its normalised text, a rejected one nothing. */
  lemma TallySnoc(results: seq<Result>, r: Result)
    ensures Tally(results + [r]) == if Accepted(r) then Add(Tally(results), r.postprocessSan) else Tally(results)
  {
    assert (results + [r])[..|results|] == results;
  }

  /**
   * What from_inference produces, stated on its own: one Result per input in
   * input order carrying the raw text; postprocess_result unless another
   * function is given; exception unset exactly when the board accepts the
   * normalised text.
   */
  lemma ProbeShape(rules: Rules, stack: seq<Move>, preprocess: Wrappers.Option<string -> string>, san: string)
    ensures var r := Probe(rules, stack, Normaliser(preprocess), san);
      && r.san == san
      && r.postprocessSan == (if preprocess.None? then Process.PostprocessResult(san) else preprocess.value(san))
      && (Accepted(r) <==> Legal(rules, stack, r.postprocessSan))
  {
  }

  /** most_common on from_inference's counter fails exactly when the board rejected every candidate. */
  lemma WinnerFails(results: seq<Result>)
    ensures OutputGeneration(Tally(results), results).MostCommon().Failure? <==>
      forall i | 0 <= i < |results| :: !Accepted(results[i])
  {
    TallyEmpty(results);
  }

  /** The winner is a voted-for text, and no text got more votes. */
  lemma WinnerMostVoted(results: seq<Result>, k: string)
    requires OutputGeneration(Tally(results), results).MostCommon().Success?
    ensures var w := OutputGeneration(Tally(results), results).MostCommon().value;
      w in Votes(results) && multiset(Votes(results))[k] <= multiset(Votes(results))[w]
  {
    var c := Tally(results);
    var w := OutputGeneration(c, results).MostCommon().value;
    var i: nat :| FirstPlurality(c, i) && c.order[i] == w;
    TallyCounts(results);
    TallyKeys(results);
    assert Get(c, w) == c.counts[w];
    if k in c.counts {
      assert Get(c, k) == c.counts[k];
    }
  }

  /**
   * The tie-break on the counter alone: a key with as many votes as the first
   * plurality key comes no earlier in the order, so it was first voted for no
   * earlier either.
   */
  lemma PluralityFirstVoted(c: Counter, votes: seq<string>, i: nat, k: string)
    requires FirstPlurality(c, i)
    requires forall x :: x in c.counts <==> x in votes
    requires forall a | 0 <= a < |c.order| :: c.order[a] in votes
    requires forall a, b | 0 <= a < b < |c.order| :: FirstVote(votes, c.order[a]) < FirstVote(votes, c.order[b])
    requires k in c.counts && c.counts[k] == c.counts[c.order[i]]
    ensures k == c.order[i] || FirstVote(votes, c.order[i]) < FirstVote(votes, k)
  {
    var j :| 0 <= j < |c.order| && c.order[j] == k;
    if i < j {
      assert FirstVote(votes, c.order[i]) < FirstVote(votes, c.order[j]);
    }
  }

  /** Among texts with as many votes as the winner, the winner was voted for first. */
  lemma WinnerEarliestAmongTies(results: seq<Result>, k: string)
    requires OutputGeneration(Tally(results), results).MostCommon().Success?
    requires var w := OutputGeneration(Tally(results), results).MostCommon().value;
      k in Votes(results) && multiset(Votes(results))[k] == multiset(Votes(results))[w]
    ensures var w := OutputGeneration(Tally(results), results).MostCommon().value;
      w in Votes(results) && (k == w || FirstVote(Votes(results), w) < FirstVote(Votes(results), k))
  {
    var c := Tally(results);
    var votes := Votes(results);
    var w := OutputGeneration(c, results).MostCommon().value;
    var i: nat :| FirstPlurality(c, i) && c.order[i] == w;
    TallyCounts(results);
    TallyKeys(results);
    TallyOrder(results);
    assert k in c.counts && w in c.counts;
    assert c.counts[k] == c.counts[w] by {
      assert Get(c, k) == multiset(votes)[k] && Get(c, w) == multiset(votes)[w];
    }
    PluralityFirstVoted(c, votes, i, k);
  }

  /** An empty counter has no most common move: the ValueError case. */
  lemma EmptyCounterFails(listResult: seq<Result>)
    ensures OutputGeneration(Empty(), listResult).MostCommon().Failure?
  {
  }

  /** Two different accepted candidates, one vote each: the first one wins the tie. */
  lemma TieGoesToFirst(a: Result, b: Result)
    requires Accepted(a) && Accepted(b) && a.postprocessSan != b.postprocessSan
    ensures OutputGeneration(Tally([a, b]), [a, b]).MostCommon() == Wrappers.Success(a.postprocessSan)
  {
    var rs := [a, b];
    assert rs[..1] == [a] && [a][..0] == [];
    var votes := [a.postprocessSan, b.postprocessSan];
    assert Votes(rs) == votes;
    WinnerFails(rs);
    var w := OutputGeneration(Tally(rs), rs).MostCommon().value;
    WinnerMostVoted(rs, a.postprocessSan);
    assert multiset(votes)[a.postprocessSan] == 1 == multiset(votes)[w];
    WinnerEarliestAmongTies(rs, a.postprocessSan);
  }

  /** Two votes beat one, even when the single vote came first. */
  lemma MajorityWins(a: Result, b: Result, c: Result)
    requires Accepted(a) && Accepted(b) && Accepted(c)
    requires b.postprocessSan == c.postprocessSan != a.postprocessSan
    ensures OutputGeneration(Tally([a, b, c]), [a, b, c]).MostCommon() == Wrappers.Success(b.postprocessSan)
  {
    var rs := [a, b, c];
    assert rs[..2] == [a, b] && [a, b][..1] == [a] && [a][..0] == [];
    var votes := [a.postprocessSan, b.postprocessSan, c.postprocessSan];
    assert Votes([a, b]) == votes[..2];
    assert Votes(rs) == votes;
    WinnerFails(rs);
    WinnerMostVoted(rs, b.postprocessSan);
    assert multiset(votes)[b.postprocessSan] == 2;
    assert multiset(votes)[a.postprocessSan] == 1;
  }

  /** A rejected candidate has no say, even when it would have tied. */
  lemma RejectedDoesNotVote(a: Result, b: Result)
    requires !Accepted(a) && Accepted(b)
    ensures OutputGeneration(Tally([a, b]), [a, b]).MostCommon() == Wrappers.Success(b.postprocessSan)
  {
    var rs := [a, b];
    assert rs[..1] == [a] && [a][..0] == [];
    assert Votes(rs) == [b.postprocessSan];
    WinnerFails(rs);
    WinnerMostVoted(rs, b.postprocessSan);
  }

  /** OutputInference: the cost-accounting record (its float properties are not modelled). */
  datatype OutputInference = OutputInference(
    modelId: Identifiers.ModelId, numberRequests: int, inputsTokens: int, outputsTokens: int)

  /** Output: both records at once. */
  datatype Output = Output(
    counter: Counter, listResult: seq<Result>,
    modelId: Identifiers.ModelId, numberRequests: int, inputsTokens: int, outputsTokens: int)
  {
    /** The OutputGeneration part. */
    function Generation(): OutputGeneration {
      OutputGeneration(counter, listResult)
    }

    /** The OutputInference part. */
    function Inference(): OutputInference {
      OutputInference(modelId, numberRequests, inputsTokens, outputsTokens)
    }
  }

  /** Output.from_outputs: an Output whose two parts are exactly the given records. */
  function FromOutputs(outputGen: OutputGeneration, outputInf: OutputInference): (o: Output)
    ensures o.Generation() == outputGen && o.Inference() == outputInf
  {
    Output(outputGen.counter, outputGen.listResult,
      outputInf.modelId, outputInf.numberRequests, outputInf.inputsTokens, outputInf.outputsTokens)
  }
}

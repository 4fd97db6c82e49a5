/** The byte-level system carrying responses: what the reader has forwarded at any moment of any run. */
module AsyncResponses {
  import opened Common
  import opened Session
  import opened Framing
  import opened Responses
  import B = AsyncBytes

  /** The output so far, with its completed files taken as responses. */
  ghost predicate ShowsResponses(rs: seq<seq<Piece>>, o: Output) {
    IsOpenResponse(rs, ResponsesOf(o.files), o.open)
  }

  lemma OutputAsResponses(rs: seq<seq<Piece>>, o: Output)
    requires IsOpenPrefix(AllFiles(rs), o)
    ensures ShowsResponses(rs, o)
  {
    hide AllFiles, ResponsesOf, IsOpenResponse;
    assert o.files == AllFiles(rs)[..|o.files|];
    FirstFilesAsResponses(rs, |o.files|, o.open);
  }

  /** The responses on the reader's side, in every reachable byte-level state: those completed are the
      first responses sent, and what there is of the next one is a prefix of it, piece by piece. */
  lemma DeliveredResponses(h: Hash, rs: seq<seq<Piece>>, run: seq<B.State>)
    requires B.IsRun(h, SessionItems(h, AllFiles(rs)), run)
    ensures ShowsResponses(rs, OutputOf(run[|run| - 1].delivered))
  {
    B.DeliveredFiles(h, AllFiles(rs), run);
    hide *;
    OutputAsResponses(rs, OutputOf(run[|run| - 1].delivered));
  }

  /** When a run cannot go on, every response has arrived, with its own boundaries, and nothing else. */
  lemma AllResponsesArrive(h: Hash, rs: seq<seq<Piece>>, run: seq<B.State>)
    requires B.IsRun(h, SessionItems(h, AllFiles(rs)), run) && B.Stuck(h, run[|run| - 1])
    ensures var o := OutputOf(run[|run| - 1].delivered);
      ResponsesOf(o.files) == Responses(rs, []) && o.open == []
  {
    B.AllFilesArrive(h, AllFiles(rs), run);
    ResponsesOfAll(rs);
  }
}

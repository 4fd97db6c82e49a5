/** What a list of files amounts to as responses: the ones closed by an empty file, and the pieces of the
    one still open. This is the reader's view while a response is under way. */
module Responses {
  import opened Common
  import opened Framing

  datatype Responses = Responses(done: seq<seq<Piece>>, open: seq<Piece>)

  function ResponsesOf(files: seq<seq<byte>>): Responses {
    if files == [] then Responses([], []) else
    var r, f := ResponsesOf(files[..|files| - 1]), files[|files| - 1];
    if f == [] then Responses(r.done + [r.open], []) else r.(open := r.open + [f])
  }

  lemma OneMoreFile(files: seq<seq<byte>>, f: seq<byte>)
    ensures var r := ResponsesOf(files);
      ResponsesOf(files + [f]) ==
        if f == [] then Responses(r.done + [r.open], []) else Responses(r.done, r.open + [f])
  {
    assert (files + [f])[..|files|] == files;
  }

  lemma {:induction false} MorePieces(files: seq<seq<byte>>, pieces: seq<Piece>)
    ensures var r := ResponsesOf(files);
      ResponsesOf(files + pieces) == Responses(r.done, r.open + pieces)
  {
    var r := ResponsesOf(files);
    if pieces == [] {
      assert files + pieces == files && r.open + pieces == r.open;
    } else {
      var k := |pieces| - 1;
      MorePieces(files, pieces[..k]);
      hide *;
      SplitLast(pieces);
      Associate(files, pieces[..k], [pieces[k]]);
      Associate(r.open, pieces[..k], [pieces[k]]);
      OneMoreFile(files + pieces[..k], pieces[k]);
    }
  }

  lemma OneMoreResponse(files: seq<seq<byte>>, pieces: seq<Piece>)
    requires ResponsesOf(files).open == []
    ensures ResponsesOf(files + ResponseFiles(pieces)) == Responses(ResponsesOf(files).done + [pieces], [])
  {
    MorePieces(files, pieces);
    Associate<seq<byte>>(files, pieces, [[]]);
    OneMoreFile(files + pieces, []);
    assert [] + pieces == pieces;
  }

  /** Everything the relay sends for a list of responses reads back as that list, nothing left open. */
  lemma {:induction false} ResponsesOfAll(rs: seq<seq<Piece>>)
    ensures ResponsesOf(AllFiles(rs)) == Responses(rs, [])
  {
    if rs == [] {
    } else {
      ResponsesOfAll(rs[..|rs| - 1]);
      OneMoreResponse(AllFiles(rs[..|rs| - 1]), rs[|rs| - 1]);
      SplitLast(rs);
    }
  }

  /** r is an earlier view of what is r' later on. */
  ghost predicate Within(r: Responses, r': Responses) {
    && r.done <= r'.done
    && r.open <= if |r.done| < |r'.done| then r'.done[|r.done|] else r'.open
  }

  /** Files that come later only add to the responses seen so far. */
  lemma {:induction false} LaterFilesAdd(a: seq<seq<byte>>, b: seq<seq<byte>>)
    ensures Within(ResponsesOf(a), ResponsesOf(a + b))
  {
    if b == [] {
      assert a + b == a;
    } else {
      var k := |b| - 1;
      LaterFilesAdd(a, b[..k]);
      SplitLast(b);
      Associate(a, b[..k], [b[k]]);
      OneMoreFile(a + b[..k], b[k]);
    }
  }

  lemma FlattenPrefix(a: seq<seq<byte>>, b: seq<seq<byte>>)
    requires a <= b
    ensures Flatten(a) <= Flatten(b)
  {
    assert b == a + b[|a|..];
    FlattenConcat(a, b[|a|..]);
  }

  /** Some whole responses and, of the next one, some whole pieces and then a part of another. */
  ghost predicate IsOpenResponse(rs: seq<seq<Piece>>, r: Responses, part: seq<byte>) {
    && r.done <= rs
    && if |r.done| < |rs| then r.open <= rs[|r.done|] && Flatten(r.open) + part <= Flatten(rs[|r.done|])
       else r.open == [] && part == []
  }

  lemma NextFileOpens(rs: seq<seq<Piece>>, files: seq<seq<byte>>, f: seq<byte>, part: seq<byte>)
    requires Within(ResponsesOf(files), Responses(rs, [])) && Within(ResponsesOf(files + [f]), Responses(rs, []))
    requires part <= f
    ensures IsOpenResponse(rs, ResponsesOf(files), part)
  {
    var r := ResponsesOf(files);
    OneMoreFile(files, f);
    hide ResponsesOf, Flatten;
    if f == [] {
      FlattenPrefix(r.open, rs[|r.done|]);
      assert Flatten(r.open) + part == Flatten(r.open);
    } else {
      FlattenPrefix(r.open + [f], rs[|r.done|]);
      FlattenAppend(r.open, f);
    }
  }

  lemma NothingOpen(rs: seq<seq<Piece>>)
    ensures IsOpenResponse(rs, Responses(rs, []), [])
  {
  }

  lemma SplitAt(s: seq<seq<byte>>, d: nat)
    requires d < |s|
    ensures s == s[..d] + s[d..] == (s[..d] + [s[d]]) + s[d + 1..]
  {
  }

  /** The first d files of a list of responses, and a part of the next file, as responses. */
  lemma FirstFilesAsResponses(rs: seq<seq<Piece>>, d: nat, part: seq<byte>)
    requires d <= |AllFiles(rs)|
    requires if d < |AllFiles(rs)| then part <= AllFiles(rs)[d] else part == []
    ensures IsOpenResponse(rs, ResponsesOf(AllFiles(rs)[..d]), part)
  {
    hide *;
    var all := AllFiles(rs);
    ResponsesOfAll(rs);
    if d == |all| {
      assert all[..d] == all;
      NothingOpen(rs);
    } else {
      SplitAt(all, d);
      LaterFilesAdd(all[..d], all[d..]);
      LaterFilesAdd(all[..d] + [all[d]], all[d + 1..]);
      NextFileOpens(rs, all[..d], all[d], part);
    }
  }
}

/** Responses on top of files: the relay sends a response as a run of non-empty files closed by an empty
    one, and the reader tells the end by a block count of 1. */
module Framing {
  import opened Common
  import opened Chunker
  import opened Wire
  import opened Protocol
  import opened Session

  /** The pieces one response was received in; `recv` never hands over an empty piece. */
  type Piece = b: seq<byte> | b != [] witness [0]

  /** What the relay sends for one response. */
  function ResponseFiles(pieces: seq<Piece>): seq<seq<byte>> {
    pieces + [[]]
  }

  function AllFiles(rs: seq<seq<Piece>>): seq<seq<byte>> {
    if rs == [] then [] else AllFiles(rs[..|rs| - 1]) + ResponseFiles(rs[|rs| - 1])
  }

  /** What the relay writes for one response, from server cache m. */
  function ResponseBytes(h: Hash, m: ServerCache, pieces: seq<Piece>): seq<byte> {
    EncodeAll(Send(h, m, SessionItems(h, ResponseFiles(pieces))).msgs)
  }

  /** The server's cache after it. */
  function ResponseCache(h: Hash, m: ServerCache, pieces: seq<Piece>): ServerCache {
    Send(h, m, SessionItems(h, ResponseFiles(pieces))).cache
  }

  datatype Forwarded = Forwarded(sent: seq<seq<byte>>, cache: ClientCache, rest: seq<byte>, missed: bool)

  /** The reader's loop for one response: what it hands to the browser, call by call. */
  function Forward(c: ClientCache, bytes: seq<byte>): (r: Forwarded)
    ensures |r.rest| <= |bytes|
    decreases |bytes|
  {
    var f := RecvFile(c, bytes);
    if f.missed then Forwarded([], f.cache, f.rest, true)
    else if f.count > 1 then
      var r := Forward(f.cache, f.rest);
      r.(sent := [f.out] + r.sent)
    else Forwarded([], f.cache, f.rest, false)
  }

  /** The reader handling n responses in turn. */
  function ForwardAll(c: ClientCache, bytes: seq<byte>, n: nat): (seq<seq<seq<byte>>>, Forwarded) {
    if n == 0 then ([], Forwarded([], c, bytes, false)) else
    var (done, r) := ForwardAll(c, bytes, n - 1);
    var f := Forward(r.cache, r.rest);
    if r.missed then (done, r) else (done + [f.sent], f)
  }

  // --- Responses as bytes ---

  lemma {:induction false} ItemsConcat(h: Hash, a: seq<seq<byte>>, b: seq<seq<byte>>)
    ensures SessionItems(h, a + b) == SessionItems(h, a) + SessionItems(h, b)
  {
    if b == [] {
      assert a + b == a;
    } else {
      var k := |b| - 1;
      assert (a + b)[..|a + b| - 1] == a + b[..k];
      ItemsConcat(h, a, b[..k]);
      Associate(SessionItems(h, a), SessionItems(h, b[..k]), FileItems(h, b[k]));
    }
  }

  /** A response with no pieces is one end-of-file descriptor, and leaves the cache alone. */
  lemma ResponseNone(h: Hash, m: ServerCache)
    ensures ResponseBytes(h, m, []) == FileBytes(h, m, []) && |ResponseBytes(h, m, [])| == DESC_SIZE
    ensures ResponseCache(h, m, []) == m == Send(h, m, FileItems(h, [])).cache
  {
    assert ResponseFiles([]) == [[]];
    OneFile(h, []);
    ChunkLengths(h, []);
    assert FileItems(h, []) == [End];
    SendAppend(h, m, [], End);
    assert [] + [End] == [End] && [] + [Eof] == [Eof];
    EncodeOne(Eof);
  }

  lemma SplitFirst(pieces: seq<Piece>)
    requires pieces != []
    ensures pieces == [pieces[0]] + pieces[1..]
  {
  }

  /** The bytes of a response begin with those of its first piece. */
  lemma ResponseFirst(h: Hash, m: ServerCache, pieces: seq<Piece>)
    requires pieces != []
    ensures var m' := Send(h, m, FileItems(h, pieces[0])).cache;
      && ResponseBytes(h, m, pieces) == FileBytes(h, m, pieces[0]) + ResponseBytes(h, m', pieces[1..])
      && ResponseCache(h, m, pieces) == ResponseCache(h, m', pieces[1..])
  {
    var f, more := pieces[0], ResponseFiles(pieces[1..]);
    assert ResponseFiles(pieces) == [f] + more;
    ItemsConcat(h, [f], more);
    OneFile(h, f);
    SendConcat(h, m, FileItems(h, f), SessionItems(h, more));
    var s := Send(h, m, FileItems(h, f));
    EncodeConcat(s.msgs, Send(h, s.cache, SessionItems(h, more)).msgs);
  }

  lemma StreamAppend(h: Hash, fs: seq<seq<byte>>, pieces: seq<Piece>)
    ensures CacheAfter(h, fs + ResponseFiles(pieces)) == ResponseCache(h, CacheAfter(h, fs), pieces)
    ensures Stream(h, fs + ResponseFiles(pieces)) == Stream(h, fs) + ResponseBytes(h, CacheAfter(h, fs), pieces)
  {
    var more := ResponseFiles(pieces);
    ItemsConcat(h, fs, more);
    SendConcat(h, map[], SessionItems(h, fs), SessionItems(h, more));
    var s := Send(h, map[], SessionItems(h, fs));
    EncodeConcat(s.msgs, Send(h, s.cache, SessionItems(h, more)).msgs);
  }

  /** What was written first is not affected by what is sent later. */
  lemma StreamPrefix(h: Hash, a: seq<seq<byte>>, b: seq<seq<byte>>)
    ensures Stream(h, a) <= Stream(h, a + b)
  {
    ItemsConcat(h, a, b);
    SendConcat(h, map[], SessionItems(h, a), SessionItems(h, b));
    var s := Send(h, map[], SessionItems(h, a));
    EncodeConcat(s.msgs, Send(h, s.cache, SessionItems(h, b)).msgs);
  }

  lemma SamePrefixCancels(f: seq<byte>, a: seq<byte>, b: seq<byte>)
    ensures f + a == f + b <==> a == b
  {
    if f + a == f + b {
      assert a == (f + a)[|f|..] == (f + b)[|f|..] == b;
    }
  }

  // --- Exactness ---

  /** One file reaching the reader: a non-empty one is handed on, an empty one ends the response. */
  lemma ForwardFile(h: Hash, m: ServerCache, c: ClientCache, f: seq<byte>, after: seq<byte>)
    requires InSync(m, c, None)
    ensures var m' := Send(h, m, FileItems(h, f)).cache;
      var r := Forward(Held(m'), after);
      Forward(c, FileBytes(h, m, f) + after) ==
        if f == [] then Forwarded([], Held(m'), after, false) else r.(sent := [f] + r.sent)
  {
    FileExact(h, m, c, f, after);
    CountBounds(h, f);
  }

  lemma ResponseSync(h: Hash, m: ServerCache, c: ClientCache, pieces: seq<Piece>)
    requires InSync(m, c, None)
    ensures InSync(ResponseCache(h, m, pieces), Held(ResponseCache(h, m, pieces)), None)
  {
    SyncAfter(h, m, c, SessionItems(h, ResponseFiles(pieces)));
  }

  lemma ForwardNone(h: Hash, m: ServerCache, c: ClientCache, tail: seq<byte>)
    requires InSync(m, c, None)
    ensures Forward(c, ResponseBytes(h, m, []) + tail) == Forwarded([], Held(ResponseCache(h, m, [])), tail, false)
  {
    hide *;
    ResponseNone(h, m);
    ForwardFile(h, m, c, [], tail);
  }

  lemma ForwardFirst(h: Hash, m: ServerCache, c: ClientCache, pieces: seq<Piece>, tail: seq<byte>)
    requires InSync(m, c, None) && pieces != []
    requires var m' := Send(h, m, FileItems(h, pieces[0])).cache;
      Forward(Held(m'), ResponseBytes(h, m', pieces[1..]) + tail) ==
        Forwarded(pieces[1..], Held(ResponseCache(h, m', pieces[1..])), tail, false)
    ensures Forward(c, ResponseBytes(h, m, pieces) + tail) ==
      Forwarded(pieces, Held(ResponseCache(h, m, pieces)), tail, false)
  {
    hide *;
    var f, more := pieces[0], pieces[1..];
    var m' := Send(h, m, FileItems(h, f)).cache;
    ResponseFirst(h, m, pieces);
    ForwardFile(h, m, c, f, ResponseBytes(h, m', more) + tail);
    Associate(FileBytes(h, m, f), ResponseBytes(h, m', more), tail);
    SplitFirst(pieces);
  }

  /** One response, from any synchronised caches: the reader forwards the very pieces the relay received,
      stops at the closing empty file, and leaves the next response unread. */
  lemma {:induction false} ForwardExact(h: Hash, m: ServerCache, c: ClientCache, pieces: seq<Piece>, tail: seq<byte>)
    requires InSync(m, c, None)
    ensures var m' := ResponseCache(h, m, pieces);
      && InSync(m', Held(m'), None)
      && Forward(c, ResponseBytes(h, m, pieces) + tail) == Forwarded(pieces, Held(m'), tail, false)
    decreases |pieces|
  {
    ResponseSync(h, m, c, pieces);
    hide *;
    if pieces == [] {
      ForwardNone(h, m, c, tail);
    } else {
      var m' := Send(h, m, FileItems(h, pieces[0])).cache;
      SyncAfter(h, m, c, FileItems(h, pieces[0]));
      ForwardExact(h, m', Held(m'), pieces[1..], tail);
      ForwardFirst(h, m, c, pieces, tail);
    }
  }

  /** Response framing: for every list of responses and every way each was split into non-empty pieces,
      the reader forwards the same responses, piece by piece, with the same boundaries. */
  lemma {:induction false} FramingExact(h: Hash, rs: seq<seq<Piece>>, tail: seq<byte>)
    ensures var m := CacheAfter(h, AllFiles(rs));
      var (all, last) := ForwardAll(map[], Stream(h, AllFiles(rs)) + tail, |rs|);
      && InSync(m, Held(m), None)
      && all == rs
      && last.cache == Held(m) && last.rest == tail && !last.missed
  {
    if rs == [] {
      assert Stream(h, AllFiles(rs)) + tail == tail;
    } else {
      var k := |rs| - 1;
      var pre := AllFiles(rs[..k]);
      var m := CacheAfter(h, pre);
      var response := ResponseBytes(h, m, rs[k]);
      StreamAppend(h, pre, rs[k]);
      Associate(Stream(h, pre), response, tail);
      FramingExact(h, rs[..k], response + tail);
      ForwardExact(h, m, Held(m), rs[k], tail);
      SplitLast(rs);
    }
  }

  // --- Responses that are cut off ---

  /** What a response amounts to when only its first n bytes arrive: the pieces that arrived whole, and
      those blocks of the next piece that did. */
  function ArrivedPieces(h: Hash, m: ServerCache, pieces: seq<Piece>, n: nat): seq<Piece>
    requires n < |ResponseBytes(h, m, pieces)|
    decreases |pieces|
  {
    if pieces == [] then [] else
    ResponseFirst(h, m, pieces);
    var f := pieces[0];
    if n < |FileBytes(h, m, f)| then
      var g := ArrivedFile(h, m, f, n);
      if g == [] then [] else [g]
    else
      [f] + ArrivedPieces(h, Send(h, m, FileItems(h, f)).cache, pieces[1..], n - |FileBytes(h, m, f)|)
  }

  /** The cut falls inside the first piece, or after it. */
  lemma ArrivedCases(h: Hash, m: ServerCache, pieces: seq<Piece>, n: nat)
    requires pieces != [] && n < |ResponseBytes(h, m, pieces)|
    ensures var f, more, got := pieces[0], pieces[1..], ArrivedPieces(h, m, pieces, n);
      var i, m' := n - |FileBytes(h, m, f)|, Send(h, m, FileItems(h, f)).cache;
      if i < 0 then got == if ArrivedFile(h, m, f, n) == [] then [] else [ArrivedFile(h, m, f, n)]
      else i < |ResponseBytes(h, m', more)| && got == [f] + ArrivedPieces(h, m', more, i)
  {
    hide Send, FileItems, ArrivedFile, FileBytes, ResponseBytes;
    ResponseFirst(h, m, pieces);
  }

  /** Some whole pieces, and then possibly a block-aligned prefix of the next. */
  ghost predicate IsBlockPrefix(h: Hash, pieces: seq<Piece>, got: seq<Piece>, j: nat, k: nat) {
    && j <= |pieces|
    && (got == pieces[..j] ||
        (j < |pieces| && k <= |Chunks(h, pieces[j])| && got == pieces[..j] + [Flatten(Chunks(h, pieces[j])[..k])]))
  }

  lemma OneMorePiece(h: Hash, pieces: seq<Piece>, got: seq<Piece>, j: nat, k: nat)
    requires pieces != [] && IsBlockPrefix(h, pieces[1..], got, j, k)
    ensures IsBlockPrefix(h, pieces, [pieces[0]] + got, j + 1, k)
  {
    hide Chunks, Flatten;
    assert pieces[..j + 1] == [pieces[0]] + pieces[1..][..j];
  }

  lemma NothingArrives(h: Hash, m: ServerCache, n: nat)
    requires n < |ResponseBytes(h, m, [])|
    ensures IsBlockPrefix(h, [], ArrivedPieces(h, m, [], n), 0, 0)
  {
  }

  lemma FirstOfNone(pieces: seq<Piece>, g: seq<byte>)
    ensures pieces[..0] + [g] == [g] && pieces[..0] == []
  {
  }

  lemma CutPiece(h: Hash, m: ServerCache, pieces: seq<Piece>, n: nat)
    requires n < |ResponseBytes(h, m, pieces)|
    requires pieces != [] && n < |FileBytes(h, m, pieces[0])|
    ensures IsBlockPrefix(h, pieces, ArrivedPieces(h, m, pieces, n), 0, Arrived(h, m, pieces[0], n))
  {
    hide ResponseBytes, ArrivedPieces, Chunks, Flatten, FileBytes, Arrived, Send, FileItems;
    ArrivedCases(h, m, pieces, n);
    FirstOfNone(pieces, ArrivedFile(h, m, pieces[0], n));
  }

  /** The pieces that arrive are whole pieces and then possibly a block-aligned prefix of the next. */
  lemma {:induction false} ArrivedShape(h: Hash, m: ServerCache, pieces: seq<Piece>, n: nat) returns (j: nat, k: nat)
    requires n < |ResponseBytes(h, m, pieces)|
    ensures IsBlockPrefix(h, pieces, ArrivedPieces(h, m, pieces, n), j, k)
    decreases |pieces|
  {
    hide *;
    if pieces == [] {
      j, k := 0, 0;
      NothingArrives(h, m, n);
    } else if n < |FileBytes(h, m, pieces[0])| {
      j, k := 0, Arrived(h, m, pieces[0], n);
      CutPiece(h, m, pieces, n);
    } else {
      ArrivedCases(h, m, pieces, n);
      var m' := Send(h, m, FileItems(h, pieces[0])).cache;
      var i := n - |FileBytes(h, m, pieces[0])|;
      j, k := ArrivedShape(h, m', pieces[1..], i);
      OneMorePiece(h, pieces, ArrivedPieces(h, m', pieces[1..], i), j, k);
      j := j + 1;
    }
  }

  lemma SameFirstFile(c: ClientCache, a: seq<byte>, b: seq<byte>)
    requires RecvFile(c, a) == RecvFile(c, b)
    ensures Forward(c, a) == Forward(c, b)
  {
    hide RecvFile;
  }

  lemma ForwardNothing(c: ClientCache)
    ensures Forward(c, []) == Forwarded([], c, [], false)
  {
  }

  /** The stream stops inside the first file of a response. */
  lemma ForwardCutFile(h: Hash, m: ServerCache, c: ClientCache, f: seq<byte>, n: nat)
    requires InSync(m, c, None) && n < |FileBytes(h, m, f)|
    ensures var g := ArrivedFile(h, m, f, n);
      var m' := Send(h, m, FileItems(h, g)).cache;
      Forward(c, FileBytes(h, m, f)[..n]) == Forwarded(if g == [] then [] else [g], Held(m'), [], false)
  {
    var g := ArrivedFile(h, m, f, n);
    var m' := Send(h, m, FileItems(h, g)).cache;
    hide *;
    StopLooksLikeEnd(h, m, c, f, n);
    SameFirstFile(c, FileBytes(h, m, f)[..n], FileBytes(h, m, g));
    ForwardFile(h, m, c, g, []);
    ForwardNothing(Held(m'));
    assert FileBytes(h, m, g) + [] == FileBytes(h, m, g);
    assert [g] + [] == [g];
  }

  lemma OnePieceCache(h: Hash, m: ServerCache, g: Piece)
    ensures ResponseCache(h, m, [g]) == Send(h, m, FileItems(h, g)).cache
  {
    ResponseFirst(h, m, [g]);
    ResponseNone(h, Send(h, m, FileItems(h, g)).cache);
  }

  lemma FirstPieceCache(h: Hash, m: ServerCache, f: Piece, more: seq<Piece>)
    ensures ResponseCache(h, m, [f] + more) == ResponseCache(h, Send(h, m, FileItems(h, f)).cache, more)
  {
    ResponseFirst(h, m, [f] + more);
    assert ([f] + more)[1..] == more;
  }

  lemma TakeFirst<T>(a: seq<T>, b: seq<T>, i: nat)
    requires i <= |a|
    ensures (a + b)[..i] == a[..i]
  {
  }

  /** A response of which the first n bytes arrive is forwarded as far as it arrived, and the reader then
      has the cache, and nothing left to read, as after a complete response. */
  ghost predicate ForwardsAsArrived(h: Hash, m: ServerCache, c: ClientCache, pieces: seq<Piece>, n: nat)
    requires n < |ResponseBytes(h, m, pieces)|
  {
    var got := ArrivedPieces(h, m, pieces, n);
    Forward(c, ResponseBytes(h, m, pieces)[..n]) == Forwarded(got, Held(ResponseCache(h, m, got)), [], false)
  }

  lemma ForwardCutNone(h: Hash, m: ServerCache, c: ClientCache, n: nat)
    requires InSync(m, c, None) && n < |ResponseBytes(h, m, [])|
    ensures ForwardsAsArrived(h, m, c, [], n)
  {
    ResponseNone(h, m);
    hide ResponseBytes, ResponseCache, FileBytes, Send, Forward, Held, ArrivedFile, InSync;
    ForwardCutFile(h, m, c, [], n);
    StopLooksLikeEnd(h, m, c, [], n);
  }

  lemma ForwardCutFirst(h: Hash, m: ServerCache, c: ClientCache, pieces: seq<Piece>, n: nat)
    requires InSync(m, c, None) && n < |ResponseBytes(h, m, pieces)|
    requires pieces != [] && n < |FileBytes(h, m, pieces[0])|
    ensures ForwardsAsArrived(h, m, c, pieces, n)
  {
    var f := pieces[0];
    ResponseFirst(h, m, pieces);
    ArrivedCases(h, m, pieces, n);
    ResponseNone(h, m);
    ForwardCutFile(h, m, c, f, n);
    var g := ArrivedFile(h, m, f, n);
    hide ResponseBytes, ResponseCache, ArrivedPieces, FileBytes, Send, Forward, Held, ArrivedFile;
    TakeFirst(FileBytes(h, m, f), ResponseBytes(h, Send(h, m, FileItems(h, f)).cache, pieces[1..]), n);
    if g != [] {
      OnePieceCache(h, m, g);
    }
  }

  lemma ForwardCutLater(h: Hash, m: ServerCache, c: ClientCache, pieces: seq<Piece>, n: nat, i: nat)
    requires InSync(m, c, None) && n < |ResponseBytes(h, m, pieces)|
    requires pieces != [] && n == |FileBytes(h, m, pieces[0])| + i
    requires var m' := Send(h, m, FileItems(h, pieces[0])).cache;
      i < |ResponseBytes(h, m', pieces[1..])| && ForwardsAsArrived(h, m', Held(m'), pieces[1..], i)
    ensures ForwardsAsArrived(h, m, c, pieces, n)
  {
    hide ResponseBytes, ResponseCache, ArrivedPieces, FileBytes, Send, FileItems, Forward, Held, ArrivedFile, InSync;
    var f, more := pieces[0], pieces[1..];
    var m' := Send(h, m, FileItems(h, f)).cache;
    ResponseFirst(h, m, pieces);
    ArrivedCases(h, m, pieces, n);
    TakeSecond(FileBytes(h, m, f), ResponseBytes(h, m', more), i);
    ForwardFile(h, m, c, f, ResponseBytes(h, m', more)[..i]);
    FirstPieceCache(h, m, f, ArrivedPieces(h, m', more, i));
  }

  lemma {:induction false} ForwardCut(h: Hash, m: ServerCache, c: ClientCache, pieces: seq<Piece>, n: nat)
    requires InSync(m, c, None) && n < |ResponseBytes(h, m, pieces)|
    ensures ForwardsAsArrived(h, m, c, pieces, n)
    decreases |pieces|
  {
    if pieces == [] {
      ForwardCutNone(h, m, c, n);
    } else if n < |FileBytes(h, m, pieces[0])| {
      ForwardCutFirst(h, m, c, pieces, n);
    } else {
      ArrivedCases(h, m, pieces, n);
      hide *;
      var m' := Send(h, m, FileItems(h, pieces[0])).cache;
      var i := n - |FileBytes(h, m, pieces[0])|;
      SyncAfter(h, m, c, FileItems(h, pieces[0]));
      ForwardCut(h, m', Held(m'), pieces[1..], i);
      ForwardCutLater(h, m, c, pieces, n, i);
    }
  }

  /** What the reader cannot tell: a response that was cut off is forwarded exactly as the complete
      response made of the pieces and blocks that arrived, and is taken to be finished. */
  lemma CutResponseLooksComplete(h: Hash, m: ServerCache, c: ClientCache, pieces: seq<Piece>, n: nat)
    requires InSync(m, c, None) && n < |ResponseBytes(h, m, pieces)|
    ensures var got := ArrivedPieces(h, m, pieces, n);
      && Forward(c, ResponseBytes(h, m, pieces)[..n]) == Forward(c, ResponseBytes(h, m, got))
      && Forward(c, ResponseBytes(h, m, pieces)[..n]).sent == got
  {
    var got := ArrivedPieces(h, m, pieces, n);
    ForwardCut(h, m, c, pieces, n);
    ForwardExact(h, m, c, got, []);
    hide *;
    assert ResponseBytes(h, m, got) + [] == ResponseBytes(h, m, got);
  }

  // --- When a cut-off response is undamaged ---

  lemma FlattenFirst(f: seq<byte>, more: seq<seq<byte>>)
    ensures Flatten([f] + more) == f + Flatten(more)
  {
    FlattenConcat([f], more);
    assert [f][..0] == [];
  }

  lemma RestLength(h: Hash, m: ServerCache, pieces: seq<Piece>)
    ensures |ResponseBytes(h, m, pieces)| >= DESC_SIZE
  {
    hide *;
    if pieces == [] {
      ResponseNone(h, m);
    } else {
      ResponseFirst(h, m, pieces);
      FileAccounting(h, m, pieces[0]);
    }
  }

  lemma ResponseLength(h: Hash, m: ServerCache, pieces: seq<Piece>)
    requires pieces != []
    ensures |ResponseBytes(h, m, pieces)| > 2 * DESC_SIZE && |Flatten(pieces)| > 0
  {
    hide ResponseBytes, FileBytes, Chunks, Send, Flatten, Literal;
    var f, more := pieces[0], pieces[1..];
    ResponseFirst(h, m, pieces);
    FileAccounting(h, m, f);
    ChunkLengths(h, f);
    RestLength(h, Send(h, m, FileItems(h, f)).cache, more);
    SplitFirst(pieces);
    FlattenFirst(f, more);
  }

  /** What is left of a piece that was cut off is the whole of a response only if it was the last piece
      and only its end-of-file descriptor is hit. */
  lemma CutInFirstPiece(h: Hash, m: ServerCache, f: Piece, more: seq<Piece>, n: nat)
    requires n < |FileBytes(h, m, f)|
    requires more != [] ==> |Flatten(more)| > 0
    ensures var g := ArrivedFile(h, m, f, n);
      Flatten(if g == [] then [] else [g]) == f + Flatten(more) <==>
        more == [] && n + DESC_SIZE >= |FileBytes(h, m, f)|
  {
    AllArrivedIff(h, m, f, n);
    FirstBlocksStandAlone(h, f, Arrived(h, m, f, n));
    var g := ArrivedFile(h, m, f, n);
    hide Chunks, FileBytes, ArrivedFile, Arrived;
    FlattenFirst(g, []);
    assert [g] + [] == [g] && Flatten<byte>([]) == [] && g + [] == g && f + [] == f;
  }

  lemma UndamagedNone(h: Hash, m: ServerCache, n: nat)
    requires n < |ResponseBytes(h, m, [])|
    ensures Flatten(ArrivedPieces(h, m, [], n)) == [] && n + 2 * DESC_SIZE >= |ResponseBytes(h, m, [])|
  {
    ResponseNone(h, m);
    hide ResponseBytes, ResponseCache, FileBytes, Send;
  }

  lemma UndamagedFirst(h: Hash, m: ServerCache, pieces: seq<Piece>, n: nat)
    requires n < |ResponseBytes(h, m, pieces)|
    requires pieces != [] && n < |FileBytes(h, m, pieces[0])|
    ensures Flatten(ArrivedPieces(h, m, pieces, n)) == Flatten(pieces) <==>
      n + 2 * DESC_SIZE >= |ResponseBytes(h, m, pieces)|
  {
    hide *;
    var f, more := pieces[0], pieces[1..];
    var m' := Send(h, m, FileItems(h, f)).cache;
    ResponseFirst(h, m, pieces);
    ArrivedCases(h, m, pieces, n);
    SplitFirst(pieces);
    FlattenFirst(f, more);
    ResponseNone(h, m');
    if more != [] {
      ResponseLength(h, m', more);
    }
    CutInFirstPiece(h, m, f, more, n);
  }

  lemma UndamagedLater(h: Hash, m: ServerCache, pieces: seq<Piece>, n: nat, i: nat)
    requires n < |ResponseBytes(h, m, pieces)|
    requires pieces != [] && n == |FileBytes(h, m, pieces[0])| + i
    requires var m' := Send(h, m, FileItems(h, pieces[0])).cache;
      && i < |ResponseBytes(h, m', pieces[1..])|
      && (Flatten(ArrivedPieces(h, m', pieces[1..], i)) == Flatten(pieces[1..]) <==>
          i + 2 * DESC_SIZE >= |ResponseBytes(h, m', pieces[1..])|)
    ensures Flatten(ArrivedPieces(h, m, pieces, n)) == Flatten(pieces) <==>
      n + 2 * DESC_SIZE >= |ResponseBytes(h, m, pieces)|
  {
    hide *;
    var f, more := pieces[0], pieces[1..];
    var got := ArrivedPieces(h, Send(h, m, FileItems(h, f)).cache, more, i);
    ResponseFirst(h, m, pieces);
    ArrivedCases(h, m, pieces, n);
    SplitFirst(pieces);
    FlattenFirst(f, more);
    FlattenFirst(f, got);
    SamePrefixCancels(f, Flatten(got), Flatten(more));
  }

  /** Exactly when a cut-off response is nevertheless undamaged: when only the two closing descriptors,
      the one of its last piece and the one of the empty file, are hit. */
  lemma {:induction false} ResponseUndamagedIff(h: Hash, m: ServerCache, pieces: seq<Piece>, n: nat)
    requires n < |ResponseBytes(h, m, pieces)|
    ensures Flatten(ArrivedPieces(h, m, pieces, n)) == Flatten(pieces) <==>
      n + 2 * DESC_SIZE >= |ResponseBytes(h, m, pieces)|
    decreases |pieces|
  {
    if pieces == [] {
      UndamagedNone(h, m, n);
    } else if n < |FileBytes(h, m, pieces[0])| {
      UndamagedFirst(h, m, pieces, n);
    } else {
      hide *;
      ArrivedCases(h, m, pieces, n);
      var i := n - |FileBytes(h, m, pieces[0])|;
      ResponseUndamagedIff(h, Send(h, m, FileItems(h, pieces[0])).cache, pieces[1..], i);
      UndamagedLater(h, m, pieces, n, i);
    }
  }
}

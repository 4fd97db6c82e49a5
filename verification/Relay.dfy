/** The two proxies around the library: `psb` relays each response into the server, `hrd` forwards what the
    client rebuilds to the browser. */
module Relay {
  import opened Common
  import opened Chunker
  import opened Fingerprint
  import opened Protocol
  import opened Session
  import opened Framing
  import opened Responses
  import opened Server
  import opened Client

  const BUFFER_SIZE: nat := 1000

  lemma FileSent(h: Hash, before: seq<Item>, fs: seq<seq<byte>>, f: seq<byte>)
    ensures before + SessionItems(h, fs) + FileItems(h, f) == before + SessionItems(h, fs + [f])
  {
    assert (fs + [f])[..|fs|] == fs;
    Associate(before, SessionItems(h, fs), FileItems(h, f));
  }

  lemma PieceSent(h: Hash, before: seq<Item>, pieces: seq<Piece>, p: Piece, unread: seq<byte>, n: nat)
    requires n <= |unread| && p == unread[..n]
    ensures before + SessionItems(h, pieces) + FileItems(h, p) == before + SessionItems(h, pieces + [p])
    ensures Flatten(pieces + [p]) + unread[n..] == Flatten(pieces) + unread
  {
    FileSent(h, before, pieces, p);
    FlattenAppend(pieces, p);
    Associate(Flatten(pieces), p, unread[n..]);
    assert p + unread[n..] == unread;
  }

  lemma NothingSent(h: Hash, before: seq<Item>, unread: seq<byte>)
    ensures before == before + SessionItems(h, []) && Flatten<byte>([]) + unread == unread
  {
  }

  /** One round of psb's loop: `recv` hands over a piece, and a file is sent for it; at the end of the
      response it hands over nothing, and nothing is sent. */
  method RelayRound(upstream: Socket, server: RabinServer, buffer: array<byte>) returns (n: nat)
    requires server.Valid() && buffer.Length == BUFFER_SIZE
    modifies upstream, server, server.blocks.Values, buffer
    ensures server.Valid() && fresh(server.blocks.Values - old(server.blocks.Values))
    ensures n <= 1000 && n <= |old(upstream.unread)| && (n == 0 <==> old(upstream.unread) == [])
    ensures upstream.unread == old(upstream.unread)[n..]
    ensures n == 0 ==> server.sent == old(server.sent)
    ensures n > 0 ==> server.sent == old(server.sent) + FileItems(server.hash, old(upstream.unread)[..n])
  {
    hide RabinServer.Tracks, FileItems;
    forall k | 0 <= k < buffer.Length {
      buffer[k] := 0;
    }
    n := upstream.Read(buffer, 0, BUFFER_SIZE);
    if n > 0 {
      assert buffer[..n] == old(upstream.unread)[..n];
      var _ := server.SendFile(buffer[..n]);
    }
  }

  /** psb's loop for one response: a file for every piece `recv` hands over, then an empty file. */
  method RelayResponse(upstream: Socket, server: RabinServer) returns (ghost pieces: seq<Piece>)
    requires server.Valid()
    modifies upstream, server, server.blocks.Values
    ensures server.Valid() && fresh(server.blocks.Values - old(server.blocks.Values))
    ensures server.sent == old(server.sent) + SessionItems(server.hash, ResponseFiles(pieces))
    ensures Flatten(pieces) == old(upstream.unread) && upstream.unread == []
    ensures forall p :: p in pieces ==> |p| <= 1000
  {
    hide RabinServer.Tracks, SessionItems, FileItems, Flatten;
    pieces := [];
    ghost var h, before := server.hash, server.sent;
    var buffer := new byte[BUFFER_SIZE];
    var n: nat := 1;
    NothingSent(h, before, upstream.unread);
    while n > 0
      invariant server.Valid() && fresh(server.blocks.Values - old(server.blocks.Values))
      invariant server.sent == before + SessionItems(h, pieces)
      invariant Flatten(pieces) + upstream.unread == old(upstream.unread)
      invariant n == 0 ==> upstream.unread == []
      invariant forall p :: p in pieces ==> |p| <= 1000
      decreases n > 0, |upstream.unread|
    {
      ghost var unread := upstream.unread;
      n := RelayRound(upstream, server, buffer);
      if n > 0 {
        PieceSent(h, before, pieces, unread[..n], unread, n);
        pieces := pieces + [unread[..n]];
      }
    }
    assert Flatten(pieces) + [] == Flatten(pieces);
    assert buffer[..0] == [];
    var _ := server.SendFile(buffer[..0]);
    FileSent(h, before, pieces, []);
  }

  function After(handed: seq<seq<byte>>, r: Forwarded): Forwarded {
    r.(sent := handed + r.sent)
  }

  lemma ForwardUnfolds(c: ClientCache, bytes: seq<byte>, handed: seq<seq<byte>>)
    ensures var f := RecvFile(c, bytes);
      var whole := After(handed, Forward(c, bytes));
      if f.missed then whole == Forwarded(handed, f.cache, f.rest, true)
      else if f.count > 1 then
        |f.rest| < |bytes| && whole == After(handed + [f.out], Forward(f.cache, f.rest))
      else whole == Forwarded(handed, f.cache, f.rest, false)
  {
    hide RecvFile;
    var f := RecvFile(c, bytes);
    if !f.missed && f.count > 1 {
      Associate(handed, [f.out], Forward(f.cache, f.rest).sent);
    } else {
      assert handed + [] == handed;
    }
  }

  lemma FlattenNothing(b: seq<byte>)
    ensures b + Flatten<byte>([]) == b
  {
  }

  /** One round of hrd's loop: a file that is not empty is handed to the browser. */
  method ForwardRound(client: RabinClient, browser: OutputFile) returns (blocksRecvd: nat, thrown: bool)
    requires client.Shape()
    modifies client, client.sock, browser
    ensures client.Shape() && fresh(client.blocks.Values - old(client.blocks.Values))
    ensures var f := RecvFile(old(client.Cache()), old(client.sock.unread));
      && client.Cache() == f.cache && client.sock.unread == f.rest
      && thrown == f.missed && (!thrown ==> blocksRecvd == f.count)
      && browser.contents == if !f.missed && f.count > 1 then old(browser.contents) + f.out else old(browser.contents)
  {
    hide RecvFile;
    ghost var out := RecvFile(client.Cache(), client.sock.unread).out;
    assert [] + out == out;
    var tmp := new OutputFile();
    blocksRecvd, thrown := client.ReceiveFile(tmp);
    if !thrown && blocksRecvd > 1 {
      browser.Append(tmp.contents);
    }
  }

  /** hrd's loop for one response: files are handed to the browser until one has a block count of 1. */
  method ForwardResponse(client: RabinClient, browser: OutputFile) returns (thrown: bool)
    requires client.Shape()
    modifies client, client.sock, browser
    ensures client.Shape() && fresh(client.blocks.Values - old(client.blocks.Values))
    ensures var r := Forward(old(client.Cache()), old(client.sock.unread));
      && client.Cache() == r.cache && client.sock.unread == r.rest
      && thrown == r.missed
      && browser.contents == old(browser.contents) + Flatten(r.sent)
  {
    hide Forward, RecvFile, Flatten;
    ghost var whole := Forward(client.Cache(), client.sock.unread);
    assert [] + whole.sent == whole.sent;
    ghost var before, handed: seq<seq<byte>> := browser.contents, [];
    var blocksRecvd := 2;
    FlattenNothing(before);
    while blocksRecvd > 1
      invariant client.Shape() && fresh(client.blocks.Values - old(client.blocks.Values))
      invariant browser.contents == before + Flatten(handed)
      invariant if blocksRecvd > 1 then
          whole == After(handed, Forward(client.Cache(), client.sock.unread))
        else
          whole == Forwarded(handed, client.Cache(), client.sock.unread, false)
      decreases blocksRecvd > 1, |client.sock.unread|
    {
      ghost var f := RecvFile(client.Cache(), client.sock.unread);
      ForwardUnfolds(client.Cache(), client.sock.unread, handed);
      blocksRecvd, thrown := ForwardRound(client, browser);
      if thrown {
        return;
      }
      if blocksRecvd > 1 {
        FlattenAppend(handed, f.out);
        Associate(before, Flatten(handed), f.out);
        handed := handed + [f.out];
      }
    }
    thrown := false;
  }

  // --- Both relays at once ---

  /** The client has read the first d files and nothing else, and its cache is what the server's was. */
  ghost predicate CaughtUp(h: Hash, fs: seq<seq<byte>>, d: nat, c: ClientCache, unread: seq<byte>) {
    && d <= |fs| && InSync(CacheAfter(h, fs[..d]), c, None)
    && Stream(h, fs) == Stream(h, fs[..d]) + unread
  }

  lemma FirstFiles(fs: seq<seq<byte>>, d: nat)
    requires d < |fs|
    ensures fs[..d + 1] == fs[..d] + [fs[d]] && fs == fs[..d + 1] + fs[d + 1..]
  {
  }

  /** With d files read, the unread bytes begin with the next file. */
  lemma NextFile(h: Hash, fs: seq<seq<byte>>, d: nat, c: ClientCache, unread: seq<byte>) returns (tail: seq<byte>)
    requires d < |fs| && CaughtUp(h, fs, d, c, unread)
    ensures unread == FileBytes(h, CacheAfter(h, fs[..d]), fs[d]) + tail
    ensures Stream(h, fs) == Stream(h, fs[..d + 1]) + tail
  {
    hide Stream, CacheAfter, FileBytes, InSync;
    FirstFiles(fs, d);
    SessionSend(h, fs[..d], fs[d]);
    StreamPrefix(h, fs[..d + 1], fs[d + 1..]);
    tail := Stream(h, fs)[|Stream(h, fs[..d + 1])|..];
    var file := FileBytes(h, CacheAfter(h, fs[..d]), fs[d]);
    Associate(Stream(h, fs[..d]), file, tail);
    SamePrefixCancels(Stream(h, fs[..d]), unread, file + tail);
  }

  /** There is something to read exactly when not all files have been read. */
  lemma UnreadIff(h: Hash, fs: seq<seq<byte>>, d: nat, c: ClientCache, unread: seq<byte>)
    requires CaughtUp(h, fs, d, c, unread)
    ensures unread == [] <==> d == |fs|
  {
    hide Stream, CacheAfter, InSync;
    if d < |fs| {
      var tail := NextFile(h, fs, d, c, unread);
      FileAccounting(h, CacheAfter(h, fs[..d]), fs[d]);
    } else {
      assert fs[..d] == fs;
      SamePrefixCancels(Stream(h, fs), [], unread);
      assert Stream(h, fs) + [] == Stream(h, fs);
    }
  }

  /** The client's next call receives the next file and leaves it caught up with one more. */
  lemma ReadsNext(h: Hash, fs: seq<seq<byte>>, d: nat, c: ClientCache, unread: seq<byte>)
    requires d < |fs| && CaughtUp(h, fs, d, c, unread)
    ensures var f := RecvFile(c, unread);
      && f.out == fs[d] && !f.missed && (f.count > 1 <==> fs[d] != [])
      && CaughtUp(h, fs, d + 1, f.cache, f.rest)
  {
    var tail := NextFile(h, fs, d, c, unread);
    FileExact(h, CacheAfter(h, fs[..d]), c, fs[d], tail);
    CountBounds(h, fs[d]);
    FirstFiles(fs, d);
    SessionSend(h, fs[..d], fs[d]);
    hide Stream, CacheAfter, InSync, RecvFile, Send, Held, FileBytes, FileItems, Chunks;
  }

  /** Another file on the wire leaves the client as far as it was. */
  lemma StillCaughtUp(h: Hash, fs: seq<seq<byte>>, f: seq<byte>, d: nat, c: ClientCache, unread: seq<byte>)
    requires CaughtUp(h, fs, d, c, unread)
    ensures Stream(h, fs) <= Stream(h, fs + [f])
    ensures CaughtUp(h, fs + [f], d, c, unread + Stream(h, fs + [f])[|Stream(h, fs)|..])
  {
    StreamPrefix(h, fs, [f]);
    hide Stream, CacheAfter, InSync;
    assert (fs + [f])[..d] == fs[..d];
    Associate(Stream(h, fs[..d]), unread, Stream(h, fs + [f])[|Stream(h, fs)|..]);
  }

  /** psb has relayed the first u responses, and of the next one all but the bytes left. */
  ghost predicate Relayed(responses: seq<seq<byte>>, r: Responses, u: nat, left: seq<byte>) {
    && |r.done| == u <= |responses|
    && (forall k :: 0 <= k < u ==> Flatten(r.done[k]) == responses[k])
    && if u < |responses| then Flatten(r.open) + left == responses[u] else r.open == []
  }

  lemma PieceRelayed(responses: seq<seq<byte>>, files: seq<seq<byte>>, u: nat, left: seq<byte>, n: nat)
    requires Relayed(responses, ResponsesOf(files), u, left)
    requires u < |responses| && 0 < n <= |left|
    ensures Relayed(responses, ResponsesOf(files + [left[..n]]), u, left[n..])
  {
    var r := ResponsesOf(files);
    OneMoreFile(files, left[..n]);
    hide ResponsesOf, Flatten;
    FlattenAppend(r.open, left[..n]);
    assert left == left[..n] + left[n..];
    Associate(Flatten(r.open), left[..n], left[n..]);
  }

  lemma ResponseRelayed(responses: seq<seq<byte>>, files: seq<seq<byte>>, u: nat)
    requires Relayed(responses, ResponsesOf(files), u, []) && u < |responses|
    ensures Relayed(responses, ResponsesOf(files + [[]]), u + 1,
                    if u + 1 < |responses| then responses[u + 1] else [])
  {
    var r := ResponsesOf(files);
    OneMoreFile(files, []);
    hide ResponsesOf;
    assert Flatten(r.open) + [] == Flatten(r.open);
    if u + 1 < |responses| {
      assert [] + responses[u + 1] == responses[u + 1];
    }
  }

  lemma FileRelayed(responses: seq<seq<byte>>, files: seq<seq<byte>>, u: nat, left: seq<byte>, f: seq<byte>)
    requires Relayed(responses, ResponsesOf(files), u, left)
    requires u < |responses| && f <= left && (f == [] ==> left == [])
    ensures if f == [] then
        Relayed(responses, ResponsesOf(files + [f]), u + 1, if u + 1 < |responses| then responses[u + 1] else [])
      else Relayed(responses, ResponsesOf(files + [f]), u, left[|f|..])
  {
    hide *;
    if f == [] {
      ResponseRelayed(responses, files, u);
    } else {
      assert f == left[..|f|];
      PieceRelayed(responses, files, u, left, |f|);
    }
  }

  /** hrd has handed on these files: the finished downloads, and what the browser has of the next one. */
  ghost predicate Handed(r: Responses, downloads: seq<seq<byte>>, part: seq<byte>) {
    && |r.done| == |downloads|
    && (forall k :: 0 <= k < |downloads| ==> downloads[k] == Flatten(r.done[k]))
    && part == Flatten(r.open)
  }

  lemma FileHanded(files: seq<seq<byte>>, d: nat, downloads: seq<seq<byte>>, part: seq<byte>)
    requires d < |files| && Handed(ResponsesOf(files[..d]), downloads, part)
    ensures var r := ResponsesOf(files[..d + 1]);
      if files[d] == [] then Handed(r, downloads + [part], []) else Handed(r, downloads, part + files[d])
  {
    var r := ResponsesOf(files[..d]);
    FirstFiles(files, d);
    OneMoreFile(files[..d], files[d]);
    hide ResponsesOf;
    FlattenAppend(r.open, files[d]);
  }

  /** How far a connection has come: the files psb has sent, the responses it has relayed and what is left
      of the next one; the files hrd has read, the finished downloads, and a part of the next. */
  datatype Progress = Progress(files: seq<seq<byte>>, relayed: nat, left: seq<byte>,
                               read: nat, downloads: seq<seq<byte>>, part: seq<byte>)

  /** The two ends and the wire agree on it. */
  ghost predicate Linked(h: Hash, responses: seq<seq<byte>>, p: Progress, c: ClientCache, unread: seq<byte>) {
    && Relayed(responses, ResponsesOf(p.files), p.relayed, p.left)
    && CaughtUp(h, p.files, p.read, c, unread)
    && Handed(ResponsesOf(p.files[..p.read]), p.downloads, p.part)
  }

  lemma InRange(h: Hash, responses: seq<seq<byte>>, p: Progress, c: ClientCache, unread: seq<byte>)
    requires Linked(h, responses, p, c, unread)
    ensures p.read <= |p.files| && p.relayed <= |responses|
  {
    hide Stream, CacheAfter, InSync, ResponsesOf, Handed;
  }

  /** psb has sent f. */
  function AfterRelay(responses: seq<seq<byte>>, p: Progress, f: seq<byte>): Progress
    requires f <= p.left
  {
    if f != [] then p.(files := p.files + [f], left := p.left[|f|..])
    else
      var next := if p.relayed + 1 < |responses| then responses[p.relayed + 1] else [];
      p.(files := p.files + [f], relayed := p.relayed + 1, left := next)
  }

  lemma RelayStep(h: Hash, responses: seq<seq<byte>>, p: Progress, f: seq<byte>, c: ClientCache, unread: seq<byte>)
    requires Linked(h, responses, p, c, unread) && p.relayed < |responses|
    requires f <= p.left && (f == [] ==> p.left == [])
    ensures Stream(h, p.files) <= Stream(h, p.files + [f])
    ensures Linked(h, responses, AfterRelay(responses, p, f), c,
                   unread + Stream(h, p.files + [f])[|Stream(h, p.files)|..])
  {
    InRange(h, responses, p, c, unread);
    hide Stream, ResponsesOf, CaughtUp, Relayed, Handed;
    FileRelayed(responses, p.files, p.relayed, p.left, f);
    StillCaughtUp(h, p.files, f, p.read, c, unread);
    TakeFirst(p.files, [f], p.read);
  }

  /** hrd has received f. */
  function AfterForward(p: Progress, f: seq<byte>): Progress {
    if f != [] then p.(read := p.read + 1, part := p.part + f)
    else p.(read := p.read + 1, downloads := p.downloads + [p.part], part := [])
  }

  lemma ForwardStep(h: Hash, responses: seq<seq<byte>>, p: Progress, c: ClientCache, unread: seq<byte>)
    requires Linked(h, responses, p, c, unread) && p.read < |p.files|
    ensures var r := RecvFile(c, unread);
      && !r.missed && (r.count > 1 <==> r.out != [])
      && Linked(h, responses, AfterForward(p, r.out), r.cache, r.rest)
  {
    hide ResponsesOf, RecvFile, CaughtUp, Relayed, Handed;
    ReadsNext(h, p.files, p.read, c, unread);
    FileHanded(p.files, p.read, p.downloads, p.part);
  }

  lemma EarlierFiles(files: seq<seq<byte>>, d: nat)
    requires d <= |files|
    ensures Within(ResponsesOf(files[..d]), ResponsesOf(files))
    ensures d == |files| ==> files[..d] == files
  {
    assert files == files[..d] + files[d..];
    LaterFilesAdd(files[..d], files[d..]);
  }

  /** What has been handed on is never ahead of what has been relayed. */
  lemma NeverAhead(h: Hash, responses: seq<seq<byte>>, p: Progress, c: ClientCache, unread: seq<byte>)
    requires Linked(h, responses, p, c, unread)
    ensures p.read <= |p.files| && p.downloads <= responses && |p.downloads| <= p.relayed <= |responses|
    ensures unread != [] ==> p.read < |p.files|
    ensures unread == [] ==> |p.downloads| == p.relayed
  {
    InRange(h, responses, p, c, unread);
    EarlierFiles(p.files, p.read);
    UnreadIff(h, p.files, p.read, c, unread);
    hide CaughtUp, ResponsesOf, Flatten;
  }

  lemma OneMoreSent(h: Hash, files: seq<seq<byte>>, f: seq<byte>)
    ensures SessionItems(h, files) + FileItems(h, f) == SessionItems(h, files + [f])
  {
    assert (files + [f])[..|files|] == files;
  }

  /** The server has sent these files and nothing else. */
  ghost predicate HasSent(server: RabinServer, files: seq<seq<byte>>)
    reads server, server.blocks.Values
  {
    server.Valid() && server.sent == SessionItems(server.hash, files)
  }

  lemma WireIsStream(server: RabinServer, files: seq<seq<byte>>)
    requires HasSent(server, files)
    ensures server.wire == Stream(server.hash, files)
  {
  }

  /** Before anything has happened. */
  function Start(responses: seq<seq<byte>>): Progress {
    Progress([], 0, if responses == [] then [] else responses[0], 0, [], [])
  }

  ghost predicate Distinct(upstreams: seq<Socket>) {
    forall i, j :: 0 <= i < j < |upstreams| ==> upstreams[i] != upstreams[j]
  }

  /** The responses that come in on these sockets. */
  ghost function Incoming(upstreams: seq<Socket>): (responses: seq<seq<byte>>)
    reads upstreams
    ensures |responses| == |upstreams|
  {
    seq(|upstreams|, k requires 0 <= k < |upstreams| reads upstreams => upstreams[k].unread)
  }

  /** The upstream sockets still hold what has not been relayed. */
  ghost predicate StillUnread(upstreams: seq<Socket>, responses: seq<seq<byte>>, u: nat, left: seq<byte>)
    reads upstreams
  {
    && |upstreams| == |responses|
    && (u < |upstreams| ==> upstreams[u].unread == left)
    && forall k :: u < k < |upstreams| ==> upstreams[k].unread == responses[k]
  }

  /** The two ends as objects: what they hold is this far, and they share no block. */
  ghost predicate Connected(server: RabinServer, client: RabinClient, responses: seq<seq<byte>>, p: Progress)
    reads server, server.blocks.Values, client, client.blocks.Values, client.sock
  {
    && HasSent(server, p.files) && client.Shape() && server.blocks.Values !! client.blocks.Values
    && Linked(server.hash, responses, p, client.Cache(), client.sock.unread)
  }

  /** How far the two ends can be: see NeverAhead. */
  lemma InOrder(server: RabinServer, client: RabinClient, responses: seq<seq<byte>>, p: Progress)
    requires Connected(server, client, responses, p)
    ensures p.downloads <= responses && |p.downloads| <= p.relayed <= |responses|
    ensures client.sock.unread != [] ==> p.read < |p.files|
    ensures client.sock.unread == [] ==> |p.downloads| == p.relayed
  {
    hide HasSent, Linked, RabinClient.Shape, RabinClient.Cache;
    NeverAhead(server.hash, responses, p, client.Cache(), client.sock.unread);
  }

  lemma ConnectionStarts(server: RabinServer, client: RabinClient, upstreams: seq<Socket>,
      responses: seq<seq<byte>>)
    requires server.Valid() && server.sent == []
    requires client.blocks == map[] && client.sock.unread == []
    requires responses == Incoming(upstreams)
    ensures var p := Start(responses);
      && p.relayed == 0 && p.downloads == [] && p.part == []
      && Connected(server, client, responses, p) && StillUnread(upstreams, responses, p.relayed, p.left)
  {
    assert Stream(server.hash, []) == [];
    if responses != [] {
      assert [] + responses[0] == responses[0];
    }
  }

  /** psb goes through its loop once: it sends a piece of the response or, at its end, the empty file. */
  method RelayNext(upstream: Socket, server: RabinServer, buffer: array<byte>, ghost files: seq<seq<byte>>)
      returns (ghost f: seq<byte>, closed: bool)
    requires HasSent(server, files) && buffer.Length == BUFFER_SIZE
    modifies upstream, server, server.blocks.Values, buffer
    ensures HasSent(server, files + [f]) && fresh(server.blocks.Values - old(server.blocks.Values))
    ensures f <= old(upstream.unread) && upstream.unread == old(upstream.unread)[|f|..]
    ensures closed <==> f == []
    ensures closed ==> old(upstream.unread) == []
  {
    hide RabinServer.Tracks, SessionItems, FileItems;
    var n := RelayRound(upstream, server, buffer);
    f := old(upstream.unread)[..n];
    closed := n == 0;
    if closed {
      assert buffer[..0] == [];
      var _ := server.SendFile(buffer[..0]);
    }
    OneMoreSent(server.hash, files, f);
  }

  /** The same, with what psb writes reaching hrd: a step of the connection. */
  method RelayTurn(upstreams: seq<Socket>, current: nat, server: RabinServer, buffer: array<byte>,
      client: RabinClient, ghost responses: seq<seq<byte>>, ghost p: Progress)
      returns (next: nat, ghost p': Progress)
    requires Connected(server, client, responses, p) && buffer.Length == BUFFER_SIZE
    requires Distinct(upstreams) && client.sock !in upstreams
    requires current == p.relayed < |upstreams| && StillUnread(upstreams, responses, p.relayed, p.left)
    modifies upstreams[current], server, server.blocks.Values, buffer, client.sock
    ensures Connected(server, client, responses, p')
    ensures fresh(server.blocks.Values - old(server.blocks.Values))
    ensures StillUnread(upstreams, responses, p'.relayed, p'.left)
    ensures p' == p.(files := p'.files, relayed := p'.relayed, left := p'.left)
    ensures next == p'.relayed <= |upstreams| && (next > current || (next == current && |p'.left| < |p.left|))
  {
    hide HasSent, Stream, Linked, RabinClient.Cache, RabinClient.Shape;
    var written := |server.wire|;
    WireIsStream(server, p.files);
    ghost var f;
    var closed;
    f, closed := RelayNext(upstreams[current], server, buffer, p.files);
    WireIsStream(server, p.files + [f]);
    RelayStep(server.hash, responses, p, f, client.Cache(), client.sock.unread);
    client.sock.Deliver(server.wire[written..]);
    p' := AfterRelay(responses, p, f);
    next := if closed then current + 1 else current;
  }

  /** hrd goes through its loop once: it hands on a file or, if that was empty, is done with a download and
      turns to the next browser. */
  method ForwardTurn(client: RabinClient, browser: OutputFile, downloads: seq<seq<byte>>,
      ghost server: RabinServer, ghost responses: seq<seq<byte>>, ghost p: Progress)
      returns (next: OutputFile, downloads': seq<seq<byte>>, ghost p': Progress)
    requires Connected(server, client, responses, p)
    requires p.read < |p.files| && p.part == browser.contents && p.downloads == downloads
    modifies client, client.sock, browser
    ensures Connected(server, client, responses, p')
    ensures p' == p.(read := p.read + 1, downloads := downloads', part := next.contents)
    ensures next == browser || fresh(next)
  {
    hide HasSent, Linked, RecvFile, RabinClient.Cache, RabinClient.Shape;
    ForwardStep(server.hash, responses, p, client.Cache(), client.sock.unread);
    p' := AfterForward(p, RecvFile(client.Cache(), client.sock.unread).out);
    var blocksRecvd, _ := ForwardRound(client, browser);
    next, downloads' := browser, downloads;
    if blocksRecvd <= 1 {
      downloads' := downloads + [browser.contents];
      next := new OutputFile();
    }
  }

  /** Both relays over one connection, from the sockets the responses come in on to the browsers. At every
      turn either psb goes through its loop once, or hrd does, if there is something for it to read: so hrd
      forwards a response while it is still being relayed, and psb runs ahead as far as it likes. Each
      download is exactly the response. */
  method Serve(maxSize: MaxSize, upstreams: seq<Socket>) returns (downloads: seq<seq<byte>>)
    requires Distinct(upstreams)
    modifies upstreams
    ensures downloads == old(Incoming(upstreams))
  {
    hide *;
    var server := new RabinServer(maxSize);
    var sock := new Socket([]);
    var client := new RabinClient(sock);
    var buffer := new byte[BUFFER_SIZE];
    var browser := new OutputFile();
    ghost var responses := Incoming(upstreams);
    ghost var p := Start(responses);
    var relayed := 0;
    downloads := [];
    ConnectionStarts(server, client, upstreams, responses);
    while |downloads| < |upstreams|
      invariant Connected(server, client, responses, p)
      invariant fresh(server.blocks.Values) && fresh(browser)
      invariant StillUnread(upstreams, responses, p.relayed, p.left)
      invariant relayed == p.relayed && downloads == p.downloads && p.part == browser.contents
      decreases |upstreams| - relayed, |p.left|, |p.files| - p.read
    {
      InOrder(server, client, responses, p);
      if {
        case relayed < |upstreams| =>
          relayed, p := RelayTurn(upstreams, relayed, server, buffer, client, responses, p);
        case sock.unread != [] =>
          browser, downloads, p := ForwardTurn(client, browser, downloads, server, responses, p);
      }
    }
    InOrder(server, client, responses, p);
  }
}

/** Whole files and whole connections: the chunker, the caching protocol and the byte stream together. */
module Session {
  import opened Common
  import opened Chunker
  import opened Wire
  import opened Protocol

  function Blocks(bs: seq<Chunk>): seq<Item> {
    seq(|bs|, i requires 0 <= i < |bs| => Block(bs[i]))
  }

  /** The blocks of a file, then its end. */
  function FileBlocks(bs: seq<Chunk>): seq<Item> {
    Blocks(bs) + [End]
  }

  /** Everything one `send_file` transmits. */
  function FileItems(h: Hash, f: seq<byte>): seq<Item> {
    FileBlocks(Chunks(h, f))
  }

  /** Everything a connection on which these files are sent transmits. */
  function SessionItems(h: Hash, fs: seq<seq<byte>>): seq<Item> {
    if fs == [] then [] else SessionItems(h, fs[..|fs| - 1]) + FileItems(h, fs[|fs| - 1])
  }

  /** What one `send_file` writes, from server cache m. */
  function FileBytes(h: Hash, m: ServerCache, f: seq<byte>): seq<byte> {
    EncodeAll(Send(h, m, FileItems(h, f)).msgs)
  }

  /** The server's cache after these files. */
  function CacheAfter(h: Hash, fs: seq<seq<byte>>): ServerCache {
    Send(h, map[], SessionItems(h, fs)).cache
  }

  /** The byte stream of such a connection, both caches being empty at its start. */
  function Stream(h: Hash, fs: seq<seq<byte>>): seq<byte> {
    EncodeAll(Send(h, map[], SessionItems(h, fs)).msgs)
  }

  // --- The client reading files from bytes ---

  datatype FileResult = FileResult(out: seq<byte>, count: nat, cache: ClientCache, rest: seq<byte>, missed: bool)

  function Prepend(b: seq<byte>, n: nat, r: FileResult): FileResult {
    r.(out := b + r.out, count := n + r.count)
  }

  /** `receive_file` on a stream that delivers these bytes and then stops: the bytes it writes to the
      file, the number it returns, the cache and the unread bytes it leaves. It does not tell an end of
      file from a stream that stopped; `missed` is the exception of a failed look-up. */
  function RecvFile(c: ClientCache, bytes: seq<byte>): (r: FileResult)
    ensures |r.rest| <= |bytes| && (r.count > 1 ==> |r.rest| < |bytes|)
    decreases |bytes|
  {
    match Parse(bytes)
    case Incomplete => FileResult([], 1, c, [], false)
    case Parsed(m, rest) =>
      match ClientStep(c, m)
      case Miss => FileResult([], 0, c, rest, true)
      case Got(c', End) => FileResult([], 1, c', rest, false)
      case Got(c', Block(b)) => Prepend(b, 1, RecvFile(c', rest))
  }

  lemma BlocksFirst(bs: seq<Chunk>)
    requires bs != []
    ensures Blocks(bs) == [Block(bs[0])] + Blocks(bs[1..])
    ensures Flatten(bs) == bs[0] + Flatten(bs[1..])
  {
    assert bs == [bs[0]] + bs[1..];
    FlattenConcat([bs[0]], bs[1..]);
    assert Flatten([bs[0]]) == bs[0] by {
      assert [bs[0]][..0] == [];
    }
  }

  lemma RecvFirst(c: ClientCache, bs: seq<Chunk>, m: Msg, ms: seq<Msg>, tail: seq<byte>)
    requires ClientStep(c, m).Got?
    requires [ClientStep(c, m).item] + Replay(ClientStep(c, m).cache, ms).items == Blocks(bs)
    ensures bs != [] && ClientStep(c, m).item == Block(bs[0])
    ensures Replay(ClientStep(c, m).cache, ms).items == Blocks(bs[1..])
    ensures Flatten(bs) == bs[0] + Flatten(bs[1..])
    ensures RecvFile(c, EncodeAll([m] + ms) + tail) ==
      Prepend(bs[0], 1, RecvFile(ClientStep(c, m).cache, EncodeAll(ms) + tail))
  {
    var s := ClientStep(c, m);
    var items := Replay(s.cache, ms).items;
    assert |bs| == |[s.item] + items|;
    BlocksFirst(bs);
    assert ([s.item] + items)[0] == Blocks(bs)[0];
    assert ([s.item] + items)[1..] == items && Blocks(bs)[1..] == Blocks(bs[1..]);
    EncodeFirst(m, ms);
    Associate(Encode(m), EncodeAll(ms), tail);
    ParseEncode(m, EncodeAll(ms) + tail);
  }

  /** Reading block messages, and then whatever follows them. */
  lemma {:induction false} RecvBlocks(c: ClientCache, bs: seq<Chunk>, ms: seq<Msg>, tail: seq<byte>)
    requires Replay(c, ms).ok && Replay(c, ms).items == Blocks(bs)
    ensures RecvFile(c, EncodeAll(ms) + tail) == Prepend(Flatten(bs), |bs|, RecvFile(Replay(c, ms).cache, tail))
    decreases |ms|
  {
    if ms == [] {
      assert EncodeAll(ms) + tail == tail;
      assert bs == [];
      assert [] + RecvFile(c, tail).out == RecvFile(c, tail).out;
    } else {
      var m, rest := ms[0], ms[1..];
      assert ms == [m] + rest;
      ReplayFirstMisses(c, m, rest);
      ReplayFirst(c, m, rest);
      var s := ClientStep(c, m);
      RecvFirst(c, bs, m, rest, tail);
      RecvBlocks(s.cache, bs[1..], rest, tail);
      Associate(bs[0], Flatten(bs[1..]), RecvFile(Replay(c, ms).cache, tail).out);
    }
  }

  lemma RecvSent(h: Hash, m: ServerCache, c: ClientCache, bs: seq<Chunk>, tail: seq<byte>)
    requires InSync(m, c, None)
    ensures var s := Send(h, m, Blocks(bs));
      RecvFile(c, EncodeAll(s.msgs) + tail) == Prepend(Flatten(bs), |bs|, RecvFile(Held(s.cache), tail))
  {
    var s := Send(h, m, Blocks(bs));
    SendReplayExact(h, m, c, Blocks(bs));
    SyncedCachesEqual(s.cache, Replay(c, s.msgs).cache);
    RecvBlocks(c, bs, s.msgs, tail);
  }

  lemma RecvEof(c: ClientCache, tail: seq<byte>)
    ensures RecvFile(c, Encode(Eof) + tail) == FileResult([], 1, c, tail, false)
  {
    ParseEncode(Eof, tail);
  }

  lemma RecvFragment(c: ClientCache, left: seq<byte>)
    requires Parse(left).Incomplete?
    ensures RecvFile(c, left) == FileResult([], 1, c, [], false)
  {
  }

  lemma PrependBlocks(b: seq<byte>, n: nat, k: nat, c: ClientCache, rest: seq<byte>)
    ensures Prepend(b, n, FileResult([], k, c, rest, false)) == FileResult(b, n + k, c, rest, false)
  {
  }

  /** Block messages and an end of file: a whole file. */
  lemma RecvWhole(h: Hash, m: ServerCache, c: ClientCache, bs: seq<Chunk>, tail: seq<byte>)
    requires InSync(m, c, None)
    ensures var s := Send(h, m, Blocks(bs));
      RecvFile(c, EncodeAll(s.msgs + [Eof]) + tail) == FileResult(Flatten(bs), |bs| + 1, Held(s.cache), tail, false)
  {
    var s := Send(h, m, Blocks(bs));
    EncodeConcat(s.msgs, [Eof]);
    EncodeOne(Eof);
    Associate(EncodeAll(s.msgs), Encode(Eof), tail);
    RecvSent(h, m, c, bs, Encode(Eof) + tail);
    RecvEof(Held(s.cache), tail);
    PrependBlocks(Flatten(bs), |bs|, 1, Held(s.cache), tail);
  }

  /** Block messages and then a fragment of the next message: a file that was cut off. */
  lemma RecvCutOff(h: Hash, m: ServerCache, c: ClientCache, bs: seq<Chunk>, left: seq<byte>)
    requires InSync(m, c, None) && Parse(left).Incomplete?
    ensures var s := Send(h, m, Blocks(bs));
      RecvFile(c, EncodeAll(s.msgs) + left) == FileResult(Flatten(bs), |bs| + 1, Held(s.cache), [], false)
  {
    RecvSent(h, m, c, bs, left);
    RecvFragment(Held(Send(h, m, Blocks(bs)).cache), left);
    PrependBlocks(Flatten(bs), |bs|, 1, Held(Send(h, m, Blocks(bs)).cache), []);
  }

  /** The messages of one file: those of its blocks, then the end-of-file descriptor. */
  lemma SendFileSplits(h: Hash, m: ServerCache, f: seq<byte>)
    ensures var s := Send(h, m, Blocks(Chunks(h, f)));
      Send(h, m, FileItems(h, f)) == Sent(s.cache, s.msgs + [Eof])
  {
    SendAppend(h, m, Blocks(Chunks(h, f)), End);
  }

  lemma SyncAfter(h: Hash, m: ServerCache, c: ClientCache, items: seq<Item>)
    requires InSync(m, c, None)
    ensures InSync(Send(h, m, items).cache, Held(Send(h, m, items).cache), None)
  {
    SendReplayExact(h, m, c, items);
    SyncedCachesEqual(Send(h, m, items).cache, Replay(c, Send(h, m, items).msgs).cache);
  }

  /** One file, whatever the caches hold and whatever follows on the stream: the client writes exactly
      the file, returns the server's count, and leaves exactly the later bytes unread. */
  lemma FileExact(h: Hash, m: ServerCache, c: ClientCache, f: seq<byte>, tail: seq<byte>)
    requires InSync(m, c, None)
    ensures var m' := Send(h, m, FileItems(h, f)).cache;
      && InSync(m', Held(m'), None)
      && RecvFile(c, FileBytes(h, m, f) + tail) == FileResult(f, |Chunks(h, f)| + 1, Held(m'), tail, false)
  {
    var bs := Chunks(h, f);
    SendFileSplits(h, m, f);
    SendReplayExact(h, m, c, Blocks(bs));
    SyncedCachesEqual(Send(h, m, Blocks(bs)).cache, Replay(c, Send(h, m, Blocks(bs)).msgs).cache);
    RecvWhole(h, m, c, bs, tail);
    ChunksAreWellCut(h, f);
  }

  datatype SessionResult =
    SessionResult(outs: seq<seq<byte>>, counts: seq<nat>, cache: ClientCache, rest: seq<byte>, missed: bool)

  /** The client calling `receive_file` n times. */
  function RecvFiles(c: ClientCache, bytes: seq<byte>, n: nat): SessionResult {
    if n == 0 then SessionResult([], [], c, bytes, false) else
    var s := RecvFiles(c, bytes, n - 1);
    if s.missed then s else
    var r := RecvFile(s.cache, s.rest);
    SessionResult(s.outs + [r.out], s.counts + [r.count], r.cache, r.rest, r.missed)
  }

  /** The numbers the server's `send_file` calls return. */
  function SentCounts(h: Hash, fs: seq<seq<byte>>): seq<nat> {
    if fs == [] then [] else SentCounts(h, fs[..|fs| - 1]) + [|Chunks(h, fs[|fs| - 1])| + 1]
  }

  lemma OneFile(h: Hash, f: seq<byte>)
    ensures SessionItems(h, [f]) == FileItems(h, f)
  {
    assert [f][..0] == [];
    assert [] + FileItems(h, f) == FileItems(h, f);
  }

  lemma SessionSend(h: Hash, fs: seq<seq<byte>>, f: seq<byte>)
    ensures CacheAfter(h, fs + [f]) == Send(h, CacheAfter(h, fs), FileItems(h, f)).cache
    ensures Stream(h, fs + [f]) == Stream(h, fs) + FileBytes(h, CacheAfter(h, fs), f)
  {
    assert (fs + [f])[..|fs|] == fs;
    SendConcat(h, map[], SessionItems(h, fs), FileItems(h, f));
    var s := Send(h, map[], SessionItems(h, fs));
    EncodeConcat(s.msgs, Send(h, s.cache, FileItems(h, f)).msgs);
  }

  lemma CountsAppend(h: Hash, fs: seq<seq<byte>>, f: seq<byte>)
    ensures SentCounts(h, fs + [f]) == SentCounts(h, fs) + [|Chunks(h, f)| + 1]
  {
    hide Chunks;
    assert (fs + [f])[..|fs|] == fs;
  }

  lemma RecvOneMore(c: ClientCache, bytes: seq<byte>, n: nat)
    requires !RecvFiles(c, bytes, n).missed
    ensures var s := RecvFiles(c, bytes, n);
      var r := RecvFile(s.cache, s.rest);
      RecvFiles(c, bytes, n + 1) == SessionResult(s.outs + [r.out], s.counts + [r.count], r.cache, r.rest, r.missed)
  {
  }

  /** The session theorem: for every hash and every list of files, the k-th `receive_file` writes exactly
      the k-th file sent and returns the count `send_file` returned; no look-up fails, the two caches
      end equal, and no byte after the session is consumed. */
  lemma {:induction false} SessionExact(h: Hash, fs: seq<seq<byte>>, tail: seq<byte>)
    ensures var m := CacheAfter(h, fs);
      && InSync(m, Held(m), None)
      && RecvFiles(map[], Stream(h, fs) + tail, |fs|) ==
         SessionResult(fs, SentCounts(h, fs), Held(m), tail, false)
  {
    if fs == [] {
      assert Stream(h, fs) + tail == tail;
    } else {
      hide *;
      var k := |fs| - 1;
      var pre, f := fs[..k], fs[k];
      SplitLast(fs);
      SessionSend(h, pre, f);
      CountsAppend(h, pre, f);
      var m := CacheAfter(h, pre);
      var file := FileBytes(h, m, f);
      Associate(Stream(h, pre), file, tail);
      SessionExact(h, pre, file + tail);
      FileExact(h, m, Held(m), f, tail);
      RecvOneMore(map[], Stream(h, pre) + (file + tail), k);
    }
  }

  // --- Streams that stop ---

  /** How many blocks of f lie wholly within the first n bytes of its transmission from server cache m. */
  function Arrived(h: Hash, m: ServerCache, f: seq<byte>, n: nat): (k: nat)
    requires n < |FileBytes(h, m, f)|
    ensures k <= |Chunks(h, f)|
  {
    Complete(Send(h, m, FileItems(h, f)).msgs, n)
  }

  lemma FirstItems(bs: seq<Chunk>, k: nat)
    requires k <= |bs|
    ensures FileBlocks(bs)[..k] == Blocks(bs[..k])
  {
  }

  /** The bytes of a cut-off file split into its complete messages and a fragment that never parses. */
  lemma CutOffBytes(h: Hash, m: ServerCache, f: seq<byte>, n: nat) returns (left: seq<byte>)
    requires n < |FileBytes(h, m, f)|
    ensures FileBytes(h, m, f)[..n] ==
      EncodeAll(Send(h, m, Blocks(Chunks(h, f)[..Arrived(h, m, f, n)])).msgs) + left
    ensures Parse(left).Incomplete?
  {
    var items, k := FileItems(h, f), Arrived(h, m, f, n);
    left := CutOff(Send(h, m, items).msgs, n);
    SendPrefix(h, m, items, k);
    FirstItems(Chunks(h, f), k);
  }

  /** When the stream stops inside a file, the client has written exactly the blocks that arrived whole,
      its cache is what the server's was after those blocks, and it returns their number plus one. */
  lemma FileTruncated(h: Hash, m: ServerCache, c: ClientCache, f: seq<byte>, n: nat)
    requires InSync(m, c, None)
    requires n < |FileBytes(h, m, f)|
    ensures var bs := Chunks(h, f)[..Arrived(h, m, f, n)];
      RecvFile(c, FileBytes(h, m, f)[..n]) ==
        FileResult(Flatten(bs), |bs| + 1, Held(Send(h, m, Blocks(bs)).cache), [], false)
  {
    var left := CutOffBytes(h, m, f, n);
    RecvCutOff(h, m, c, Chunks(h, f)[..Arrived(h, m, f, n)], left);
  }

  /** The file that the blocks which arrived make up. */
  function ArrivedFile(h: Hash, m: ServerCache, f: seq<byte>, n: nat): seq<byte>
    requires n < |FileBytes(h, m, f)|
  {
    Flatten(Chunks(h, f)[..Arrived(h, m, f, n)])
  }

  /** What the client cannot tell: a file that was cut off gives the same output, count, cache and unread
      bytes as the complete transmission of another file, the one made of the blocks that arrived. */
  lemma StopLooksLikeEnd(h: Hash, m: ServerCache, c: ClientCache, f: seq<byte>, n: nat)
    requires InSync(m, c, None) && n < |FileBytes(h, m, f)|
    ensures RecvFile(c, FileBytes(h, m, f)[..n]) == RecvFile(c, FileBytes(h, m, ArrivedFile(h, m, f, n)))
    ensures RecvFile(c, FileBytes(h, m, f)[..n]).out == ArrivedFile(h, m, f, n) <= f
    ensures Send(h, m, FileItems(h, ArrivedFile(h, m, f, n))).cache
         == Send(h, m, Blocks(Chunks(h, f)[..Arrived(h, m, f, n)])).cache
  {
    var k := Arrived(h, m, f, n);
    var g := ArrivedFile(h, m, f, n);
    FirstBlocksStandAlone(h, f, k);
    FileTruncated(h, m, c, f, n);
    FileExact(h, m, c, g, []);
    SendFileSplits(h, m, g);
    hide *;
    assert FileBytes(h, m, g) + [] == FileBytes(h, m, g);
  }

  lemma FewerBlocksFewerBytes(bs: seq<Chunk>, k: nat)
    requires k <= |bs|
    ensures Flatten(bs[..k]) == Flatten(bs) <==> k == |bs|
  {
    if k == |bs| {
      assert bs[..k] == bs;
    } else {
      FlattenAt(bs, k);
    }
  }

  lemma AllArrivedIff(h: Hash, m: ServerCache, f: seq<byte>, n: nat)
    requires n < |FileBytes(h, m, f)|
    ensures ArrivedFile(h, m, f, n) == f <==> n + DESC_SIZE >= |FileBytes(h, m, f)|
  {
    var bs, k := Chunks(h, f), Arrived(h, m, f, n);
    var s := Send(h, m, Blocks(bs));
    SendFileSplits(h, m, f);
    CompleteButLast(s.msgs + [Eof], n);
    assert (s.msgs + [Eof])[..|bs|] == s.msgs;
    EncodeConcat(s.msgs, [Eof]);
    EncodeOne(Eof);
    assert k == |bs| <==> n + DESC_SIZE >= |FileBytes(h, m, f)|;
    ChunksAreWellCut(h, f);
    FewerBlocksFewerBytes(bs, k);
  }

  /** Exactly when a cut-off download is nevertheless undamaged: when only the final descriptor is hit. */
  lemma UndamagedIff(h: Hash, m: ServerCache, c: ClientCache, f: seq<byte>, n: nat)
    requires InSync(m, c, None) && n < |FileBytes(h, m, f)|
    ensures RecvFile(c, FileBytes(h, m, f)[..n]).out == f <==> n + DESC_SIZE >= |FileBytes(h, m, f)|
  {
    FileTruncated(h, m, c, f, n);
    AllArrivedIff(h, m, f, n);
  }

  lemma TakeSecond<T>(a: seq<T>, b: seq<T>, i: nat)
    requires i <= |b|
    ensures (a + b)[..|a| + i] == a + b[..i]
  {
  }

  /** Truncation safety for a connection that stops anywhere inside its last file: all earlier files are
      exact, and what was written of the last one is a block-aligned prefix of it. */
  lemma SessionTruncated(h: Hash, fs: seq<seq<byte>>, f: seq<byte>, i: nat)
    requires i < |FileBytes(h, CacheAfter(h, fs), f)|
    ensures |Stream(h, fs)| + i < |Stream(h, fs + [f])|
    ensures var m := CacheAfter(h, fs);
      var bs := Chunks(h, f)[..Arrived(h, m, f, i)];
      && Flatten(bs) <= f
      && RecvFiles(map[], Stream(h, fs + [f])[..|Stream(h, fs)| + i], |fs| + 1) ==
         SessionResult(fs + [Flatten(bs)], SentCounts(h, fs) + [|bs| + 1],
                       Held(Send(h, m, Blocks(bs)).cache), [], false)
  {
    var m := CacheAfter(h, fs);
    SessionSend(h, fs, f);
    var file := FileBytes(h, m, f);
    TakeSecond(Stream(h, fs), file, i);
    SessionExact(h, fs, file[..i]);
    FileTruncated(h, m, Held(m), f, i);
    FirstBlocksStandAlone(h, f, Arrived(h, m, f, i));
  }

  // --- Items as files ---

  /** The files completed by a list of items, and what has been written to the one still open. */
  datatype Output = Output(files: seq<seq<byte>>, open: seq<byte>)

  function OutputOf(items: seq<Item>): Output {
    if items == [] then Output([], []) else
    var o := OutputOf(items[..|items| - 1]);
    match items[|items| - 1]
    case Block(b) => o.(open := o.open + b)
    case End => Output(o.files + [o.open], [])
  }

  /** Some whole files, and a prefix of the next. */
  ghost predicate IsOpenPrefix(fs: seq<seq<byte>>, o: Output) {
    o.files <= fs && if |o.files| < |fs| then o.open <= fs[|o.files|] else o.open == []
  }

  lemma {:induction false} OutputOfBlocks(items: seq<Item>, bs: seq<Chunk>)
    ensures var o := OutputOf(items);
      OutputOf(items + Blocks(bs)) == Output(o.files, o.open + Flatten(bs))
  {
    if bs == [] {
      assert items + Blocks(bs) == items;
      assert OutputOf(items).open + [] == OutputOf(items).open;
    } else {
      var k := |bs| - 1;
      OutputOfBlocks(items, bs[..k]);
      assert (items + Blocks(bs))[..|items| + k] == items + Blocks(bs[..k]);
      Associate(OutputOf(items).open, Flatten(bs[..k]), bs[k]);
    }
  }

  lemma OutputOfEnd(items: seq<Item>)
    ensures OutputOf(items + [End]) == Output(OutputOf(items).files + [OutputOf(items).open], [])
  {
    assert (items + [End])[..|items|] == items;
  }

  lemma OutputOfFile(h: Hash, items: seq<Item>, f: seq<byte>)
    requires OutputOf(items).open == []
    ensures OutputOf(items + FileItems(h, f)) == Output(OutputOf(items).files + [f], [])
  {
    OutputOfBlocks(items, Chunks(h, f));
    ChunksAreWellCut(h, f);
    Associate(items, Blocks(Chunks(h, f)), [End]);
    OutputOfEnd(items + Blocks(Chunks(h, f)));
    assert [] + f == f;
  }

  lemma {:induction false} OutputOfSession(h: Hash, fs: seq<seq<byte>>)
    ensures OutputOf(SessionItems(h, fs)) == Output(fs, [])
  {
    if fs == [] {
    } else {
      OutputOfSession(h, fs[..|fs| - 1]);
      OutputOfFile(h, SessionItems(h, fs[..|fs| - 1]), fs[|fs| - 1]);
      SplitLast(fs);
    }
  }

  lemma OutputOfOpenFile(h: Hash, pre: seq<seq<byte>>, f: seq<byte>, k: nat)
    requires k <= |Chunks(h, f)|
    ensures OutputOf(SessionItems(h, pre) + FileItems(h, f)[..k]) == Output(pre, Flatten(Chunks(h, f)[..k]))
    ensures Flatten(Chunks(h, f)[..k]) <= f
  {
    var bs := Chunks(h, f)[..k];
    FirstItems(Chunks(h, f), k);
    OutputOfSession(h, pre);
    OutputOfBlocks(SessionItems(h, pre), bs);
    assert [] + Flatten(bs) == Flatten(bs);
    FirstBlocksStandAlone(h, f, k);
  }

  lemma OpenPrefixAtEnd(fs: seq<seq<byte>>, open: seq<byte>)
    requires fs != [] && open <= fs[|fs| - 1]
    ensures IsOpenPrefix(fs, Output(fs[..|fs| - 1], open))
  {
    SplitLast(fs);
  }

  lemma ItemCount(h: Hash, f: seq<byte>)
    ensures |FileItems(h, f)| == |Chunks(h, f)| + 1
  {
  }

  lemma OutputOfLastFile(h: Hash, fs: seq<seq<byte>>, k: nat)
    requires fs != [] && |SessionItems(h, fs[..|fs| - 1])| <= k < |SessionItems(h, fs)|
    ensures IsOpenPrefix(fs, OutputOf(SessionItems(h, fs)[..k]))
  {
    hide Chunks, FileItems, Flatten, OutputOf, IsOpenPrefix;
    var pre, f := fs[..|fs| - 1], fs[|fs| - 1];
    var before := SessionItems(h, pre);
    assert SessionItems(h, fs) == before + FileItems(h, f);
    ItemCount(h, f);
    hide *;
    OutputOfOpenFile(h, pre, f, k - |before|);
    OpenPrefixAtEnd(fs, Flatten(Chunks(h, f)[..k - |before|]));
    TakeSecond(before, FileItems(h, f), k - |before|);
  }

  lemma OpenPrefixExtends(fs: seq<seq<byte>>, o: Output)
    requires fs != [] && IsOpenPrefix(fs[..|fs| - 1], o)
    ensures IsOpenPrefix(fs, o)
  {
  }

  lemma OutputOfEarlierFiles(h: Hash, fs: seq<seq<byte>>, k: nat)
    requires fs != [] && k < |SessionItems(h, fs[..|fs| - 1])|
    requires IsOpenPrefix(fs[..|fs| - 1], OutputOf(SessionItems(h, fs[..|fs| - 1])[..k]))
    ensures IsOpenPrefix(fs, OutputOf(SessionItems(h, fs)[..k]))
  {
    var pre := SessionItems(h, fs[..|fs| - 1]);
    assert SessionItems(h, fs) == pre + FileItems(h, fs[|fs| - 1]);
    hide *;
    assert (pre + FileItems(h, fs[|fs| - 1]))[..k] == pre[..k];
    OpenPrefixExtends(fs, OutputOf(pre[..k]));
  }

  /** The first items of a session are some whole files and a prefix of the next. */
  lemma {:induction false} OutputOfPrefix(h: Hash, fs: seq<seq<byte>>, k: nat)
    requires k <= |SessionItems(h, fs)|
    ensures IsOpenPrefix(fs, OutputOf(SessionItems(h, fs)[..k]))
  {
    var items := SessionItems(h, fs);
    if k == |items| {
      assert items[..k] == items;
      OutputOfSession(h, fs);
    } else if k < |SessionItems(h, fs[..|fs| - 1])| {
      OutputOfPrefix(h, fs[..|fs| - 1], k);
      OutputOfEarlierFiles(h, fs, k);
    } else {
      OutputOfLastFile(h, fs, k);
    }
  }

  // --- Counts and accounting ---

  /** What `send_file` returns for a file of |f| bytes. */
  lemma CountBounds(h: Hash, f: seq<byte>)
    ensures var r := |Chunks(h, f)| + 1;
      && (r == 1 <==> f == [])
      && (|f| + 63) / 64 + 1 <= r <= (if |f| <= 1 then |f| + 1 else |f|)
  {
    ChunkCount(h, f);
    ChunkLengths(h, f);
  }

  lemma {:induction false} BytesOfBlocks(bs: seq<Chunk>)
    ensures Bytes(Blocks(bs)) == Flatten(bs)
  {
    if bs == [] {
    } else {
      var k := |bs| - 1;
      assert Blocks(bs)[..k] == Blocks(bs[..k]);
      BytesOfBlocks(bs[..k]);
    }
  }

  lemma BytesOfFile(h: Hash, f: seq<byte>)
    ensures Bytes(FileItems(h, f)) == f
  {
    var items := FileItems(h, f);
    BytesOfBlocks(Chunks(h, f));
    ChunksAreWellCut(h, f);
    assert items[..|items| - 1] == Blocks(Chunks(h, f));
    assert Bytes(items) == f + [];
  }

  /** Wire accounting for one file, from any cache: contents sent plus contents saved is the file, and
      every block and the end of file cost one descriptor. */
  lemma FileAccounting(h: Hash, m: ServerCache, f: seq<byte>)
    ensures var msgs := Send(h, m, FileItems(h, f)).msgs;
      && Literal(msgs) + Saved(msgs) == |f|
      && |FileBytes(h, m, f)| == DESC_SIZE * (|Chunks(h, f)| + 1) + Literal(msgs)
  {
    var items := FileItems(h, f);
    LiteralPlusSaved(h, m, items);
    WireLength(Send(h, m, items).msgs);
    BytesOfFile(h, f);
  }
}

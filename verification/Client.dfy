/** The client library as a class, and the socket it reads from in pieces of any size. */
module Client {
  import opened Common
  import opened Wire
  import opened Protocol
  import opened Session
  import opened HeapBlock

  /** The receiving end of a connection: the bytes that will still arrive before it stops for good. */
  class Socket {
    var unread: seq<byte>

    constructor (bytes: seq<byte>)
      ensures unread == bytes
    {
      unread := bytes;
    }

    /** More bytes are written at the other end. */
    method Deliver(bytes: seq<byte>)
      modifies this
      ensures unread == old(unread) + bytes
    {
      unread := unread + bytes;
    }

    /** POSIX `read`: any positive number of the bytes available, at most len; 0 when the stream has
        stopped. How many is up to the network. */
    method Read(buf: array<byte>, off: nat, len: nat) returns (n: nat)
      requires off + len <= buf.Length && len > 0
      modifies this, buf
      ensures n <= len && n <= |old(unread)| && (n == 0 <==> old(unread) == [])
      ensures unread == old(unread)[n..]
      ensures buf[..off + n] == old(buf[..off]) + old(unread)[..n]
    {
      if unread == [] {
        assert buf[..off + 0] == buf[..off] + [];
        return 0;
      }
      n :| 1 <= n <= len && n <= |unread|;
      forall k | 0 <= k < n {
        buf[off + k] := unread[k];
      }
      unread := unread[n..];
    }
  }

  /** The open file a download is written to. */
  class OutputFile {
    var contents: seq<byte>

    constructor ()
      ensures contents == []
    {
      contents := [];
    }

    method Append(b: seq<byte>)
      modifies this
      ensures contents == old(contents) + b
    {
      contents := contents + b;
    }
  }

  /** What `receive_block` returns: a block, NULL (end of file or stopped stream), or an exception. */
  datatype Received = Received(b: CachedBlock) | Null | OutOfRange

  /** `receive_block` on values: its result, the cache, and the bytes left unread. */
  datatype BlockResult = BlockResult(data: Option<Chunk>, missed: bool, cache: ClientCache, rest: seq<byte>)

  function RecvBlock(c: ClientCache, bytes: seq<byte>): BlockResult {
    match Parse(bytes)
    case Incomplete => BlockResult(None, false, c, [])
    case Parsed(m, rest) =>
      match ClientStep(c, m)
      case Miss => BlockResult(None, true, c, rest)
      case Got(c', End) => BlockResult(None, false, c', rest)
      case Got(c', Block(b)) => BlockResult(Some(b), false, c', rest)
  }

  /** The same by descriptor and payload. */
  lemma RecvBlockParts(c: ClientCache, bytes: seq<byte>)
    ensures |bytes| < DESC_SIZE ==> RecvBlock(c, bytes) == BlockResult(None, false, c, [])
    ensures |bytes| >= DESC_SIZE ==>
      var d, body := ReadDesc(bytes[..DESC_SIZE]), bytes[DESC_SIZE..];
      && d.num == FromBigEndian(bytes[..4])
      && RecvBlock(c, bytes) ==
        if d.size == 0 then BlockResult(None, false, c, body)
        else if d.isOld then
          if d.num in c then BlockResult(Some(c[d.num]), false, c, body) else BlockResult(None, true, c, body)
        else if |body| < d.size then BlockResult(None, false, c, [])
        else BlockResult(Some(body[..d.size]), false, c[d.num := body[..d.size]], body[d.size..])
  {
    if |bytes| >= DESC_SIZE {
      assert bytes[..DESC_SIZE][..4] == bytes[..4];
    }
  }

  lemma RecvFileByBlock(c: ClientCache, bytes: seq<byte>)
    ensures var s := RecvBlock(c, bytes);
      RecvFile(c, bytes) ==
        if s.missed then FileResult([], 0, s.cache, s.rest, true)
        else if s.data.None? then FileResult([], 1, s.cache, s.rest, false)
        else Prepend(s.data.value, 1, RecvFile(s.cache, s.rest))
    ensures RecvBlock(c, bytes).data.Some? ==> !RecvBlock(c, bytes).missed && |RecvBlock(c, bytes).rest| < |bytes|
  {
  }

  /** One call of `receive_block` inside the loop of `receive_file`. */
  lemma RecvFileUnfolds(c: ClientCache, bytes: seq<byte>, got: seq<byte>, n: nat)
    ensures var s := RecvBlock(c, bytes);
      var whole := Prepend(got, n, RecvFile(c, bytes));
      if s.missed then
        s.data.None? && whole == FileResult(got, n, s.cache, s.rest, true)
      else if s.data.None? then
        whole == FileResult(got, n + 1, s.cache, s.rest, false)
      else
        |s.rest| < |bytes| && whole == Prepend(got + s.data.value, n + 1, RecvFile(s.cache, s.rest))
  {
    RecvFileByBlock(c, bytes);
    hide RecvFile, RecvBlock;
    var s := RecvBlock(c, bytes);
    if s.data.Some? {
      Associate(got, s.data.value, RecvFile(s.cache, s.rest).out);
    } else {
      assert got + [] == got;
    }
  }

  class RabinClient {
    const sock: Socket
    var blocks: map<uint32, CachedBlock>

    function Cache(): ClientCache
      reads this
    {
      map n | n in blocks :: blocks[n].data
    }

    /** Every cached block carries the number it is cached under, and is marked old. */
    ghost predicate Shape()
      reads this, blocks.Values
    {
      forall n :: n in blocks ==> blocks[n].blockNum == n && blocks[n].isOld
    }

    constructor (sock: Socket)
      ensures this.sock == sock && blocks == map[] && Shape() && Cache() == map[]
    {
      this.sock := sock;
      blocks := map[];
    }

    method InsertBlock(b: Chunk, bno: uint32) returns (n: uint32)
      requires Shape()
      modifies this
      ensures Shape() && fresh(blocks.Values - old(blocks.Values))
      ensures n == bno && Cache() == old(Cache())[n := b]
      ensures n in blocks && fresh(blocks[n]) && blocks[n].blockNum == n && blocks[n].isOld
      ensures blocks == old(blocks)[n := blocks[n]]
    {
      n := bno;
      var newBlock := new CachedBlock(n, b, true);
      blocks := blocks[n := newBlock];
    }

    /** A fresh copy of a cached block; `at` throws when the number is absent. */
    method GetBlock(b: uint32) returns (r: Received)
      ensures b !in Cache() ==> r == OutOfRange
      ensures b in Cache() ==> r.Received? && fresh(r.b) && r.b !in blocks.Values && r.b.data == Cache()[b]
      ensures b in Cache() ==> r.b.blockNum == blocks[b].blockNum && r.b.isOld == blocks[b].isOld
    {
      if b !in blocks {
        return OutOfRange;
      }
      var blockI := blocks[b];
      var copy := new CachedBlock(blockI.blockNum, blockI.data, blockI.isOld);
      r := Received(copy);
    }

    /** The loop that fills a buffer from the socket, however short each read is. */
    method Fill(buf: array<byte>) returns (ok: bool)
      modifies sock, buf
      ensures ok <==> buf.Length <= |old(sock.unread)|
      ensures ok ==> buf[..] == old(sock.unread)[..buf.Length] && sock.unread == old(sock.unread)[buf.Length..]
      ensures !ok ==> sock.unread == []
    {
      var br := 0;
      while br < buf.Length
        invariant br <= buf.Length
        invariant buf[..br] + sock.unread == old(sock.unread)
        decreases |sock.unread|, buf.Length - br
      {
        ghost var before, unread := buf[..br], sock.unread;
        var n := sock.Read(buf, br, buf.Length - br);
        if n == 0 {
          return false;
        }
        assert before + unread[..n] + unread[n..] == before + unread;
        br := br + n;
      }
      ok := true;
      assert buf[..] == buf[..br];
    }

    /** Besides what `RecvBlock` says, the block returned is a copy, with the number that its descriptor
        stated, and marked old. */
    method ReceiveBlock() returns (r: Received)
      requires Shape()
      modifies this, sock
      ensures Shape() && fresh(blocks.Values - old(blocks.Values))
      ensures var s := RecvBlock(old(Cache()), old(sock.unread));
        && Cache() == s.cache && sock.unread == s.rest
        && (r.Received? <==> s.data.Some?) && (r.OutOfRange? <==> s.missed)
        && (r.Received? ==> fresh(r.b) && r.b !in blocks.Values && r.b.data == s.data.value)
      ensures r.Received? ==>
        && |old(sock.unread)| >= DESC_SIZE && r.b.blockNum == FromBigEndian(old(sock.unread)[..4])
        && r.b.isOld
    {
      RecvBlockParts(Cache(), sock.unread);
      hide RecvBlock, ReadDesc;
      var bdBuf := new byte[DESC_SIZE];
      var ok := Fill(bdBuf);
      if !ok {
        return Null;
      }
      var bd := ReadDesc(bdBuf[..]);
      if bd.size == 0 {
        return Null;
      }
      if !bd.isOld {
        var buf := new byte[bd.size];
        ok := Fill(buf);
        if !ok {
          return Null;
        }
        var _ := InsertBlock(buf[..], bd.num);
      }
      r := GetBlock(bd.num);
    }

    method ReceiveFile(file: OutputFile) returns (numBlocks: nat, thrown: bool)
      requires Shape()
      modifies this, sock, file
      ensures Shape() && fresh(blocks.Values - old(blocks.Values))
      ensures var r := RecvFile(old(Cache()), old(sock.unread));
        && Cache() == r.cache && sock.unread == r.rest
        && file.contents == old(file.contents) + r.out
        && thrown == r.missed
        && (!thrown ==> numBlocks == r.count)
    {
      hide RecvFile, RecvBlock;
      ghost var whole := RecvFile(Cache(), sock.unread);
      ghost var before := file.contents;
      ghost var got := [];
      numBlocks, thrown := 0, false;
      var more := true;
      while more
        invariant Shape() && fresh(blocks.Values - old(blocks.Values))
        invariant file.contents == before + got
        invariant more ==> whole == Prepend(got, numBlocks, RecvFile(Cache(), sock.unread))
        invariant !more ==> whole == FileResult(got, numBlocks, Cache(), sock.unread, false)
        decreases more, |sock.unread|
      {
        RecvFileUnfolds(Cache(), sock.unread, got, numBlocks);
        var r := ReceiveBlock();
        match r {
          case OutOfRange =>
            thrown := true;
            return;
          case Null =>
            more := false;
          case Received(b) =>
            file.Append(b.data);
            got := got + b.data;
        }
        numBlocks := numBlocks + 1;
      }
    }
  }
}

/** The server library as a class: a map of heap blocks whose flags are updated in place, and a socket. */
module Server {
  import opened Common
  import opened Fingerprint
  import opened Chunker
  import opened Wire
  import opened Protocol
  import opened Session
  import opened HeapBlock

  /** What `write_block_to_client` does: the byte count of its last write, or `at` throwing. */
  datatype WriteResult = Wrote(n: nat) | OutOfRange

  /** The loop's variables when its counter is i. On a file of less than two bytes it has done nothing. */
  ghost predicate AtLoop(h: Hash, f: seq<byte>, before: seq<Item>, i: nat, prev: nat, n: nat, items: seq<Item>) {
    var s := if i <= |f| then Scan(h, f, i) else ScanState([], 0);
    prev == s.prev && n == |s.blocks| && items == before + Blocks(s.blocks)
  }

  lemma LoopStarts(h: Hash, f: seq<byte>, before: seq<Item>)
    ensures AtLoop(h, f, before, 2, 0, 0, before)
  {
    assert before + Blocks([]) == before;
  }

  lemma LoopCuts(h: Hash, f: seq<byte>, before: seq<Item>, i: nat, prev: nat, n: nat, items: seq<Item>)
    requires 2 <= i < |f| && AtLoop(h, f, before, i, prev, n, items)
    requires prev < i && CutAt(h, f, i, prev)
    ensures i - prev <= MAX_BYTES
    ensures AtLoop(h, f, before, i + 1, i, n + 1, items + [Block(f[prev..i])])
  {
    ScanStep(h, f, i);
  }

  lemma LoopSkips(h: Hash, f: seq<byte>, before: seq<Item>, i: nat, prev: nat, n: nat, items: seq<Item>)
    requires 2 <= i < |f| && AtLoop(h, f, before, i, prev, n, items)
    requires prev < i && !CutAt(h, f, i, prev)
    ensures AtLoop(h, f, before, i + 1, prev, n, items)
  {
  }

  lemma LoopEnds(h: Hash, f: seq<byte>, before: seq<Item>, i: nat, prev: nat, n: nat, items: seq<Item>)
    requires |f| <= i && (i == 2 || i == |f|) && AtLoop(h, f, before, i, prev, n, items)
    ensures prev <= |f| <= prev + MAX_BYTES
    ensures var last := if prev == |f| then [] else [Block(f[prev..|f|])];
      items + last + [End] == before + FileItems(h, f) && n + |last| == |Chunks(h, f)|
  {
    var last := if prev == |f| then [] else [Block(f[prev..|f|])];
    assert before + Blocks(Chunks(h, f)) == items + last;
    Associate(before, Blocks(Chunks(h, f)), [End]);
  }

  /** The cache and the byte stream after one more block. */
  lemma SendBlockBytes(h: Hash, items: seq<Item>, b: Chunk)
    ensures var s, t := Send(h, map[], items), Send(h, map[], items + [Block(b)]);
      var m := Inserted(h, s.cache, b);
      && t.cache == Written(m, h(b))
      && EncodeAll(t.msgs) == EncodeAll(s.msgs) + Encode(MsgFor(m, h(b)))
  {
    SendAppend(h, map[], items, Block(b));
    var s := Send(h, map[], items);
    var m := Inserted(h, s.cache, b);
    assert (s.msgs + [MsgFor(m, h(b))])[..|s.msgs|] == s.msgs;
  }

  lemma EndBytes()
    ensures Encode(Eof) == WriteDesc(Desc(0, 0, false))
  {
  }

  lemma WrittenLayout(wire: seq<byte>, m: ServerCache, n: uint32)
    requires n in m
    ensures var w, e := wire + Encode(MsgFor(m, n)), m[n];
      LaidOut(w[|wire|..], n, |e.data|, if e.isOld then 1 else 0, if e.isOld then [] else e.data)
  {
    MessageLayout(MsgFor(m, n));
    assert (wire + Encode(MsgFor(m, n)))[|wire|..] == Encode(MsgFor(m, n));
  }

  lemma SendEndBytes(h: Hash, items: seq<Item>)
    ensures var s, t := Send(h, map[], items), Send(h, map[], items + [End]);
      t.cache == s.cache && EncodeAll(t.msgs) == EncodeAll(s.msgs) + Encode(Eof)
  {
    SendAppend(h, map[], items, End);
    var s := Send(h, map[], items);
    assert (s.msgs + [Eof])[..|s.msgs|] == s.msgs;
  }

  class RabinServer {
    const maxSize: MaxSize
    /** The hash as a value, for the specifications; it agrees with djb2 on every string. */
    ghost const hash: Hash
    var blocks: map<uint32, CachedBlock>
    /** Everything written to the client's socket; writes are complete and in order. */
    var wire: seq<byte>
    /** The history of the connection. */
    ghost var sent: seq<Item>

    ghost predicate Djb2At(b: seq<byte>) {
      hash(b) == Number(maxSize, b)
    }

    ghost predicate UsesDjb2() {
      forall b: seq<byte> {:trigger Djb2At(b)} :: Djb2At(b)
    }

    ghost predicate Shape()
      reads this`blocks
    {
      UsesDjb2() && forall n :: n in blocks ==> blocks[n].blockNum == n
    }

    function Cache(): ServerCache
      reads this`blocks, blocks.Values
    {
      map n | n in blocks :: Entry(blocks[n].data, blocks[n].isOld)
    }

    /** Cache and wire are what transmitting these items on a new connection makes of them. */
    ghost predicate Tracks(items: seq<Item>)
      reads this`blocks, this`wire, blocks.Values
    {
      var s := Send(hash, map[], items);
      Shape() && s.cache == Cache() && EncodeAll(s.msgs) == wire
    }

    ghost predicate Valid()
      reads this, blocks.Values
    {
      Tracks(sent)
    }

    constructor (maxSize: MaxSize)
      ensures Valid() && this.maxSize == maxSize && hash == HashOf(maxSize)
      ensures sent == [] && blocks == map[] && wire == []
    {
      this.maxSize, hash := maxSize, HashOf(maxSize);
      blocks, wire, sent := map[], [], [];
    }

    /** The window fingerprint: the hash of three bytes, reduced modulo half of MAX_BYTES. */
    method RabinFunc(b0: byte, b1: byte, b2: byte) returns (v: nat)
      requires Valid()
      ensures v == hash([b0, b1, b2]) % 32
    {
      var hashMe := [b0, b1, b2];
      var n := HashFunction(maxSize, hashMe);
      assert Djb2At(hashMe);
      v := n % (MAX_BYTES / 2);
    }

    method InsertBlock(b: Chunk) returns (n: uint32)
      requires Shape()
      modifies this`blocks, blocks.Values
      ensures Shape() && fresh(blocks.Values - old(blocks.Values))
      ensures n == hash(b) && n in blocks
      ensures Cache() == Inserted(hash, old(Cache()), b)
      ensures if n in old(blocks) && old(blocks[n]).data == b then blocks == old(blocks)
        else fresh(blocks[n]) && blocks == old(blocks)[n := blocks[n]]
    {
      hide Number, HashOf;
      n := HashFunction(maxSize, b);
      assert Djb2At(b);
      var newBlock := new CachedBlock(n, b, false);
      if n in blocks {
        var cur := blocks[n];
        if |cur.data| != |b| || cur.data != b {
          blocks := blocks[n := newBlock];
        } else {
          blocks[n].isOld := true;
        }
      } else {
        blocks := blocks[n := newBlock];
      }
    }

    method WriteBlockToClient(i: uint32) returns (r: WriteResult)
      requires Shape()
      modifies this`wire, blocks.Values
      ensures Shape() && blocks == old(blocks)
      ensures i !in blocks ==> r == OutOfRange && wire == old(wire) && Cache() == old(Cache())
      ensures i in blocks ==>
        var m := MsgFor(old(Cache()), i);
        && wire == old(wire) + Encode(m)
        && Cache() == Written(old(Cache()), i)
        && r == Wrote(if m.Data? then |m.data| else DESC_SIZE)
      ensures i in blocks ==>
        var e := old(Cache())[i];
        LaidOut(wire[|old(wire)|..], i, |e.data|, if e.isOld then 1 else 0, if e.isOld then [] else e.data)
    {
      if i !in blocks {
        return OutOfRange;
      }
      WrittenLayout(wire, Cache(), i);
      var blockI := blocks[i];
      var descriptor := Desc(blockI.blockNum, |blockI.data|, blockI.isOld);
      ghost var before := wire;
      wire := wire + WriteDesc(descriptor);
      r := Wrote(DESC_SIZE);
      if !descriptor.isOld {
        wire := wire + blockI.data;
        r := Wrote(|blockI.data|);
        blockI.isOld := true;
        Associate(before, WriteDesc(descriptor), blockI.data);
      } else {
        assert Encode(MsgFor(old(Cache()), i)) == WriteDesc(descriptor);
      }
    }

    /** The two calls the scan makes for every block. */
    method TransmitBlock(b: Chunk)
      requires Valid()
      modifies this, blocks.Values
      ensures Valid() && fresh(blocks.Values - old(blocks.Values))
      ensures sent == old(sent) + [Block(b)]
    {
      hide Send, EncodeAll, Encode, MsgFor, Inserted, Written, LaidOut, RabinServer.Cache, RabinServer.UsesDjb2;
      SendBlockBytes(hash, sent, b);
      var blockNum := InsertBlock(b);
      var _ := WriteBlockToClient(blockNum);
      sent := sent + [Block(b)];
    }

    /** The descriptor of size zero that ends a file. */
    method WriteEnd()
      requires Valid()
      modifies this`wire, this`sent
      ensures Valid() && sent == old(sent) + [End]
      ensures wire == old(wire) + [0, 0, 0, 0, 0, 0, 0, 0, 0, 0, 0, 0, 0]
    {
      hide Send, EncodeAll, Encode, WriteDesc, DescOf, RabinServer.Cache, RabinServer.Shape;
      SendEndBytes(hash, sent);
      EndBytes();
      MessageLayout(Eof);
      wire := wire + WriteDesc(Desc(0, 0, false));
      sent := sent + [End];
    }

    /** Sends one file. The counter i is a 32-bit unsigned number, hence the bound on the size. */
    method SendFile(file: seq<byte>) returns (numBlocks: nat)
      requires Valid()
      requires |file| < TWO_32
      modifies this, blocks.Values
      ensures Valid() && fresh(blocks.Values - old(blocks.Values))
      ensures sent == old(sent) + FileItems(hash, file)
      ensures numBlocks == |Chunks(hash, file)| + 1
    {
      hide AtLoop, Tracks;
      ghost var before := sent;
      var i: uint32 := 2;
      var prev := 0;
      numBlocks := 0;
      LoopStarts(hash, file, before);
      while i < |file|
        invariant 2 <= i && (i <= |file| || i == 2)
        invariant 0 <= prev <= |file| && (i <= |file| ==> prev < i)
        invariant AtLoop(hash, file, before, i, prev, numBlocks, sent)
        invariant Valid() && fresh(blocks.Values - old(blocks.Values))
        decreases |file| - i
      {
        var tooLarge := i - prev >= MAX_BYTES;
        var fingerprint := RabinFunc(file[i - 2], file[i - 1], file[i]);
        if fingerprint == 0 || tooLarge {
          LoopCuts(hash, file, before, i, prev, numBlocks, sent);
          TransmitBlock(file[prev..i]);
          prev := i;
          numBlocks := numBlocks + 1;
        } else {
          LoopSkips(hash, file, before, i, prev, numBlocks, sent);
        }
        i := i + 1;
      }
      LoopEnds(hash, file, before, i, prev, numBlocks, sent);
      if prev != |file| {
        TransmitBlock(file[prev..|file|]);
        numBlocks := numBlocks + 1;
      }
      WriteEnd();
      numBlocks := numBlocks + 1;
    }
  }
}

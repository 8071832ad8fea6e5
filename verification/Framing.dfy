/**
 Blocks as bytes (multiplex_standards.h) and the loop that reads them back from a connection, whatever
 the sizes in which read() returns the bytes.  Words are little-endian, as on the hosts in use.
 */
module Framing {
  import opened Sequences
  import opened Standards

  const WORD: nat := 4
  const DATA_HEADER: nat := 12
  const INIT_SIZE: nat := 24
  const MAX_FRAME: nat := BLOCK_SIZE + DATA_HEADER

  function EncodeWord(x: nat): (w: seq<byte>)
    requires x < U32_LIMIT
    ensures |w| == WORD
  {
    var x1 := x / 256;
    var x2 := x1 / 256;
    [x % 256, x1 % 256, x2 % 256, x2 / 256]
  }

  function DecodeWord(w: seq<byte>, at: nat): (x: nat)
    requires at + WORD <= |w|
    ensures x < U32_LIMIT
  {
    var b0: int, b1: int, b2: int, b3: int := w[at], w[at + 1], w[at + 2], w[at + 3];
    b0 + 256 * (b1 + 256 * (b2 + 256 * b3))
  }

  lemma WordRoundTrip(x: nat, w: seq<byte>, at: nat)
    requires x < U32_LIMIT && at + WORD <= |w| && w[at..at + WORD] == EncodeWord(x)
    ensures DecodeWord(w, at) == x
  {
    var e := EncodeWord(x);
    var slice := w[at..at + WORD];
    assert w[at] == slice[0] && w[at + 1] == slice[1] && w[at + 2] == slice[2] && w[at + 3] == slice[3];
  }

  predicate IsInt32(x: int) {
    -0x8000_0000 <= x < 0x8000_0000
  }

  /** An int in two's complement. */
  function EncodeInt(x: int): seq<byte>
    requires IsInt32(x)
  {
    EncodeWord(if x < 0 then x + U32_LIMIT else x)
  }

  function Signed(x: nat): int
    requires x < U32_LIMIT
  {
    if x < INT_LIMIT then x else x - U32_LIMIT
  }

  lemma IntRoundTrip(x: int, w: seq<byte>, at: nat)
    requires IsInt32(x) && at + WORD <= |w| && w[at..at + WORD] == EncodeInt(x)
    ensures Signed(DecodeWord(w, at)) == x
  {
    WordRoundTrip(if x < 0 then x + U32_LIMIT else x, w, at);
  }

  /** A block the writer can put on the wire. */
  predicate Encodable(b: Block) {
    match b
    case InitBlock(size, tag, prev, _) => size < INT_LIMIT && IsInt32(tag) && IsInt32(prev)
    case DataBlock(tag, offset, payload) => IsInt32(tag) && offset < INT_LIMIT && |payload| <= BLOCK_SIZE
  }

  /**
   The bytes of a block: its size first, then -1 in an init block and the offset in a data block.
   `padding` fills the init block up to a multiple of four and is never initialised.
   */
  function Encode(b: Block, padding: seq<byte>): (f: seq<byte>)
    requires Encodable(b) && |padding| == 3
    ensures |f| == if b.InitBlock? then INIT_SIZE else DATA_HEADER + |b.payload|
  {
    match b
    case InitBlock(size, tag, prev, last) =>
      EncodeWord(INIT_SIZE) + EncodeInt(-1) + EncodeWord(size) + EncodeInt(tag) + EncodeInt(prev) +
      [if last then 1 else 0] + padding
    case DataBlock(tag, offset, payload) =>
      EncodeWord(DATA_HEADER + |payload|) + EncodeWord(offset) + EncodeInt(tag) + payload
  }

  /** What handle_block makes of a frame: an init block if the second word is -1, else a data block. */
  function Decode(f: seq<byte>): Block
    requires |f| >= DATA_HEADER
    requires Signed(DecodeWord(f, 4)) == -1 ==> |f| == INIT_SIZE
  {
    if Signed(DecodeWord(f, 4)) == -1 then
      InitBlock(DecodeWord(f, 8), Signed(DecodeWord(f, 12)), Signed(DecodeWord(f, 16)), f[20] != 0)
    else
      DataBlock(Signed(DecodeWord(f, 8)), DecodeWord(f, 4), f[DATA_HEADER..])
  }

  /** The second word tells init and data blocks apart, and decoding gives back the block sent. */
  lemma FrameRoundTrip(b: Block, padding: seq<byte>)
    requires Encodable(b) && |padding| == 3
    ensures var f := Encode(b, padding);
            && DecodeWord(f, 0) == |f| <= MAX_FRAME
            && (Signed(DecodeWord(f, 4)) == -1 <==> b.InitBlock?)
            && Decode(f) == b
  {
    var f := Encode(b, padding);
    match b
    case InitBlock(size, tag, prev, last) =>
      assert f[0..4] == EncodeWord(INIT_SIZE) && f[4..8] == EncodeInt(-1) && f[8..12] == EncodeWord(size);
      assert f[12..16] == EncodeInt(tag) && f[16..20] == EncodeInt(prev);
      WordRoundTrip(INIT_SIZE, f, 0);
      IntRoundTrip(-1, f, 4);
      WordRoundTrip(size, f, 8);
      IntRoundTrip(tag, f, 12);
      IntRoundTrip(prev, f, 16);
    case DataBlock(tag, offset, payload) =>
      assert f[0..4] == EncodeWord(DATA_HEADER + |payload|) && f[4..8] == EncodeWord(offset);
      assert f[8..12] == EncodeInt(tag) && f[DATA_HEADER..] == payload;
      WordRoundTrip(DATA_HEADER + |payload|, f, 0);
      WordRoundTrip(offset, f, 4);
      IntRoundTrip(tag, f, 8);
  }

  /** Four bytes as a number, least significant first. */
  function Little(f: seq<byte>, at: nat): int
    requires at + WORD <= |f|
  {
    var b0: int, b1: int, b2: int, b3: int := f[at], f[at + 1], f[at + 2], f[at + 3];
    b0 + 256 * b1 + 65536 * b2 + 16777216 * b3
  }

  lemma WordBytes(x: nat, f: seq<byte>, at: nat)
    requires x < U32_LIMIT && at + WORD <= |f| && f[at..at + WORD] == EncodeWord(x)
    ensures Little(f, at) == x
  {
    WordRoundTrip(x, f, at);
  }

  /** A signed int modulo 2^32. */
  function Word(x: int): int {
    if x < 0 then x + 0x1_0000_0000 else x
  }

  /** The structs of the standard, byte by byte: where each field stands and what it holds. */
  lemma FrameLayout(b: Block, padding: seq<byte>)
    requires Encodable(b) && |padding| == 3
    ensures var f := Encode(b, padding);
            match b
            case InitBlock(size, tag, prev, last) =>
              && |f| == 24
              && Little(f, 0) == 24 && Little(f, 4) == 0xFFFF_FFFF && Little(f, 8) == size
              && Little(f, 12) == Word(tag) && Little(f, 16) == Word(prev)
              && f[20] == (if last then 1 else 0) && f[21..] == padding
            case DataBlock(tag, offset, payload) =>
              && |f| == 12 + |payload|
              && Little(f, 0) == 12 + |payload| && Little(f, 4) == offset && Little(f, 8) == Word(tag)
              && f[12..] == payload
  {
    var f := Encode(b, padding);
    match b
    case InitBlock(size, tag, prev, last) =>
      assert f[0..4] == EncodeWord(INIT_SIZE) && f[4..8] == EncodeInt(-1) && f[8..12] == EncodeWord(size);
      assert f[12..16] == EncodeInt(tag) && f[16..20] == EncodeInt(prev);
      WordBytes(INIT_SIZE, f, 0);
      WordBytes(0xFFFF_FFFF, f, 4);
      WordBytes(size, f, 8);
      WordBytes(Word(tag), f, 12);
      WordBytes(Word(prev), f, 16);
    case DataBlock(tag, offset, payload) =>
      assert f[0..4] == EncodeWord(DATA_HEADER + |payload|) && f[4..8] == EncodeWord(offset);
      assert f[8..12] == EncodeInt(tag) && f[DATA_HEADER..] == payload;
      WordBytes(DATA_HEADER + |payload|, f, 0);
      WordBytes(offset, f, 4);
      WordBytes(Word(tag), f, 8);
  }

  /** A frame on the wire: it starts with its own length and fits in the reader's buffer. */
  ghost predicate IsFrame(f: seq<byte>) {
    DATA_HEADER <= |f| <= MAX_FRAME && DecodeWord(f, 0) == |f|
  }

  ghost predicate AreFrames(frames: seq<seq<byte>>) {
    forall i :: 0 <= i < |frames| ==> IsFrame(frames[i])
  }

  ghost function Stream(frames: seq<seq<byte>>): seq<byte> {
    if frames == [] then [] else frames[0] + Stream(frames[1..])
  }

  class Connection {
    /** Bytes that have been or will be sent and have not been read. */
    var incoming: seq<byte>
    /** How many reads have failed. */
    ghost var failures: nat

    constructor (incoming: seq<byte>)
      ensures this.incoming == incoming && failures == 0
    {
      this.incoming := incoming;
      failures := 0;
    }

    /** The calls in which `ret` came back have failed exactly if it is -1, by one read. */
    twostate predicate FailedIff(ret: int)
      reads this
    {
      failures == old(failures) + if ret == -1 then 1 else 0
    }

    /** read(): some of the bytes asked for, at least one unless the stream has ended; -1 on error. */
    method Read(buf: array<byte>, at: nat, count: nat) returns (ret: int)
      requires count > 0 && at + count <= buf.Length
      modifies this, buf
      ensures -1 <= ret <= count && FailedIff(ret)
      ensures ret == 0 ==> old(incoming) == []
      ensures ret < 1 ==> incoming == old(incoming) && buf[..] == old(buf[..])
      ensures ret >= 1 ==> ret <= |old(incoming)| && incoming == old(incoming)[ret..]
      ensures ret >= 1 ==> buf[..at + ret] == old(buf[..at]) + old(incoming)[..ret]
    {
      var fails: bool := *;
      if fails {
        failures := failures + 1;
        return -1;
      }
      if incoming == [] {
        return 0;
      }
      ret :| 1 <= ret <= count && ret <= |incoming|;
      forall i | 0 <= i < ret {
        buf[at + i] := incoming[i];
      }
      incoming := incoming[ret..];
    }
  }

  /** A read loop of recieve_tcp_block: go on until `target` bytes are in the buffer. */
  method ReadUpTo(buf: array<byte>, conn: Connection, start: nat, target: nat, ghost all: seq<byte>)
    returns (ret: int, index: nat)
    requires start <= target <= buf.Length && buf[..start] + conn.incoming == all
    modifies conn, buf
    ensures -1 <= ret && conn.FailedIff(ret)
    ensures start <= index <= target && buf[..index] + conn.incoming == all
    ensures ret >= 1 ==> index == target
    ensures ret == 0 ==> index < target && conn.incoming == []
  {
    ret, index := 1, start;
    while index < target
      invariant start <= index <= target && buf[..index] + conn.incoming == all
      invariant ret >= 1 && conn.failures == old(conn.failures)
      decreases target - index
    {
      ret := conn.Read(buf, index, target - index);
      if ret < 1 {
        return;
      }
      index := index + ret;
    }
  }

  /**
   recieve_tcp_block: read the size word, then the rest of the block.  On a stream of whole frames it
   returns exactly the next frame; 0 means that the stream has ended between frames, -1 that a read failed.
   */
  method RecieveTcpBlock(buf: array<byte>, conn: Connection, ghost frames: seq<seq<byte>>) returns (ret: int)
    requires buf.Length == MAX_FRAME && AreFrames(frames) && conn.incoming == Stream(frames)
    modifies conn, buf
    ensures -1 <= ret <= MAX_FRAME && conn.FailedIff(ret)
    ensures ret == 0 ==> frames == [] && conn.incoming == []
    ensures ret >= 1 ==> frames != [] && buf[..ret] == frames[0] && conn.incoming == Stream(frames[1..])
  {
    ghost var all := conn.incoming;
    var index;
    ret, index := ReadUpTo(buf, conn, 0, WORD, all);
    if ret < 1 {
      assert frames != [] ==> IsFrame(frames[0]) && |all| >= |frames[0]|;
      return;
    }
    assert frames != [] && IsFrame(frames[0]);
    var blockSize := DecodeWord(buf[..], 0);
    FirstWord(buf[..], conn.incoming, frames);
    ret, index := ReadUpTo(buf, conn, index, blockSize, all);
    if ret < 1 {
      return;
    }
    assert buf[..index] == all[..index] == frames[0];
    assert conn.incoming == all[index..];
    ret := index;
  }

  lemma FirstWord(buf: seq<byte>, rest: seq<byte>, frames: seq<seq<byte>>)
    requires |buf| >= WORD && buf[..WORD] + rest == Stream(frames)
    requires frames != [] && |frames[0]| >= WORD
    ensures DecodeWord(buf, 0) == DecodeWord(frames[0], 0)
  {
    var all := Stream(frames);
    assert forall i :: 0 <= i < WORD ==> buf[..WORD][i] == buf[i] && all[i] == frames[0][i];
  }

  ghost predicate FrameOf(f: seq<byte>, b: Block) {
    Encodable(b) && exists padding :: |padding| == 3 && f == Encode(b, padding)
  }

  lemma FrameDecodes(f: seq<byte>, b: Block)
    requires FrameOf(f, b)
    ensures IsFrame(f) && (Signed(DecodeWord(f, 4)) == -1 ==> |f| == INIT_SIZE) && Decode(f) == b
  {
    var padding :| |padding| == 3 && f == Encode(b, padding);
    FrameRoundTrip(b, padding);
  }

  /** The frames of a list of blocks. */
  ghost predicate FramesOf(frames: seq<seq<byte>>, blocks: seq<Block>) {
    && |frames| == |blocks|
    && forall i :: 0 <= i < |blocks| ==> FrameOf(frames[i], blocks[i])
  }

  lemma FramesAreFrames(frames: seq<seq<byte>>, blocks: seq<Block>)
    requires FramesOf(frames, blocks)
    ensures AreFrames(frames)
  {
    forall i | 0 <= i < |frames|
      ensures IsFrame(frames[i])
    {
      FrameDecodes(frames[i], blocks[i]);
    }
  }

  method NextBlock(conn: Connection, ghost frames: seq<seq<byte>>, ghost blocks: seq<Block>)
    returns (ret: int, block: Block)
    requires FramesOf(frames, blocks) && conn.incoming == Stream(frames)
    modifies conn
    ensures -1 <= ret && conn.FailedIff(ret)
    ensures ret == 0 ==> blocks == [] && conn.incoming == []
    ensures ret >= 1 ==> blocks != [] && block == blocks[0]
    ensures ret >= 1 ==> FramesOf(frames[1..], blocks[1..]) && conn.incoming == Stream(frames[1..])
  {
    var buf := new byte[MAX_FRAME];
    FramesAreFrames(frames, blocks);
    ret := RecieveTcpBlock(buf, conn, frames);
    block := DataBlock(NO_TAG, 0, []);
    if ret >= 1 {
      FrameDecodes(frames[0], blocks[0]);
      block := Decode(buf[..ret]);
    }
  }

  /**
   listen_for_block, with the blocks it hands to handle_block collected: under every schedule of short
   reads they are the blocks that were sent, all of them unless a read fails, and only then does it give up.
   */
  method ListenForBlock(conn: Connection, ghost frames: seq<seq<byte>>, ghost blocks: seq<Block>)
    returns (received: seq<Block>, failed: bool)
    requires FramesOf(frames, blocks) && conn.incoming == Stream(frames)
    modifies conn
    ensures received <= blocks
    ensures !failed ==> received == blocks
    ensures failed <==> conn.failures > old(conn.failures)
  {
    received := [];
    ghost var frames', blocks' := frames, blocks;
    while true
      invariant FramesOf(frames', blocks') && conn.incoming == Stream(frames')
      invariant received + blocks' == blocks && conn.failures == old(conn.failures)
      decreases |frames'|
    {
      var ret, block := NextBlock(conn, frames', blocks');
      if ret < 1 {
        return received, ret == -1;
      }
      ConsumeFirst(received, blocks');
      received := received + [block];
      frames', blocks' := frames'[1..], blocks'[1..];
    }
  }

  lemma {:induction false} StreamAppend(frames: seq<seq<byte>>, f: seq<byte>)
    ensures Stream(frames + [f]) == Stream(frames) + f
  {
    if frames == [] {
      assert [f][1..] == [];
    } else {
      StreamAppend(frames[1..], f);
      assert (frames + [f])[1..] == frames[1..] + [f];
    }
  }

  lemma NoBytesNoBlocks(frames: seq<seq<byte>>, blocks: seq<Block>)
    requires FramesOf(frames, blocks)
    ensures Stream(frames) == [] <==> blocks == []
  {
    if frames != [] {
      FrameDecodes(frames[0], blocks[0]);
    }
  }

  /** A connection with the blocks that are on their way on it. */
  class Line {
    const conn: Connection
    ghost var frames: seq<seq<byte>>
    ghost var blocks: seq<Block>

    ghost predicate Valid()
      reads this, conn
    {
      FramesOf(frames, blocks) && conn.incoming == Stream(frames)
    }

    constructor ()
      ensures Valid() && blocks == [] && fresh(conn) && conn.failures == 0
    {
      conn := new Connection([]);
      frames, blocks := [], [];
    }

    /** Nothing is on its way exactly when no byte is. */
    predicate IsEmpty()
      requires Valid()
      reads this, conn
      ensures IsEmpty() <==> blocks == []
    {
      NoBytesNoBlocks(frames, blocks);
      conn.incoming == []
    }

    /** send_tcp of a block, as bytes: all of them are sent; the padding is whatever memory held. */
    method Send(block: Block, padding: seq<byte>)
      requires Valid() && Encodable(block) && |padding| == 3
      modifies this, conn
      ensures Valid() && blocks == old(blocks) + [block] && conn.failures == old(conn.failures)
    {
      var frame := Encode(block, padding);
      StreamAppend(frames, frame);
      conn.incoming := conn.incoming + frame;
      assert FrameOf(frame, block);
      frames, blocks := frames + [frame], blocks + [block];
    }

    /** The next block, read in pieces of any size.  After a failed read the line is not used again. */
    method Receive() returns (ret: int, block: Block)
      requires Valid()
      modifies this, conn
      ensures ret >= 0 ==> Valid()
      ensures -1 <= ret && conn.FailedIff(ret)
      ensures ret == 0 ==> old(blocks) == [] && blocks == []
      ensures ret >= 1 ==> old(blocks) != [] && block == old(blocks)[0] && blocks == old(blocks)[1..]
    {
      ret, block := NextBlock(conn, frames, blocks);
      if ret == 0 {
        frames := [];
      } else if ret >= 1 {
        frames, blocks := frames[1..], blocks[1..];
      }
    }
  }
}

/** Whole runs: a compressor drained into buffers of any sizes, a decompressor likewise, and both. */
module Lz4RoundTrip {
  import opened Basics
  import opened Lz4Format
  import opened Lz4Matcher
  import Lz4Compressor
  import Lz4Decompressor

  /** Calls a fresh compressor with buffers of sizes(0), sizes(1), ... until one is not filled. What
      comes out does not depend on the sizes. */
  method CompressAll(x: seq<Byte>, sizes: nat -> nat) returns (bytes: seq<Byte>)
    requires forall i :: sizes(i) > 0
    ensures bytes == Compressed(x)
  {
    hide Lz4Compressor.Ok, Lz4Compressor.Pending, Compressed;
    var c := new Lz4Compressor.Compressor(x);
    bytes := [];
    var calls := 0;
    var full := true;
    while full
      invariant fresh(c) && fresh(c.hashTable) && c.Valid()
      invariant bytes + c.ToWrite() == Compressed(x)
      invariant !full ==> c.ToWrite() == []
      decreases full, |c.ToWrite()|
    {
      var buffer := new Byte[sizes(calls)];
      var writed := c.Compress(buffer);
      bytes := bytes + buffer[..writed];
      full := writed == buffer.Length;
      calls := calls + 1;
    }
  }

  /** Calls a fresh decompressor in the same way. For every well-formed block `b` it gives what a
      decoder with unbounded history gives. */
  method DecompressAll(bytes: seq<Byte>, ghost b: Block, sizes: nat -> nat) returns (output: seq<Byte>)
    requires Lays(bytes, b) && Expandable(b, 0)
    requires forall i :: sizes(i) > 0
    ensures output == Expand([], b)
  {
    hide Lz4Decompressor.Ok, Lz4Decompressor.Remembers, Lz4Decompressor.Final, Expand;
    var d := new Lz4Decompressor.Decompressor(bytes, b);
    output := [];
    var calls := 0;
    var full := true;
    while full
      invariant fresh(d) && fresh(d.window) && d.Valid()
      invariant output == d.history && Lz4Decompressor.Final(d.Value()) == Expand([], b)
      invariant !full ==> output == Expand([], b)
      decreases full, |Expand([], b)| - |output|
    {
      var buffer := new Byte[sizes(calls)];
      var readed := d.Decompress(buffer);
      output := output + buffer[..readed];
      full := readed == buffer.Length;
      Lz4Decompressor.HistoryIsWithin(d.Value());
      calls := calls + 1;
    }
  }

  /** Compressing and decompressing any non-empty input gives the input back, whatever the buffer
      sizes on both sides. */
  method RoundTrip(x: seq<Byte>, compressSizes: nat -> nat, decompressSizes: nat -> nat) returns (y: seq<Byte>)
    requires |x| > 0
    requires forall i :: compressSizes(i) > 0
    requires forall i :: decompressSizes(i) > 0
    ensures y == x
  {
    var bytes := CompressAll(x, compressSizes);
    ghost var b := CompressedIsSound(x);
    y := DecompressAll(bytes, b, decompressSizes);
  }
}

/** `find_and_decompress_gzip`, the embedded-gzip carver shared by the
    DocumentIncrementTable, Contents and ContentDocuments decoders: scan for the
    three bytes 1F 8B 08 and, from each hit, offer ever shorter chunks to a gzip
    decompressor until one is accepted. The decompressor (`gzip.decompress`) is
    a parameter: any total function from chunk to optional plaintext. */
module Carver {
  import opened Wrappers
  import opened Bytes

  /** ID1, ID2 and CM = 8 (deflate) of section 2.3.1 of RFC 1952. */
  predicate MagicAt(blob: seq<byte>, i: nat) {
    i + 3 <= |blob| && blob[i] == 0x1F && blob[i + 1] == 0x8B && blob[i + 2] == 0x08
  }

  /** The decompressor accepts blob[start..end]. */
  predicate Inflates(blob: seq<byte>, decompress: seq<byte> -> Option<seq<byte>>, start: nat, end: nat)
    requires start <= end <= |blob|
  {
    decompress(blob[start..end]).Some?
  }

  /** Some end the carver would try after start (start + 10 < end <= |blob|)
      makes the chunk decompress. */
  ghost predicate Recoverable(blob: seq<byte>, decompress: seq<byte> -> Option<seq<byte>>, start: nat) {
    exists end: nat :: start + 10 < end <= |blob| && Inflates(blob, decompress, start, end)
  }

  datatype Carved = Carved(start: nat, end: nat, plaintext: seq<byte>)

  /** The carver's answer: the first magic offset that is recoverable, the
      largest end that works there, and the plaintext for it. */
  ghost predicate IsFirstCarve(blob: seq<byte>, decompress: seq<byte> -> Option<seq<byte>>, c: Carved) {
    && MagicAt(blob, c.start)
    && c.start + 10 < c.end <= |blob|
    && decompress(blob[c.start..c.end]) == Some(c.plaintext)
    && (forall e: nat :: c.end < e <= |blob| ==> !Inflates(blob, decompress, c.start, e))
    && (forall s: nat :: s < c.start && MagicAt(blob, s) ==> !Recoverable(blob, decompress, s))
  }

  method FindAndDecompressGzip(blob: seq<byte>, decompress: seq<byte> -> Option<seq<byte>>) returns (r: Option<Carved>)
    ensures r.Some? ==> IsFirstCarve(blob, decompress, r.value)
    ensures r.None? ==> forall s: nat :: MagicAt(blob, s) ==> !Recoverable(blob, decompress, s)
  {
    var start: nat := 0;
    while start + 2 < |blob|
      invariant forall s: nat :: s < start && MagicAt(blob, s) ==> !Recoverable(blob, decompress, s)
      decreases |blob| - start
    {
      if MagicAt(blob, start) {
        var end: nat := |blob|;
        while end > start + 10
          invariant end <= |blob|
          invariant forall e: nat :: end < e <= |blob| && start + 10 < e ==> !Inflates(blob, decompress, start, e)
          decreases end
        {
          var attempt := decompress(blob[start..end]);
          if attempt.Some? {
            return Some(Carved(start, end, attempt.value));
          }
          assert !Inflates(blob, decompress, start, end);
          end := end - 1;
        }
        assert !Recoverable(blob, decompress, start);
      }
      start := start + 1;
    }
    r := None;
  }

  /** The contract pins the answer down: at most one carve satisfies it. */
  lemma FirstCarveUnique(blob: seq<byte>, decompress: seq<byte> -> Option<seq<byte>>, c: Carved, d: Carved)
    requires IsFirstCarve(blob, decompress, c) && IsFirstCarve(blob, decompress, d)
    ensures c == d
  {
    if c.start < d.start {
      assert Inflates(blob, decompress, c.start, c.end);
      assert Recoverable(blob, decompress, c.start);
    } else if d.start < c.start {
      assert Inflates(blob, decompress, d.start, d.end);
      assert Recoverable(blob, decompress, d.start);
    } else if c.end < d.end {
      assert Inflates(blob, decompress, d.start, d.end);
    } else if d.end < c.end {
      assert Inflates(blob, decompress, c.start, c.end);
    }
  }

  /** A blob with no 1F 8B 08 anywhere yields nothing, whatever the
      decompressor does. */
  lemma NoMagicNoCarve(blob: seq<byte>, decompress: seq<byte> -> Option<seq<byte>>, c: Carved)
    requires forall i: nat :: !MagicAt(blob, i)
    ensures !IsFirstCarve(blob, decompress, c)
  {
  }
}

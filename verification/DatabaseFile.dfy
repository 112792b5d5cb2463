/** The file that a database is exported to and imported from. */
module DatabaseFile {
  import opened Wrappers

  type Byte = b: nat | b < 256
  type Bytes = seq<Byte>

  const MAGIC_HEADER: Bytes := [0x48, 0x61, 0x74, 0x68, 0x44, 0x42]
  const LIMIT: nat := 0x1_0000_0000

  // ----- big-endian 32-bit numbers -----

  /** Most significant byte first. */
  function Pack(n: nat): (b: Bytes)
    requires n < LIMIT
    ensures |b| == 4
  {
    [n / 0x1000000, n / 0x10000 % 256, n / 256 % 256, n % 256]
  }

  function Unpack(b: Bytes): (n: nat)
    requires |b| == 4
    ensures n < LIMIT
  {
    var b0: nat, b1: nat, b2: nat, b3: nat := b[0], b[1], b[2], b[3];
    ((b0 * 256 + b1) * 256 + b2) * 256 + b3
  }

  /** Most significant byte first, in both directions. */
  lemma BigEndian(n: nat, b: Bytes)
    requires n < LIMIT && |b| == 4
    ensures n == Pack(n)[0] as int * 0x1000000 + Pack(n)[1] as int * 0x10000 + Pack(n)[2] as int * 0x100 + Pack(n)[3] as int
    ensures Unpack(b) == b[0] as int * 0x1000000 + b[1] as int * 0x10000 + b[2] as int * 0x100 + b[3] as int
  {
    assert n / 256 / 256 == n / 0x10000 && n / 0x10000 / 256 == n / 0x1000000;
  }

  lemma UnpackPack(n: nat)
    requires n < LIMIT
    ensures Unpack(Pack(n)) == n
  {
    assert n / 256 / 256 == n / 0x10000 && n / 0x10000 / 256 == n / 0x1000000;
  }

  lemma PackUnpack(b: Bytes)
    requires |b| == 4
    ensures Pack(Unpack(b)) == b
  {
    var n := Unpack(b);
    var b0: nat, b1: nat, b2: nat := b[0], b[1], b[2];
    assert n / 256 == (b0 * 256 + b1) * 256 + b2 && n / 0x10000 == b0 * 256 + b1 && n / 0x1000000 == b0;
  }

  // ----- records -----

  predicate AllShort(records: seq<Bytes>) {
    forall r :: r in records ==> |r| < LIMIT
  }

  /** Each record after its length. */
  function Frames(records: seq<Bytes>): Bytes
    requires AllShort(records)
  {
    if records == [] then [] else Pack(|records[0]|) + records[0] + Frames(records[1..])
  }

  lemma {:induction false} FramesAppend(records: seq<Bytes>, r: Bytes)
    requires AllShort(records) && |r| < LIMIT
    ensures AllShort(records + [r]) && Frames(records + [r]) == Frames(records) + Pack(|r|) + r
  {
    if records == [] {
      assert [r][1..] == [] && Frames([]) == [];
      assert Frames([r]) == Pack(|r|) + r + Frames([]);
    } else {
      FramesAppend(records[1..], r);
      assert (records + [r])[1..] == records[1..] + [r];
    }
  }

  datatype Read = Records(records: seq<Bytes>) | UnexpectedEnd(before: seq<Bytes>)

  /** The reader: a length that is cut off ends the file, a record that is cut off is an error. */
  function ReadFrames(b: Bytes): Read
    decreases |b|
  {
    if |b| < 4 then Records([])
    else
      var n := Unpack(b[..4]);
      if |b| < 4 + n then UnexpectedEnd([])
      else
        match ReadFrames(b[4 + n..])
        case Records(rest) => Records([b[4..4 + n]] + rest)
        case UnexpectedEnd(rest) => UnexpectedEnd([b[4..4 + n]] + rest)
  }

  /** Reading what was written, even with up to three more bytes behind it. */
  lemma {:induction false} ReadWritten(records: seq<Bytes>, tail: Bytes)
    requires AllShort(records) && |tail| < 4
    ensures ReadFrames(Frames(records) + tail) == Records(records)
  {
    if records != [] {
      var r, rest := records[0], Frames(records[1..]);
      var b := Frames(records) + tail;
      assert b == Pack(|r|) + (r + (rest + tail));
      assert b[..4] == Pack(|r|);
      UnpackPack(|r|);
      assert b[4..4 + |r|] == r && b[4 + |r|..] == rest + tail;
      ReadWritten(records[1..], tail);
      assert [r] + records[1..] == records;
    } else {
      assert Frames(records) + tail == tail;
    }
  }

  /** And nothing else reads as those records. */
  lemma {:induction false} ReadMeansWritten(b: Bytes) returns (tail: Bytes)
    requires ReadFrames(b).Records?
    ensures |tail| < 4 && AllShort(ReadFrames(b).records) && b == Frames(ReadFrames(b).records) + tail
    decreases |b|
  {
    if |b| < 4 {
      tail := b;
    } else {
      var n := Unpack(b[..4]);
      tail := ReadMeansWritten(b[4 + n..]);
      var records := ReadFrames(b).records;
      var rest := ReadFrames(b[4 + n..]).records;
      assert records == [b[4..4 + n]] + rest && records[1..] == rest;
      PackUnpack(b[..4]);
      assert b == b[..4] + b[4..4 + n] + b[4 + n..];
      assert Frames(records) == Pack(n) + b[4..4 + n] + Frames(rest);
    }
  }

  // ----- export -----

  datatype Vertex = Vertex(isBlock: bool, isGenesis: bool, voided: bool, height: nat, bytes: Bytes)

  function BytesOf(vs: seq<Vertex>): seq<Bytes> {
    if vs == [] then []
    else BytesOf(vs[..|vs| - 1]) + if vs[|vs| - 1].isGenesis then [] else [vs[|vs| - 1].bytes]
  }

  function CountOf(vs: seq<Vertex>, blocks: bool): nat {
    if vs == [] then 0 else CountOf(vs[..|vs| - 1], blocks) + if vs[|vs| - 1].isBlock == blocks then 1 else 0
  }

  function GenesisCount(vs: seq<Vertex>): nat {
    if vs == [] then 0 else GenesisCount(vs[..|vs| - 1]) + if vs[|vs| - 1].isGenesis then 1 else 0
  }

  /** The height of the best block among them. */
  function BestHeight(vs: seq<Vertex>): nat {
    if vs == [] then 0
    else
      var h, v := BestHeight(vs[..|vs| - 1]), vs[|vs| - 1];
      if v.isBlock && !v.voided && h < v.height then v.height else h
  }

  /** That height is the largest among valid blocks, or zero. */
  lemma {:induction false} BestHeightIsLargest(vs: seq<Vertex>)
    ensures forall v :: v in vs && v.isBlock && !v.voided ==> v.height <= BestHeight(vs)
    ensures BestHeight(vs) == 0 || exists v :: v in vs && v.isBlock && !v.voided && v.height == BestHeight(vs)
  {
    if vs != [] {
      var n := |vs| - 1;
      BestHeightIsLargest(vs[..n]);
      if BestHeight(vs) == BestHeight(vs[..n]) != 0 {
        var v :| v in vs[..n] && v.isBlock && !v.voided && v.height == BestHeight(vs[..n]);
        assert v in vs;
      }
      assert vs[n] in vs;
    }
  }

  /** The records are the bytes of the vertices that are not genesis, in order. */
  lemma {:induction false} RecordsAre(vs: seq<Vertex>, i: nat)
    requires i < |vs| && !vs[i].isGenesis
    ensures |BytesOf(vs[..i])| < |BytesOf(vs)| && BytesOf(vs)[|BytesOf(vs[..i])|] == vs[i].bytes && |BytesOf(vs[..i])| == i - GenesisCount(vs[..i])
  {
    var n := |vs| - 1;
    CountsExceedRecords(vs[..i]);
    if i < n {
      RecordsAre(vs[..n], i);
      assert vs[..n][..i] == vs[..i];
    }
  }

  /** The export stops at the first vertex that it writes at or above the wanted height. */
  ghost predicate Stops(vs: seq<Vertex>, maxHeight: Option<nat>, n: nat)
    requires n <= |vs|
  {
    n > 0 && !vs[n - 1].isGenesis && maxHeight.Some? && BestHeight(vs[..n]) >= maxHeight.value
  }

  ghost predicate Visited(vs: seq<Vertex>, maxHeight: Option<nat>, n: nat) {
    && n <= |vs| && (n == |vs| || Stops(vs, maxHeight, n))
    && forall k :: 0 <= k < n ==> !Stops(vs, maxHeight, k)
  }

  function FileOf(txs: nat, blocks: nat, records: seq<Bytes>): Bytes
    requires txs < LIMIT && blocks < LIMIT && AllShort(records)
  {
    MAGIC_HEADER + Pack(txs) + Pack(blocks) + Frames(records)
  }

  /** Writes the vertices and then seeks back to fill in the counts.  `n` is how many were visited;
  false when a length or a count does not fit in 32 bits. */
  method Export(vs: seq<Vertex>, maxHeight: Option<nat>) returns (file: Bytes, n: nat, ok: bool)
    ensures |vs| < LIMIT && (forall v :: v in vs ==> |v.bytes| < LIMIT) ==> ok
    ensures ok ==> Visited(vs, maxHeight, n)
    ensures ok ==> CountOf(vs[..n], false) < LIMIT && CountOf(vs[..n], true) < LIMIT && AllShort(BytesOf(vs[..n]))
    ensures ok ==> file == FileOf(CountOf(vs[..n], false), CountOf(vs[..n], true), BytesOf(vs[..n]))
  {
    hide Pack, Frames, FileOf, CountOf, BytesOf, BestHeight;
    file, n, ok := MAGIC_HEADER, 0, true;
    var txCount, blockCount, bestHeight := 0, 0, 0;
    file := file + Pack(0) + Pack(0);
    NothingVisited(vs);
    while n < |vs|
      invariant 0 <= n <= |vs| && ok
      invariant txCount == CountOf(vs[..n], false) && blockCount == CountOf(vs[..n], true) && txCount + blockCount == n
      invariant bestHeight == BestHeight(vs[..n])
      invariant AllShort(BytesOf(vs[..n])) && file == FileOf(0, 0, BytesOf(vs[..n]))
      invariant forall k :: 0 <= k <= n ==> !Stops(vs, maxHeight, k)
    {
      var v := vs[n];
      VisitedStep(vs, n);
      if v.isBlock {
        if !v.voided && bestHeight < v.height {
          bestHeight := v.height;
        }
        blockCount := blockCount + 1;
      } else {
        txCount := txCount + 1;
      }
      n := n + 1;
      if !v.isGenesis {
        if |v.bytes| >= LIMIT {
          ok := false;
          return;
        }
        FileAppend(BytesOf(vs[..n - 1]), v.bytes);
        file := file + Pack(|v.bytes|);
        file := file + v.bytes;
        if maxHeight.Some? && bestHeight >= maxHeight.value {
          break;
        }
      }
    }
    if txCount >= LIMIT || blockCount >= LIMIT {
      ok := false;
      return;
    }
    file := WriteCounts(file, txCount, blockCount, BytesOf(vs[..n]));
  }

  /** Seeks back to the counts and writes them over the zeros. */
  method WriteCounts(file: Bytes, txs: nat, blocks: nat, ghost records: seq<Bytes>) returns (file': Bytes)
    requires txs < LIMIT && blocks < LIMIT && AllShort(records) && file == FileOf(0, 0, records)
    ensures file' == FileOf(txs, blocks, records)
  {
    var at := |MAGIC_HEADER|;
    HeaderSize(records);
    file' := file[..at] + Pack(txs) + file[at + 4..];
    file' := file'[..at + 4] + Pack(blocks) + file'[at + 8..];
    Patched(txs, blocks, records);
  }

  lemma NothingVisited(vs: seq<Vertex>)
    ensures BytesOf(vs[..0]) == [] && CountOf(vs[..0], false) == CountOf(vs[..0], true) == BestHeight(vs[..0]) == 0
    ensures AllShort([]) && FileOf(0, 0, []) == MAGIC_HEADER + Pack(0) + Pack(0)
  {
  }

  lemma VisitedStep(vs: seq<Vertex>, n: nat)
    requires n < |vs|
    ensures BytesOf(vs[..n + 1]) == if vs[n].isGenesis then BytesOf(vs[..n]) else BytesOf(vs[..n]) + [vs[n].bytes]
    ensures forall blocks :: CountOf(vs[..n + 1], blocks) == CountOf(vs[..n], blocks) + if vs[n].isBlock == blocks then 1 else 0
    ensures BestHeight(vs[..n + 1]) == if vs[n].isBlock && !vs[n].voided && BestHeight(vs[..n]) < vs[n].height then vs[n].height else BestHeight(vs[..n])
    ensures GenesisCount(vs[..n + 1]) == GenesisCount(vs[..n]) + if vs[n].isGenesis then 1 else 0
  {
    assert vs[..n + 1][..n] == vs[..n];
  }

  lemma FileAppend(records: seq<Bytes>, r: Bytes)
    requires AllShort(records) && |r| < LIMIT
    ensures AllShort(records + [r]) && FileOf(0, 0, records + [r]) == FileOf(0, 0, records) + Pack(|r|) + r
  {
    hide Frames, Pack;
    FramesAppend(records, r);
  }

  lemma HeaderSize(records: seq<Bytes>)
    requires AllShort(records)
    ensures |FileOf(0, 0, records)| >= |MAGIC_HEADER| + 8
  {
  }

  lemma Patched(txs: nat, blocks: nat, records: seq<Bytes>)
    requires txs < LIMIT && blocks < LIMIT && AllShort(records)
    ensures var at, file := |MAGIC_HEADER|, FileOf(0, 0, records);
            && |file| >= at + 8
            && var once := file[..at] + Pack(txs) + file[at + 4..];
               once[..at + 4] + Pack(blocks) + once[at + 8..] == FileOf(txs, blocks, records)
  {
    hide Frames, Pack;
    var at, file := |MAGIC_HEADER|, FileOf(0, 0, records);
    assert file[..at] == MAGIC_HEADER && file[at + 8..] == Frames(records);
    var once := file[..at] + Pack(txs) + file[at + 4..];
    assert once[..at + 4] == MAGIC_HEADER + Pack(txs) && once[at + 8..] == Frames(records);
  }

  // ----- import -----

  datatype Imported = WrongHeader | ShortHeader | CutOff(read: seq<Bytes>) | Done(txCount: nat, blockCount: nat, read: seq<Bytes>)

  /** Reads a whole file. */
  method Import(file: Bytes) returns (r: Imported)
    ensures r == ImportOf(file)
  {
    hide ReadFrames, Unpack;
    if file[..Min(|file|, |MAGIC_HEADER|)] != MAGIC_HEADER {
      return WrongHeader;
    }
    var pos := |MAGIC_HEADER|;
    if |file| < pos + 8 {
      return ShortHeader;
    }
    var txCount, blockCount := Unpack(file[pos..pos + 4]), Unpack(file[pos + 4..pos + 8]);
    pos := pos + 8;
    ghost var all := file[pos..];
    var read: seq<Bytes> := [];
    while |file| - pos >= 4
      invariant |MAGIC_HEADER| + 8 <= pos <= |file|
      invariant ReadFrames(all) == Prefixed(read, ReadFrames(file[pos..]))
      decreases |file| - pos
    {
      ReadStep(file, pos, read);
      var n := Unpack(file[pos..pos + 4]);
      pos := pos + 4;
      if |file| - pos < n {
        return CutOff(read);
      }
      read, pos := read + [file[pos..pos + n]], pos + n;
    }
    ReadEnd(file, pos);
    r := Done(txCount, blockCount, read);
  }

  lemma ReadStep(file: Bytes, pos: nat, read: seq<Bytes>)
    requires pos + 4 <= |file|
    ensures var n := Unpack(file[pos..pos + 4]);
            if |file| < pos + 4 + n then ReadFrames(file[pos..]) == UnexpectedEnd([])
            else Prefixed(read, ReadFrames(file[pos..])) == Prefixed(read + [file[pos + 4..pos + 4 + n]], ReadFrames(file[pos + 4 + n..]))
  {
    var b, n := file[pos..], Unpack(file[pos..pos + 4]);
    assert b[..4] == file[pos..pos + 4];
    if |file| >= pos + 4 + n {
      assert b[4..4 + n] == file[pos + 4..pos + 4 + n] && b[4 + n..] == file[pos + 4 + n..];
      PrefixedTwice(read, file[pos + 4..pos + 4 + n], ReadFrames(b[4 + n..]));
    }
  }

  lemma PrefixedTwice(read: seq<Bytes>, x: Bytes, r: Read)
    ensures Prefixed(read, Prefixed([x], r)) == Prefixed(read + [x], r)
  {
    match r
    case Records(rest) => assert read + ([x] + rest) == read + [x] + rest;
    case UnexpectedEnd(rest) => assert read + ([x] + rest) == read + [x] + rest;
  }

  lemma ReadEnd(file: Bytes, pos: nat)
    requires pos <= |file| < pos + 4
    ensures ReadFrames(file[pos..]) == Records([])
  {
  }

  function Min(a: nat, b: nat): nat {
    if a < b then a else b
  }

  function Prefixed(read: seq<Bytes>, r: Read): Read {
    match r
    case Records(rest) => Records(read + rest)
    case UnexpectedEnd(rest) => UnexpectedEnd(read + rest)
  }

  function ImportOf(file: Bytes): Imported {
    var at := |MAGIC_HEADER|;
    if file[..Min(|file|, at)] != MAGIC_HEADER then WrongHeader
    else if |file| < at + 8 then ShortHeader
    else
      match ReadFrames(file[at + 8..])
      case Records(read) => Done(Unpack(file[at..at + 4]), Unpack(file[at + 4..at + 8]), read)
      case UnexpectedEnd(read) => CutOff(read)
  }

  /** The importer gets back the counts and exactly the exported records, in order. */
  lemma ImportExported(txs: nat, blocks: nat, records: seq<Bytes>)
    requires txs < LIMIT && blocks < LIMIT && AllShort(records)
    ensures ImportOf(FileOf(txs, blocks, records)) == Done(txs, blocks, records)
  {
    hide Frames, Pack, ReadFrames, Unpack;
    var at, file := |MAGIC_HEADER|, FileOf(txs, blocks, records);
    assert file[..at] == MAGIC_HEADER && file[at..at + 4] == Pack(txs) && file[at + 4..at + 8] == Pack(blocks);
    assert file[at + 8..] == Frames(records) + [];
    UnpackPack(txs);
    UnpackPack(blocks);
    ReadWritten(records, []);
  }

  /** The counts in the header exceed the records by the number of genesis vertices. */
  lemma {:induction false} CountsExceedRecords(vs: seq<Vertex>)
    ensures CountOf(vs, false) + CountOf(vs, true) == |BytesOf(vs)| + GenesisCount(vs) == |vs|
  {
    if vs != [] {
      CountsExceedRecords(vs[..|vs| - 1]);
    }
  }

  /** Exporting and importing: exactly the non-genesis vertices that were visited come back, in order. */
  method ExportThenImport(vs: seq<Vertex>, maxHeight: Option<nat>) returns (n: nat, ok: bool, r: Imported)
    ensures |vs| < LIMIT && (forall v :: v in vs ==> |v.bytes| < LIMIT) ==> ok
    ensures ok ==> Visited(vs, maxHeight, n) && r == Done(CountOf(vs[..n], false), CountOf(vs[..n], true), BytesOf(vs[..n]))
    ensures ok ==> r.txCount + r.blockCount == |r.read| + GenesisCount(vs[..n])
  {
    hide Pack, Frames, FileOf, CountOf, BytesOf, BestHeight, ImportOf, GenesisCount;
    var file;
    file, n, ok := Export(vs, maxHeight);
    r := WrongHeader;
    if ok {
      r := Import(file);
      ImportExported(CountOf(vs[..n], false), CountOf(vs[..n], true), BytesOf(vs[..n]));
      CountsExceedRecords(vs[..n]);
    }
  }
}

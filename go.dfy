/** The Go port of the client (go-example/main.go): its deposit formula, its
    partition of the document and of each box, the offsets SendTxGroup
    writes at, the box keys, the metadata field order and the deletion
    loop. It shares the constants of the TypeScript client, which
    go-example/main.go:39-42 declares with the same values. */
module GoClient {
  import opened Base
  import AlgoDid
  import opened DidClient

  // ---------------------------------------------------------------------
  // The deposit.

  /** The Go deposit formula: the TypeScript one with a 65-byte metadata term. */
  function GoDepositFor(ceilBoxes: int, endBoxSize: int): int
  {
    ceilBoxes * COST_PER_BOX
    + (ceilBoxes - 1) * MAX_BOX_SIZE * COST_PER_BYTE
    + ceilBoxes * 8 * COST_PER_BYTE
    + endBoxSize * COST_PER_BYTE
    + COST_PER_BOX + (8 + 8 + 1 + 8 + 32 + 8) * COST_PER_BYTE
  }

  function GoDeposit(len: nat): int
  {
    GoDepositFor(CeilBoxes(len), EndBoxSize(len))
  }

  /** The Go client pays 3200 more than the TypeScript client, and neither
      pays what the contract asks for any number of boxes. */
  lemma DepositFormulasDiffer(numBoxes: int, endBoxSize: int)
    ensures GoDepositFor(numBoxes, endBoxSize) == ClientDepositFor(numBoxes, endBoxSize) + 3200
    ensures AlgoDid.ContractDeposit(numBoxes, endBoxSize) - ClientDepositFor(numBoxes, endBoxSize) == 22400 * numBoxes - 25300
    ensures AlgoDid.ContractDeposit(numBoxes, endBoxSize) - GoDepositFor(numBoxes, endBoxSize) == 22400 * numBoxes - 28500
    ensures AlgoDid.ContractDeposit(numBoxes, endBoxSize) != ClientDepositFor(numBoxes, endBoxSize)
    ensures AlgoDid.ContractDeposit(numBoxes, endBoxSize) != GoDepositFor(numBoxes, endBoxSize)
  {
    var d1 := 22400 * numBoxes - 25300;
    var d2 := 22400 * numBoxes - 28500;
    if numBoxes <= 1 {
      assert d1 < 0 && d2 < 0;
    } else {
      assert d1 > 0 && d2 > 0;
    }
  }

  // ---------------------------------------------------------------------
  // The partition.

  /** floor(len / 32768) full slices, then the rest only when the document
      is longer than one box (go-example/main.go:372-389). */
  function GoPieces(data: seq<Byte>): seq<seq<Byte>>
  {
    var numBoxes := |data| / MAX_BOX_SIZE;
    seq(numBoxes, i requires 0 <= i < numBoxes => data[i * MAX_BOX_SIZE..Min((i + 1) * MAX_BOX_SIZE, |data|)])
    + (if |data| > MAX_BOX_SIZE then [data[numBoxes * MAX_BOX_SIZE..]] else [])
  }

  method GoPartitionDocument(data: seq<Byte>) returns (boxData: seq<seq<Byte>>)
    ensures boxData == GoPieces(data)
  {
    var numBoxes := |data| / MAX_BOX_SIZE;
    boxData := [];
    var i := 0;
    while i < numBoxes
      invariant 0 <= i <= numBoxes
      invariant boxData == GoPieces(data)[..i]
    {
      var upperBound := (i + 1) * MAX_BOX_SIZE;
      if |data| < upperBound {
        upperBound := |data|;
      }
      boxData := boxData + [data[i * MAX_BOX_SIZE..upperBound]];
      i := i + 1;
    }
    assert boxData == GoPieces(data)[..numBoxes];
    if |data| > MAX_BOX_SIZE {
      boxData := boxData + [data[numBoxes * MAX_BOX_SIZE..]];
    }
  }

  /** A document shorter than one box yields no pieces at all, so nothing
      of it is uploaded. */
  lemma GoPiecesDropShort(data: seq<Byte>)
    requires |data| < MAX_BOX_SIZE
    ensures GoPieces(data) == []
    ensures data != [] ==> Flatten(GoPieces(data)) != data
  {
  }

  /** Above one box the Go partition is the corrected partition whenever the
      length is not an exact multiple, and a document of exactly one box is
      kept whole. */
  lemma GoPiecesAgree(data: seq<Byte>)
    ensures |data| > MAX_BOX_SIZE && |data| % MAX_BOX_SIZE != 0 ==> GoPieces(data) == CorrectedPieces(data)
    ensures |data| == MAX_BOX_SIZE ==> GoPieces(data) == [data]
  {
    if |data| > MAX_BOX_SIZE && |data| % MAX_BOX_SIZE != 0 {
      var n := |data| / MAX_BOX_SIZE;
      assert CeilBoxes(|data|) == n + 1;
      assert |GoPieces(data)| == |CorrectedPieces(data)|;
      forall i | 0 <= i < n + 1 ensures GoPieces(data)[i] == CorrectedPieces(data)[i] {
      }
    }
    if |data| == MAX_BOX_SIZE {
      assert data[0..MAX_BOX_SIZE] == data;
    }
  }

  /** The tail as evidently intended: appended whenever bytes remain after
      the full slices. */
  function GoCorrectedPieces(data: seq<Byte>): seq<seq<Byte>>
  {
    var numBoxes := |data| / MAX_BOX_SIZE;
    seq(numBoxes, i requires 0 <= i < numBoxes => data[i * MAX_BOX_SIZE..(i + 1) * MAX_BOX_SIZE])
    + (if |data| > numBoxes * MAX_BOX_SIZE then [data[numBoxes * MAX_BOX_SIZE..]] else [])
  }

  /** The corrected Go partition is the corrected partition, so it
      concatenates back to the document for every length. */
  lemma GoCorrectedPiecesSpec(data: seq<Byte>)
    ensures GoCorrectedPieces(data) == CorrectedPieces(data)
    ensures Flatten(GoCorrectedPieces(data)) == data
  {
    var n := |data| / MAX_BOX_SIZE;
    var g, c := GoCorrectedPieces(data), CorrectedPieces(data);
    assert |g| == |c|;
    forall i | 0 <= i < |g| ensures g[i] == c[i] {
    }
    CorrectedPiecesShape(data);
  }

  // ---------------------------------------------------------------------
  // Chunks, groups and offsets.

  /** The chunk loop of go-example/main.go:396-405: the same chunks as the
      TypeScript client's. */
  method GoChunkBox(box: seq<Byte>) returns (chunks: seq<seq<Byte>>)
    ensures chunks == Chunks(box)
  {
    var numChunks := CeilDiv(|box|, BYTES_PER_CALL);
    chunks := [];
    var i := 0;
    while i < numChunks
      invariant 0 <= i <= numChunks
      invariant chunks == Chunks(box)[..i]
    {
      var upperBound := (i + 1) * BYTES_PER_CALL;
      if |box| < upperBound {
        upperBound := |box|;
      }
      chunks := chunks + [box[i * BYTES_PER_CALL..upperBound]];
      i := i + 1;
    }
    assert chunks == Chunks(box)[..numChunks];
  }

  /** SendTxGroup: chunk i of the group is written at 1994 (i + bytesOffset). */
  function GroupWrites(bytesOffset: nat, boxIndex: nat, group: seq<seq<Byte>>): (ws: seq<Write>)
    ensures |ws| == |group|
  {
    seq(|group|, i requires 0 <= i < |group| => Write(boxIndex, BYTES_PER_CALL * (i + bytesOffset), group[i]))
  }

  /** The writes for one box as the Go code sends them: both groups with
      bytesOffset 0 (go-example/main.go:423-426). */
  function GoBoxWrites(boxIndex: nat, chunks: seq<seq<Byte>>): seq<Write>
    requires |chunks| >= 8
  {
    GroupWrites(0, boxIndex, chunks[..8]) + (if |chunks| > 8 then GroupWrites(0, boxIndex, chunks[8..]) else [])
  }

  /** With more than eight chunks, the second group starts again at offset
      0: the ninth chunk goes where the first went, and every second-group
      chunk but a seventeenth lands on a first-group offset. */
  lemma GoSecondGroupOverlaps(boxIndex: nat, chunks: seq<seq<Byte>>)
    requires |chunks| > 8
    ensures var ws := GoBoxWrites(boxIndex, chunks);
            && |ws| == |chunks|
            && ws[8] == Write(boxIndex, 0, chunks[8])
            && ws[0].offset == ws[8].offset
            && (forall j :: 8 <= j < |ws| ==> ws[j].offset == BYTES_PER_CALL * (j - 8))
            && (forall j :: 8 <= j < Min(|ws|, 16) ==> ws[j].offset == ws[j - 8].offset)
  {
    var ws := GoBoxWrites(boxIndex, chunks);
    var first, second := GroupWrites(0, boxIndex, chunks[..8]), GroupWrites(0, boxIndex, chunks[8..]);
    assert ws == first + second;
    forall j | 8 <= j < |ws| ensures ws[j].offset == BYTES_PER_CALL * (j - 8) {
      assert ws[j] == second[j - 8];
    }
  }

  /** The second group as evidently intended: bytesOffset 8. */
  function GoCorrectedBoxWrites(boxIndex: nat, chunks: seq<seq<Byte>>): seq<Write>
    requires |chunks| >= 8
  {
    GroupWrites(0, boxIndex, chunks[..8]) + (if |chunks| > 8 then GroupWrites(8, boxIndex, chunks[8..]) else [])
  }

  /** With bytesOffset 8 the Go writes are the TypeScript client's, which
      tile the box. */
  lemma GoCorrectedAgrees(boxIndex: nat, box: seq<Byte>)
    requires |Chunks(box)| >= 8
    ensures GoCorrectedBoxWrites(boxIndex, Chunks(box)) == BoxWrites(boxIndex, box)
  {
    var cs := Chunks(box);
    UploadGroupsOffsets(boxIndex, cs);
    var g, t := GoCorrectedBoxWrites(boxIndex, cs), BoxWrites(boxIndex, box);
    assert |g| == |t|;
    forall j | 0 <= j < |g| ensures g[j] == t[j] {
      if j >= 8 && |cs| > 8 {
        assert g[j] == GroupWrites(8, boxIndex, cs[8..])[j - 8];
      }
    }
  }

  // ---------------------------------------------------------------------
  // Box keys.

  /** `metadata.Start + uint64(k)`, which wraps modulo 2^64. */
  function GoBoxIndex(start: uint64, k: nat): uint64
  {
    (start + k) % U64_MOD
  }

  /** binary.BigEndian.PutUint64 of the box index. */
  function GoBoxKey(start: uint64, k: nat): (key: seq<Byte>)
    ensures |key| == 8
  {
    BigEndian(GoBoxIndex(start, k), 8)
  }

  /** The key decodes back to the box index, two keys are equal exactly when
      their indices are, and within a record's range (which the contract
      keeps below 2^64) the index is start + k. */
  lemma GoBoxKeySpec(start: uint64, k1: nat, k2: nat)
    ensures FromBigEndian(GoBoxKey(start, k1)) == GoBoxIndex(start, k1)
    ensures GoBoxKey(start, k1) == GoBoxKey(start, k2) <==> GoBoxIndex(start, k1) == GoBoxIndex(start, k2)
    ensures start + k1 < U64_MOD ==> GoBoxIndex(start, k1) == start + k1
  {
    Pow256Eight();
    BigEndianRoundTrip(GoBoxIndex(start, k1), 8);
    BigEndianRoundTrip(GoBoxIndex(start, k2), 8);
  }

  // ---------------------------------------------------------------------
  // GetMetadata.

  /** The Go Metadata struct. */
  datatype GoMetadata = GoMetadata(Start: uint64, End: uint64, Status: uint8, EndSize: uint64)

  /** The decoded (uint64,uint64,uint8,uint64,uint64) tuple. */
  type MetadataTuple = (uint64, uint64, uint8, uint64, uint64)

  function GetMetadata(t: MetadataTuple): GoMetadata
  {
    GoMetadata(t.0, t.1, t.2, t.3)
  }

  /** Fields 0..3 are read in the contract's order start, end, uploading,
      endSize; the fifth field is ignored. */
  lemma GetMetadataFieldOrder(md: AlgoDid.Metadata, extra: uint64)
    ensures var g := GetMetadata((md.start, md.end, md.uploading, md.endSize, extra));
            g.Start == md.start && g.End == md.end && g.Status == md.uploading && g.EndSize == md.endSize
    ensures forall x: uint64 :: GetMetadata((md.start, md.end, md.uploading, md.endSize, x))
                                == GetMetadata((md.start, md.end, md.uploading, md.endSize, extra))
  {
  }

  // ---------------------------------------------------------------------
  // DeleteDIDDocument.

  /** A call of a deletion group. */
  datatype DeleteCall = DeleteData(pubKey: seq<Byte>, boxIndex: uint64) | Dummy(note: nat)

  /** The boxes the deleteData calls of a sequence of calls delete, with
      their multiplicity. */
  function DeletedIn(g: seq<DeleteCall>): multiset<uint64>
  {
    if g == [] then multiset{}
    else (if g[0].DeleteData? then multiset{g[0].boxIndex} else multiset{}) + DeletedIn(g[1..])
  }

  /** The boxes a deletion plan deletes, over all its groups. */
  function DeletedBy(atcs: seq<(uint64, seq<DeleteCall>)>): multiset<uint64>
  {
    if atcs == [] then multiset{}
    else DeletedBy(atcs[..|atcs| - 1]) + DeletedIn(atcs[|atcs| - 1].1)
  }

  /** One deleteData for the box followed by four dummy calls: a group of
      five calls of which exactly one deletes a box, the group's own, for
      the DID's key. */
  function DeleteGroup(pubKey: seq<Byte>, boxIndex: uint64): (g: seq<DeleteCall>)
    ensures |g| == 5
    ensures DeletedIn(g) == multiset{boxIndex}
    ensures forall i :: 0 <= i < |g| && g[i].DeleteData? ==> g[i].pubKey == pubKey
  {
    var g := [DeleteData(pubKey, boxIndex), Dummy(0), Dummy(1), Dummy(2), Dummy(3)];
    assert DeletedIn(g[4..]) == multiset{} by {
      assert g[4..][1..] == [];
    }
    assert DeletedIn(g[3..]) == multiset{} by {
      assert g[3..][1..] == g[4..];
    }
    assert DeletedIn(g[2..]) == multiset{} by {
      assert g[2..][1..] == g[3..];
    }
    assert DeletedIn(g[1..]) == multiset{} by {
      assert g[1..][1..] == g[2..];
    }
    g
  }

  /** The number of boxes in the range start..end inclusive. */
  function RangeSize(start: uint64, end: uint64): nat
  {
    if start <= end then end - start + 1 else 0
  }

  /** The loop of go-example/main.go:584-637. The loop variable is a uint64
      that would wrap at 2^64 - 1, so the range must end below it; the
      contract keeps every end below its counter, which is a uint64. */
  method DeleteGroups(md: GoMetadata, pubKey: seq<Byte>) returns (atcs: seq<(uint64, seq<DeleteCall>)>)
    requires md.End < U64_MOD - 1
    ensures |atcs| == RangeSize(md.Start, md.End)
    ensures forall k :: 0 <= k < |atcs| ==>
              atcs[k].0 == md.Start + k && atcs[k].1 == DeleteGroup(pubKey, md.Start + k)
  {
    atcs := [];
    var boxIndex: int := md.Start;
    while boxIndex <= md.End
      invariant md.Start <= boxIndex && (boxIndex <= md.End + 1 || boxIndex == md.Start)
      invariant |atcs| == boxIndex - md.Start
      invariant forall k :: 0 <= k < |atcs| ==>
                  atcs[k].0 == md.Start + k && atcs[k].1 == DeleteGroup(pubKey, md.Start + k)
      decreases md.End - boxIndex
    {
      atcs := atcs + [(boxIndex, DeleteGroup(pubKey, boxIndex))];
      boxIndex := boxIndex + 1;
    }
  }

  /** Every box of the range gets exactly one group and one deleteData call,
      in ascending index order. */
  lemma DeletePlanCovers(atcs: seq<(uint64, seq<DeleteCall>)>, pubKey: seq<Byte>, start: uint64, end: uint64)
    requires |atcs| == RangeSize(start, end)
    requires forall k :: 0 <= k < |atcs| ==> atcs[k].0 == start + k && atcs[k].1 == DeleteGroup(pubKey, start + k)
    ensures forall b: uint64 :: start <= b <= end ==> atcs[b - start] == (b, DeleteGroup(pubKey, b))
    ensures forall i, j :: 0 <= i < j < |atcs| ==> atcs[i].0 < atcs[j].0
    ensures forall k :: 0 <= k < |atcs| ==> start <= atcs[k].0 <= end
    ensures forall b: uint64 :: DeletedBy(atcs)[b] == if start <= b <= end then 1 else 0
  {
    DeletedByPrefix(atcs, pubKey, start, |atcs|);
    assert atcs[..|atcs|] == atcs;
  }

  /** The first m groups of a plan delete boxes start..start + m - 1, each
      once. */
  lemma {:induction false} DeletedByPrefix(atcs: seq<(uint64, seq<DeleteCall>)>, pubKey: seq<Byte>, start: uint64, m: nat)
    requires m <= |atcs|
    requires forall k :: 0 <= k < |atcs| ==> atcs[k].0 == start + k && atcs[k].1 == DeleteGroup(pubKey, start + k)
    ensures forall b: uint64 :: DeletedBy(atcs[..m])[b] == if start <= b < start + m then 1 else 0
  {
    if m > 0 {
      DeletedByPrefix(atcs, pubKey, start, m - 1);
      assert atcs[..m][..m - 1] == atcs[..m - 1];
      assert atcs[..m][m - 1] == atcs[m - 1];
      assert DeletedIn(atcs[m - 1].1) == multiset{atcs[m - 1].0};
    }
  }

  /** The execution loop of go-example/main.go:639-645: the groups run in
      order, and the first failure ends the program (log.Fatalf).
      `succeeds(k)` is whether group k goes through. */
  method ExecuteGroups(atcs: seq<(uint64, seq<DeleteCall>)>, succeeds: nat -> bool) returns (executed: nat, aborted: bool)
    ensures executed <= |atcs|
    ensures forall k :: 0 <= k < executed ==> succeeds(k)
    ensures aborted <==> executed < |atcs|
    ensures aborted ==> !succeeds(executed)
  {
    executed := 0;
    while executed < |atcs|
      invariant executed <= |atcs|
      invariant forall k :: 0 <= k < executed ==> succeeds(k)
    {
      if !succeeds(executed) {
        return executed, true;
      }
      executed := executed + 1;
    }
    aborted := false;
  }
}

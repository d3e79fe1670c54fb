/** The client and the contract together: startUpload, every `upload` call
    the client sends, finishUpload, and then resolveDID. The payment is the
    deposit the contract asks for (the clients' own formulas are rejected,
    see ClientPaymentRejected). The boxes are uploaded one after another;
    each box's writes touch only that box. */
module RoundTrip {
  import opened Base
  import opened AlgoDid
  import C = DidClient
  import G = GoClient

  /** The writes sent in order; None as soon as one fails or an argument
      does not fit its uint64. */
  function ApplyWrites(s: Store, recreate: Recreate, address: Address, ws: seq<C.Write>): Option<Store>
    decreases |ws|
  {
    if ws == [] then Some(s)
    else if ws[0].boxIndex >= U64_MOD || ws[0].offset >= U64_MOD then None
    else
      var next :- UploadStep(s, recreate, address, ws[0].boxIndex, ws[0].offset, ws[0].data);
      ApplyWrites(next, recreate, address, ws[1..])
  }

  /** Sending a non-empty sequence is sending its first write, then the rest. */
  lemma ApplyCons(s: Store, recreate: Recreate, address: Address, ws: seq<C.Write>)
    requires ws != [] && ws[0].boxIndex < U64_MOD && ws[0].offset < U64_MOD
    ensures ApplyWrites(s, recreate, address, ws)
            == match UploadStep(s, recreate, address, ws[0].boxIndex, ws[0].offset, ws[0].data)
               case None => None
               case Some(t) => ApplyWrites(t, recreate, address, ws[1..])
  {
  }

  /** Sending a + b is sending a, then b from where a left the state. */
  lemma {:induction false} ApplyAppend(s: Store, recreate: Recreate, address: Address, a: seq<C.Write>, b: seq<C.Write>)
    ensures ApplyWrites(s, recreate, address, a + b)
            == match ApplyWrites(s, recreate, address, a)
               case None => None
               case Some(t) => ApplyWrites(t, recreate, address, b)
    decreases |a|
  {
    if a == [] {
      assert a + b == b;
    } else {
      assert (a + b)[0] == a[0];
      assert (a + b)[1..] == a[1..] + b;
      if a[0].boxIndex < U64_MOD && a[0].offset < U64_MOD {
        var next := UploadStep(s, recreate, address, a[0].boxIndex, a[0].offset, a[0].data);
        if next.Some? {
          ApplyAppend(next.value, recreate, address, a[1..], b);
        }
      }
    }
  }

  lemma {:induction false} DocumentWritesAppend(a: seq<seq<Byte>>, b: seq<seq<Byte>>, start: nat)
    ensures C.DocumentWrites(a + b, start) == C.DocumentWrites(a, start) + C.DocumentWrites(b, start + |a|)
    decreases |a|
  {
    if a == [] {
      assert a + b == b;
    } else {
      var first := C.BoxWrites(start, a[0]);
      assert (a + b)[0] == a[0];
      assert (a + b)[1..] == a[1..] + b;
      assert C.DocumentWrites(a + b, start) == first + C.DocumentWrites(a[1..] + b, start + 1);
      DocumentWritesAppend(a[1..], b, start + 1);
      assert C.DocumentWrites(a, start) == first + C.DocumentWrites(a[1..], start + 1);
      ConcatAssoc(first, C.DocumentWrites(a[1..], start + 1), C.DocumentWrites(b, start + |a|));
    }
  }

  lemma ConcatAssoc<T>(x: seq<T>, y: seq<T>, z: seq<T>)
    ensures x + (y + z) == (x + y) + z
  {
  }

  // ---------------------------------------------------------------------
  // One box.

  /** How far the first k writes of a piece reach. */
  function Cut(piece: seq<Byte>, k: nat): (c: nat)
    ensures c <= |piece|
  {
    Min(C.BYTES_PER_CALL * k, |piece|)
  }

  /** The state after the first k writes of `piece` to box `key`: the bytes
      written so far, then the zeros the box was created with. */
  function PartlyWritten(s: Store, key: uint64, piece: seq<Byte>, k: nat): Store
  {
    s.(dataBoxes := s.dataBoxes[key := piece[..Cut(piece, k)] + Zeros(|piece| - Cut(piece, k))])
  }

  /** The k-th write of a piece: at 1994 k, carrying bytes [Cut(k), Cut(k + 1))
      of the piece; after the last one the cut is the whole piece. */
  lemma WriteAt(key: uint64, piece: seq<Byte>, k: nat)
    requires k <= |C.BoxWrites(key, piece)|
    ensures k < |C.BoxWrites(key, piece)| ==>
              && Cut(piece, k) == C.BYTES_PER_CALL * k < |piece|
              && Cut(piece, k) <= Cut(piece, k + 1)
              && C.BoxWrites(key, piece)[k] == C.Write(key, Cut(piece, k), piece[Cut(piece, k)..Cut(piece, k + 1)])
    ensures k == |C.BoxWrites(key, piece)| ==> Cut(piece, k) == |piece|
  {
    var ws := C.BoxWrites(key, piece);
    C.BoxWritesTile(key, piece);
    if k < |ws| {
      if k + 1 < |ws| {
        assert ws[k + 1].offset == ws[k].offset + |ws[k].data|;
      } else {
        assert C.BYTES_PER_CALL * (k + 1) >= |piece|;
      }
      assert ws[k].data != [] by {
        C.ChunksShape(piece);
        C.UploadGroupsOffsets(key, C.Chunks(piece));
      }
    }
  }

  /** A later write of a piece extends the written prefix by its bytes. */
  lemma WriteExtends(s: Store, recreate: Recreate, address: Address, key: uint64, piece: seq<Byte>, k: nat)
    requires CanWrite(s, address, key)
    requires |piece| <= MAX_BOX_SIZE
    requires 1 <= k && Cut(piece, k) == C.BYTES_PER_CALL * k < |piece| && Cut(piece, k) <= Cut(piece, k + 1)
    ensures UploadStep(PartlyWritten(s, key, piece, k), recreate, address, key, Cut(piece, k),
                       piece[Cut(piece, k)..Cut(piece, k + 1)])
            == Some(PartlyWritten(s, key, piece, k + 1))
  {
    var sk := PartlyWritten(s, key, piece, k);
    var p, q := Cut(piece, k), Cut(piece, k + 1);
    assert CanWrite(sk, address, key);
    assert sk.dataBoxes[key] == piece[..p] + Zeros(|piece| - p);
    UploadOverwrites(sk, recreate, address, key, p, piece[p..q]);
    SpliceExtendsPrefix(piece, p, q);
    var box := piece[..q] + Zeros(|piece| - q);
    assert Splice(sk.dataBoxes[key], p, piece[p..q]) == box;
    assert sk.dataBoxes[key := box] == s.dataBoxes[key := box];
  }

  /** The first write of a piece creates its box and writes the first chunk. */
  lemma WriteFirst(s: Store, recreate: Recreate, address: Address, key: uint64, piece: seq<Byte>)
    requires CanWrite(s, address, key) && key !in s.dataBoxes
    requires 0 < |piece| <= MAX_BOX_SIZE && BoxSize(s.metadata[address], key) == |piece|
    ensures UploadStep(s, recreate, address, key, 0, piece[0..Cut(piece, 1)]) == Some(PartlyWritten(s, key, piece, 1))
  {
    UploadCreates(s, recreate, address, key, piece[0..Cut(piece, 1)]);
    SpliceExtendsPrefix(piece, 0, Cut(piece, 1));
    assert piece[..0] + Zeros(|piece|) == Zeros(|piece|);
  }

  lemma {:induction false} BoxTail(s: Store, recreate: Recreate, address: Address, key: uint64, piece: seq<Byte>, k: nat)
    requires CanWrite(s, address, key) && |piece| <= MAX_BOX_SIZE
    requires 1 <= k <= |C.BoxWrites(key, piece)|
    ensures ApplyWrites(PartlyWritten(s, key, piece, k), recreate, address, C.BoxWrites(key, piece)[k..])
            == Some(s.(dataBoxes := s.dataBoxes[key := piece]))
    decreases |C.BoxWrites(key, piece)| - k
  {
    var ws := C.BoxWrites(key, piece);
    WriteAt(key, piece, k);
    if k == |ws| {
      assert piece[..|piece|] + Zeros(0) == piece;
      assert ws[k..] == [];
    } else {
      var tail := ws[k..];
      assert tail[0] == ws[k] && tail[1..] == ws[k + 1..];
      WriteExtends(s, recreate, address, key, piece, k);
      BoxTail(s, recreate, address, key, piece, k + 1);
      ApplyCons(PartlyWritten(s, key, piece, k), recreate, address, tail);
    }
  }

  /** The writes the client sends for one piece leave exactly that piece in
      a box that did not exist before, when the record gives the box the
      piece's size. */
  lemma BoxUpload(s: Store, recreate: Recreate, address: Address, key: uint64, piece: seq<Byte>)
    requires CanWrite(s, address, key) && key !in s.dataBoxes
    requires 0 < |piece| <= MAX_BOX_SIZE && BoxSize(s.metadata[address], key) == |piece|
    ensures ApplyWrites(s, recreate, address, C.BoxWrites(key, piece)) == Some(s.(dataBoxes := s.dataBoxes[key := piece]))
  {
    var ws := C.BoxWrites(key, piece);
    C.ChunksShape(piece);
    C.UploadGroupsOffsets(key, C.Chunks(piece));
    assert |ws| > 0;
    WriteAt(key, piece, 0);
    WriteFirst(s, recreate, address, key, piece);
    BoxTail(s, recreate, address, key, piece, 1);
  }

  // ---------------------------------------------------------------------
  // The whole document.

  /** `boxes` with piece k stored under key start + k. */
  function Placed(boxes: map<uint64, seq<Byte>>, start: nat, pieces: seq<seq<Byte>>): (r: map<uint64, seq<Byte>>)
    requires start + |pieces| <= U64_MOD
    ensures forall k :: 0 <= k < |pieces| ==> start + k in r && r[start + k] == pieces[k]
    ensures forall key :: key in boxes && !(start <= key < start + |pieces|) ==> key in r && r[key] == boxes[key]
  {
    map key: uint64 | key in boxes || start <= key < start + |pieces|
      :: if start <= key < start + |pieces| then pieces[key - start] else boxes[key]
  }

  /** Placing pieces adds no box outside their range. */
  lemma PlacedOutside(boxes: map<uint64, seq<Byte>>, start: nat, pieces: seq<seq<Byte>>, key: uint64)
    requires start + |pieces| <= U64_MOD
    requires key !in boxes && !(start <= key < start + |pieces|)
    ensures key !in Placed(boxes, start, pieces)
  {
  }

  /** No box exists yet under the n keys from start. */
  ghost predicate FreshRange(boxes: map<uint64, seq<Byte>>, start: int, n: nat)
  {
    forall key: uint64 :: start <= key < start + n ==> key !in boxes
  }

  /** Piece k has the size the record gives box start + k, within the cap. */
  ghost predicate SizedFor(pieces: seq<seq<Byte>>, md: Metadata, start: int)
  {
    forall k :: 0 <= k < |pieces| ==>
      && 0 < |pieces[k]| <= MAX_BOX_SIZE
      && 0 <= start + k < U64_MOD
      && |pieces[k]| == BoxSize(md, start + k)
  }

  lemma SizedForTail(pieces: seq<seq<Byte>>, md: Metadata, start: int)
    requires |pieces| > 0 && SizedFor(pieces, md, start)
    ensures SizedFor(pieces[1..], md, start + 1)
    ensures 0 < |pieces[0]| <= MAX_BOX_SIZE && 0 <= start < U64_MOD && |pieces[0]| == BoxSize(md, start)
  {
    assert 0 <= 0 < |pieces|;
    forall k | 0 <= k < |pieces[1..]|
      ensures 0 < |pieces[1..][k]| <= MAX_BOX_SIZE && 0 <= start + 1 + k < U64_MOD
      ensures |pieces[1..][k]| == BoxSize(md, start + 1 + k)
    {
      assert pieces[1..][k] == pieces[k + 1];
    }
  }

  /** Placing the first piece and then the rest is placing all of them. */
  lemma PlacedStep(boxes: map<uint64, seq<Byte>>, start: uint64, pieces: seq<seq<Byte>>)
    requires |pieces| > 0 && start + |pieces| <= U64_MOD
    ensures Placed(boxes[start := pieces[0]], start + 1, pieces[1..]) == Placed(boxes, start, pieces)
  {
  }

  /** Sending a document is sending its first box, then the rest. */
  lemma ApplyDocumentStep(s: Store, recreate: Recreate, address: Address, pieces: seq<seq<Byte>>, start: nat,
                          s1: Store, result: Option<Store>)
    requires pieces != []
    requires ApplyWrites(s, recreate, address, C.BoxWrites(start, pieces[0])) == Some(s1)
    requires ApplyWrites(s1, recreate, address, C.DocumentWrites(pieces[1..], start + 1)) == result
    ensures ApplyWrites(s, recreate, address, C.DocumentWrites(pieces, start)) == result
  {
    ApplyAppend(s, recreate, address, C.BoxWrites(start, pieces[0]), C.DocumentWrites(pieces[1..], start + 1));
  }

  lemma FreshRangeTail(boxes: map<uint64, seq<Byte>>, start: uint64, piece: seq<Byte>, n: nat)
    requires n > 0 && FreshRange(boxes, start, n)
    ensures start !in boxes
    ensures FreshRange(boxes[start := piece], start + 1, n - 1)
  {
  }

  lemma {:induction false} DocumentUpload(s: Store, recreate: Recreate, address: Address, pieces: seq<seq<Byte>>, start: uint64)
    requires address in s.metadata
    requires s.metadata[address].uploading == 1
    requires s.metadata[address].start <= start && start + |pieces| <= s.metadata[address].end + 1
    requires FreshRange(s.dataBoxes, start, |pieces|)
    requires SizedFor(pieces, s.metadata[address], start)
    ensures ApplyWrites(s, recreate, address, C.DocumentWrites(pieces, start))
            == Some(s.(dataBoxes := Placed(s.dataBoxes, start, pieces)))
    decreases |pieces|
  {
    if pieces == [] {
      assert Placed(s.dataBoxes, start, pieces) == s.dataBoxes;
    } else {
      SizedForTail(pieces, s.metadata[address], start);
      FreshRangeTail(s.dataBoxes, start, pieces[0], |pieces|);
      assert CanWrite(s, address, start);
      BoxUpload(s, recreate, address, start, pieces[0]);
      var s1 := s.(dataBoxes := s.dataBoxes[start := pieces[0]]);
      PlacedStep(s.dataBoxes, start, pieces);
      var last := s.(dataBoxes := Placed(s.dataBoxes, start, pieces));
      assert last == s1.(dataBoxes := Placed(s1.dataBoxes, start + 1, pieces[1..]));
      if |pieces| == 1 {
        assert Placed(s1.dataBoxes, start + 1, pieces[1..]) == s1.dataBoxes;
        assert ApplyWrites(s1, recreate, address, C.DocumentWrites(pieces[1..], start + 1)) == Some(s1);
      } else {
        DocumentUpload(s1, recreate, address, pieces[1..], start + 1);
      }
      ApplyDocumentStep(s, recreate, address, pieces, start, s1, Some(last));
    }
  }

  /** Reading the placed range back gives the pieces in order. */
  lemma AssemblePlaced(boxes: map<uint64, seq<Byte>>, start: uint64, pieces: seq<seq<Byte>>)
    requires |pieces| > 0 && start + |pieces| <= U64_MOD
    ensures C.AssembleBoxes(Placed(boxes, start, pieces), start, start + |pieces| - 1) == Some(Flatten(pieces))
  {
    var p := Placed(boxes, start, pieces);
    var hi := start + |pieces| - 1;
    forall k: uint64 | start <= k <= hi ensures k in p {
      assert start + (k - start) in p;
    }
    assert C.AllPresent(p, start, hi);
    var inRange := C.BoxesInRange(p, start, hi);
    forall i | 0 <= i < |pieces| ensures inRange[i] == pieces[i] {
      assert p[start + i] == pieces[i];
    }
    assert inRange == pieces;
    C.AssembleInOrder(p, start, hi);
  }

  /** Uploading any pieces that fill the range the contract allocates (full
      boxes but the last, which is endSize bytes and non-empty): startUpload
      with the contract's deposit succeeds, every write succeeds, the record
      does not resolve before finishUpload and resolves to the pieces
      concatenated after it. */
  lemma UploadPieces(s: Store, app: Address, recreate: Recreate, address: Address,
                     pieces: seq<seq<Byte>>, endSize: uint64)
    requires Valid(s) && address !in s.metadata
    requires |pieces| > 0 && s.currentIndex + |pieces| < U64_MOD
    requires forall k :: 0 <= k < |pieces| - 1 ==> |pieces[k]| == MAX_BOX_SIZE
    requires 0 < |pieces[|pieces| - 1]| == endSize <= MAX_BOX_SIZE
    requires ContractDeposit(|pieces|, endSize) < U64_MOD
    ensures var started := StartUploadStep(s, app, address, |pieces|, endSize,
                                           PayTxn(app, ContractDeposit(|pieces|, endSize)));
            && started.Some?
            && var uploaded := ApplyWrites(started.value, recreate, address, C.DocumentWrites(pieces, s.currentIndex));
            && uploaded.Some?
            && C.ResolveRecord(uploaded.value, address) == Err(C.StillUploading)
            && var finished := FinishUploadStep(uploaded.value, address);
            && finished.Some?
            && C.ResolveRecord(finished.value, address) == Ok(Flatten(pieces))
  {
    var n := |pieces|;
    Allocate(s, app, address, n, endSize);
    var s1 := Allocated(s, address, n, endSize);
    ValidFresh(s, n);
    assert SizedFor(pieces, s1.metadata[address], s.currentIndex);
    DocumentUpload(s1, recreate, address, pieces, s.currentIndex);
    FinishAndResolve(s1.(dataBoxes := Placed(s1.dataBoxes, s.currentIndex, pieces)), address, pieces, endSize);
  }

  /** The store right after a successful startUpload of n boxes. */
  function Allocated(s: Store, address: Address, n: nat, endSize: uint64): Store
    requires 1 <= n && s.currentIndex + n < U64_MOD
  {
    Store(s.metadata[address := Metadata(s.currentIndex, s.currentIndex + n - 1, 1, endSize)], s.dataBoxes, s.currentIndex + n)
  }

  lemma Allocate(s: Store, app: Address, address: Address, n: nat, endSize: uint64)
    requires address !in s.metadata && 1 <= n && s.currentIndex + n < U64_MOD
    requires ContractDeposit(n, endSize) < U64_MOD
    ensures StartUploadStep(s, app, address, n, endSize, PayTxn(app, ContractDeposit(n, endSize)))
            == Some(Allocated(s, address, n, endSize))
  {
    StartUploadSpec(s, app, address, n, endSize, PayTxn(app, ContractDeposit(n, endSize)));
  }

  lemma ValidFresh(s: Store, n: nat)
    requires Valid(s)
    ensures FreshRange(s.dataBoxes, s.currentIndex, n)
  {
  }

  /** Once every piece is in place the record does not resolve until
      finishUpload, and then resolves to the pieces concatenated. */
  lemma FinishAndResolve(s2: Store, address: Address, pieces: seq<seq<Byte>>, endSize: uint64)
    requires address in s2.metadata && |pieces| > 0
    requires var md := s2.metadata[address];
             && md.uploading == 1 && md.start + |pieces| <= U64_MOD && md.end == md.start + |pieces| - 1
             && exists boxes :: s2.dataBoxes == Placed(boxes, md.start, pieces)
    ensures C.ResolveRecord(s2, address) == Err(C.StillUploading)
    ensures FinishUploadStep(s2, address).Some?
    ensures C.ResolveRecord(FinishUploadStep(s2, address).value, address) == Ok(Flatten(pieces))
  {
    var md := s2.metadata[address];
    var boxes :| s2.dataBoxes == Placed(boxes, md.start, pieces);
    FinishUploadSpec(s2, address);
    AssemblePlaced(boxes, md.start, pieces);
  }

  /** The TypeScript client's upload round-trips for every document whose
      length is not a multiple of 32768: with ceilBoxes and endBoxSize as it
      computes them and each box written as it writes them, the document
      is not resolvable until finishUpload and then resolves to exactly the
      document. */
  lemma UploadThenResolve(s: Store, app: Address, recreate: Recreate, address: Address, data: seq<Byte>)
    requires Valid(s) && address !in s.metadata
    requires |data| % MAX_BOX_SIZE != 0
    requires s.currentIndex + C.CeilBoxes(|data|) < U64_MOD
    requires ContractDeposit(C.CeilBoxes(|data|), C.EndBoxSize(|data|)) < U64_MOD
    ensures var started := StartUploadStep(s, app, address, C.CeilBoxes(|data|), C.EndBoxSize(|data|),
                                           PayTxn(app, ContractDeposit(C.CeilBoxes(|data|), C.EndBoxSize(|data|))));
            && started.Some?
            && var uploaded := ApplyWrites(started.value, recreate, address, C.DocumentWrites(C.Pieces(data), s.currentIndex));
            && uploaded.Some?
            && C.ResolveRecord(uploaded.value, address) == Err(C.StillUploading)
            && var finished := FinishUploadStep(uploaded.value, address);
            && finished.Some?
            && C.ResolveRecord(finished.value, address) == Ok(data)
  {
    C.CorrectedAgrees(data);
    C.CorrectedPiecesShape(data);
    UploadPieces(s, app, recreate, address, C.Pieces(data), C.EndBoxSize(|data|));
  }

  /** With the corrected partition and endBoxSize, every non-empty document
      round-trips, exact multiples of 32768 included. */
  lemma CorrectedUploadThenResolve(s: Store, app: Address, recreate: Recreate, address: Address, data: seq<Byte>)
    requires Valid(s) && address !in s.metadata
    requires |data| > 0
    requires s.currentIndex + C.CeilBoxes(|data|) < U64_MOD
    requires ContractDeposit(C.CeilBoxes(|data|), C.CorrectedEndBoxSize(|data|)) < U64_MOD
    ensures C.CorrectedEndBoxSize(|data|) > 0
    ensures var endSize := C.CorrectedEndBoxSize(|data|);
            var started := StartUploadStep(s, app, address, C.CeilBoxes(|data|), endSize,
                                           PayTxn(app, ContractDeposit(C.CeilBoxes(|data|), endSize)));
            && started.Some?
            && var uploaded := ApplyWrites(started.value, recreate, address, C.DocumentWrites(C.CorrectedPieces(data), s.currentIndex));
            && uploaded.Some?
            && C.ResolveRecord(uploaded.value, address) == Err(C.StillUploading)
            && var finished := FinishUploadStep(uploaded.value, address);
            && finished.Some?
            && C.ResolveRecord(finished.value, address) == Ok(data)
  {
    C.CorrectedPiecesShape(data);
    UploadPieces(s, app, recreate, address, C.CorrectedPieces(data), C.CorrectedEndBoxSize(|data|));
  }

  /** A record that resolves, stored under an application, is what the
      identifier `did:algo:<address>-<appId>` resolves to. */
  lemma ResolveUploadedDid(store: Store, address: Address, addressText: string, decodeAddress: C.AddressDecoder,
                           appId: uint64, ledger: map<uint64, Store>, doc: seq<Byte>)
    requires ':' !in addressText && '-' !in addressText
    requires decodeAddress(addressText) == Some(address)
    requires C.ResolveRecord(store, address) == Ok(doc)
    ensures C.Resolution("did:algo:" + addressText + "-" + C.Decimal(appId), decodeAddress, ledger[appId := store]) == Ok(doc)
  {
    C.ParseDidOfIdentifier(addressText, decodeAddress, address, appId);
  }

  // ---------------------------------------------------------------------
  // The source as written.

  /** For a document whose length is an exact multiple of 32768 the client
      asks for endBoxSize 0, so the last allocated box is created empty and
      the first write to it fails: the upload never completes. */
  lemma ExactMultipleUploadFails(s: Store, app: Address, recreate: Recreate, address: Address, data: seq<Byte>)
    requires Valid(s) && address !in s.metadata
    requires |data| > 0 && |data| % MAX_BOX_SIZE == 0
    requires s.currentIndex + C.CeilBoxes(|data|) < U64_MOD
    requires ContractDeposit(C.CeilBoxes(|data|), C.EndBoxSize(|data|)) < U64_MOD
    ensures C.EndBoxSize(|data|) == 0
    ensures var started := StartUploadStep(s, app, address, C.CeilBoxes(|data|), C.EndBoxSize(|data|),
                                           PayTxn(app, ContractDeposit(C.CeilBoxes(|data|), C.EndBoxSize(|data|))));
            && started.Some?
            && ApplyWrites(started.value, recreate, address, C.DocumentWrites(C.Pieces(data), s.currentIndex)) == None
  {
    var n := C.CeilBoxes(|data|);
    Allocate(s, app, address, n, 0);
    var ps := C.Pieces(data);
    assert |ps| == n + 1 && forall k :: 0 <= k < n ==> |ps[k]| == MAX_BOX_SIZE by {
      C.PiecesShape(data);
    }
    ValidFresh(s, n - 1);
    WritesPastRecordFail(Allocated(s, address, n, 0), recreate, address, ps, n);
  }

  /** With n boxes allocated and the last one sized 0, sending n full
      pieces, followed by any number of pieces of any length, fails at the
      last box. */
  lemma WritesPastRecordFail(s1: Store, recreate: Recreate, address: Address, ps: seq<seq<Byte>>, n: nat)
    requires address in s1.metadata && 1 <= n <= |ps|
    requires var md := s1.metadata[address];
             md.end == md.start + n - 1 && md.uploading == 1 && md.endSize == 0
    requires FreshRange(s1.dataBoxes, s1.metadata[address].start, n - 1)
    requires s1.metadata[address].start + n - 1 !in s1.dataBoxes
    requires forall k :: 0 <= k < n ==> |ps[k]| == MAX_BOX_SIZE
    ensures ApplyWrites(s1, recreate, address, C.DocumentWrites(ps, s1.metadata[address].start)) == None
  {
    var start := s1.metadata[address].start;
    var endBox: uint64 := start + n - 1;
    var s2 := s1.(dataBoxes := Placed(s1.dataBoxes, start, ps[..n - 1]));
    var full := C.DocumentWrites(ps[..n - 1], start);
    var last := C.BoxWrites(endBox, ps[n - 1]) + C.DocumentWrites(ps[n..], endBox + 1);
    assert C.DocumentWrites(ps, start) == full + last by {
      DocumentWritesAt(ps, start, n - 1);
    }
    assert ApplyWrites(s1, recreate, address, full) == Some(s2) by {
      FullBoxesUpload(s1, recreate, address, ps, n);
    }
    assert ApplyWrites(s2, recreate, address, last) == None by {
      LastPieceFails(s1, recreate, address, ps, n);
    }
    ApplyAppend(s1, recreate, address, full, last);
  }

  /** Once the full boxes before it are placed, the last piece fails. */
  lemma LastPieceFails(s1: Store, recreate: Recreate, address: Address, ps: seq<seq<Byte>>, n: nat)
    requires address in s1.metadata && 1 <= n <= |ps|
    requires var md := s1.metadata[address];
             md.end == md.start + n - 1 && md.uploading == 1 && md.endSize == 0
    requires s1.metadata[address].start + n - 1 !in s1.dataBoxes
    requires |ps[n - 1]| == MAX_BOX_SIZE
    ensures var start := s1.metadata[address].start;
            var s2 := s1.(dataBoxes := Placed(s1.dataBoxes, start, ps[..n - 1]));
            ApplyWrites(s2, recreate, address, C.BoxWrites(start + n - 1, ps[n - 1]) + C.DocumentWrites(ps[n..], start + n))
            == None
  {
    var start := s1.metadata[address].start;
    var endBox: uint64 := start + n - 1;
    var s2 := s1.(dataBoxes := Placed(s1.dataBoxes, start, ps[..n - 1]));
    PlacedOutside(s1.dataBoxes, start, ps[..n - 1], endBox);
    LastBoxFails(s2, recreate, address, endBox, ps[n - 1], C.DocumentWrites(ps[n..], endBox + 1));
  }

  lemma FullBoxesUpload(s1: Store, recreate: Recreate, address: Address, ps: seq<seq<Byte>>, n: nat)
    requires address in s1.metadata && 1 <= n <= |ps|
    requires var md := s1.metadata[address];
             md.end == md.start + n - 1 && md.uploading == 1 && md.end < U64_MOD
    requires FreshRange(s1.dataBoxes, s1.metadata[address].start, n - 1)
    requires forall k :: 0 <= k < n ==> |ps[k]| == MAX_BOX_SIZE
    ensures var start := s1.metadata[address].start;
            ApplyWrites(s1, recreate, address, C.DocumentWrites(ps[..n - 1], start))
            == Some(s1.(dataBoxes := Placed(s1.dataBoxes, start, ps[..n - 1])))
  {
    var full := ps[..n - 1];
    forall k | 0 <= k < |full| ensures |full[k]| == MAX_BOX_SIZE {
      assert full[k] == ps[k];
    }
    FullPiecesSized(full, s1.metadata[address], s1.metadata[address].start);
    DocumentUpload(s1, recreate, address, full, s1.metadata[address].start);
  }

  /** The writes of a document split around piece i. */
  lemma DocumentWritesAt(ps: seq<seq<Byte>>, start: nat, i: nat)
    requires i < |ps|
    ensures C.DocumentWrites(ps, start)
            == C.DocumentWrites(ps[..i], start) + (C.BoxWrites(start + i, ps[i]) + C.DocumentWrites(ps[i + 1..], start + i + 1))
  {
    assert ps == ps[..i] + ps[i..];
    DocumentWritesAppend(ps[..i], ps[i..], start);
    assert ps[i..][0] == ps[i] && ps[i..][1..] == ps[i + 1..];
  }

  /** Full pieces fit every box of a range that stops short of its end. */
  lemma FullPiecesSized(full: seq<seq<Byte>>, md: Metadata, start: uint64)
    requires forall k :: 0 <= k < |full| ==> |full[k]| == MAX_BOX_SIZE
    requires start + |full| <= md.end
    ensures SizedFor(full, md, start)
  {
  }

  /** A box the record sizes at 0 bytes cannot take the first chunk of a
      non-empty piece, so writing that piece fails whatever follows. */
  lemma LastBoxFails(s: Store, recreate: Recreate, address: Address, key: uint64, piece: seq<Byte>, rest: seq<C.Write>)
    requires CanWrite(s, address, key) && key !in s.dataBoxes
    requires BoxSize(s.metadata[address], key) == 0 && |piece| > 0
    ensures ApplyWrites(s, recreate, address, C.BoxWrites(key, piece) + rest) == None
  {
    var ws := C.BoxWrites(key, piece);
    C.ChunksShape(piece);
    C.UploadGroupsOffsets(key, C.Chunks(piece));
    var w := ws[0];
    assert w.offset == 0 && w.boxIndex == key && |w.data| > 0;
    UploadCreates(s, recreate, address, key, w.data);
    assert (ws + rest)[0] == w;
  }

  /** The clients' deposits are never what the contract asks for, so the
      startUpload they send is always rejected. */
  lemma ClientPaymentRejected(s: Store, app: Address, address: Address, len: nat)
    requires C.CeilBoxes(len) < U64_MOD
    ensures 0 <= C.ClientDeposit(len) < U64_MOD ==>
            StartUploadStep(s, app, address, C.CeilBoxes(len), C.EndBoxSize(len), PayTxn(app, C.ClientDeposit(len))).None?
    ensures 0 <= G.GoDeposit(len) < U64_MOD ==>
            StartUploadStep(s, app, address, C.CeilBoxes(len), C.EndBoxSize(len), PayTxn(app, G.GoDeposit(len))).None?
  {
    G.DepositFormulasDiffer(C.CeilBoxes(len), C.EndBoxSize(len));
    if 0 <= C.ClientDeposit(len) < U64_MOD {
      StartUploadSpec(s, app, address, C.CeilBoxes(len), C.EndBoxSize(len), PayTxn(app, C.ClientDeposit(len)));
    }
    if 0 <= G.GoDeposit(len) < U64_MOD {
      StartUploadSpec(s, app, address, C.CeilBoxes(len), C.EndBoxSize(len), PayTxn(app, G.GoDeposit(len)));
    }
  }

  /** Writes at non-zero offsets entirely outside [lo, hi) keep the bytes
      [lo, hi) of the box. */
  lemma {:induction false} ApplyKeeps(s: Store, recreate: Recreate, address: Address, key: uint64,
                                      ws: seq<C.Write>, lo: nat, hi: nat)
    requires key in s.dataBoxes && lo <= hi <= |s.dataBoxes[key]|
    requires forall j :: 0 <= j < |ws| ==>
               ws[j].boxIndex == key && ws[j].offset != 0 && (ws[j].offset >= hi || ws[j].offset + |ws[j].data| <= lo)
    ensures ApplyWrites(s, recreate, address, ws).Some? ==>
            var t := ApplyWrites(s, recreate, address, ws).value;
            key in t.dataBoxes && |t.dataBoxes[key]| == |s.dataBoxes[key]|
            && t.dataBoxes[key][lo..hi] == s.dataBoxes[key][lo..hi]
    decreases |ws|
  {
    if ws != [] && ws[0].offset < U64_MOD {
      var w := ws[0];
      var next := UploadStep(s, recreate, address, key, w.offset, w.data);
      if next.Some? {
        UploadGuards(s, recreate, address, key, w.offset, w.data);
        assert CanWrite(s, address, key);
        UploadOverwrites(s, recreate, address, key, w.offset, w.data);
        var b := s.dataBoxes[key];
        var b' := next.value.dataBoxes[key];
        assert b' == Splice(b, w.offset, w.data);
        assert b'[lo..hi] == b[lo..hi] by {
          forall i | lo <= i < hi ensures b'[i] == b[i] {
          }
        }
        forall j | 0 <= j < |ws[1..]|
          ensures ws[1..][j].boxIndex == key && ws[1..][j].offset != 0
          ensures ws[1..][j].offset >= hi || ws[1..][j].offset + |ws[1..][j].data| <= lo
        {
          assert ws[1..][j] == ws[j + 1];
        }
        ApplyKeeps(next.value, recreate, address, key, ws[1..], lo, hi);
      }
    }
  }

  /** The Go client writes a full box's second group from offset 0 again:
      if every write of a 32768-byte piece goes through, the box ends with
      the ninth chunk in its first 1994 bytes, so the piece is stored only
      if those bytes already equal bytes 15952..17945 of it. */
  lemma GoFullBoxOverwritten(s: Store, recreate: Recreate, address: Address, key: uint64, piece: seq<Byte>)
    requires |piece| == MAX_BOX_SIZE
    ensures |C.Chunks(piece)| == 17
    ensures ApplyWrites(s, recreate, address, G.GoBoxWrites(key, C.Chunks(piece))).Some? ==>
            var t := ApplyWrites(s, recreate, address, G.GoBoxWrites(key, C.Chunks(piece))).value;
            && key in t.dataBoxes
            && |t.dataBoxes[key]| >= C.BYTES_PER_CALL
            && t.dataBoxes[key][..C.BYTES_PER_CALL] == piece[8 * C.BYTES_PER_CALL..9 * C.BYTES_PER_CALL]
    ensures ApplyWrites(s, recreate, address, G.GoBoxWrites(key, C.Chunks(piece))).Some? &&
            piece[..C.BYTES_PER_CALL] != piece[8 * C.BYTES_PER_CALL..9 * C.BYTES_PER_CALL] ==>
            ApplyWrites(s, recreate, address, G.GoBoxWrites(key, C.Chunks(piece))).value.dataBoxes[key] != piece
  {
    var cs := C.Chunks(piece);
    C.ChunksShape(piece);
    var ws := G.GoBoxWrites(key, cs);
    G.GoSecondGroupOverlaps(key, cs);
    assert cs[8] == piece[8 * C.BYTES_PER_CALL..9 * C.BYTES_PER_CALL];
    OverwriteThenKeep(s, recreate, address, key, ws, 8, cs[8]);
  }

  /** If write i puts `data` at offset 0 and every later write to the box
      starts at or after |data|, a run that goes through leaves `data` at
      the front of the box. */
  lemma OverwriteThenKeep(s: Store, recreate: Recreate, address: Address, key: uint64,
                          ws: seq<C.Write>, i: nat, data: seq<Byte>)
    requires i < |ws| && ws[i] == C.Write(key, 0, data)
    requires forall j :: i < j < |ws| ==> ws[j].boxIndex == key && ws[j].offset >= |data| > 0
    ensures ApplyWrites(s, recreate, address, ws).Some? ==>
            var t := ApplyWrites(s, recreate, address, ws).value;
            && key in t.dataBoxes
            && |t.dataBoxes[key]| >= |data|
            && t.dataBoxes[key][..|data|] == data
  {
    assert ws == ws[..i] + [ws[i]] + ws[i + 1..];
    ApplyAppend(s, recreate, address, ws[..i] + [ws[i]], ws[i + 1..]);
    ApplyAppend(s, recreate, address, ws[..i], [ws[i]]);
    var t1 := ApplyWrites(s, recreate, address, ws[..i]);
    if t1.Some? {
      var t2 := UploadStep(t1.value, recreate, address, key, 0, data);
      UploadGuards(t1.value, recreate, address, key, 0, data);
      if t2.Some? {
        assert ApplyWrites(t1.value, recreate, address, [ws[i]]) == t2;
        var rest := ws[i + 1..];
        forall j | 0 <= j < |rest|
          ensures rest[j].boxIndex == key && rest[j].offset != 0
          ensures rest[j].offset >= |data| || rest[j].offset + |rest[j].data| <= 0
        {
          assert rest[j] == ws[j + i + 1];
        }
        ApplyKeeps(t2.value, recreate, address, key, rest, 0, |data|);
      }
    }
  }
}

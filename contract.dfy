/** The on-chain program `AlgoDID` (contracts/algo-did.algo.ts): a metadata
    record per address, numbered data boxes, and a counter that hands out box
    indices. Every call either succeeds as a whole or fails and changes
    nothing (a failed AVM assertion or a uint64 overflow rejects the whole
    transaction). The step functions below are the specification; the class
    at the end is the program written as the source writes it, each method
    proved to realise its step function. */
module AlgoDid {
  import opened Base

  const COST_PER_BYTE: int := 400
  const COST_PER_BOX: int := 2500
  const MAX_BOX_SIZE: int := 32768

  /** The per-address record; `uploading` is 1 while the document is being
      written and 0 once `finishUpload` has run. */
  datatype Metadata = Metadata(start: uint64, end: uint64, uploading: uint8, endSize: uint64)

  /** The payment transaction grouped with `startUpload`. */
  datatype PayTxn = PayTxn(receiver: Address, amount: uint64)

  /** The program's state: the `metadata` and `dataBoxes` box maps and the
      `currentIndex` global. */
  datatype Store = Store(metadata: map<Address, Metadata>, dataBoxes: map<uint64, seq<Byte>>, currentIndex: uint64)

  /** What the ledger's box_create does to a box that already exists, given
      its contents and the requested size: the contents afterwards, or None
      if the call fails. The source does not show this, so it is a parameter
      of the model. */
  type Recreate = (seq<Byte>, uint64) -> Option<seq<Byte>>

  // ---------------------------------------------------------------------
  // uint64 arithmetic as the AVM does it: overflow and underflow fail.

  function Add64(a: uint64, b: uint64): (r: Option<uint64>)
    ensures r.Some? <==> a + b < U64_MOD
    ensures r.Some? ==> r.value == a + b
  {
    if a + b < U64_MOD then Some(a + b) else None
  }

  function Sub64(a: uint64, b: uint64): (r: Option<uint64>)
    ensures r.Some? <==> b <= a
    ensures r.Some? ==> r.value == a - b
  {
    if b <= a then Some(a - b) else None
  }

  function Mul64(a: uint64, b: uint64): (r: Option<uint64>)
    ensures r.Some? <==> a * b < U64_MOD
    ensures r.Some? ==> r.value == a * b
  {
    if a * b < U64_MOD then Some(a * b) else None
  }

  /** The deposit `startUpload` demands, over the integers. */
  function ContractDeposit(numBoxes: int, endBoxSize: int): int
  {
    numBoxes * COST_PER_BOX
    + (numBoxes - 1) * MAX_BOX_SIZE * COST_PER_BYTE
    + numBoxes * 64 * COST_PER_BYTE
    + endBoxSize * COST_PER_BYTE
  }

  /** The same expression evaluated step by step in uint64, failing on the
      first overflow or underflow (contracts/algo-did.algo.ts:55-58). */
  function CheckedDeposit(numBoxes: uint64, endBoxSize: uint64): Option<uint64>
  {
    var boxes :- Mul64(numBoxes, COST_PER_BOX);
    var full :- Sub64(numBoxes, 1);
    var fullBytes :- Mul64(full, MAX_BOX_SIZE);
    var data :- Mul64(fullBytes, COST_PER_BYTE);
    var keyBytes :- Mul64(numBoxes, 64);
    var keys :- Mul64(keyBytes, COST_PER_BYTE);
    var last :- Mul64(endBoxSize, COST_PER_BYTE);
    var s1 :- Add64(boxes, data);
    var s2 :- Add64(s1, keys);
    var s3 :- Add64(s2, last);
    Some(s3)
  }

  /** The checked evaluation fails exactly when numBoxes is 0 (numBoxes - 1
      underflows) or when the exact deposit does not fit in a uint64; every
      intermediate value is bounded by the total. */
  lemma CheckedDepositExact(numBoxes: uint64, endBoxSize: uint64)
    ensures CheckedDeposit(numBoxes, endBoxSize)
            == if numBoxes >= 1 && ContractDeposit(numBoxes, endBoxSize) < U64_MOD
               then Some(ContractDeposit(numBoxes, endBoxSize)) else None
  {
  }

  // ---------------------------------------------------------------------
  // The three calls as functions of the state.

  /** startUpload(address, numBoxes, endBoxSize, mbrPayment), with `app` the
      program's own address. */
  function StartUploadStep(s: Store, app: Address, address: Address, numBoxes: uint64,
                           endBoxSize: uint64, pay: PayTxn): Option<Store>
  {
    var startBox := s.currentIndex;
    var afterEnd :- Add64(startBox, numBoxes);
    var endBox :- Sub64(afterEnd, 1);
    if address in s.metadata then None
    else
      var next :- Add64(endBox, 1);
      var cost :- CheckedDeposit(numBoxes, endBoxSize);
      if pay.amount != cost || pay.receiver != app then None
      else Some(Store(s.metadata[address := Metadata(startBox, endBox, 1, endBoxSize)], s.dataBoxes, next))
  }

  /** box_create: a new box is `size` zero bytes and may not exceed the
      ledger's 32768-byte cap; an existing box is handed to `recreate`. */
  function CreateBox(boxes: map<uint64, seq<Byte>>, recreate: Recreate, key: uint64, size: uint64)
    : Option<map<uint64, seq<Byte>>>
  {
    if key in boxes then
      match recreate(boxes[key], size)
      case None => None
      case Some(b) => Some(boxes[key := b])
    else if size > MAX_BOX_SIZE then None
    else Some(boxes[key := Zeros(size)])
  }

  /** box_replace: the box must exist and the bytes must fit inside it. */
  function ReplaceBox(boxes: map<uint64, seq<Byte>>, key: uint64, offset: uint64, data: seq<Byte>)
    : Option<map<uint64, seq<Byte>>>
  {
    if key !in boxes || offset + |data| > |boxes[key]| then None
    else Some(boxes[key := Splice(boxes[key], offset, data)])
  }

  /** The size `upload` gives box `boxIndex` when it creates it. */
  function BoxSize(md: Metadata, boxIndex: uint64): uint64
  {
    if boxIndex == md.end then md.endSize else MAX_BOX_SIZE
  }

  /** upload(address, boxIndex, offset, data). */
  function UploadStep(s: Store, recreate: Recreate, address: Address, boxIndex: uint64,
                      offset: uint64, data: seq<Byte>): Option<Store>
  {
    if address !in s.metadata then None
    else
      var md := s.metadata[address];
      if md.uploading != 1 || !(md.start <= boxIndex <= md.end) then None
      else
        var created :- if offset == 0 then CreateBox(s.dataBoxes, recreate, boxIndex, BoxSize(md, boxIndex))
                       else Some(s.dataBoxes);
        var written :- ReplaceBox(created, boxIndex, offset, data);
        Some(s.(dataBoxes := written))
  }

  /** finishUpload(address). */
  function FinishUploadStep(s: Store, address: Address): Option<Store>
  {
    if address !in s.metadata then None
    else Some(s.(metadata := s.metadata[address := s.metadata[address].(uploading := 0)]))
  }

  // ---------------------------------------------------------------------
  // What the calls promise.

  /** startUpload succeeds exactly when no record exists for the address,
      numBoxes >= 1, the new range fits below 2^64, the deposit fits in a
      uint64, and the payment goes to the program and equals the deposit to
      the unit. On success the record covers [old currentIndex, old
      currentIndex + numBoxes - 1], is marked uploading, carries endBoxSize,
      and the counter moves past the range; the boxes are untouched. */
  lemma StartUploadSpec(s: Store, app: Address, address: Address, numBoxes: uint64,
                        endBoxSize: uint64, pay: PayTxn)
    ensures StartUploadStep(s, app, address, numBoxes, endBoxSize, pay).Some?
            <==> && address !in s.metadata
                 && numBoxes >= 1
                 && s.currentIndex + numBoxes < U64_MOD
                 && ContractDeposit(numBoxes, endBoxSize) < U64_MOD
                 && pay.amount == ContractDeposit(numBoxes, endBoxSize)
                 && pay.receiver == app
    ensures StartUploadStep(s, app, address, numBoxes, endBoxSize, pay).Some? ==>
            var s' := StartUploadStep(s, app, address, numBoxes, endBoxSize, pay).value;
            && s'.metadata == s.metadata[address := Metadata(s.currentIndex, s.currentIndex + numBoxes - 1, 1, endBoxSize)]
            && s'.currentIndex == s.currentIndex + numBoxes
            && s'.dataBoxes == s.dataBoxes
  {
    CheckedDepositExact(numBoxes, endBoxSize);
  }

  /** A payment one unit above or below the deposit is rejected, and a
      request for zero boxes is always rejected. */
  lemma StartUploadRejects(s: Store, app: Address, address: Address, numBoxes: uint64,
                           endBoxSize: uint64, amount: uint64)
    ensures amount == ContractDeposit(numBoxes, endBoxSize) + 1 ==>
            StartUploadStep(s, app, address, numBoxes, endBoxSize, PayTxn(app, amount)).None?
    ensures amount == ContractDeposit(numBoxes, endBoxSize) - 1 ==>
            StartUploadStep(s, app, address, numBoxes, endBoxSize, PayTxn(app, amount)).None?
    ensures numBoxes == 0 ==>
            StartUploadStep(s, app, address, numBoxes, endBoxSize, PayTxn(app, amount)).None?
  {
    StartUploadSpec(s, app, address, numBoxes, endBoxSize, PayTxn(app, amount));
  }

  /** upload fails unless a record exists, it is still uploading and the box
      index lies in its range; a success changes only box `boxIndex`. */
  lemma UploadGuards(s: Store, recreate: Recreate, address: Address, boxIndex: uint64,
                     offset: uint64, data: seq<Byte>)
    ensures UploadStep(s, recreate, address, boxIndex, offset, data).Some? ==>
            && address in s.metadata
            && s.metadata[address].uploading == 1
            && s.metadata[address].start <= boxIndex <= s.metadata[address].end
    ensures UploadStep(s, recreate, address, boxIndex, offset, data).Some? ==>
            var s' := UploadStep(s, recreate, address, boxIndex, offset, data).value;
            && s'.metadata == s.metadata && s'.currentIndex == s.currentIndex
            && boxIndex in s'.dataBoxes
            && s'.dataBoxes == s.dataBoxes[boxIndex := s'.dataBoxes[boxIndex]]
            && offset + |data| <= |s'.dataBoxes[boxIndex]|
            && s'.dataBoxes[boxIndex][offset..offset + |data|] == data
  {
  }

  /** The guards of upload hold for this address and box. */
  ghost predicate CanWrite(s: Store, address: Address, boxIndex: uint64)
  {
    && address in s.metadata
    && s.metadata[address].uploading == 1
    && s.metadata[address].start <= boxIndex <= s.metadata[address].end
  }

  /** An offset-0 write to a box that does not exist yet creates it with the
      record's size for that index (endSize for the last box, 32768 for the
      others) and zero bytes, then writes the data at the front; it succeeds
      exactly when that size is within the cap and the data fits. */
  lemma UploadCreates(s: Store, recreate: Recreate, address: Address, boxIndex: uint64, data: seq<Byte>)
    requires CanWrite(s, address, boxIndex) && boxIndex !in s.dataBoxes
    ensures var size := BoxSize(s.metadata[address], boxIndex);
            UploadStep(s, recreate, address, boxIndex, 0, data)
            == if size <= MAX_BOX_SIZE && |data| <= size
               then Some(s.(dataBoxes := s.dataBoxes[boxIndex := Splice(Zeros(size), 0, data)]))
               else None
  {
    var size := BoxSize(s.metadata[address], boxIndex);
    var created := CreateBox(s.dataBoxes, recreate, boxIndex, size);
    if size <= MAX_BOX_SIZE {
      assert created == Some(s.dataBoxes[boxIndex := Zeros(size)]);
      assert |created.value[boxIndex]| == size;
      if |data| <= size {
        var box := Splice(Zeros(size), 0, data);
        assert created.value[boxIndex := box] == s.dataBoxes[boxIndex := box];
      }
    }
  }

  /** A write at a non-zero offset overwrites bytes [offset, offset + |data|)
      of the existing box and keeps all its other bytes; it fails when the
      box does not exist or the data does not fit. */
  lemma UploadOverwrites(s: Store, recreate: Recreate, address: Address, boxIndex: uint64,
                         offset: uint64, data: seq<Byte>)
    requires CanWrite(s, address, boxIndex) && offset != 0
    ensures UploadStep(s, recreate, address, boxIndex, offset, data)
            == if boxIndex in s.dataBoxes && offset + |data| <= |s.dataBoxes[boxIndex]|
               then Some(s.(dataBoxes := s.dataBoxes[boxIndex := Splice(s.dataBoxes[boxIndex], offset, data)]))
               else None
  {
  }

  /** finishUpload fails without a record; otherwise it clears `uploading`
      and keeps start, end, endSize, every other record, every box and the
      counter. */
  lemma FinishUploadSpec(s: Store, address: Address)
    ensures FinishUploadStep(s, address).Some? <==> address in s.metadata
    ensures FinishUploadStep(s, address).Some? ==>
            var s' := FinishUploadStep(s, address).value;
            var md := s.metadata[address];
            && s'.metadata == s.metadata[address := Metadata(md.start, md.end, 0, md.endSize)]
            && s'.dataBoxes == s.dataBoxes && s'.currentIndex == s.currentIndex
  {
  }

  // ---------------------------------------------------------------------
  // The allocation invariant.

  /** Every record's range is non-empty and lies below the counter, the
      ranges of different addresses are disjoint, and every box lies below
      the counter. */
  ghost predicate Valid(s: Store)
  {
    && (forall a :: a in s.metadata ==> s.metadata[a].start <= s.metadata[a].end < s.currentIndex)
    && (forall a, b :: a in s.metadata && b in s.metadata && a != b ==>
          s.metadata[a].end < s.metadata[b].start || s.metadata[b].end < s.metadata[a].start)
    && (forall k :: k in s.dataBoxes ==> k < s.currentIndex)
  }

  /** A successful startUpload hands out a range that starts at the old
      counter, lies above every range and every box handed out before, and
      keeps the invariant; so indices are never reused. */
  lemma StartUploadFresh(s: Store, app: Address, address: Address, numBoxes: uint64,
                         endBoxSize: uint64, pay: PayTxn)
    requires Valid(s)
    requires StartUploadStep(s, app, address, numBoxes, endBoxSize, pay).Some?
    ensures var s' := StartUploadStep(s, app, address, numBoxes, endBoxSize, pay).value;
            && Valid(s')
            && s'.metadata[address].start == s.currentIndex
            && (forall a :: a in s.metadata ==> s.metadata[a].end < s'.metadata[address].start)
            && (forall k :: k in s.dataBoxes ==> k < s'.metadata[address].start)
            && s'.metadata[address].end < s'.currentIndex
  {
    StartUploadSpec(s, app, address, numBoxes, endBoxSize, pay);
  }

  /** Two successive successful allocations get ascending, disjoint ranges. */
  lemma AllocationsAscend(s: Store, app: Address, a1: Address, n1: uint64, e1: uint64, p1: PayTxn,
                          a2: Address, n2: uint64, e2: uint64, p2: PayTxn)
    requires StartUploadStep(s, app, a1, n1, e1, p1).Some?
    requires StartUploadStep(StartUploadStep(s, app, a1, n1, e1, p1).value, app, a2, n2, e2, p2).Some?
    ensures var s1 := StartUploadStep(s, app, a1, n1, e1, p1).value;
            var s2 := StartUploadStep(s1, app, a2, n2, e2, p2).value;
            && a1 != a2
            && s2.metadata[a1] == s1.metadata[a1]
            && s1.metadata[a1].start <= s1.metadata[a1].end < s2.metadata[a2].start <= s2.metadata[a2].end
  {
    var s1 := StartUploadStep(s, app, a1, n1, e1, p1).value;
    StartUploadSpec(s, app, a1, n1, e1, p1);
    StartUploadSpec(s1, app, a2, n2, e2, p2);
  }

  /** upload keeps the invariant: it only writes inside an allocated range. */
  lemma UploadKeepsValid(s: Store, recreate: Recreate, address: Address, boxIndex: uint64,
                         offset: uint64, data: seq<Byte>)
    requires Valid(s)
    requires UploadStep(s, recreate, address, boxIndex, offset, data).Some?
    ensures Valid(UploadStep(s, recreate, address, boxIndex, offset, data).value)
  {
    UploadGuards(s, recreate, address, boxIndex, offset, data);
  }

  /** finishUpload keeps the invariant. */
  lemma FinishUploadKeepsValid(s: Store, address: Address)
    requires Valid(s) && FinishUploadStep(s, address).Some?
    ensures Valid(FinishUploadStep(s, address).value)
  {
    var s' := FinishUploadStep(s, address).value;
    forall a, b | a in s'.metadata && b in s'.metadata && a != b
      ensures s'.metadata[a].end < s'.metadata[b].start || s'.metadata[b].end < s'.metadata[a].start
    {
      assert s'.metadata[a].start == s.metadata[a].start && s'.metadata[a].end == s.metadata[a].end;
      assert s'.metadata[b].start == s.metadata[b].start && s'.metadata[b].end == s.metadata[b].end;
    }
  }

  // ---------------------------------------------------------------------
  // The program, with its state in fields.

  class AlgoDID {
    /** The boxes that hold the document bytes, by index. */
    var dataBoxes: map<uint64, seq<Byte>>
    /** The record of each address. */
    var metadata: map<Address, Metadata>
    /** The index of the next box to hand out. */
    var currentIndex: uint64
    /** The program's own account. */
    const appAddress: Address
    /** The ledger's behaviour on re-creating an existing box. */
    const recreate: Recreate

    function State(): Store
      reads this
    {
      Store(metadata, dataBoxes, currentIndex)
    }

    /** A freshly created program: no boxes, no records, and the counter at
        0, the value the AVM reads for a global that was never set. */
    constructor (appAddress: Address, recreate: Recreate)
      ensures State() == Store(map[], map[], 0) && Valid(State())
      ensures this.appAddress == appAddress && this.recreate == recreate
    {
      dataBoxes := map[];
      metadata := map[];
      currentIndex := 0;
      this.appAddress := appAddress;
      this.recreate := recreate;
    }

    method StartUpload(address: Address, numBoxes: uint64, endBoxSize: uint64, mbrPayment: PayTxn)
      returns (ok: bool)
      modifies this
      ensures ok == StartUploadStep(old(State()), appAddress, address, numBoxes, endBoxSize, mbrPayment).Some?
      ensures State() == if ok then StartUploadStep(old(State()), appAddress, address, numBoxes, endBoxSize, mbrPayment).value
                         else old(State())
    {
      var startBox := currentIndex;
      if startBox + numBoxes >= U64_MOD || startBox + numBoxes < 1 {
        return false;  // startBox + numBoxes - 1 overflows or underflows
      }
      var endBox: uint64 := startBox + numBoxes - 1;
      var record := Metadata(startBox, endBox, 1, endBoxSize);
      if address in metadata {
        return false;
      }
      var totalCost := CheckedDeposit(numBoxes, endBoxSize);
      if totalCost.None? || mbrPayment.amount != totalCost.value || mbrPayment.receiver != appAddress {
        return false;
      }
      // The source writes the record and the counter before its last two
      // assertions; a failing assertion discards them, so they are
      // committed here, once every check has passed.
      metadata := metadata[address := record];
      currentIndex := endBox + 1;
      ok := true;
    }

    method Upload(address: Address, boxIndex: uint64, offset: uint64, data: seq<Byte>)
      returns (ok: bool)
      modifies this
      ensures ok == UploadStep(old(State()), recreate, address, boxIndex, offset, data).Some?
      ensures State() == if ok then UploadStep(old(State()), recreate, address, boxIndex, offset, data).value
                         else old(State())
    {
      if address !in metadata {
        return false;
      }
      var record := metadata[address];
      if record.uploading != 1 || !(record.start <= boxIndex && boxIndex <= record.end) {
        return false;
      }
      var boxes := dataBoxes;
      if offset == 0 {
        var created := CreateBox(boxes, recreate, boxIndex, if boxIndex == record.end then record.endSize else MAX_BOX_SIZE);
        if created.None? {
          return false;
        }
        boxes := created.value;
      }
      var written := ReplaceBox(boxes, boxIndex, offset, data);
      if written.None? {
        return false;
      }
      dataBoxes := written.value;
      ok := true;
    }

    method FinishUpload(address: Address) returns (ok: bool)
      modifies this
      ensures ok == FinishUploadStep(old(State()), address).Some?
      ensures State() == if ok then FinishUploadStep(old(State()), address).value else old(State())
    {
      if address !in metadata {
        return false;
      }
      metadata := metadata[address := metadata[address].(uploading := 0)];
      ok := true;
    }
  }
}

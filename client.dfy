/** The TypeScript client (src/index.ts): resolving a `did:algo:` identifier
    into the bytes of its document, the bounded retry around a transaction
    group, and the arithmetic of an upload (deposit, partition of the
    document into boxes, of each box into write-sized chunks, the two
    transaction groups and their write offsets). Network calls are not
    modelled: the ledger is a value and each group's execution is an
    outcome given as a parameter. */
module DidClient {
  import opened Base
  import AlgoDid

  const COST_PER_BYTE: int := 400
  const COST_PER_BOX: int := 2500
  const MAX_BOX_SIZE: int := 32768

  /** What one `upload` call can carry: a 2048-byte argument budget less the
      method selector, the key, the box index and the offset. */
  const BYTES_PER_CALL: int := 2048 - 4 - 34 - 8 - 8

  // ---------------------------------------------------------------------
  // String.prototype.split with a one-character separator.

  function Split(s: string, sep: char): (r: seq<string>)
    ensures |r| >= 1
    decreases |s|
  {
    if |s| == 0 then [""]
    else
      var rest := Split(s[1..], sep);
      if s[0] == sep then [""] + rest
      else [[s[0]] + rest[0]] + rest[1..]
  }

  function Join(parts: seq<string>, sep: char): string
    decreases |parts|
  {
    if |parts| <= 1 then (if parts == [] then "" else parts[0])
    else parts[0] + [sep] + Join(parts[1..], sep)
  }

  /** Splitting loses nothing: joining the segments with the separator gives
      the string back, and no segment contains the separator. */
  lemma {:induction false} SplitJoin(s: string, sep: char)
    ensures Join(Split(s, sep), sep) == s
    ensures forall i :: 0 <= i < |Split(s, sep)| ==> sep !in Split(s, sep)[i]
    decreases |s|
  {
    if |s| > 0 {
      var rest := Split(s[1..], sep);
      SplitJoin(s[1..], sep);
      assert s == [s[0]] + s[1..];
      if s[0] == sep {
        assert Split(s, sep) == [""] + rest;
        assert Join([""] + rest, sep) == "" + [sep] + Join(rest, sep);
      } else {
        var r := Split(s, sep);
        assert r == [[s[0]] + rest[0]] + rest[1..];
        if |rest| == 1 {
          assert Join(r, sep) == [s[0]] + rest[0];
        } else {
          assert Join(rest, sep) == rest[0] + [sep] + Join(rest[1..], sep);
          assert r[1..] == rest[1..];
          assert Join(r, sep) == ([s[0]] + rest[0]) + [sep] + Join(rest[1..], sep);
        }
        forall i | 0 <= i < |r| ensures sep !in r[i] {
          if i > 0 { assert r[i] == rest[i]; }
        }
      }
    }
  }

  lemma {:induction false} SplitWithout(s: string, sep: char)
    requires sep !in s
    ensures Split(s, sep) == [s]
    decreases |s|
  {
    if |s| > 0 {
      SplitWithout(s[1..], sep);
      assert s == [s[0]] + s[1..];
    }
  }

  lemma {:induction false} SplitAfter(a: string, sep: char, b: string)
    requires sep !in a
    ensures Split(a + [sep] + b, sep) == [a] + Split(b, sep)
    decreases |a|
  {
    var s := a + [sep] + b;
    if |a| == 0 {
      assert s[1..] == b;
    } else {
      assert s[1..] == a[1..] + [sep] + b;
      SplitAfter(a[1..], sep, b);
      assert a == [a[0]] + a[1..];
    }
  }

  // ---------------------------------------------------------------------
  // Decimal application ids. BigInt(...) is abstracted as a string of
  // decimal digits; encodeUint64 then rejects values of 2^64 and above.

  predicate IsDigit(c: char)
  {
    '0' <= c <= '9'
  }

  predicate AllDigits(s: string)
  {
    forall i :: 0 <= i < |s| ==> IsDigit(s[i])
  }

  function DecimalValue(s: string): nat
    requires AllDigits(s)
  {
    if s == [] then 0 else DecimalValue(s[..|s| - 1]) * 10 + (s[|s| - 1] as int - '0' as int)
  }

  function ParseUint64(s: string): Option<uint64>
  {
    if s != [] && AllDigits(s) && DecimalValue(s) < U64_MOD then Some(DecimalValue(s)) else None
  }

  /** The decimal rendering of n (what `${appId}` produces). */
  function Decimal(n: nat): (s: string)
    ensures s != [] && AllDigits(s)
  {
    if n < 10 then [('0' as int + n) as char]
    else Decimal(n / 10) + [('0' as int + n % 10) as char]
  }

  lemma {:induction false} DecimalValueOf(n: nat)
    ensures DecimalValue(Decimal(n)) == n
  {
    if n >= 10 {
      var s := Decimal(n);
      assert s[..|s| - 1] == Decimal(n / 10);
      DecimalValueOf(n / 10);
    }
  }

  /** Rendering a uint64 in decimal and parsing it back gives it back. */
  lemma DecimalRoundTrip(n: uint64)
    ensures ParseUint64(Decimal(n)) == Some(n)
  {
    DecimalValueOf(n);
  }

  /** The rendering of n with k leading zeros. */
  function Padded(k: nat, n: nat): string
  {
    seq(k, i => '0') + Decimal(n)
  }

  /** The app id parser accepts every zero-padded rendering of a uint64, and
      reads it as that uint64. */
  lemma ParseUint64AcceptsPadded(k: nat, n: uint64)
    ensures ParseUint64(Padded(k, n)) == Some(n)
  {
    DecimalValueOf(n);
    LeadingZerosValue(seq(k, i => '0'), Decimal(n));
  }

  /** ... and nothing else: whatever it accepts is the zero-padded rendering
      of the value it returns. */
  lemma ParseUint64OnlyPadded(s: string)
    ensures ParseUint64(s).Some? ==>
              var n := ParseUint64(s).value;
              |Decimal(n)| <= |s| && s == Padded(|s| - |Decimal(n)|, n)
  {
    if ParseUint64(s).Some? {
      DigitsArePadded(s);
    }
  }

  lemma {:induction false} ZerosValue(z: string)
    requires forall i :: 0 <= i < |z| ==> z[i] == '0'
    ensures AllDigits(z) && DecimalValue(z) == 0
  {
    if z != [] {
      ZerosValue(z[..|z| - 1]);
    }
  }

  lemma {:induction false} ZeroValueIsZeros(z: string)
    requires AllDigits(z) && DecimalValue(z) == 0
    ensures forall i :: 0 <= i < |z| ==> z[i] == '0'
  {
    if z != [] {
      ZeroValueIsZeros(z[..|z| - 1]);
      assert forall i :: 0 <= i < |z| - 1 ==> z[i] == z[..|z| - 1][i];
    }
  }

  /** Leading zeros do not change the value of a digit string. */
  lemma {:induction false} LeadingZerosValue(z: string, t: string)
    requires forall i :: 0 <= i < |z| ==> z[i] == '0'
    requires AllDigits(t)
    ensures AllDigits(z + t) && DecimalValue(z + t) == DecimalValue(t)
    decreases |t|
  {
    if t == [] {
      assert z + t == z;
      ZerosValue(z);
    } else {
      assert (z + t)[..|z + t| - 1] == z + t[..|t| - 1];
      LeadingZerosValue(z, t[..|t| - 1]);
    }
  }

  /** A non-empty digit string is its value's rendering behind some zeros. */
  lemma {:induction false} DigitsArePadded(s: string)
    requires s != [] && AllDigits(s)
    ensures |Decimal(DecimalValue(s))| <= |s|
    ensures s == Padded(|s| - |Decimal(DecimalValue(s))|, DecimalValue(s))
    decreases |s|
  {
    var p := s[..|s| - 1];
    var last := s[|s| - 1];
    var n := DecimalValue(s);
    assert s == p + [last];
    if DecimalValue(p) == 0 {
      ZeroValueIsZeros(p);
      assert Decimal(n) == [last];
      assert p == seq(|p|, i => '0');
    } else {
      DigitsArePadded(p);
      var m := DecimalValue(p);
      assert n / 10 == m && n % 10 == last as int - '0' as int;
      assert Decimal(n) == Decimal(m) + [last];
      assert seq(|s| - |Decimal(n)|, i => '0') == seq(|p| - |Decimal(m)|, i => '0');
    }
  }

  // ---------------------------------------------------------------------
  // resolveDID

  datatype DidRef = DidRef(publicKey: Address, appId: uint64)

  /** The errors resolveDID throws, in the order it checks for them. */
  datatype ResolveError =
    | InvalidProtocol(got: string)          // segment 0 is not "did"
    | InvalidMethod(found: Option<string>)  // segment 1 is missing or not "algo"
    | MissingIdentifier                     // no segment 2: `undefined.split` throws a TypeError
    | InvalidPublicKey(gotKey: string)      // the part before the first '-' is not an address
    | InvalidAppId(foundId: Option<string>) // the part after it is missing or not a uint64
    | NotFound                              // no such application, or no record for the key
    | StillUploading                        // the record's `uploading` is not 0
    | BoxUnavailable                        // a box of the range could not be read

  /** algosdk.decodeAddress (base32 with a checksum), as a parameter. */
  type AddressDecoder = string -> Option<Address>

  /** The parsing half of resolveDID (src/index.ts:18-39). */
  function ParseDid(did: string, decodeAddress: AddressDecoder): (r: Result<DidRef, ResolveError>)
    ensures r.Ok? <==>
              var seg := Split(did, ':');
              && seg[0] == "did" && |seg| >= 3 && seg[1] == "algo"
              && decodeAddress(Split(seg[2], '-')[0]).Some?
              && |Split(seg[2], '-')| >= 2
              && ParseUint64(Split(seg[2], '-')[1]).Some?
    ensures r.Ok? ==>
              var id := Split(Split(did, ':')[2], '-');
              && decodeAddress(id[0]) == Some(r.value.publicKey)
              && ParseUint64(id[1]) == Some(r.value.appId)
  {
    var splitDid := Split(did, ':');
    if splitDid[0] != "did" then Err(InvalidProtocol(splitDid[0]))
    else if |splitDid| < 2 || splitDid[1] != "algo" then
      Err(InvalidMethod(if |splitDid| < 2 then None else Some(splitDid[1])))
    else if |splitDid| < 3 then Err(MissingIdentifier)
    else
      var splitId := Split(splitDid[2], '-');
      match decodeAddress(splitId[0])
      case None => Err(InvalidPublicKey(splitId[0]))
      case Some(pubKey) =>
        if |splitId| < 2 then Err(InvalidAppId(None))
        else
          match ParseUint64(splitId[1])
          case None => Err(InvalidAppId(Some(splitId[1])))
          case Some(appId) => Ok(DidRef(pubKey, appId))
  }

  /** The rejections come in the order protocol, method, address, app id:
      each kind of error is only ever reported when every earlier check has
      passed. */
  lemma ParseDidOrder(did: string, decodeAddress: AddressDecoder)
    ensures var seg := Split(did, ':');
            var r := ParseDid(did, decodeAddress);
            && (r.Err? && r.error.InvalidProtocol? <==> seg[0] != "did")
            && (r.Err? && r.error.InvalidMethod? <==> seg[0] == "did" && (|seg| < 2 || seg[1] != "algo"))
            && (r.Err? && r.error.InvalidPublicKey? <==>
                  seg[0] == "did" && |seg| >= 3 && seg[1] == "algo"
                  && decodeAddress(Split(seg[2], '-')[0]).None?)
            && (r.Err? && r.error.MissingIdentifier? <==> seg[0] == "did" && |seg| == 2 && seg[1] == "algo")
            && (r.Err? && r.error.InvalidAppId? <==>
                  && seg[0] == "did" && |seg| >= 3 && seg[1] == "algo"
                  && decodeAddress(Split(seg[2], '-')[0]).Some?
                  && (|Split(seg[2], '-')| < 2 || ParseUint64(Split(seg[2], '-')[1]).None?))
  {
  }

  /** The identifier the client builds, `did:algo:<address>-<appId>`, parses
      back to the key the address decodes to and to the application id. An
      Algorand address is base32, so it holds neither ':' nor '-'. */
  lemma ParseDidOfIdentifier(address: string, decodeAddress: AddressDecoder, pubKey: Address, appId: uint64)
    requires ':' !in address && '-' !in address
    requires decodeAddress(address) == Some(pubKey)
    ensures ParseDid("did:algo:" + address + "-" + Decimal(appId), decodeAddress) == Ok(DidRef(pubKey, appId))
  {
    var dec := Decimal(appId);
    var tail := address + "-" + dec;
    assert ':' !in dec && '-' !in dec by {
      assert AllDigits(dec);
      forall i | 0 <= i < |dec| ensures dec[i] != ':' && dec[i] != '-' {
        assert IsDigit(dec[i]);
      }
    }
    assert ':' !in tail;
    SplitWithout(tail, ':');
    SplitAfter("algo", ':', tail);
    assert "did:algo:" + address + "-" + dec == "did" + [':'] + ("algo" + [':'] + tail);
    SplitAfter("did", ':', "algo" + [':'] + tail);
    SplitWithout(dec, '-');
    SplitAfter(address, '-', dec);
    assert tail == address + ['-'] + dec;
    DecimalRoundTrip(appId);
  }

  /** The concatenation of boxes lo..hi inclusive, in ascending index order;
      None if one of them is missing. */
  function AssembleBoxes(boxes: map<uint64, seq<Byte>>, lo: int, hi: int): Option<seq<Byte>>
    decreases hi - lo + 1
  {
    if lo > hi then Some([])
    else if !(0 <= lo < U64_MOD) || lo !in boxes then None
    else
      match AssembleBoxes(boxes, lo + 1, hi)
      case None => None
      case Some(rest) => Some(boxes[lo] + rest)
  }

  /** Every index lo..hi inclusive is a uint64 with a box. */
  ghost predicate AllPresent(boxes: map<uint64, seq<Byte>>, lo: int, hi: int)
  {
    && (lo <= hi ==> 0 <= lo && hi < U64_MOD)
    && forall k: uint64 :: lo <= k <= hi ==> k in boxes
  }

  /** The boxes lo..hi inclusive, in index order. */
  function BoxesInRange(boxes: map<uint64, seq<Byte>>, lo: int, hi: int): (r: seq<seq<Byte>>)
    requires AllPresent(boxes, lo, hi)
    ensures |r| == if lo > hi then 0 else hi - lo + 1
  {
    if lo > hi then [] else seq(hi - lo + 1, i requires 0 <= i < hi - lo + 1 => boxes[lo + i])
  }

  /** Reading one more present box extends the range by that box. */
  lemma BoxesInRangeSnoc(boxes: map<uint64, seq<Byte>>, lo: int, hi: int)
    requires AllPresent(boxes, lo, hi) && 0 <= lo <= hi + 1 < U64_MOD && hi + 1 in boxes
    ensures AllPresent(boxes, lo, hi + 1)
    ensures BoxesInRange(boxes, lo, hi + 1) == BoxesInRange(boxes, lo, hi) + [boxes[hi + 1]]
  {
  }

  /** Assembly succeeds exactly when every box of the range exists, and then
      yields the boxes concatenated in ascending index order. */
  lemma {:induction false} AssembleInOrder(boxes: map<uint64, seq<Byte>>, lo: int, hi: int)
    ensures AssembleBoxes(boxes, lo, hi).Some? <==> AllPresent(boxes, lo, hi)
    ensures AllPresent(boxes, lo, hi) ==>
            AssembleBoxes(boxes, lo, hi) == Some(Flatten(BoxesInRange(boxes, lo, hi)))
    decreases hi - lo + 1
  {
    if lo <= hi {
      AssembleInOrder(boxes, lo + 1, hi);
      if AllPresent(boxes, lo, hi) {
        var all := BoxesInRange(boxes, lo, hi);
        if lo < hi {
          assert all[1..] == BoxesInRange(boxes, lo + 1, hi);
        } else {
          assert all == [boxes[lo]];
        }
      } else if 0 <= lo < U64_MOD && lo in boxes {
        assert !AllPresent(boxes, lo + 1, hi);
      }
    }
  }

  /** What the resolver does once it has the application's boxes: no record
      is an error, a record still uploading is an error, otherwise the
      boxes start..end (src/index.ts:48-63). */
  function ResolveRecord(store: AlgoDid.Store, pubKey: Address): Result<seq<Byte>, ResolveError>
  {
    if pubKey !in store.metadata then Err(NotFound)
    else
      var md := store.metadata[pubKey];
      if md.uploading != 0 then Err(StillUploading)
      else
        match AssembleBoxes(store.dataBoxes, md.start, md.end)
        case None => Err(BoxUnavailable)
        case Some(doc) => Ok(doc)
  }

  /** The whole of resolveDID against a ledger that maps application ids to
      the program state. */
  function Resolution(did: string, decodeAddress: AddressDecoder, ledger: map<uint64, AlgoDid.Store>)
    : Result<seq<Byte>, ResolveError>
  {
    match ParseDid(did, decodeAddress)
    case Err(e) => Err(e)
    case Ok(ref) =>
      if ref.appId !in ledger then Err(NotFound)
      else ResolveRecord(ledger[ref.appId], ref.publicKey)
  }

  /** A record whose `uploading` is non-zero is never resolved; a finished
      one resolves to its boxes start..end concatenated in index order, and
      to nothing else. */
  lemma ResolveRecordSpec(store: AlgoDid.Store, pubKey: Address)
    ensures pubKey !in store.metadata ==> ResolveRecord(store, pubKey) == Err(NotFound)
    ensures pubKey in store.metadata && store.metadata[pubKey].uploading != 0 ==>
            ResolveRecord(store, pubKey) == Err(StillUploading)
    ensures pubKey in store.metadata && store.metadata[pubKey].uploading == 0 ==>
            var md := store.metadata[pubKey];
            ResolveRecord(store, pubKey)
            == if AllPresent(store.dataBoxes, md.start, md.end)
               then Ok(Flatten(BoxesInRange(store.dataBoxes, md.start, md.end)))
               else Err(BoxUnavailable)
    ensures ResolveRecord(store, pubKey).Ok? ==>
            var md := store.metadata[pubKey];
            && md.uploading == 0
            && AllPresent(store.dataBoxes, md.start, md.end)
            && ResolveRecord(store, pubKey).value == Flatten(BoxesInRange(store.dataBoxes, md.start, md.end))
  {
    if pubKey in store.metadata {
      var md := store.metadata[pubKey];
      AssembleInOrder(store.dataBoxes, md.start, md.end);
    }
  }

  /** resolveDID. Reads the boxes start..end in a loop and concatenates them
      in index order. */
  method ResolveDid(did: string, decodeAddress: AddressDecoder, ledger: map<uint64, AlgoDid.Store>)
    returns (r: Result<seq<Byte>, ResolveError>)
    ensures r == Resolution(did, decodeAddress, ledger)
  {
    var parsed := ParseDid(did, decodeAddress);
    if parsed.Err? {
      return Err(parsed.error);
    }
    var ref := parsed.value;
    if ref.appId !in ledger {
      return Err(NotFound);
    }
    var store := ledger[ref.appId];
    ghost var expected := ResolveRecord(store, ref.publicKey);
    assert Resolution(did, decodeAddress, ledger) == expected;
    if ref.publicKey !in store.metadata {
      return Err(NotFound);
    }
    var metadata := store.metadata[ref.publicKey];
    if metadata.uploading != 0 {
      return Err(StillUploading);
    }
    AssembleInOrder(store.dataBoxes, metadata.start, metadata.end);
    assert expected == match AssembleBoxes(store.dataBoxes, metadata.start, metadata.end)
                       case None => Err(BoxUnavailable)
                       case Some(doc) => Ok(doc);
    var boxValues: seq<seq<Byte>> := [];
    var i: int := metadata.start;
    while i <= metadata.end
      invariant metadata.start <= i && (i <= metadata.end + 1 || i == metadata.start)
      invariant AllPresent(store.dataBoxes, metadata.start, i - 1)
      invariant boxValues == BoxesInRange(store.dataBoxes, metadata.start, i - 1)
      decreases metadata.end - i
    {
      if i !in store.dataBoxes {
        assert !AllPresent(store.dataBoxes, metadata.start, metadata.end);
        return Err(BoxUnavailable);
      }
      BoxesInRangeSnoc(store.dataBoxes, metadata.start, i - 1);
      boxValues := boxValues + [store.dataBoxes[i]];
      i := i + 1;
    }
    r := Ok(Flatten(boxValues));
  }

  // ---------------------------------------------------------------------
  // tryExecute: at most three attempts, 500 * n ms after the n-th failure.

  /** The outcome of tryExecute: the attempt that went through and the waits
      before it, or the waits before it gave up. */
  datatype ExecOutcome = Executed(attempts: nat, delays: seq<nat>) | GaveUp(delays: seq<nat>)

  /** The waits after the first `failures` failed attempts. */
  function Backoff(failures: nat): (r: seq<nat>)
    ensures |r| == failures
  {
    seq(failures, i requires 0 <= i < failures => 500 * (i + 1))
  }

  /** tryExecute, with the recursion on retryCount written as a loop.
      `attemptSucceeds(n)` is whether the n-th execution of the group goes
      through. */
  method TryExecute(attemptSucceeds: nat -> bool) returns (r: ExecOutcome)
    ensures r.Executed? <==> exists n :: 1 <= n <= 3 && attemptSucceeds(n)
    ensures r.Executed? ==>
              && 1 <= r.attempts <= 3
              && attemptSucceeds(r.attempts)
              && (forall n :: 1 <= n < r.attempts ==> !attemptSucceeds(n))
              && r.delays == Backoff(r.attempts - 1)
    ensures r.GaveUp? ==> r.delays == [500, 1000, 1500]
  {
    var retryCount := 1;
    var delays: seq<nat> := [];
    while retryCount <= 3
      invariant 1 <= retryCount <= 4
      invariant forall n :: 1 <= n < retryCount ==> !attemptSucceeds(n)
      invariant delays == Backoff(retryCount - 1)
    {
      if attemptSucceeds(retryCount) {
        return Executed(retryCount, delays);
      }
      delays := delays + [500 * retryCount];
      retryCount := retryCount + 1;
    }
    r := GaveUp(delays);
  }

  // ---------------------------------------------------------------------
  // uploadDIDDocument: the deposit.

  function CeilBoxes(len: nat): nat
  {
    CeilDiv(len, MAX_BOX_SIZE)
  }

  function EndBoxSize(len: nat): nat
  {
    len % MAX_BOX_SIZE
  }

  /** The deposit formula of src/index.ts:102-106 for given box counts. */
  function ClientDepositFor(ceilBoxes: int, endBoxSize: int): int
  {
    ceilBoxes * COST_PER_BOX
    + (ceilBoxes - 1) * MAX_BOX_SIZE * COST_PER_BYTE
    + ceilBoxes * 8 * COST_PER_BYTE
    + endBoxSize * COST_PER_BYTE
    + COST_PER_BOX + (8 + 8 + 1 + 8 + 32) * COST_PER_BYTE
  }

  /** The deposit the client pays for a document of `len` bytes. */
  function ClientDeposit(len: nat): int
  {
    ClientDepositFor(CeilBoxes(len), EndBoxSize(len))
  }

  // ---------------------------------------------------------------------
  // uploadDIDDocument: the partition of the document into boxes.

  /** floor(len / 32768) full pieces, then the rest of the document (empty
      when the length is an exact multiple). */
  function Pieces(data: seq<Byte>): seq<seq<Byte>>
  {
    var numBoxes := |data| / MAX_BOX_SIZE;
    seq(numBoxes, i requires 0 <= i < numBoxes => data[i * MAX_BOX_SIZE..(i + 1) * MAX_BOX_SIZE])
    + [data[numBoxes * MAX_BOX_SIZE..]]
  }

  /** The loop of src/index.ts:130-138. */
  method PartitionDocument(data: seq<Byte>) returns (boxData: seq<seq<Byte>>)
    ensures boxData == Pieces(data)
  {
    var numBoxes := |data| / MAX_BOX_SIZE;
    boxData := [];
    var i := 0;
    while i < numBoxes
      invariant 0 <= i <= numBoxes
      invariant |boxData| == i
      invariant forall k :: 0 <= k < i ==> boxData[k] == data[k * MAX_BOX_SIZE..(k + 1) * MAX_BOX_SIZE]
    {
      var box := data[i * MAX_BOX_SIZE..(i + 1) * MAX_BOX_SIZE];
      boxData := boxData + [box];
      i := i + 1;
    }
    boxData := boxData + [data[numBoxes * MAX_BOX_SIZE..|data|]];
    assert |boxData| == |Pieces(data)|;
    forall k | 0 <= k < |boxData| ensures boxData[k] == Pieces(data)[k] {
      if k < numBoxes {
        assert Pieces(data)[k] == data[k * MAX_BOX_SIZE..(k + 1) * MAX_BOX_SIZE];
      }
    }
  }

  /** The pieces concatenate back to the document, so the integrity check
      before finishUpload (src/index.ts:194) never fails. */
  lemma PiecesRoundTrip(data: seq<Byte>)
    ensures Flatten(Pieces(data)) == data
  {
    var ps := Pieces(data);
    var n := |data| / MAX_BOX_SIZE;
    var cuts := seq(n + 2, i requires 0 <= i < n + 2 => if i <= n then i * MAX_BOX_SIZE else |data|);
    forall i | 0 <= i < |ps| ensures ps[i] == data[cuts[i]..cuts[i + 1]] {
    }
    FlattenCuts(data, ps, cuts);
  }

  /** Every piece but the last is a full box; the last is the remainder. For
      a length that is not a multiple of 32768 the pieces are as many as the
      boxes allocated (ceilBoxes) and the last one is exactly endBoxSize
      bytes; for an exact multiple endBoxSize is 0 and a trailing empty
      piece is added beyond the allocated boxes. */
  lemma PiecesShape(data: seq<Byte>)
    ensures |Pieces(data)| == |data| / MAX_BOX_SIZE + 1
    ensures forall i :: 0 <= i < |Pieces(data)| - 1 ==> |Pieces(data)[i]| == MAX_BOX_SIZE
    ensures |Pieces(data)[|Pieces(data)| - 1]| == EndBoxSize(|data|)
    ensures |data| % MAX_BOX_SIZE != 0 ==> |Pieces(data)| == CeilBoxes(|data|) && EndBoxSize(|data|) > 0
    ensures |data| % MAX_BOX_SIZE == 0 ==>
              |Pieces(data)| == CeilBoxes(|data|) + 1 && Pieces(data)[|Pieces(data)| - 1] == []
  {
  }

  // ---------------------------------------------------------------------
  // uploadDIDDocument: chunks, groups and offsets.

  /** ceil(|box| / 1994) chunks, chunk i being box[1994 i .. 1994 (i + 1)]
      clipped to the box (Buffer.subarray clips its end). */
  function Chunks(box: seq<Byte>): seq<seq<Byte>>
  {
    var numChunks := CeilDiv(|box|, BYTES_PER_CALL);
    seq(numChunks, i requires 0 <= i < numChunks =>
      box[i * BYTES_PER_CALL..Min((i + 1) * BYTES_PER_CALL, |box|)])
  }

  /** The loop of src/index.ts:144-150. */
  method ChunkBox(box: seq<Byte>) returns (chunks: seq<seq<Byte>>)
    ensures chunks == Chunks(box)
  {
    var numChunks := CeilDiv(|box|, BYTES_PER_CALL);
    chunks := [];
    var i := 0;
    while i < numChunks
      invariant 0 <= i <= numChunks
      invariant |chunks| == i
      invariant forall k :: 0 <= k < i ==>
                  chunks[k] == box[k * BYTES_PER_CALL..Min((k + 1) * BYTES_PER_CALL, |box|)]
    {
      chunks := chunks + [box[i * BYTES_PER_CALL..Min((i + 1) * BYTES_PER_CALL, |box|)]];
      i := i + 1;
    }
  }

  /** Each chunk holds at most 1994 bytes, all but the last exactly 1994,
      none is empty, and together they concatenate to the box. */
  lemma ChunksShape(box: seq<Byte>)
    ensures |Chunks(box)| == CeilDiv(|box|, BYTES_PER_CALL)
    ensures forall i :: 0 <= i < |Chunks(box)| ==> 0 < |Chunks(box)[i]| <= BYTES_PER_CALL
    ensures forall i :: 0 <= i < |Chunks(box)| - 1 ==> |Chunks(box)[i]| == BYTES_PER_CALL
    ensures Flatten(Chunks(box)) == box
  {
    ChunksFlatten(box);
  }

  lemma ChunksFlatten(box: seq<Byte>)
    ensures Flatten(Chunks(box)) == box
  {
    var cs := Chunks(box);
    var n := |cs|;
    var cuts := seq(n + 1, i requires 0 <= i < n + 1 => Min(i * BYTES_PER_CALL, |box|));
    forall i | 0 <= i < n ensures cs[i] == box[cuts[i]..cuts[i + 1]] {
    }
    ClippedCuts(box, BYTES_PER_CALL, cuts);
    FlattenCuts(box, cs, cuts);
  }

  /** One `upload` call: the box index, the write offset and the bytes. */
  datatype Write = Write(boxIndex: nat, offset: nat, data: seq<Byte>)

  /** The transaction groups for one box: the first eight chunks at offsets
      1994 i, then, unless there are none, the remaining chunks at offsets
      1994 (i + 8) (src/index.ts:157-190). */
  function UploadGroups(boxIndex: nat, chunks: seq<seq<Byte>>): seq<seq<Write>>
  {
    var firstGroup := chunks[..Min(8, |chunks|)];
    var secondGroup := chunks[Min(8, |chunks|)..];
    var first := seq(|firstGroup|, i requires 0 <= i < |firstGroup| =>
                   Write(boxIndex, BYTES_PER_CALL * i, firstGroup[i]));
    var second := seq(|secondGroup|, i requires 0 <= i < |secondGroup| =>
                    Write(boxIndex, BYTES_PER_CALL * (i + 8), secondGroup[i]));
    if |secondGroup| == 0 then [first] else [first, second]
  }

  /** Taken in order, the writes of the groups send chunk j at offset 1994 j.
      The first group has at most 8 writes, there is a second group exactly
      when there are more than 8 chunks, and it has the rest. */
  lemma UploadGroupsOffsets(boxIndex: nat, chunks: seq<seq<Byte>>)
    ensures var groups := UploadGroups(boxIndex, chunks);
            && |Flatten(groups)| == |chunks|
            && (forall j :: 0 <= j < |chunks| ==> Flatten(groups)[j] == Write(boxIndex, BYTES_PER_CALL * j, chunks[j]))
            && |groups[0]| == Min(8, |chunks|)
            && (|groups| == 2 <==> |chunks| > 8)
            && (|groups| == 2 ==> |groups[1]| == |chunks| - 8)
  {
    var groups := UploadGroups(boxIndex, chunks);
    if |groups| == 1 {
      assert Flatten(groups) == groups[0] + Flatten(groups[1..]);
    } else {
      assert Flatten(groups) == groups[0] + (groups[1] + Flatten(groups[2..]));
    }
  }

  /** A box of at most 32768 bytes needs at most 17 chunks: at most 8 calls
      in the first group and 9 in the second. */
  lemma GroupSizes(boxIndex: nat, box: seq<Byte>)
    requires |box| <= MAX_BOX_SIZE
    ensures |Chunks(box)| <= 17
    ensures var groups := UploadGroups(boxIndex, Chunks(box));
            |groups[0]| <= 8 && (|groups| == 2 ==> |groups[1]| <= 9)
  {
    ChunksShape(box);
    UploadGroupsOffsets(boxIndex, Chunks(box));
  }

  /** All writes for one box, group after group. */
  function BoxWrites(boxIndex: nat, box: seq<Byte>): seq<Write>
  {
    Flatten(UploadGroups(boxIndex, Chunks(box)))
  }

  /** The writes for one box tile it: write j starts at 1994 j where write
      j - 1 ended, the first starts at 0, the last ends at |box|, and each
      carries exactly the bytes of the box it covers. */
  lemma BoxWritesTile(boxIndex: nat, box: seq<Byte>)
    ensures var ws := BoxWrites(boxIndex, box);
            && |ws| == CeilDiv(|box|, BYTES_PER_CALL)
            && (forall j :: 0 <= j < |ws| ==>
                  && ws[j].boxIndex == boxIndex
                  && ws[j].offset == BYTES_PER_CALL * j
                  && ws[j].offset + |ws[j].data| <= |box|
                  && ws[j].data == box[ws[j].offset..ws[j].offset + |ws[j].data|])
            && (forall j :: 0 < j < |ws| ==> ws[j].offset == ws[j - 1].offset + |ws[j - 1].data|)
            && (|ws| > 0 ==> ws[|ws| - 1].offset + |ws[|ws| - 1].data| == |box|)
  {
    var ws := BoxWrites(boxIndex, box);
    BoxWritesAt(boxIndex, box);
    var n := |ws|;
    forall j | 0 <= j < n
      ensures BYTES_PER_CALL * j < |box|
      ensures Min((j + 1) * BYTES_PER_CALL, |box|) == BYTES_PER_CALL * j + |ws[j].data|
    {
      assert (n - 1) * BYTES_PER_CALL < |box|;
    }
  }

  /** Write j of a box is box[1994 j .. 1994 (j + 1)] (clipped) at 1994 j. */
  lemma BoxWritesAt(boxIndex: nat, box: seq<Byte>)
    ensures var ws := BoxWrites(boxIndex, box);
            && |ws| == CeilDiv(|box|, BYTES_PER_CALL)
            && forall j :: 0 <= j < |ws| ==>
                 ws[j] == Write(boxIndex, BYTES_PER_CALL * j, box[BYTES_PER_CALL * j..Min((j + 1) * BYTES_PER_CALL, |box|)])
  {
    var cs := Chunks(box);
    UploadGroupsOffsets(boxIndex, cs);
  }

  /** The writes of the whole document: piece k goes to box start + k. */
  function DocumentWrites(pieces: seq<seq<Byte>>, start: nat): seq<Write>
    decreases |pieces|
  {
    if pieces == [] then [] else BoxWrites(start, pieces[0]) + DocumentWrites(pieces[1..], start + 1)
  }

  // ---------------------------------------------------------------------
  // The partition as evidently intended (see the findings): ceilBoxes
  // pieces, the last one of length len - (ceilBoxes - 1) * 32768, which is a
  // full box when the length is an exact multiple.

  function CorrectedEndBoxSize(len: nat): int
  {
    len - (CeilBoxes(len) - 1) * MAX_BOX_SIZE
  }

  function CorrectedPieces(data: seq<Byte>): seq<seq<Byte>>
  {
    var n := CeilBoxes(|data|);
    seq(n, i requires 0 <= i < n => data[i * MAX_BOX_SIZE..Min((i + 1) * MAX_BOX_SIZE, |data|)])
  }

  /** The corrected partition concatenates back to the document, has exactly
      ceilBoxes pieces, full boxes but for the last, whose length is the
      corrected endBoxSize, between 1 and 32768 for a non-empty document. */
  lemma CorrectedPiecesShape(data: seq<Byte>)
    ensures Flatten(CorrectedPieces(data)) == data
    ensures |CorrectedPieces(data)| == CeilBoxes(|data|)
    ensures forall i :: 0 <= i < |CorrectedPieces(data)| - 1 ==> |CorrectedPieces(data)[i]| == MAX_BOX_SIZE
    ensures |data| > 0 ==>
              && 1 <= CorrectedEndBoxSize(|data|) <= MAX_BOX_SIZE
              && |CorrectedPieces(data)[|CorrectedPieces(data)| - 1]| == CorrectedEndBoxSize(|data|)
  {
    CorrectedPiecesFlatten(data);
    var ps := CorrectedPieces(data);
    var n := CeilBoxes(|data|);
    if |data| > 0 {
      assert (n - 1) * MAX_BOX_SIZE < |data| <= n * MAX_BOX_SIZE;
      assert ps[n - 1] == data[(n - 1) * MAX_BOX_SIZE..];
    }
  }

  lemma CorrectedPiecesFlatten(data: seq<Byte>)
    ensures Flatten(CorrectedPieces(data)) == data
  {
    var ps := CorrectedPieces(data);
    var n := |ps|;
    var cuts := seq(n + 1, i requires 0 <= i < n + 1 => Min(i * MAX_BOX_SIZE, |data|));
    forall i | 0 <= i < n ensures ps[i] == data[cuts[i]..cuts[i + 1]] {
    }
    ClippedCuts(data, MAX_BOX_SIZE, cuts);
    FlattenCuts(data, ps, cuts);
  }

  /** Where the length is not an exact multiple, the source's partition and
      endBoxSize are the corrected ones. */
  lemma CorrectedAgrees(data: seq<Byte>)
    requires |data| % MAX_BOX_SIZE != 0
    ensures Pieces(data) == CorrectedPieces(data)
    ensures EndBoxSize(|data|) == CorrectedEndBoxSize(|data|)
  {
    var n := |data| / MAX_BOX_SIZE;
    assert CeilBoxes(|data|) == n + 1;
    assert |Pieces(data)| == |CorrectedPieces(data)|;
    forall i | 0 <= i < n + 1 ensures Pieces(data)[i] == CorrectedPieces(data)[i] {
    }
  }
}

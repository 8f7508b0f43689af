/** Typed transactions: finding the one `SighashWithAction` witness among a
    transaction's input witnesses, and building the Blake2b preimage of the
    sighash-all message that the lock signs.

    The transaction is an abstract environment (`Tx`): what `load_tx_hash`,
    `load_witness` and `load_input_since` answer, index by index. Decoding a
    witness as an `ExtendedWitness` is the parameter `parse`. */
module TypedTx {
  import opened Common
  import opened Ckb

  datatype Error =
    | Sys(sys: SysError)
    | DuplicateAction
    | MoleculeEncoding
    | NotTypedTransaction
    | NotSighashVariant
    | NonEmptyGroupWitness

  /** The signed `TypedMessage`, as its serialized bytes, and the lock. */
  datatype SighashWithAction = SighashWithAction(message: seq<byte>, lock: seq<byte>)

  /** The `ExtendedWitness` union. The payloads of `Sighash`, `Otx` and
      `OtxStart` are never inspected here. */
  datatype ExtendedWitness =
    | WithAction(action: SighashWithAction)
    | Sighash
    | Otx
    | OtxStart

  /** `ExtendedWitnessReader::from_slice` followed by `to_enum`. */
  type Parser = seq<byte> -> Option<ExtendedWitness>

  datatype Tx = Tx(
    txHash: Result<Bytes32, SysError>,
    inputWitnesses: seq<Slot<seq<byte>>>,
    groupWitnesses: seq<Slot<seq<byte>>>,
    inputSinces: seq<Slot<u64>>)

  // ---------------------------------------------------------------------
  // fetch_sighash_with_action

  function AsAction(parsed: Option<ExtendedWitness>): Option<SighashWithAction>
  {
    if parsed.Some? && parsed.value.WithAction? then Some(parsed.value.action) else None
  }

  /** Witness `j` loads and parses as a `SighashWithAction`. */
  predicate IsAction(ws: seq<Slot<seq<byte>>>, parse: Parser, j: nat)
  {
    j < |ws| && ws[j].Loaded? && AsAction(parse(ws[j].value)).Some?
  }

  function ActionAt(ws: seq<Slot<seq<byte>>>, parse: Parser, j: nat): SighashWithAction
    requires IsAction(ws, parse, j)
  {
    AsAction(parse(ws[j].value)).value
  }

  /** Some witness in `[lo, hi)` is a `SighashWithAction`. */
  predicate ActionIn(ws: seq<Slot<seq<byte>>>, parse: Parser, lo: nat, hi: nat)
  {
    exists k :: lo <= k < hi && IsAction(ws, parse, k)
  }

  /** Two different witnesses in `[lo, hi)` are `SighashWithAction`s. */
  predicate TwoActions(ws: seq<Slot<seq<byte>>>, parse: Parser, lo: nat, hi: nat)
  {
    exists j, k :: lo <= j < k < hi && IsAction(ws, parse, j) && IsAction(ws, parse, k)
  }

  /** One pass of the duplicate-check loop at index `i`: go on, or stop with a result. */
  datatype Step = Continue | Stop(result: Result<SighashWithAction, Error>)

  function DuplicateCheckStep(ws: seq<Slot<seq<byte>>>, parse: Parser, i: nat, found: SighashWithAction): (s: Step)
    ensures s.Continue? ==> i < |ws|
  {
    match Load(ws, i)
    case Ok(w) => if AsAction(parse(w)).Some? then Stop(Err(DuplicateAction)) else Continue
    case Err(IndexOutOfBound) => Stop(Ok(found))
    case Err(e) => Stop(Err(Sys(e)))
  }

  /** The duplicate check over the witnesses from `i` on, moving to the next
      witness after each pass. */
  function RejectDuplicate(ws: seq<Slot<seq<byte>>>, parse: Parser, i: nat, found: SighashWithAction)
    : (r: Result<SighashWithAction, Error>)
    ensures r.Ok? ==> r.value == found
    ensures r.Err? ==> r.error == DuplicateAction || r.error.Sys?
    decreases |ws| - i
  {
    match DuplicateCheckStep(ws, parse, i, found)
    case Continue => RejectDuplicate(ws, parse, i + 1, found)
    case Stop(r) => r
  }

  /** The scan for the first `SighashWithAction`, from witness `i` on. */
  function FindAction(ws: seq<Slot<seq<byte>>>, parse: Parser, i: nat): (r: Result<SighashWithAction, Error>)
    ensures r.Ok? ==> exists k :: i <= k < |ws| && IsAction(ws, parse, k) && r.value == ActionAt(ws, parse, k)
    ensures r.Err? ==> r.error == DuplicateAction || r.error == NotTypedTransaction || r.error.Sys?
    decreases |ws| - i
  {
    match Load(ws, i)
    case Ok(w) =>
      (match AsAction(parse(w))
       case Some(a) => assert IsAction(ws, parse, i); RejectDuplicate(ws, parse, i + 1, a)
       case None => FindAction(ws, parse, i + 1))
    case Err(IndexOutOfBound) => Err(NotTypedTransaction)
    case Err(e) => Err(Sys(e))
  }

  /** The duplicate check as the loop at lib.rs:60-72 is written: the index is
      never advanced, so each pass looks at the same witness again. `fuel`
      bounds the number of passes; `None` means no pass returned. */
  function DuplicateLoopAsWritten(ws: seq<Slot<seq<byte>>>, parse: Parser, i: nat, found: SighashWithAction, fuel: nat)
    : (r: Option<Result<SighashWithAction, Error>>)
    ensures r.Some? ==> r.value == RejectDuplicate(ws, parse, i, found)
  {
    if fuel == 0 then None
    else
      match DuplicateCheckStep(ws, parse, i, found)
      case Stop(r) => Some(r)
      case Continue => DuplicateLoopAsWritten(ws, parse, i, found, fuel - 1)
  }

  /** As written, the check returns only if its very first pass does: when the
      witness after the first `SighashWithAction` exists and is not itself one,
      no number of passes ever returns. */
  lemma {:induction false} DuplicateLoopAsWrittenSpins(
    ws: seq<Slot<seq<byte>>>, parse: Parser, i: nat, found: SighashWithAction, fuel: nat)
    ensures DuplicateCheckStep(ws, parse, i, found).Continue? ==> DuplicateLoopAsWritten(ws, parse, i, found, fuel) == None
    ensures DuplicateLoopAsWritten(ws, parse, i, found, fuel).Some? ==>
              DuplicateLoopAsWritten(ws, parse, i, found, fuel) == Some(DuplicateCheckStep(ws, parse, i, found).result)
  {
    if fuel > 0 {
      DuplicateLoopAsWrittenSpins(ws, parse, i, found, fuel - 1);
    }
  }

  /** A transaction with a `SighashWithAction` witness followed by a `Sighash`
      witness: the corrected scan accepts it, the loop as written never returns. */
  lemma DuplicateLoopAsWrittenExample(fuel: nat)
    ensures var ws := [Loaded([1]), Loaded([0])];
            var parse: Parser := w => if w == [1] then Some(WithAction(SighashWithAction([], []))) else Some(Sighash);
            FindAction(ws, parse, 0) == Ok(SighashWithAction([], []))
            && DuplicateLoopAsWritten(ws, parse, 1, SighashWithAction([], []), fuel) == None
  {
    var ws: seq<Slot<seq<byte>>> := [Loaded([1]), Loaded([0])];
    var parse: Parser := w => if w == [1] then Some(WithAction(SighashWithAction([], []))) else Some(Sighash);
    var a := SighashWithAction([], []);
    assert DuplicateCheckStep(ws, parse, 1, a) == Continue;
    assert DuplicateCheckStep(ws, parse, 2, a) == Stop(Ok(a));
    assert RejectDuplicate(ws, parse, 1, a) == Ok(a);
    DuplicateLoopAsWrittenSpins(ws, parse, 1, a, fuel);
  }

  lemma {:induction false} RejectDuplicateCases(ws: seq<Slot<seq<byte>>>, parse: Parser, i: nat, found: SighashWithAction)
    ensures RejectDuplicate(ws, parse, i, found) ==
              if ActionIn(ws, parse, i, Horizon(ws, i)) then Err(DuplicateAction)
              else if HaltError(ws, Horizon(ws, i)) == IndexOutOfBound then Ok(found)
              else Err(Sys(HaltError(ws, Horizon(ws, i))))
    decreases |ws| - i
  {
    if !Halts(ws, i) && !IsAction(ws, parse, i) {
      RejectDuplicateCases(ws, parse, i + 1, found);
      var h := Horizon(ws, i);
      assert ActionIn(ws, parse, i, h) ==> ActionIn(ws, parse, i + 1, h);
    }
  }

  /** What the scan from witness `i` returns, in terms of the witnesses it can
      reach (those before the first one that fails to load, `Horizon`) and the
      error that stops it there. `Ok` exactly when a single one of them is a
      `SighashWithAction`, carrying it; `DuplicateAction` when two are;
      `NotTypedTransaction` when none is and the list simply ended; `Sys(e)`
      when a load failed with another error before a duplicate was seen. */
  lemma {:induction false} FindActionCases(ws: seq<Slot<seq<byte>>>, parse: Parser, i: nat)
    ensures FindAction(ws, parse, i).Ok? <==>
              ActionIn(ws, parse, i, Horizon(ws, i)) && !TwoActions(ws, parse, i, Horizon(ws, i))
              && HaltError(ws, Horizon(ws, i)) == IndexOutOfBound
    ensures FindAction(ws, parse, i).Ok? ==>
              exists k :: i <= k < Horizon(ws, i) && IsAction(ws, parse, k)
                          && FindAction(ws, parse, i).value == ActionAt(ws, parse, k)
                          && forall j :: i <= j < Horizon(ws, i) && j != k ==> !IsAction(ws, parse, j)
    ensures FindAction(ws, parse, i) == Err(DuplicateAction) <==> TwoActions(ws, parse, i, Horizon(ws, i))
    ensures FindAction(ws, parse, i) == Err(NotTypedTransaction) <==>
              !ActionIn(ws, parse, i, Horizon(ws, i)) && HaltError(ws, Horizon(ws, i)) == IndexOutOfBound
    ensures FindAction(ws, parse, i).Err? && FindAction(ws, parse, i).error.Sys? <==>
              !TwoActions(ws, parse, i, Horizon(ws, i)) && HaltError(ws, Horizon(ws, i)) != IndexOutOfBound
    ensures FindAction(ws, parse, i).Err? && FindAction(ws, parse, i).error.Sys? ==>
              FindAction(ws, parse, i).error.sys == HaltError(ws, Horizon(ws, i))
    decreases |ws| - i
  {
    var h := Horizon(ws, i);
    if Halts(ws, i) {
      assert h == i;
    } else if !IsAction(ws, parse, i) {
      FindActionCases(ws, parse, i + 1);
      assert Horizon(ws, i + 1) == h;
      assert ActionIn(ws, parse, i, h) <==> ActionIn(ws, parse, i + 1, h);
      assert TwoActions(ws, parse, i, h) <==> TwoActions(ws, parse, i + 1, h);
    } else {
      var a := ActionAt(ws, parse, i);
      assert FindAction(ws, parse, i) == RejectDuplicate(ws, parse, i + 1, a);
      RejectDuplicateCases(ws, parse, i + 1, a);
      assert Horizon(ws, i + 1) == h;
      assert ActionIn(ws, parse, i, h);
      assert TwoActions(ws, parse, i, h) <==> ActionIn(ws, parse, i + 1, h) by {
        if ActionIn(ws, parse, i + 1, h) {
          var k :| i + 1 <= k < h && IsAction(ws, parse, k);
          assert i < k;
        }
      }
    }
  }

  /** `fetch_sighash_with_action`, with the index of its duplicate-check loop
      advanced after each witness. */
  method FetchSighashWithAction(tx: Tx, parse: Parser) returns (r: Result<SighashWithAction, Error>)
    ensures r == FindAction(tx.inputWitnesses, parse, 0)
  {
    var ws := tx.inputWitnesses;
    var i := 0;
    var result: Option<SighashWithAction> := None;
    while result.None?
      invariant i <= |ws|
      invariant result.None? ==> FindAction(ws, parse, 0) == FindAction(ws, parse, i)
      invariant result.Some? ==> FindAction(ws, parse, 0) == RejectDuplicate(ws, parse, i, result.value)
      decreases |ws| - i, result.None?
    {
      match Load(ws, i) {
      case Ok(wit) =>
        var parsed := parse(wit);
        if parsed.Some? && parsed.value.WithAction? {
          result := Some(parsed.value.action);
        }
      case Err(IndexOutOfBound) =>
        return Err(NotTypedTransaction);
      case Err(e) =>
        return Err(Sys(e));
      }
      i := i + 1;
    }
    var found := result.value;
    while true
      invariant i <= |ws|
      invariant FindAction(ws, parse, 0) == RejectDuplicate(ws, parse, i, found)
      decreases |ws| - i
    {
      match Load(ws, i) {
      case Ok(wit) =>
        var parsed := parse(wit);
        if parsed.Some? && parsed.value.WithAction? {
          return Err(DuplicateAction);
        }
      case Err(IndexOutOfBound) =>
        return Ok(found);
      case Err(e) =>
        return Err(Sys(e));
      }
      i := i + 1;
    }
  }

  /** `is_typed_transaction`: exactly one reachable input witness is a
      `SighashWithAction`, and the witness list ends without a load error. */
  method IsTypedTransaction(tx: Tx, parse: Parser) returns (b: bool)
    ensures b <==> FindAction(tx.inputWitnesses, parse, 0).Ok?
    ensures var ws := tx.inputWitnesses;
            b <==> ActionIn(ws, parse, 0, Horizon(ws, 0)) && !TwoActions(ws, parse, 0, Horizon(ws, 0))
                   && HaltError(ws, Horizon(ws, 0)) == IndexOutOfBound
  {
    var r := FetchSighashWithAction(tx, parse);
    FindActionCases(tx.inputWitnesses, parse, 0);
    b := r.Ok?;
  }

  // ---------------------------------------------------------------------
  // calculate_inputs_len

  /** Input `i` exists. */
  predicate Present(s: seq<Slot<u64>>, i: nat)
  {
    Load(s, i).Ok?
  }

  /** Input `i` answers `IndexOutOfBound`. */
  predicate Absent(s: seq<Slot<u64>>, i: nat)
  {
    Load(s, i) == Err(IndexOutOfBound)
  }

  /** Some input answers `e`, an error other than `IndexOutOfBound`. */
  predicate FailsWith(s: seq<Slot<u64>>, e: SysError)
  {
    e != IndexOutOfBound && exists j :: 0 <= j < |s| && s[j] == Failed(e)
  }

  /** The galloping phase: double `hi` while input `hi` exists. */
  function Gallop(s: seq<Slot<u64>>, lo: nat, hi: nat): (r: Result<nat, SysError>)
    requires lo < hi
    ensures r.Ok? ==> r.value > lo
    ensures r.Err? ==> r.error != IndexOutOfBound
    decreases |s| - lo
  {
    match Load(s, hi)
    case Ok(_) => Gallop(s, hi, 2 * hi)
    case Err(IndexOutOfBound) => Bisect(s, lo, hi)
    case Err(e) => Err(e)
  }

  /** The binary-search phase between `lo` and `hi`. */
  function Bisect(s: seq<Slot<u64>>, lo: nat, hi: nat): (r: Result<nat, SysError>)
    requires lo < hi
    ensures r.Ok? ==> lo < r.value <= hi
    ensures r.Err? ==> r.error != IndexOutOfBound
    decreases hi - lo
  {
    if lo + 1 == hi then Ok(hi)
    else
      var mid := (lo + hi) / 2;
      match Load(s, mid) {
      case Ok(_) => Bisect(s, mid, hi)
      case Err(IndexOutOfBound) => Bisect(s, lo, mid)
      case Err(e) => Err(e)
      }
  }

  /** The number of inputs as `calculate_inputs_len` finds it. */
  function InputsLen(s: seq<Slot<u64>>): (r: Result<nat, SysError>)
    ensures r.Ok? ==> r.value >= 1
    ensures r.Err? ==> r.error != IndexOutOfBound
  {
    Gallop(s, 0, 4)
  }

  lemma {:induction false} BisectBoundary(s: seq<Slot<u64>>, lo: nat, hi: nat)
    requires lo < hi && (lo == 0 || Present(s, lo)) && Absent(s, hi)
    ensures Bisect(s, lo, hi).Ok? ==>
              var n := Bisect(s, lo, hi).value;
              n >= 1 && Absent(s, n) && (n == 1 || Present(s, n - 1))
    ensures Bisect(s, lo, hi).Err? ==> FailsWith(s, Bisect(s, lo, hi).error)
    decreases hi - lo
  {
    if lo + 1 != hi {
      var mid := (lo + hi) / 2;
      match Load(s, mid) {
      case Ok(_) => BisectBoundary(s, mid, hi);
      case Err(IndexOutOfBound) => BisectBoundary(s, lo, mid);
      case Err(e) => assert s[mid] == Failed(e);
      }
    }
  }

  lemma {:induction false} GallopBoundary(s: seq<Slot<u64>>, lo: nat, hi: nat)
    requires lo < hi && (lo == 0 || Present(s, lo))
    ensures Gallop(s, lo, hi).Ok? ==>
              var n := Gallop(s, lo, hi).value;
              n >= 1 && Absent(s, n) && (n == 1 || Present(s, n - 1))
    ensures Gallop(s, lo, hi).Err? ==> FailsWith(s, Gallop(s, lo, hi).error)
    decreases |s| - lo
  {
    match Load(s, hi)
    case Ok(_) => GallopBoundary(s, hi, 2 * hi);
    case Err(IndexOutOfBound) => BisectBoundary(s, lo, hi);
    case Err(e) => assert s[hi] == Failed(e);
  }

  /** Whatever the inputs answer, a length that is found is a boundary: the
      index it names answers `IndexOutOfBound`, and the index before it exists
      unless the length is 1. An error is one some input actually answered. */
  lemma InputsLenBoundary(s: seq<Slot<u64>>)
    ensures InputsLen(s).Ok? ==>
              var n := InputsLen(s).value;
              n >= 1 && Absent(s, n) && (n == 1 || Present(s, n - 1))
    ensures InputsLen(s).Err? ==> FailsWith(s, InputsLen(s).error)
  {
    GallopBoundary(s, 0, 4);
  }

  /** When every input loads, the search finds their number, provided there is
      at least one input; with no inputs at all it answers 1. */
  lemma InputsLenExact(s: seq<Slot<u64>>)
    requires forall j :: 0 <= j < |s| ==> s[j].Loaded?
    ensures InputsLen(s) == Ok(if |s| == 0 then 1 else |s|)
  {
    InputsLenBoundary(s);
  }

  /** `calculate_inputs_len`: a galloping search for an index that answers
      `IndexOutOfBound`, then a binary search for the first one. */
  method CalculateInputsLen(s: seq<Slot<u64>>) returns (r: Result<nat, SysError>)
    ensures r == InputsLen(s)
    ensures r.Ok? ==> r.value >= 1 && Absent(s, r.value) && (r.value == 1 || Present(s, r.value - 1))
  {
    InputsLenBoundary(s);
    var lo: nat, hi: nat := 0, 4;
    while true
      invariant lo < hi && lo <= |s|
      invariant lo == 0 || Present(s, lo)
      invariant InputsLen(s) == Gallop(s, lo, hi)
      decreases |s| - lo
    {
      match Load(s, hi) {
      case Ok(_) =>
        lo := hi;
        hi := hi * 2;
      case Err(IndexOutOfBound) =>
        break;
      case Err(e) =>
        return Err(e);
      }
    }
    while lo + 1 != hi
      invariant lo < hi
      invariant lo == 0 || Present(s, lo)
      invariant Absent(s, hi)
      invariant InputsLen(s) == Bisect(s, lo, hi)
      decreases hi - lo
    {
      var i := (lo + hi) / 2;
      match Load(s, i) {
      case Ok(_) =>
        lo := i;
      case Err(IndexOutOfBound) =>
        hi := i;
      case Err(e) =>
        return Err(e);
      }
    }
    return Ok(hi);
  }

  // ---------------------------------------------------------------------
  // generate_sighash_all_hash

  /** `x` as `k` little-endian bytes (`u64::to_le_bytes` for `k == 8`). */
  function LittleEndian(x: nat, k: nat): (r: seq<byte>)
    ensures |r| == k
  {
    if k == 0 then [] else [(x % 256) as byte] + LittleEndian(x / 256, k - 1)
  }

  function FromLittleEndian(s: seq<byte>): nat
  {
    if s == [] then 0 else s[0] as nat + 256 * FromLittleEndian(s[1..])
  }

  lemma {:induction false} LittleEndianRoundTrip(x: nat, k: nat)
    requires x < Pow256(k)
    ensures FromLittleEndian(LittleEndian(x, k)) == x
  {
    if k > 0 {
      LittleEndianRoundTrip(x / 256, k - 1);
      assert LittleEndian(x, k)[1..] == LittleEndian(x / 256, k - 1);
    }
  }

  /** A witness as hashed after the inputs' witnesses: its length as a
      little-endian `u64` (`w.len() as u64`, so modulo 2^64), then its bytes. */
  function Frame(w: seq<byte>): (f: seq<byte>)
    ensures |f| == 8 + |w| && f[8..] == w
  {
    LittleEndian(|w| % TWO_TO_THE_64, 8) + w
  }

  /** Splits a sequence of frames back into the witnesses they carry. */
  function Unframe(bytes: seq<byte>): (r: Option<seq<seq<byte>>>)
    ensures r.Some? ==> |bytes| >= 8 * |r.value|
    ensures bytes != [] && r.Some? ==> |r.value| >= 1
    decreases |bytes|
  {
    if bytes == [] then Some([])
    else if |bytes| < 8 then None
    else
      var len := FromLittleEndian(bytes[..8]);
      if |bytes| - 8 < len then None
      else
        match Unframe(bytes[8 + len..])
        case None => None
        case Some(rest) => Some([bytes[8..8 + len]] + rest)
  }

  lemma Pow256Eight()
    ensures Pow256(8) == TWO_TO_THE_64
  {
    assert Pow256(2) == 0x1_0000;
    assert Pow256(4) == 0x1_0000_0000 by { assert Pow256(4) == 256 * (256 * Pow256(2)); }
    assert Pow256(6) == 0x1_0000_0000_0000 by { assert Pow256(6) == 256 * (256 * Pow256(4)); }
    assert Pow256(8) == 256 * (256 * Pow256(6));
  }

  /** `u64::to_le_bytes` is undone by reading the 8 bytes back. */
  lemma LittleEndian64RoundTrip(x: nat)
    requires x < TWO_TO_THE_64
    ensures FromLittleEndian(LittleEndian(x, 8)) == x
  {
    Pow256Eight();
    LittleEndianRoundTrip(x, 8);
  }

  /** Unframing a header that holds the exact length of what follows it. */
  lemma UnframeSplit(header: seq<byte>, w: seq<byte>, rest: seq<byte>)
    requires |header| == 8 && FromLittleEndian(header) == |w|
    ensures Unframe(header + w + rest) ==
              if Unframe(rest).Some? then Some([w] + Unframe(rest).value) else None
  {
    var bytes := header + w + rest;
    assert bytes[..8] == header;
    assert bytes[8..8 + |w|] == w;
    assert bytes[8 + |w|..] == rest;
  }

  /** A frame is read back as the witness it carries, followed by whatever
      comes after it. */
  lemma UnframeFrame(w: seq<byte>, rest: seq<byte>)
    requires |w| < TWO_TO_THE_64
    ensures Unframe(Frame(w) + rest) ==
              if Unframe(rest).Some? then Some([w] + Unframe(rest).value) else None
  {
    var header := LittleEndian(|w| % TWO_TO_THE_64, 8);
    assert |w| % TWO_TO_THE_64 == |w|;
    LittleEndian64RoundTrip(|w|);
    UnframeSplit(header, w, rest);
    assert Frame(w) + rest == header + w + rest;
  }

  /** The first group witness: `0x01 ‖ message` for a `SighashWithAction`,
      `0x00` for a `Sighash`; any other variant is refused. */
  function FirstWitnessPart(group: seq<Slot<seq<byte>>>, parse: Parser): (r: Result<seq<byte>, Error>)
    ensures r.Ok? ==> Load(group, 0).Ok? && (r.value == [0] || (|r.value| >= 1 && r.value[0] == 1))
    ensures r.Err? ==> r.error.Sys? || r.error == MoleculeEncoding || r.error == NotSighashVariant
  {
    match Load(group, 0)
    case Err(e) => Err(Sys(e))
    case Ok(w) =>
      match parse(w)
      case None => Err(MoleculeEncoding)
      case Some(WithAction(a)) => Ok([1] + a.message)
      case Some(Sighash) => Ok([0])
      case Some(_) => Err(NotSighashVariant)
  }

  /** Group witness `j` loads and is not empty. */
  predicate NonEmptyAt(group: seq<Slot<seq<byte>>>, j: nat)
  {
    j < |group| && group[j].Loaded? && |group[j].value| > 0
  }

  /** The check that every group witness from `i` on is empty. */
  function RestGroupEmpty(group: seq<Slot<seq<byte>>>, i: nat): (r: Result<(), Error>)
    ensures r.Err? ==> r.error == NonEmptyGroupWitness || r.error.Sys?
    decreases |group| - i
  {
    match Load(group, i)
    case Ok(w) => if |w| > 0 then Err(NonEmptyGroupWitness) else RestGroupEmpty(group, i + 1)
    case Err(IndexOutOfBound) => Ok(())
    case Err(e) => Err(Sys(e))
  }

  lemma {:induction false} RestGroupEmptyCases(group: seq<Slot<seq<byte>>>, i: nat)
    ensures RestGroupEmpty(group, i) == Err(NonEmptyGroupWitness) <==>
              exists j :: i <= j < Horizon(group, i) && NonEmptyAt(group, j)
    ensures RestGroupEmpty(group, i).Ok? <==>
              (forall j :: i <= j < Horizon(group, i) ==> !NonEmptyAt(group, j))
              && HaltError(group, Horizon(group, i)) == IndexOutOfBound
    ensures RestGroupEmpty(group, i).Err? && RestGroupEmpty(group, i).error.Sys? ==>
              RestGroupEmpty(group, i).error.sys == HaltError(group, Horizon(group, i))
    decreases |group| - i
  {
    if !Halts(group, i) && !NonEmptyAt(group, i) {
      RestGroupEmptyCases(group, i + 1);
    }
  }

  /** The witnesses hashed after the inputs' own, from index `i` on. */
  function TrailingWitnesses(ws: seq<Slot<seq<byte>>>, i: nat): (r: Result<seq<byte>, Error>)
    ensures r.Err? ==> r.error.Sys?
    decreases |ws| - i
  {
    match Load(ws, i)
    case Ok(w) =>
      (match TrailingWitnesses(ws, i + 1)
       case Ok(rest) => Ok(Frame(w) + rest)
       case Err(e) => Err(e))
    case Err(IndexOutOfBound) => Ok([])
    case Err(e) => Err(Sys(e))
  }

  /** The witnesses a scan from `i` loads before it stops. */
  function LoadedRun(ws: seq<Slot<seq<byte>>>, i: nat): seq<seq<byte>>
    decreases |ws| - i
  {
    if Halts(ws, i) then [] else [ws[i].value] + LoadedRun(ws, i + 1)
  }

  /** Every witness is shorter than 2^64 bytes, so its `u64` length is exact. */
  predicate Short(ws: seq<Slot<seq<byte>>>)
  {
    forall j :: 0 <= j < |ws| && ws[j].Loaded? ==> |ws[j].value| < TWO_TO_THE_64
  }

  /** The trailing part is accepted exactly when the witness list ends without
      a load error, and it is unambiguous: splitting it at the length fields
      gives back the witnesses, in order. */
  lemma {:induction false} TrailingWitnessesCases(ws: seq<Slot<seq<byte>>>, i: nat)
    ensures TrailingWitnesses(ws, i).Ok? <==> HaltError(ws, Horizon(ws, i)) == IndexOutOfBound
    ensures TrailingWitnesses(ws, i).Err? ==> TrailingWitnesses(ws, i).error == Sys(HaltError(ws, Horizon(ws, i)))
    ensures TrailingWitnesses(ws, i).Ok? && Short(ws) ==>
              Unframe(TrailingWitnesses(ws, i).value) == Some(LoadedRun(ws, i))
    decreases |ws| - i
  {
    if !Halts(ws, i) {
      TrailingWitnessesCases(ws, i + 1);
      if TrailingWitnesses(ws, i).Ok? && Short(ws) {
        UnframeFrame(ws[i].value, TrailingWitnesses(ws, i + 1).value);
      }
    }
  }

  /** The bytes fed to Blake2b by `generate_sighash_all_hash`. */
  function SighashAllPreimage(tx: Tx, parse: Parser): (r: Result<seq<byte>, Error>)
    ensures r.Ok? ==> tx.txHash.Ok? && |r.value| >= 33 && r.value[..32] == tx.txHash.value
    ensures r.Err? ==> r.error != DuplicateAction && r.error != NotTypedTransaction
  {
    match tx.txHash
    case Err(e) => Err(Sys(e))
    case Ok(h) =>
      match FirstWitnessPart(tx.groupWitnesses, parse)
      case Err(e) => Err(e)
      case Ok(first) =>
        match RestGroupEmpty(tx.groupWitnesses, 1)
        case Err(e) => Err(e)
        case Ok(_) =>
          match InputsLen(tx.inputSinces)
          case Err(e) => Err(Sys(e))
          case Ok(n) =>
            match TrailingWitnesses(tx.inputWitnesses, n)
            case Err(e) => Err(e)
            case Ok(rest) => Ok(h + first + rest)
  }

  /** The layout of the preimage: the transaction hash, a marker byte that is
      1 exactly for a `SighashWithAction` first group witness (followed by its
      message) and 0 for a `Sighash`, then the framed witnesses from the input
      count on, which can be split back into those witnesses. */
  lemma SighashAllPreimageLayout(tx: Tx, parse: Parser)
    ensures SighashAllPreimage(tx, parse).Ok? ==>
              var p := SighashAllPreimage(tx, parse).value;
              var first := FirstWitnessPart(tx.groupWitnesses, parse);
              tx.txHash.Ok? && first.Ok? && |p| >= 33 && p[..32] == tx.txHash.value
              && RestGroupEmpty(tx.groupWitnesses, 1).Ok?
              && InputsLen(tx.inputSinces).Ok?
              && (p[32] == 1 <==> AsAction(parse(tx.groupWitnesses[0].value)).Some?)
              && (p[32] == 1 ==> p[33..33 + |first.value| - 1] == AsAction(parse(tx.groupWitnesses[0].value)).value.message)
              && (p[32] == 0 <==> parse(tx.groupWitnesses[0].value) == Some(Sighash))
              && TrailingWitnesses(tx.inputWitnesses, InputsLen(tx.inputSinces).value).Ok?
              && p[32 + |first.value|..] == TrailingWitnesses(tx.inputWitnesses, InputsLen(tx.inputSinces).value).value
              && (Short(tx.inputWitnesses) ==>
                    Unframe(p[32 + |first.value|..]) == Some(LoadedRun(tx.inputWitnesses, InputsLen(tx.inputSinces).value)))
    ensures SighashAllPreimage(tx, parse) == Err(NotSighashVariant) <==>
              tx.txHash.Ok? && Load(tx.groupWitnesses, 0).Ok?
              && parse(tx.groupWitnesses[0].value).Some?
              && (parse(tx.groupWitnesses[0].value).value.Otx? || parse(tx.groupWitnesses[0].value).value.OtxStart?)
  {
    if SighashAllPreimage(tx, parse).Ok? {
      var n := InputsLen(tx.inputSinces).value;
      TrailingWitnessesCases(tx.inputWitnesses, n);
    }
    if SighashAllPreimage(tx, parse) == Err(NotSighashVariant) {
      RestGroupEmptyCases(tx.groupWitnesses, 1);
      TrailingWitnessesCases(tx.inputWitnesses, if InputsLen(tx.inputSinces).Ok? then InputsLen(tx.inputSinces).value else 0);
    }
  }

  /** `e` with `prefix` put in front of its bytes when it succeeded. */
  function Prepend(prefix: seq<byte>, r: Result<seq<byte>, Error>): Result<seq<byte>, Error>
  {
    if r.Ok? then Ok(prefix + r.value) else r
  }

  /** The first block of `generate_sighash_all_hash`: feeds the marker byte
      (and the message) of the first group witness. */
  method HashFirstWitness(hasher: Hasher, group: seq<Slot<seq<byte>>>, parse: Parser) returns (r: Result<(), Error>)
    modifies hasher
    ensures r.Ok? <==> FirstWitnessPart(group, parse).Ok?
    ensures r.Err? ==> r.error == FirstWitnessPart(group, parse).error
    ensures r.Ok? ==> hasher.input == old(hasher.input) + FirstWitnessPart(group, parse).value
    ensures r.Err? ==> hasher.input == old(hasher.input)
  {
    var wit := Load(group, 0);
    if wit.Err? {
      return Err(Sys(wit.error));
    }
    var extended := parse(wit.value);
    if extended.None? {
      return Err(MoleculeEncoding);
    }
    match extended.value {
    case WithAction(s) =>
      hasher.Update([1]);
      hasher.Update(s.message);
    case Sighash =>
      hasher.Update([0]);
    case _ =>
      return Err(NotSighashVariant);
    }
    r := Ok(());
  }

  /** The second block: every group witness after the first must be empty. */
  method CheckRestGroupEmpty(group: seq<Slot<seq<byte>>>) returns (r: Result<(), Error>)
    ensures r == RestGroupEmpty(group, 1)
  {
    var i := 1;
    while true
      invariant 1 <= i
      invariant RestGroupEmpty(group, 1) == RestGroupEmpty(group, i)
      decreases |group| - i
    {
      match Load(group, i) {
      case Ok(w) =>
        if |w| > 0 {
          return Err(NonEmptyGroupWitness);
        }
      case Err(IndexOutOfBound) =>
        return Ok(());
      case Err(e) =>
        return Err(Sys(e));
      }
      i := i + 1;
    }
  }

  lemma PrependNothing(r: Result<seq<byte>, Error>)
    ensures Prepend([], r) == r
  {
    if r.Ok? {
      assert [] + r.value == r.value;
    }
  }

  /** Feeding one more loaded witness moves its frame from the part still to
      come to the part already fed. */
  lemma TrailingStep(ws: seq<Slot<seq<byte>>>, i: nat, fed: seq<byte>)
    requires i < |ws| && ws[i].Loaded?
    ensures Prepend(fed, TrailingWitnesses(ws, i)) == Prepend(fed + Frame(ws[i].value), TrailingWitnesses(ws, i + 1))
  {
    var rest := TrailingWitnesses(ws, i + 1);
    if rest.Ok? {
      assert fed + (Frame(ws[i].value) + rest.value) == (fed + Frame(ws[i].value)) + rest.value;
    }
  }

  /** The third block: feeds every input witness from `start` on, each
      framed with its length. */
  method HashTrailingWitnesses(hasher: Hasher, ws: seq<Slot<seq<byte>>>, start: nat) returns (r: Result<(), Error>)
    modifies hasher
    ensures r.Ok? <==> TrailingWitnesses(ws, start).Ok?
    ensures r.Err? ==> r.error == TrailingWitnesses(ws, start).error
    ensures r.Ok? ==> hasher.input == old(hasher.input) + TrailingWitnesses(ws, start).value
  {
    var i := start;
    ghost var fed: seq<byte> := [];
    PrependNothing(TrailingWitnesses(ws, start));
    while true
      invariant hasher.input == old(hasher.input) + fed
      invariant TrailingWitnesses(ws, start) == Prepend(fed, TrailingWitnesses(ws, i))
      decreases |ws| - i
    {
      match Load(ws, i) {
      case Ok(w) =>
        var header := LittleEndian(|w| % TWO_TO_THE_64, 8);
        hasher.Update(header);
        hasher.Update(w);
        assert hasher.input == old(hasher.input) + (fed + Frame(w)) by {
          assert Frame(w) == header + w;
        }
        TrailingStep(ws, i, fed);
        fed := fed + Frame(w);
      case Err(IndexOutOfBound) =>
        assert TrailingWitnesses(ws, i) == Ok([]);
        assert fed + [] == fed;
        return Ok(());
      case Err(e) =>
        assert TrailingWitnesses(ws, i) == Err(Sys(e));
        return Err(Sys(e));
      }
      i := i + 1;
    }
  }

  /** `generate_sighash_all_hash`: Blake2b (personalised "ckb-default-hash")
      of `SighashAllPreimage`. */
  method GenerateSighashAllHash(tx: Tx, parse: Parser, blake2b: seq<byte> -> Bytes32) returns (r: Result<Bytes32, Error>)
    ensures SighashAllPreimage(tx, parse).Ok? ==> r == Ok(blake2b(SighashAllPreimage(tx, parse).value))
    ensures SighashAllPreimage(tx, parse).Err? ==> r == Err(SighashAllPreimage(tx, parse).error)
  {
    ghost var preimage := SighashAllPreimage(tx, parse);
    var hasher := new Hasher(blake2b);
    if tx.txHash.Err? {
      return Err(Sys(tx.txHash.error));
    }
    hasher.Update(tx.txHash.value);
    var first := HashFirstWitness(hasher, tx.groupWitnesses, parse);
    if first.Err? {
      return Err(first.error);
    }
    ghost var head := tx.txHash.value + FirstWitnessPart(tx.groupWitnesses, parse).value;
    assert hasher.input == head;
    var rest := CheckRestGroupEmpty(tx.groupWitnesses);
    if rest.Err? {
      return Err(rest.error);
    }
    var count := CalculateInputsLen(tx.inputSinces);
    if count.Err? {
      return Err(Sys(count.error));
    }
    var trailing := HashTrailingWitnesses(hasher, tx.inputWitnesses, count.value);
    if trailing.Err? {
      return Err(trailing.error);
    }
    ghost var tail := TrailingWitnesses(tx.inputWitnesses, count.value).value;
    assert preimage == Ok(head + tail);
    var output := hasher.Finalize();
    assert output == blake2b(hasher.input);
    return Ok(output);
  }
}

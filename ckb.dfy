/** The parts of the CKB syscall interface (the `ckb_std` crate) that the
    scripts rely on, as an abstract environment: every `load_*` family of
    syscalls reads one slot of a sequence, an index past the end answers
    `IndexOutOfBound`, and any slot may instead hold some other failure. */
module Ckb {
  import opened Common

  /** `ckb_std::error::SysError`; its remaining variants are folded into `Unknown`. */
  datatype SysError =
    | IndexOutOfBound
    | ItemMissing
    | LengthNotEnough(size: nat)
    | Encoding
    | Unknown(code: nat)

  /** `ckb_std::ckb_constants::Source`. */
  datatype Source = Input | Output | CellDep | HeaderDep | GroupInput | GroupOutput

  /** The flag that marks a source as restricted to the current script group. */
  const GROUP_FLAG: u64 := 0x0100_0000_0000_0000

  /** The numeric value of each `Source` as the syscalls receive it: a kind
      in 1..4, with `GROUP_FLAG` added for the script-group sources. */
  function SourceCode(s: Source): (c: u64)
    ensures c >= GROUP_FLAG <==> s.GroupInput? || s.GroupOutput?
    ensures 1 <= c % GROUP_FLAG <= 4
    ensures s.GroupInput? ==> c % GROUP_FLAG == 1
    ensures s.GroupOutput? ==> c % GROUP_FLAG == 2
  {
    match s
    case Input => 1
    case Output => 2
    case CellDep => 3
    case HeaderDep => 4
    case GroupInput => 0x0100_0000_0000_0001
    case GroupOutput => 0x0100_0000_0000_0002
  }

  /** Different sources have different numbers. */
  lemma SourceCodeInjective(s: Source, t: Source)
    ensures SourceCode(s) == SourceCode(t) ==> s == t
  {
  }

  /** What one syscall answers at an index that exists. */
  datatype Slot<T> = Loaded(value: T) | Failed(error: SysError)

  /** A `load_*(index, source)` syscall over the items of one source. */
  function Load<T>(slots: seq<Slot<T>>, i: nat): (r: Result<T, SysError>)
    ensures r.Ok? ==> i < |slots|
    ensures i >= |slots| ==> r == Err(IndexOutOfBound)
  {
    if i < |slots| then
      match slots[i]
      case Loaded(x) => Ok(x)
      case Failed(e) => Err(e)
    else
      Err(IndexOutOfBound)
  }

  /** Whether a scan that loads index after index stops at `i`. */
  predicate Halts<T>(slots: seq<Slot<T>>, i: nat)
  {
    i >= |slots| || slots[i].Failed?
  }

  /** The first index at or after `from` where a scan stops. */
  function Horizon<T>(slots: seq<Slot<T>>, from: nat): (h: nat)
    ensures from <= h && Halts(slots, h)
    ensures forall j :: from <= j < h ==> !Halts(slots, j)
    decreases |slots| - from
  {
    if Halts(slots, from) then from else Horizon(slots, from + 1)
  }

  /** The error that stops a scan at a halting index. */
  function HaltError<T>(slots: seq<Slot<T>>, i: nat): SysError
    requires Halts(slots, i)
  {
    Load(slots, i).error
  }
}

# ckb-typed-message-signing, modelled in Dafny

This project models the two pieces of Rust logic in the CKB typed-message
signing lock, and proves properties of them.

- **The EIP-712 struct-hash encoder** (`rust/src/eip712.rs`). It walks an
  already-decoded `Value` tree and feeds 32-byte words into a Keccak256
  hasher:
  - numbers are right-aligned, with sign extension for `Int`;
  - fixed bytes are left-aligned and zero-padded;
  - `Bytes` and `String` contribute the Keccak256 of their content;
  - a nested struct contributes its own `hashStruct`;
  - an array contributes its elements' encodings, concatenated.

  The final message hash is Keccak256 of
  `0x19 0x01 ‖ domainSeparator ‖ hashStruct(message)`, as in EIP-712 with
  the EIP-191 version byte 0x01.
- **Typed-transaction scanning and the sighash-all preimage**
  (`rust/src/lib.rs`):
  - finding the single `SighashWithAction` witness among a transaction's
    input witnesses;
  - counting the inputs with a galloping search followed by a binary search;
  - building the exact byte sequence that is fed to Blake2b for the
    signature message.

## Layout

| file | module | contents |
|---|---|---|
| `common.dfy` | `Common` | The basic types:<br>• `byte`, `u32` and `u64`<br>• 32-byte digests<br>• `Option` and `Result`<br>• the streaming `Hasher` class. `Update` appends to the fed bytes; `Finalize` is the digest of them. |
| `ckb.dfy` | `Ckb` | The syscall interface as an abstract environment. Each `load_*` family reads one slot of a sequence. An index past the end answers `IndexOutOfBound`, and any slot may hold some other `SysError` instead. |
| `eip712.dfy` | `Eip712` | `rust/src/eip712.rs`, in two parts:<br>• Specification functions (`Emit`, `EmitAll`, `EncodeData`, `StructHash`, `TypedMessagePreimage`) and lemmas about them.<br>• The imperative encoder (`EncodeNumber`, `EncodeValue`, `HashStruct`, …). It works on a `Hasher` object, and each method is proved to feed exactly the bytes the specification functions describe. |
| `typed_tx.dfy` | `TypedTx` | `rust/src/lib.rs`, in two parts:<br>• Specification functions (`FindAction`, `InputsLen`, `SighashAllPreimage`) and lemmas about them.<br>• The imperative scans and hash builder, proved equal to those functions. |

The model keeps the code's treatment of arrays. EIP-712 hashes an array's
concatenated member encodings and contributes that hash. The code instead
feeds the members' encodings straight into the enclosing hasher.
`Eip712.NestedArraysFlatten` shows the consequence: an array of two arrays
hashes exactly like the single flat array of their elements.

## Model

| member | source | states |
|---|---|---|
| Ckb.SourceCode | rust/src/eip712.rs:71-76 | Each `Source` number is a kind in 1..4, with the group flag 2^56 added exactly for `GroupInput` (kind 1) and `GroupOutput` (kind 2). |
| Ckb.Load | rust/src/lib.rs:45-55 | A `load_*` syscall at index `i`: it succeeds only at an index in range, and every index past the end answers `IndexOutOfBound`. |
| Eip712.U64ToSource | rust/src/eip712.rs:68-79 | Returns `Ok` only with a `Source` whose numeric code is the input. Returns `InvalidSource` exactly for numbers that are the code of no `Source`. |
| Eip712.U64ToSourceInverse | rust/src/eip712.rs:68-79 | Each of the six `Source` constants maps back to its own variant. |
| Eip712.SettleLoad | rust/src/eip712.rs:108-120 | A 32-byte load into the hash buffer behaves as follows:<br>• it is accepted exactly when at least 32 bytes were read, or when the syscall answered `LengthNotEnough`;<br>• the accepted value is the filled buffer;<br>• fewer than 32 bytes is `CellDataEof`;<br>• any other syscall error is passed on as `Sys`. |
| Eip712.FetchHash | rust/src/eip712.rs:81-136 | `Byte32` yields its own 32 bytes. `RefCell` fails with `InvalidSource` exactly when its source number is invalid; otherwise it is the settled cell-data load at that offset, index and source. `RefTransaction` is the settled transaction load at its offset. |
| Eip712.NumberWord | rust/src/eip712.rs:206-221 | Fails with `InvalidNumber` exactly when the payload is longer than 32 bytes. Otherwise the word ends with the payload. Its leading bytes are all 0xFF when signed with the top bit of the first byte set, and all zero in every other case. |
| Eip712.NumberWordUnsignedValue | rust/src/eip712.rs:206-221 | For a payload of at most 32 bytes, the word's unsigned big-endian value equals the payload's. |
| Eip712.NumberWordSignedValue | rust/src/eip712.rs:210-221 | For a non-empty payload of at most 32 bytes, the word's two's-complement value equals the payload's two's-complement value. |
| Eip712.SignExtendValue | rust/src/eip712.rs:210-221 | Padding a payload on the left with copies of its sign byte keeps its two's-complement value. |
| Eip712.NegativeExtendValue | rust/src/eip712.rs:211-212 | Padding a negative payload with 0xFF bytes keeps its value. |
| Eip712.ZeroExtendValue | rust/src/eip712.rs:210-221 | Padding with zero bytes keeps the unsigned value. |
| Eip712.FillValue | rust/src/eip712.rs:219 | A run of `k` zero bytes is worth 0. A run of `k` 0xFF bytes is worth 256^k − 1. |
| Eip712.BigEndianAppend | rust/src/eip712.rs:220 | The value of `a ‖ b` is value(a) · 256^\|b\| + value(b). |
| Eip712.Pow256Add | rust/src/eip712.rs:219-220 | 256^(a+b) = 256^a · 256^b. This is the width arithmetic behind placing `n` at offset `32 − \|n\|`. |
| Eip712.FixedBytesWord | rust/src/eip712.rs:188-195 | Fails with `InvalidFixedBytes` exactly when the content is longer than 32 bytes. Otherwise the word starts with the content and is zero after it. |
| Eip712.TypedMessagePreimage | rust/src/eip712.rs:52-66 | The bytes fed to the outer hasher:<br>• complete exactly when the domain separator resolves and `hashStruct(message)` completes, and then 66 bytes: `0x19 0x01`, the domain separator, the struct hash;<br>• panics exactly when the domain separator resolves and the struct walk panics;<br>• otherwise carries the error of the first step that failed. |
| Eip712.Emit | rust/src/eip712.rs:151-204 | What `encode_value` feeds for one value, and how it ends. A value whose walk completes feeds exactly 32 bytes for each non-array node reached (an array adds nothing of its own). A non-array value that fails or panics feeds nothing. |
| Eip712.EmitAll | rust/src/eip712.rs:157-163 | The elements from index `i` on, fed one after another and stopped by the first that does not complete. A completed walk feeds 32 bytes per non-array node reached; past the last element it feeds nothing and completes. |
| Eip712.EmitItem | rust/src/eip712.rs:159-161 | One serialized element. An element that does not decode fails with `MoleculeEncoding` before anything is fed. A completed element feeds 32 bytes per non-array node reached. |
| Eip712.EncodeData | rust/src/eip712.rs:138-145 | The bytes fed to a struct's own hasher. An unresolvable type hash fails with its error before anything is fed. Otherwise the bytes start with the type hash, and a completed walk is 32 + 32 × (the number of non-array nodes reached) bytes long. |
| Eip712.StructHash | rust/src/eip712.rs:138-149 | `hashStruct` as fed to the enclosing hasher. It completes, fails or panics exactly as `encodeData` does. When it completes it is one 32-byte word; otherwise it feeds nothing and carries `encodeData`'s error. |
| Eip712.EmitAllAppend | rust/src/eip712.rs:158-162 | Walking `a + b` from an index in `a` is walking `a`, then walking `b` unless the walk over `a` stopped. |
| Eip712.EmitAllCompletes | rust/src/eip712.rs:157-163 | The walk over the elements completes exactly when every element's walk completes. |
| Eip712.EmitAllFailure | rust/src/eip712.rs:157-163 | A walk that does not complete ends as its first non-completing element ends: with that element's error, or in its panic. Every earlier element completed. |
| Eip712.NestedArraysFlatten | rust/src/eip712.rs:157-163 | An array of two arrays is fed exactly like the flat array of all their elements, because arrays carry no hash or length. |
| Eip712.LeafWords | rust/src/eip712.rs:164-221 | The leaf cases:<br>• the walk panics exactly on an empty `Int` payload;<br>• `Bool` is accepted exactly for byte 0 or 1, as a 32-byte word worth that byte; otherwise it is `InvalidBool`;<br>• `Address` is 12 zero bytes followed by the address, and keeps its value;<br>• `Bytes` and `String` are exactly their Keccak256;<br>• `Uint` keeps its unsigned value, and a non-empty `Int` its two's-complement value;<br>• `Int`, `Uint` and `FixedBytes` fail exactly when longer than 32 bytes. |
| Eip712.EncodeDataShape | rust/src/eip712.rs:138-149 | A struct's `encodeData` completes exactly when its type hash resolves and every field's walk completes. |
| Eip712.EncodeNumber | rust/src/eip712.rs:206-223 | Reports the outcome of `NumberWord`. Feeds exactly that word, or nothing on `InvalidNumber`. |
| Eip712.EncodeFixedBytes | rust/src/eip712.rs:188-195 | Reports the outcome of `FixedBytesWord`. Feeds exactly that word, or nothing on `InvalidFixedBytes`. |
| Eip712.KeccakOf | rust/src/eip712.rs:170-176 | A fresh Keccak256 hasher fed `data` finalizes to Keccak256(data). |
| Eip712.EncodeValue | rust/src/eip712.rs:151-204 | On every value whose walk does not panic, it feeds exactly the bytes of `Emit(v)`, including the bytes fed before an error. It returns `Ok` exactly when that walk completes, and the walk's error otherwise. |
| Eip712.EncodeItems | rust/src/eip712.rs:141-145 | Feeds the elements one after another, as `EmitAll` describes, and stops at the first error. The same loop appears at rust/src/eip712.rs:158-162. |
| Eip712.EncodeItem | rust/src/eip712.rs:159-161 | An element that fails to decode is `MoleculeEncoding` and feeds nothing. Otherwise it is the element's `encode_value`. |
| Eip712.HashStruct | rust/src/eip712.rs:138-149 | On every struct whose walk does not panic: returns `Ok` exactly when `StructHash(s)` completes, with Keccak256 of the type hash followed by the fields' encodings in field order; otherwise returns its error. |
| Eip712.BuildTypedMessageHash | rust/src/eip712.rs:52-66 | On every message whose walk does not panic: returns Keccak256 of `TypedMessagePreimage(m)` when that preimage completes, and its error otherwise. |
| TypedTx.DuplicateCheckStep | rust/src/lib.rs:61-71 | One pass over witness `i` goes on only when witness `i` exists. |
| TypedTx.RejectDuplicate | rust/src/lib.rs:60-72 | The duplicate check, with the index advanced after each witness. It succeeds only with the action already found, and fails only with `DuplicateAction` or a syscall error. |
| TypedTx.FindAction | rust/src/lib.rs:40-72 | The whole scan. A success is the action of some input witness that loads and parses as a `SighashWithAction`. A failure is only `DuplicateAction`, `NotTypedTransaction` or a syscall error; a witness that does not parse is skipped, never an error. |
| TypedTx.DuplicateLoopAsWritten | rust/src/lib.rs:60-72 | The duplicate check as written, with the index never advanced, run for `fuel` passes. Whenever it returns, it returns what the corrected check returns from the same index. |
| TypedTx.DuplicateLoopAsWrittenSpins | rust/src/lib.rs:60-72 | As written, the duplicate check returns only if its first pass does. Once a pass goes on to the next witness, no number of passes returns. |
| TypedTx.DuplicateLoopAsWrittenExample | rust/src/lib.rs:40-72 | Take a transaction whose witnesses are a `SighashWithAction` followed by a `Sighash`. The corrected scan accepts it, and the loop as written never returns. |
| TypedTx.RejectDuplicateCases | rust/src/lib.rs:60-72 | The duplicate check returns:<br>• `DuplicateAction` exactly when some reachable later witness is a `SighashWithAction`;<br>• otherwise the first action when the list ends;<br>• otherwise `Sys(e)` for the load error that stopped it. |
| TypedTx.FindActionCases | rust/src/lib.rs:40-73 | The reachable witnesses are those before the first one that fails to load. `fetch_sighash_with_action` returns:<br>• `Ok` exactly when a single reachable witness is a `SighashWithAction` and the list ends without error, with that witness's action;<br>• `DuplicateAction` exactly when two reachable witnesses are;<br>• `NotTypedTransaction` exactly when none is and the list ends;<br>• `Sys(e)` exactly when another load error stops the scan before a duplicate, with that error. |
| TypedTx.FetchSighashWithAction | rust/src/lib.rs:40-73 | The two scans compute `FindAction`: the first `SighashWithAction`, then the duplicate check, with the index advanced after each witness. |
| TypedTx.IsTypedTransaction | rust/src/lib.rs:75-77 | True exactly when `fetch_sighash_with_action` succeeds. Equivalently: exactly one reachable witness is a `SighashWithAction`, and the list ends without a load error. |
| TypedTx.Gallop | rust/src/lib.rs:154-165 | The galloping phase. A length it finds is above `lo`, and its error is never `IndexOutOfBound`. |
| TypedTx.Bisect | rust/src/lib.rs:167-180 | The binary-search phase. A length it finds lies in `(lo, hi]`, and its error is never `IndexOutOfBound`. |
| TypedTx.InputsLen | rust/src/lib.rs:151-181 | The inputs' length as `calculate_inputs_len` finds it: at least 1, and an error is never `IndexOutOfBound`. |
| TypedTx.BisectBoundary | rust/src/lib.rs:167-180 | Suppose `lo` exists (or is 0) and `hi` answers `IndexOutOfBound`. Then a binary search that finishes returns some `n ≥ 1` where `n` is absent and `n − 1` exists (or `n` is 1). A failure is an error that some input really answers. |
| TypedTx.GallopBoundary | rust/src/lib.rs:152-180 | The same boundary property, from any galloping state in which `lo` exists or is 0. |
| TypedTx.InputsLenBoundary | rust/src/lib.rs:151-181 | Whatever the inputs answer, a length that is found names the first absent index after an existing one (or 1). An error is one some input answered. |
| TypedTx.InputsLenExact | rust/src/lib.rs:151-181 | When every input loads, the result is the number of inputs. With no inputs it is 1. |
| TypedTx.CalculateInputsLen | rust/src/lib.rs:151-181 | The galloping and binary-search loops compute `InputsLen`. A result `n` satisfies `n ≥ 1`; index `n` is absent; index `n − 1` exists unless `n` is 1. |
| TypedTx.LittleEndian | rust/src/lib.rs:132 | `to_le_bytes` of width `k` has `k` bytes. |
| TypedTx.LittleEndianRoundTrip | rust/src/lib.rs:132 | Reading back the `k` little-endian bytes of `x < 256^k` gives `x`. |
| TypedTx.LittleEndian64RoundTrip | rust/src/lib.rs:132 | The same for `u64::to_le_bytes`. |
| TypedTx.Frame | rust/src/lib.rs:132-133 | A trailing witness as hashed: an 8-byte length header, then exactly the witness's bytes. |
| TypedTx.Unframe | rust/src/lib.rs:132-133 | Splitting frames back into witnesses. Each witness read back takes at least its 8-byte header, and a non-empty input that splits yields at least one witness. |
| TypedTx.UnframeSplit | rust/src/lib.rs:132-133 | A header holding the exact length of what follows is split off by `Unframe`. |
| TypedTx.UnframeFrame | rust/src/lib.rs:132-133 | A framed witness (8-byte length, then its bytes) is read back as that witness, followed by whatever comes after it. |
| TypedTx.FirstWitnessPart | rust/src/lib.rs:89-106 | The first group witness as hashed: `0x00`, or a part starting with `0x01`, and only when that witness loads. It fails only with a syscall error, `MoleculeEncoding` or `NotSighashVariant`. |
| TypedTx.RestGroupEmpty | rust/src/lib.rs:108-124 | The check of the remaining group witnesses fails only with `NonEmptyGroupWitness` or a syscall error. |
| TypedTx.RestGroupEmptyCases | rust/src/lib.rs:108-124 | The check returns:<br>• `NonEmptyGroupWitness` exactly when some reachable group witness from index 1 on is non-empty;<br>• `Ok` exactly when none is and the list ends;<br>• otherwise `Sys(e)` with the load error that stopped it. |
| TypedTx.TrailingWitnesses | rust/src/lib.rs:127-142 | The trailing part fails only with a syscall error. |
| TypedTx.TrailingWitnessesCases | rust/src/lib.rs:127-142 | The trailing part is accepted exactly when the witness list ends without a load error, and otherwise carries that error. When every witness is shorter than 2^64 bytes, splitting it at the length fields gives back the witnesses, in order. |
| TypedTx.SighashAllPreimage | rust/src/lib.rs:82-142 | The bytes fed to Blake2b. An accepted preimage starts with the transaction hash, which loaded, and has at least one more byte. It never fails with `DuplicateAction` or `NotTypedTransaction`. |
| TypedTx.SighashAllPreimageLayout | rust/src/lib.rs:82-142 | For an accepted preimage:<br>• the transaction hash comes first;<br>• the marker byte is 1 exactly for a `SighashWithAction` first group witness, and its message follows;<br>• the marker byte is 0 exactly for `Sighash`;<br>• the framed input witnesses from the input count on come last, and split back into those witnesses.<br>`NotSighashVariant` results exactly when the first group witness is another variant. |
| TypedTx.HashFirstWitness | rust/src/lib.rs:89-106 | Feeds `0x01 ‖ message` for a `SighashWithAction`, `0x00` for a `Sighash`. Fails with `Sys`, `MoleculeEncoding` or `NotSighashVariant` exactly as `FirstWitnessPart` does, and then feeds nothing. |
| TypedTx.CheckRestGroupEmpty | rust/src/lib.rs:108-124 | The loop computes `RestGroupEmpty` from index 1. |
| TypedTx.TrailingStep | rust/src/lib.rs:130-134 | Feeding one loaded witness moves its frame from the part still to come to the part already fed. |
| TypedTx.HashTrailingWitnesses | rust/src/lib.rs:127-142 | Feeds exactly `TrailingWitnesses` from the input count on, or returns its error. |
| TypedTx.GenerateSighashAllHash | rust/src/lib.rs:82-148 | Returns Blake2b of `SighashAllPreimage(tx)` when that preimage exists, and its error otherwise. |

## Left out

- Keccak256 and Blake2b are opaque. Each is a function parameter from the fed bytes to a 32-byte digest. The Blake2b personalisation "ckb-default-hash" and the output length 32 are part of that parameter.
- The syscalls are not modelled as I/O. `load_witness`, `load_input_since`, `load_tx_hash`, `load_cell_data` and `load_transaction` are replaced by sequences of slots or by functions. A slot holds a value or an error, and an index past the end answers `IndexOutOfBound`.
- Molecule parsing and verification are not modelled. The `Value` tree is given already decoded, and a serialized element that `ValueReader::from_slice` rejects is `Item.Malformed`. `ExtendedWitnessReader::from_slice` followed by `to_enum` is the parameter `parse`. The `schemas` module is not part of this model.
- `TryFrom<&TypedMessage> for Eip712Hash` is left out. It is a thin wrapper over `build_typed_message_hash`.
- The `From` error conversions are written inline as `Sys(e)` and `MoleculeEncoding`. The `no_std` attributes and the module wiring are left out.
- The `Source` constants and the `SysError` variants come from `ckb_std`, which is not part of this model. `SysError` variants the code never distinguishes are folded into `Unknown`.
- Eip712.NumberWord: requires a non-empty payload when signed. `encode_number` reads the first byte for the sign, and on an empty signed payload that read panics instead of returning an error.
- Eip712.EncodeValue: requires that the walk does not panic (`!Emit(v).Panicked?`). A method cannot return a panic, so the specification functions record it as the `Panicked` outcome. `EncodeItems`, `EncodeItem`, `HashStruct` and `BuildTypedMessageHash` likewise require that their own walk does not end in `Panicked`. A tree in which an error stops the walk before it reaches an empty `Int` is accepted, and returns that error as the code does.
- TypedTx.CalculateInputsLen: `hi *= 2` on `usize` is modelled on unbounded integers. Overflow would need more than 2^63 inputs.
- TypedTx.Frame: `w.len() as u64` is modelled as the length modulo 2^64. The round-trip lemmas assume witnesses shorter than 2^64 bytes.

## Findings

| source | as written | input that shows it | evidently intended | confidence | as-written member | corrected member |
|---|---|---|---|---|---|---|
| rust/src/lib.rs:60-72 | The duplicate-check loop in `fetch_sighash_with_action` never increments `i`. After the first `SighashWithAction` it loads the same witness on every pass. | Input witnesses `[SighashWithAction, Sighash]`. The loop reloads the `Sighash` witness forever, so `fetch_sighash_with_action` and `is_typed_transaction` never return. | Advance `i` after each witness, as the first loop does at line 56. Then the witness list ends with `Ok(action)`, and a later `SighashWithAction` gives `DuplicateAction`. | high, not executed | TypedTx.DuplicateLoopAsWrittenExample | TypedTx.FetchSighashWithAction |

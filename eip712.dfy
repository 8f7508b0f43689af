/** The EIP-712 hash of a CKB `TypedMessage`: a walk over an already-decoded
    `Value` tree that feeds 32-byte words into a Keccak256 hasher, and the
    outer `0x19 0x01 ‖ domainSeparator ‖ hashStruct(message)` preimage.

    Arrays are encoded as the plain concatenation of their elements'
    encodings, without the inner Keccak256 that EIP-712's `encodeData`
    prescribes; the model keeps that behaviour (see `NestedArraysFlatten`). */
module Eip712 {
  import opened Common
  import opened Ckb

  datatype Error =
    | MoleculeEncoding
    | Sys(sys: SysError)
    | CellDataEof
    | InvalidSource
    | InvalidBool
    | InvalidNumber
    | InvalidFixedBytes

  type Bytes20 = s: seq<byte> | |s| == 20 witness Zeros(20)

  /** A hash that is either given inline or read from cell or transaction data. */
  datatype Hash =
    | Byte32(raw: Bytes32)
    | RefCell(source: u64, index: u32, offset: u32)
    | RefTransaction(offset: u32)

  /** The decoded `Value` union. Integers and fixed bytes are raw big-endian
      payload bytes whose length the encoder checks. */
  datatype Value =
    | Bool(flag: byte)
    | Bytes(data: seq<byte>)
    | String(data: seq<byte>)
    | Address(addr: Bytes20)
    | FixedBytes(data: seq<byte>)
    | Int(data: seq<byte>)
    | Uint(data: seq<byte>)
    | Struct(st: StructValue)
    | Array(items: seq<Item>)

  /** A struct: its type hash and its field values in declaration order. */
  datatype StructValue = StructValue(typeHash: Hash, values: seq<Item>)

  /** One serialized element of a struct or array: either it decodes as a
      `Value`, or `ValueReader::from_slice` rejects it. */
  datatype Item = Item(value: Value) | Malformed

  /** `TypedMessage`, whose only variant is `EIP712`. */
  datatype TypedMessage = EIP712(domainSeparator: Hash, message: StructValue)

  /** What `load_cell_data` / `load_transaction` answer when asked for 32
      bytes: the syscall status and the 32-byte buffer as it is afterwards. */
  datatype LoadReply = LoadReply(status: Result<nat, SysError>, buffer: Bytes32)

  /** The on-chain data that `RefCell` and `RefTransaction` hashes point into:
      `cellData(offset, index, source)` and `transaction(offset)`. */
  datatype Chain = Chain(cellData: (nat, nat, Source) -> LoadReply, transaction: nat -> LoadReply)

  /** Everything the encoder consults besides the value: Keccak256 and the chain. */
  datatype Env = Env(keccak: seq<byte> -> Bytes32, chain: Chain)

  // ---------------------------------------------------------------------
  // u64_to_source and fetch_hash

  /** The raw `Source` number of a `RefCell` as a `Source`. */
  function U64ToSource(source: u64): (r: Result<Source, Error>)
    ensures r.Ok? ==> SourceCode(r.value) == source
    ensures r.Err? ==> r.error == InvalidSource && forall s :: SourceCode(s) != source
  {
    if source == SourceCode(Input) then Ok(Input)
    else if source == SourceCode(Output) then Ok(Output)
    else if source == SourceCode(CellDep) then Ok(CellDep)
    else if source == SourceCode(HeaderDep) then Ok(HeaderDep)
    else if source == SourceCode(GroupInput) then Ok(GroupInput)
    else if source == SourceCode(GroupOutput) then Ok(GroupOutput)
    else Err(InvalidSource)
  }

  /** Every `Source` is recovered from its number. */
  lemma U64ToSourceInverse(s: Source)
    ensures U64ToSource(SourceCode(s)) == Ok(s)
  {
  }

  /** How a 32-byte load into the hash buffer is judged: fewer than 32 bytes
      is `CellDataEof`; more data than fits (`LengthNotEnough`) still fills
      the buffer and is accepted; any other syscall error is passed on. */
  function SettleLoad(reply: LoadReply): (r: Result<Bytes32, Error>)
    ensures r.Ok? <==> (reply.status.Ok? && reply.status.value >= 32)
                       || (reply.status.Err? && reply.status.error.LengthNotEnough?)
    ensures r.Ok? ==> r.value == reply.buffer
    ensures r == Err(CellDataEof) <==> reply.status.Ok? && reply.status.value < 32
    ensures reply.status.Err? && !reply.status.error.LengthNotEnough? ==> r == Err(Sys(reply.status.error))
  {
    match reply.status
    case Ok(n) => if n < 32 then Err(CellDataEof) else Ok(reply.buffer)
    case Err(LengthNotEnough(_)) => Ok(reply.buffer)
    case Err(e) => Err(Sys(e))
  }

  /** The 32 bytes a `Hash` stands for. */
  function FetchHash(h: Hash, chain: Chain): (r: Result<Bytes32, Error>)
    ensures h.Byte32? ==> r == Ok(h.raw)
    ensures h.RefCell? ==> (r == Err(InvalidSource) <==> U64ToSource(h.source).Err?)
    ensures h.RefCell? && U64ToSource(h.source).Ok? ==>
              r == SettleLoad(chain.cellData(h.offset as nat, h.index as nat, U64ToSource(h.source).value))
    ensures h.RefTransaction? ==> r == SettleLoad(chain.transaction(h.offset as nat))
  {
    match h
    case Byte32(raw) => Ok(raw)
    case RefCell(source, index, offset) =>
      (match U64ToSource(source)
       case Err(e) => Err(e)
       case Ok(s) => SettleLoad(chain.cellData(offset as nat, index as nat, s)))
    case RefTransaction(offset) => SettleLoad(chain.transaction(offset as nat))
  }

  // ---------------------------------------------------------------------
  // Numbers as 256-bit words

  /** `b & 0x80 != 0`. */
  predicate TopBitSet(b: byte)
  {
    b >= 0x80
  }

  /** The unsigned big-endian value of a byte string. */
  function BigEndian(s: seq<byte>): (n: nat)
  {
    if s == [] then 0 else BigEndian(s[..|s| - 1]) * 256 + s[|s| - 1] as nat
  }

  /** The two's-complement value of a byte string as wide as itself. */
  function TwosComplement(s: seq<byte>): (z: int)
  {
    if |s| > 0 && TopBitSet(s[0]) then BigEndian(s) - Pow256(|s|) else BigEndian(s)
  }

  /** `k` copies of the byte `b`. */
  function Fill(k: nat, b: byte): (f: seq<byte>)
    ensures |f| == k && forall j :: 0 <= j < k ==> f[j] == b
  {
    seq(k, _ => b)
  }

  /** The word `encode_number` feeds: `n` right-aligned in 32 bytes, the rest
      filled with copies of the sign when `signed`, with zeros otherwise.
      Reading `n[0]` for the sign needs a non-empty `n`. */
  function NumberWord(n: seq<byte>, signed: bool): (r: Result<Bytes32, Error>)
    requires signed ==> |n| >= 1
    ensures r.Err? <==> |n| > 32
    ensures r.Err? ==> r.error == InvalidNumber
    ensures r.Ok? ==> r.value[32 - |n|..] == n
    ensures r.Ok? ==> forall k :: 0 <= k < 32 - |n| ==>
                        r.value[k] == if signed && TopBitSet(n[0]) then 0xFF else 0
  {
    if |n| > 32 then Err(InvalidNumber)
    else Ok(Fill(32 - |n|, if signed && TopBitSet(n[0]) then 0xFF else 0) + n)
  }

  lemma MulSwap(a: int, b: int, c: int)
    ensures a * (b * c) == b * (a * c)
  {
  }

  lemma {:induction false} Pow256Add(a: nat, b: nat)
    ensures Pow256(a + b) == Pow256(a) * Pow256(b)
  {
    if b > 0 {
      Pow256Add(a, b - 1);
      var x, y := Pow256(a), Pow256(b - 1);
      assert Pow256(a + b) == 256 * (x * y);
      MulSwap(256, x, y);
    }
  }

  lemma ShiftByte(x: int, p: int, y: int, d: int)
    ensures (x * p + y) * 256 + d == x * (256 * p) + (y * 256 + d)
  {
  }

  lemma {:induction false} BigEndianAppend(a: seq<byte>, b: seq<byte>)
    ensures BigEndian(a + b) == BigEndian(a) * Pow256(|b|) + BigEndian(b)
    decreases |b|
  {
    if b == [] {
      assert a + b == a;
    } else {
      var init, last := b[..|b| - 1], b[|b| - 1];
      assert (a + b)[..|a + b| - 1] == a + init;
      BigEndianAppend(a, init);
      var x, y, p := BigEndian(a), BigEndian(init), Pow256(|init|);
      assert BigEndian(a + b) == (x * p + y) * 256 + last as nat;
      ShiftByte(x, p, y, last as nat);
      assert Pow256(|b|) == 256 * p;
    }
  }

  /** A run of zero bytes is worth 0; a run of 0xFF bytes is worth 256^k - 1. */
  lemma {:induction false} FillValue(k: nat, b: byte)
    requires b == 0 || b == 0xFF
    ensures BigEndian(Fill(k, b)) == if b == 0 then 0 else Pow256(k) - 1
  {
    if k > 0 {
      assert Fill(k, b)[..k - 1] == Fill(k - 1, b);
      FillValue(k - 1, b);
    }
  }

  /** Padding on the left with zero bytes keeps the unsigned value. */
  lemma ZeroExtendValue(k: nat, n: seq<byte>)
    ensures BigEndian(Fill(k, 0) + n) == BigEndian(n)
  {
    BigEndianAppend(Fill(k, 0), n);
    FillValue(k, 0);
  }

  lemma MulPredecessor(x: int, y: int)
    ensures (x - 1) * y == x * y - y
  {
  }

  /** Padding on the left with copies of the sign keeps the two's-complement value. */
  lemma SignExtendValue(k: nat, n: seq<byte>)
    requires |n| >= 1
    ensures TwosComplement(Fill(k, if TopBitSet(n[0]) then 0xFF else 0) + n) == TwosComplement(n)
  {
    if k == 0 {
      assert Fill(k, 0) + n == n;
    } else if !TopBitSet(n[0]) {
      ZeroExtendValue(k, n);
      assert (Fill(k, 0) + n)[0] == 0;
    } else {
      NegativeExtendValue(k, n);
    }
  }

  /** Padding a negative value on the left with 0xFF bytes keeps it. */
  lemma NegativeExtendValue(k: nat, n: seq<byte>)
    requires k >= 1 && |n| >= 1 && TopBitSet(n[0])
    ensures TwosComplement(Fill(k, 0xFF) + n) == TwosComplement(n)
  {
    var w := Fill(k, 0xFF) + n;
    BigEndianAppend(Fill(k, 0xFF), n);
    FillValue(k, 0xFF);
    Pow256Add(k, |n|);
    assert w[0] == 0xFF;
    var pk, pn, v := Pow256(k), Pow256(|n|), BigEndian(n);
    assert BigEndian(w) == (pk - 1) * pn + v;
    MulPredecessor(pk, pn);
    assert Pow256(|w|) == pk * pn;
    assert TwosComplement(w) == BigEndian(w) - Pow256(|w|);
    assert TwosComplement(n) == v as int - pn;
  }

  /** The word's unsigned 256-bit value equals the payload's (`Uint`,
      `Address`, `Bool`). */
  lemma NumberWordUnsignedValue(n: seq<byte>)
    requires |n| <= 32
    ensures NumberWord(n, false).Ok? && BigEndian(NumberWord(n, false).value) == BigEndian(n)
  {
    var w := Fill(32 - |n|, 0) + n;
    assert NumberWord(n, false) == Ok(w);
    ZeroExtendValue(32 - |n|, n);
  }

  /** The word's two's-complement 256-bit value equals the payload's (`Int`). */
  lemma NumberWordSignedValue(n: seq<byte>)
    requires 1 <= |n| <= 32
    ensures NumberWord(n, true).Ok? && TwosComplement(NumberWord(n, true).value) == TwosComplement(n)
  {
    var w := Fill(32 - |n|, if TopBitSet(n[0]) then 0xFF else 0) + n;
    assert NumberWord(n, true) == Ok(w);
    SignExtendValue(32 - |n|, n);
  }

  /** The word of a `FixedBytes` value: the content left-aligned, zero-padded. */
  function FixedBytesWord(f: seq<byte>): (r: Result<Bytes32, Error>)
    ensures r.Err? <==> |f| > 32
    ensures r.Err? ==> r.error == InvalidFixedBytes
    ensures r.Ok? ==> r.value[..|f|] == f && forall k :: |f| <= k < 32 ==> r.value[k] == 0
  {
    if |f| > 32 then Err(InvalidFixedBytes) else Ok(f + Zeros(32 - |f|))
  }

  // ---------------------------------------------------------------------
  // What the encoder feeds into its hasher, as a function of the value

  /** The bytes a walk feeds into the hasher, and how it ended: completed,
      stopped with an error, or reached an empty `Int` payload, whose sign
      byte `encode_number` reads out of bounds (a panic in the source). The
      bytes fed before the stop stay in the hasher. */
  datatype Emitted =
    | Complete(bytes: seq<byte>)
    | Aborted(bytes: seq<byte>, error: Error)
    | Panicked(bytes: seq<byte>)

  /** The outcome a walk that does not panic reports to its caller. */
  function Status(e: Emitted): Result<(), Error>
    requires !e.Panicked?
  {
    if e.Complete? then Ok(()) else Err(e.error)
  }

  /** A step that emits one word or fails before emitting anything. */
  function FromWord(r: Result<Bytes32, Error>): Emitted
  {
    if r.Ok? then Complete(r.value) else Aborted([], r.error)
  }

  /** `e`, after `prefix` has been fed. */
  function After(prefix: seq<byte>, e: Emitted): Emitted
  {
    match e
    case Complete(b) => Complete(prefix + b)
    case Aborted(b, err) => Aborted(prefix + b, err)
    case Panicked(b) => Panicked(prefix + b)
  }

  /** The number of 32-byte words a value contributes: one per non-array
      node reached, none for an array itself. */
  function Words(v: Value): nat
    decreases v, 1, 0
  {
    if v.Array? then WordsAll(v.items, 0) else 1
  }

  /** The words of the elements from index `i` on. */
  function WordsAll(items: seq<Item>, i: nat): nat
    decreases items, 0, |items| - i
  {
    if i >= |items| then 0 else WordsItem(items[i]) + WordsAll(items, i + 1)
  }

  function WordsItem(item: Item): nat
    decreases item, 2, 0
  {
    if item.Item? then Words(item.value) else 0
  }

  /** What `encode_value` feeds for one value (EIP-712 `encodeData` of a
      member, with arrays flattened): one word per non-array node reached,
      and nothing for a non-array value that fails. */
  function Emit(v: Value, env: Env): (e: Emitted)
    ensures e.Complete? ==> |e.bytes| == 32 * Words(v)
    ensures !v.Array? && !e.Complete? ==> e.bytes == []
    decreases v, 1, 0
  {
    match v
    case Struct(s) => StructHash(s, env)
    case Array(items) => EmitAll(items, 0, env)
    case Bool(b) => if b != 0 && b != 1 then Aborted([], InvalidBool) else FromWord(NumberWord([b], false))
    case Bytes(data) => Complete(env.keccak(data))
    case String(data) => Complete(env.keccak(data))
    case Address(a) => FromWord(NumberWord(a, false))
    case FixedBytes(data) => FromWord(FixedBytesWord(data))
    case Int(data) => if |data| == 0 then Panicked([]) else FromWord(NumberWord(data, true))
    case Uint(data) => FromWord(NumberWord(data, false))
  }

  /** The elements of a struct or array from index `i` on, one after another;
      the first element that does not complete stops the walk. */
  function EmitAll(items: seq<Item>, i: nat, env: Env): (e: Emitted)
    ensures e.Complete? ==> |e.bytes| == 32 * WordsAll(items, i)
    ensures i >= |items| ==> e == Complete([])
    decreases items, 0, |items| - i
  {
    if i >= |items| then Complete([])
    else
      var first := EmitItem(items[i], env);
      if !first.Complete? then first else After(first.bytes, EmitAll(items, i + 1, env))
  }

  /** One element: an element that does not decode as a `Value` fails
      with `MoleculeEncoding` before anything is fed. */
  function EmitItem(item: Item, env: Env): (e: Emitted)
    ensures e.Complete? ==> |e.bytes| == 32 * WordsItem(item)
    ensures item.Malformed? ==> e == Aborted([], MoleculeEncoding)
    decreases item, 2, 0
  {
    match item
    case Malformed => Aborted([], MoleculeEncoding)
    case Item(v) => Emit(v, env)
  }

  /** EIP-712 `encodeData` of a struct, as fed into the struct's own hasher:
      its type hash, then one word per non-array node reached through its
      fields. */
  function EncodeData(s: StructValue, env: Env): (r: Emitted)
    ensures r.Complete? ==> |r.bytes| == 32 + 32 * WordsAll(s.values, 0)
    ensures FetchHash(s.typeHash, env.chain).Err? ==> r == Aborted([], FetchHash(s.typeHash, env.chain).error)
    ensures FetchHash(s.typeHash, env.chain).Ok? ==>
              |r.bytes| >= 32 && r.bytes[..32] == FetchHash(s.typeHash, env.chain).value
    decreases s, 1, 0
  {
    match FetchHash(s.typeHash, env.chain)
    case Err(e) => Aborted([], e)
    case Ok(th) => After(th, EmitAll(s.values, 0, env))
  }

  /** EIP-712 `hashStruct`: the Keccak256 of `encodeData` as the one word fed
      into the enclosing hasher, or nothing when `encodeData` stops. */
  function StructHash(s: StructValue, env: Env): (r: Emitted)
    ensures r.Complete? ==> |r.bytes| == 32
    ensures !r.Complete? ==> r.bytes == []
    ensures r.Complete? <==> EncodeData(s, env).Complete?
    ensures r.Panicked? <==> EncodeData(s, env).Panicked?
    ensures r.Aborted? ==> r.error == EncodeData(s, env).error
    decreases s, 2, 0
  {
    match EncodeData(s, env)
    case Complete(data) => Complete(env.keccak(data))
    case Aborted(_, e) => Aborted([], e)
    case Panicked(_) => Panicked([])
  }

  /** The bytes fed into the outer hasher of the EIP-712 message hash
      (EIP-191 version 0x01). */
  function TypedMessagePreimage(m: TypedMessage, env: Env): (r: Emitted)
    ensures r.Complete? <==> FetchHash(m.domainSeparator, env.chain).Ok? && StructHash(m.message, env).Complete?
    ensures r.Complete? ==> |r.bytes| == 66 && r.bytes[..2] == [0x19, 0x01]
                            && r.bytes[2..34] == FetchHash(m.domainSeparator, env.chain).value
                            && r.bytes[34..] == StructHash(m.message, env).bytes
    ensures r.Panicked? <==> FetchHash(m.domainSeparator, env.chain).Ok? && StructHash(m.message, env).Panicked?
    ensures r.Aborted? && FetchHash(m.domainSeparator, env.chain).Err? ==>
              r.error == FetchHash(m.domainSeparator, env.chain).error
    ensures r.Aborted? && FetchHash(m.domainSeparator, env.chain).Ok? ==>
              r.error == StructHash(m.message, env).error
  {
    match FetchHash(m.domainSeparator, env.chain)
    case Err(e) => Aborted([0x19, 0x01], e)
    case Ok(domain) => After([0x19, 0x01] + domain, StructHash(m.message, env))
  }

  // ---------------------------------------------------------------------
  // Properties of the walk

  lemma AfterAfter(x: seq<byte>, y: seq<byte>, e: Emitted)
    ensures After(x, After(y, e)) == After(x + y, e)
  {
  }

  lemma AfterNothing(e: Emitted)
    ensures After([], e) == e
  {
  }

  /** The walk over `a + b` from an index in `b`'s part is the walk over `b`. */
  lemma {:induction false} EmitAllShift(a: seq<Item>, b: seq<Item>, j: nat, env: Env)
    ensures EmitAll(a + b, |a| + j, env) == EmitAll(b, j, env)
    decreases |b| - j
  {
    if j < |b| {
      assert (a + b)[|a| + j] == b[j];
      EmitAllShift(a, b, j + 1, env);
    }
  }

  /** Walking `a + b` is walking `a`, then (unless `a` stopped) walking `b`. */
  lemma {:induction false} EmitAllAppend(a: seq<Item>, b: seq<Item>, i: nat, env: Env)
    requires i <= |a|
    ensures EmitAll(a + b, i, env) ==
              if !EmitAll(a, i, env).Complete? then EmitAll(a, i, env)
              else After(EmitAll(a, i, env).bytes, EmitAll(b, 0, env))
    decreases |a| - i
  {
    if i == |a| {
      EmitAllShift(a, b, 0, env);
      AfterNothing(EmitAll(b, 0, env));
    } else {
      assert (a + b)[i] == a[i];
      EmitAllAppend(a, b, i + 1, env);
      var first := EmitItem(a[i], env);
      if first.Complete? && EmitAll(a, i + 1, env).Complete? {
        AfterAfter(first.bytes, EmitAll(a, i + 1, env).bytes, EmitAll(b, 0, env));
      }
    }
  }

  /** Because arrays carry no hash or length of their own, an array of two
      arrays is fed exactly like the single array of all their elements. */
  lemma NestedArraysFlatten(a: seq<Item>, b: seq<Item>, env: Env)
    ensures Emit(Array([Item(Array(a)), Item(Array(b))]), env) == Emit(Array(a + b), env)
  {
    EmitAllAppend(a, b, 0, env);
    var pair := [Item(Array(a)), Item(Array(b))];
    var second := EmitAll(b, 0, env);
    assert EmitAll(pair, 1, env) == second by {
      assert EmitItem(pair[1], env) == second;
      assert second.Complete? ==> second.bytes + [] == second.bytes;
    }
    assert EmitItem(pair[0], env) == EmitAll(a, 0, env);
  }

  /** The walk from element `i` completes exactly when every element's walk
      completes. */
  lemma {:induction false} EmitAllCompletes(items: seq<Item>, i: nat, env: Env)
    ensures EmitAll(items, i, env).Complete? <==>
              forall k :: i <= k < |items| ==> EmitItem(items[k], env).Complete?
    decreases |items| - i
  {
    if i < |items| {
      EmitAllCompletes(items, i + 1, env);
    }
  }

  /** A walk that does not complete ends as the first element that does not
      complete ends (with its error, or in its panic), after every element
      before it completed. */
  lemma {:induction false} EmitAllFailure(items: seq<Item>, i: nat, env: Env)
    ensures EmitAll(items, i, env).Aborted? ==>
              exists k :: i <= k < |items| && EmitItem(items[k], env).Aborted?
                          && EmitAll(items, i, env).error == EmitItem(items[k], env).error
                          && forall j :: i <= j < k ==> EmitItem(items[j], env).Complete?
    ensures EmitAll(items, i, env).Panicked? ==>
              exists k :: i <= k < |items| && EmitItem(items[k], env).Panicked?
                          && forall j :: i <= j < k ==> EmitItem(items[j], env).Complete?
    decreases |items| - i
  {
    if i < |items| {
      var first := EmitItem(items[i], env);
      if first.Complete? {
        var rest := EmitAll(items, i + 1, env);
        EmitAllFailure(items, i + 1, env);
        assert EmitAll(items, i, env) == After(first.bytes, rest);
        if rest.Aborted? || rest.Panicked? {
          var k :| i + 1 <= k < |items| && !EmitItem(items[k], env).Complete?
                   && (rest.Aborted? ==> EmitItem(items[k], env).Aborted? && rest.error == EmitItem(items[k], env).error)
                   && (rest.Panicked? ==> EmitItem(items[k], env).Panicked?)
                   && forall j :: i + 1 <= j < k ==> EmitItem(items[j], env).Complete?;
          assert forall j :: i <= j < k ==> EmitItem(items[j], env).Complete?;
        }
      } else {
        assert EmitAll(items, i, env) == first;
      }
    }
  }

  /** The words of the leaf values. */
  lemma LeafWords(v: Value, env: Env)
    requires !v.Array? && !v.Struct?
    ensures Emit(v, env).Panicked? <==> v.Int? && |v.data| == 0
    ensures v.Bool? ==> (Emit(v, env).Complete? <==> v.flag == 0 || v.flag == 1)
    ensures v.Bool? && Emit(v, env).Complete? ==>
              |Emit(v, env).bytes| == 32 && BigEndian(Emit(v, env).bytes) == v.flag as nat
    ensures v.Bool? && Emit(v, env).Aborted? ==> Emit(v, env) == Aborted([], InvalidBool)
    ensures v.Address? ==> Emit(v, env).Complete? && Emit(v, env).bytes[..12] == Zeros(12)
                           && Emit(v, env).bytes[12..] == v.addr
                           && BigEndian(Emit(v, env).bytes) == BigEndian(v.addr)
    ensures (v.Bytes? || v.String?) ==> Emit(v, env) == Complete(env.keccak(v.data))
    ensures v.Uint? && |v.data| <= 32 ==> BigEndian(Emit(v, env).bytes) == BigEndian(v.data)
    ensures v.Int? && 1 <= |v.data| <= 32 ==> TwosComplement(Emit(v, env).bytes) == TwosComplement(v.data)
    ensures (v.Int? || v.Uint?) ==> (Emit(v, env) == Aborted([], InvalidNumber) <==> |v.data| > 32)
    ensures v.FixedBytes? ==> (Emit(v, env) == Aborted([], InvalidFixedBytes) <==> |v.data| > 32)
  {
    match v
    case Bool(b) =>
      if b == 0 || b == 1 {
        NumberWordUnsignedValue([b]);
        assert BigEndian([b]) == b as nat by {
          assert [b][..0] == [];
        }
      }
    case Address(a) =>
      NumberWordUnsignedValue(a);
      assert Emit(v, env).bytes[..12] == Zeros(12);
    case Uint(data) =>
      if |data| <= 32 { NumberWordUnsignedValue(data); }
    case Int(data) =>
      if 1 <= |data| <= 32 { NumberWordSignedValue(data); }
    case _ =>
  }

  /** `encodeData` of a struct completes exactly when its type hash resolves
      and every field's walk completes. */
  lemma EncodeDataShape(s: StructValue, env: Env)
    ensures EncodeData(s, env).Complete? <==>
              FetchHash(s.typeHash, env.chain).Ok?
              && forall k :: 0 <= k < |s.values| ==> EmitItem(s.values[k], env).Complete?
  {
    EmitAllCompletes(s.values, 0, env);
  }

  // ---------------------------------------------------------------------
  // The imperative encoder

  /** `encode_number`: feeds `NumberWord(n, signed)`, or nothing on `InvalidNumber`. */
  method EncodeNumber(hasher: Hasher, n: seq<byte>, signed: bool) returns (r: Result<(), Error>)
    requires signed ==> |n| >= 1
    modifies hasher
    ensures r == Status(FromWord(NumberWord(n, signed)))
    ensures hasher.input == old(hasher.input) + FromWord(NumberWord(n, signed)).bytes
  {
    if |n| > 32 {
      return Err(InvalidNumber);
    }
    var fill: byte := if signed then (if TopBitSet(n[0]) then 0xFF else 0) else 0;
    var data := new byte[32](_ => fill);
    forall k | 0 <= k < |n| {
      data[32 - |n| + k] := n[k];
    }
    assert data[..] == NumberWord(n, signed).value;
    hasher.Update(data[..]);
    return Ok(());
  }

  /** The `FixedBytes` arm of `encode_value`. */
  method EncodeFixedBytes(hasher: Hasher, f: seq<byte>) returns (r: Result<(), Error>)
    modifies hasher
    ensures r == Status(FromWord(FixedBytesWord(f)))
    ensures hasher.input == old(hasher.input) + FromWord(FixedBytesWord(f)).bytes
  {
    if |f| > 32 {
      return Err(InvalidFixedBytes);
    }
    var data := new byte[32](_ => 0);
    forall k | 0 <= k < |f| {
      data[k] := f[k];
    }
    assert data[..] == FixedBytesWord(f).value;
    hasher.Update(data[..]);
    return Ok(());
  }

  /** Keccak256 of raw content, as the `Bytes` and `String` arms compute it. */
  method KeccakOf(data: seq<byte>, env: Env) returns (h: Bytes32)
    ensures h == env.keccak(data)
  {
    var hasher := new Hasher(env.keccak);
    assert hasher.digest == env.keccak;
    hasher.Update(data);
    assert hasher.input == data;
    h := hasher.Finalize();
    assert h == hasher.digest(hasher.input);
  }

  /** `encode_value`: feeds `Emit(v, env)` into `hasher`, on every value
      whose walk does not reach the out-of-bounds read. */
  method EncodeValue(hasher: Hasher, v: Value, env: Env) returns (r: Result<(), Error>)
    requires !Emit(v, env).Panicked?
    modifies hasher
    ensures r == Status(Emit(v, env))
    ensures hasher.input == old(hasher.input) + Emit(v, env).bytes
    decreases v, 1
  {
    match v
    case Struct(s) =>
      var h := HashStruct(s, env);
      if h.Err? {
        return Err(h.error);
      }
      hasher.Update(h.value);
      r := Ok(());
    case Array(items) =>
      r := EncodeItems(hasher, items, env);
    case Bool(b) =>
      if b != 0 && b != 1 {
        return Err(InvalidBool);
      }
      r := EncodeNumber(hasher, [b], false);
    case Bytes(data) =>
      var h := KeccakOf(data, env);
      hasher.Update(h);
      r := Ok(());
    case String(data) =>
      var h := KeccakOf(data, env);
      hasher.Update(h);
      r := Ok(());
    case Address(a) =>
      r := EncodeNumber(hasher, a, false);
    case FixedBytes(data) =>
      r := EncodeFixedBytes(hasher, data);
    case Int(data) =>
      r := EncodeNumber(hasher, data, true);
    case Uint(data) =>
      r := EncodeNumber(hasher, data, false);
  }

  /** The loop shared by `encode_value` on an array and by `hash_struct`:
      decodes and encodes each element in turn, stopping at the first error. */
  method EncodeItems(hasher: Hasher, items: seq<Item>, env: Env) returns (r: Result<(), Error>)
    requires !EmitAll(items, 0, env).Panicked?
    modifies hasher
    ensures r == Status(EmitAll(items, 0, env))
    ensures hasher.input == old(hasher.input) + EmitAll(items, 0, env).bytes
    decreases items, 0
  {
    ghost var fed: seq<byte> := [];
    AfterNothing(EmitAll(items, 0, env));
    for i := 0 to |items|
      invariant EmitAll(items, 0, env) == After(fed, EmitAll(items, i, env))
      invariant hasher.input == old(hasher.input) + fed
    {
      ghost var step := EmitItem(items[i], env);
      var e := EncodeItem(hasher, items[i], env);
      assert hasher.input == old(hasher.input) + (fed + step.bytes) by {
        AppendAssoc(old(hasher.input), fed, step.bytes);
      }
      if e.Err? {
        return e;
      }
      AfterAfter(fed, step.bytes, EmitAll(items, i + 1, env));
      fed := fed + step.bytes;
    }
    assert fed + [] == fed;
    r := Ok(());
  }

  /** One element: `ValueReader::from_slice` on its bytes, then `encode_value`. */
  method EncodeItem(hasher: Hasher, item: Item, env: Env) returns (r: Result<(), Error>)
    requires !EmitItem(item, env).Panicked?
    modifies hasher
    ensures r == Status(EmitItem(item, env))
    ensures hasher.input == old(hasher.input) + EmitItem(item, env).bytes
    decreases item, 2
  {
    match item
    case Malformed =>
      r := Err(MoleculeEncoding);
    case Item(x) =>
      r := EncodeValue(hasher, x, env);
  }

  /** `hash_struct`: Keccak256 of the struct's `encodeData`. */
  method HashStruct(s: StructValue, env: Env) returns (r: Result<Bytes32, Error>)
    requires !StructHash(s, env).Panicked?
    ensures r.Ok? <==> StructHash(s, env).Complete?
    ensures r.Ok? ==> r.value == StructHash(s, env).bytes
    ensures r.Err? ==> r.error == StructHash(s, env).error
    decreases s, 2
  {
    var hasher := new Hasher(env.keccak);
    var th := FetchHash(s.typeHash, env.chain);
    if th.Err? {
      return Err(th.error);
    }
    hasher.Update(th.value);
    ghost var body := EmitAll(s.values, 0, env);
    assert EncodeData(s, env) == After(th.value, body);
    var e := EncodeItems(hasher, s.values, env);
    if e.Err? {
      assert body.Aborted? && e.error == body.error;
      return Err(e.error);
    }
    assert body.Complete? && hasher.input == th.value + body.bytes;
    assert EncodeData(s, env) == Complete(hasher.input);
    var result := hasher.Finalize();
    assert result == hasher.digest(hasher.input);
    return Ok(result);
  }

  /** `build_typed_message_hash`. */
  method BuildTypedMessageHash(m: TypedMessage, env: Env) returns (r: Result<Bytes32, Error>)
    requires !TypedMessagePreimage(m, env).Panicked?
    ensures r.Ok? <==> TypedMessagePreimage(m, env).Complete?
    ensures r.Ok? ==> r.value == env.keccak(TypedMessagePreimage(m, env).bytes)
    ensures r.Err? ==> r.error == TypedMessagePreimage(m, env).error
  {
    var hasher := new Hasher(env.keccak);
    hasher.Update([0x19, 0x01]);
    var domain := FetchHash(m.domainSeparator, env.chain);
    if domain.Err? {
      return Err(domain.error);
    }
    hasher.Update(domain.value);
    var h := HashStruct(m.message, env);
    if h.Err? {
      return Err(h.error);
    }
    hasher.Update(h.value);
    assert hasher.input == [0x19, 0x01] + domain.value + h.value;
    var result := hasher.Finalize();
    assert result == hasher.digest(hasher.input);
    return Ok(result);
  }
}

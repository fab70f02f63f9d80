/** Layout of the liquidationCall calldata (internal/liquidation/executor/executor.go, BuildLiquidationCalldata),
    against the Solidity Contract ABI Specification, "Formal Specification of the Encoding". */
module Calldata {
  import opened Options
  import opened Addresses

  type Byte = b: int | 0 <= b < 256

  function Pow256(n: nat): (p: int)
    ensures 0 < p
  {
    if n == 0 then 1 else 256 * Pow256(n - 1)
  }

  // ---------- Big-endian numbers ----------

  /** The shortest big-endian form, as big.Int.Bytes gives it; zero has none. */
  function ToBytes(n: nat): seq<Byte> {
    if n == 0 then [] else ToBytes(n / 256) + [n % 256]
  }

  /** As big.Int.SetBytes reads them, for instance in the event parser. */
  function FromBytes(bs: seq<Byte>): nat {
    if bs == [] then 0 else 256 * FromBytes(bs[..|bs| - 1]) + bs[|bs| - 1]
  }

  function Zeros(n: nat): (z: seq<Byte>)
    ensures |z| == n
  {
    seq(n, _ => 0)
  }

  /** n in exactly k bytes. */
  function Padded(bs: seq<Byte>, k: nat): (r: seq<Byte>)
    requires |bs| <= k
    ensures |r| == k
  {
    Zeros(k - |bs|) + bs
  }

  lemma {:induction false} BytesRoundTrip(n: nat)
    ensures FromBytes(ToBytes(n)) == n
  {
    if n > 0 {
      BytesRoundTrip(n / 256);
      assert ToBytes(n)[..|ToBytes(n)| - 1] == ToBytes(n / 256);
    }
  }

  lemma {:induction false} FromBytesBelow(bs: seq<Byte>)
    ensures FromBytes(bs) < Pow256(|bs|)
  {
    if bs != [] {
      FromBytesBelow(bs[..|bs| - 1]);
    }
  }

  /** k bytes are enough exactly for the numbers below 256^k. */
  lemma {:induction false} BytesFitIff(n: nat, k: nat)
    ensures |ToBytes(n)| <= k <==> n < Pow256(k)
  {
    if n > 0 && k > 0 {
      BytesFitIff(n / 256, k - 1);
    }
  }

  /** Leading zeros do not change a number. */
  lemma {:induction false} PaddingKeepsValue(z: nat, bs: seq<Byte>)
    ensures FromBytes(Zeros(z) + bs) == FromBytes(bs)
  {
    var all := Zeros(z) + bs;
    if bs != [] {
      PaddingKeepsValue(z, bs[..|bs| - 1]);
      assert all[..|all| - 1] == Zeros(z) + bs[..|bs| - 1];
    } else if z > 0 {
      PaddingKeepsValue(z - 1, []);
      assert all[..|all| - 1] == Zeros(z - 1) + [];
    }
  }

  lemma AddressLimitIs20Bytes()
    ensures Pow256(20) == ADDRESS_LIMIT
  {
    assert Pow256(4) == 0x1_0000_0000;
    assert Pow256(8) == 0x1_0000_0000 * 0x1_0000_0000;
    assert Pow256(12) == 0x1_0000_0000 * Pow256(8);
    assert Pow256(16) == 0x1_0000_0000 * Pow256(12);
    assert Pow256(20) == 0x1_0000_0000 * Pow256(16);
  }

  // ---------- The layout ----------

  const CALL_LENGTH: nat := 4 + 32 * 5

  /** A four-byte function selector: the head of a Keccak hash, whose value plays no part here. */
  type Selector = s: seq<Byte> | |s| == 4 witness [0, 0, 0, 0]

  function AddressBytes(a: Address): (r: seq<Byte>)
    ensures |r| == 20 && FromBytes(r) == a
  {
    AddressLimitIs20Bytes();
    BytesFitIff(a, 20);
    BytesRoundTrip(a);
    PaddingKeepsValue(20 - |ToBytes(a)|, ToBytes(a));
    Padded(ToBytes(a), 20)
  }

  function Magnitude(amount: int): nat {
    if amount < 0 then -amount else amount
  }

  /** Beyond this the source's slice bounds fail. */
  predicate Writable(amount: int) {
    |ToBytes(Magnitude(amount))| <= 4 + 128
  }

  function Overwritten(base: seq<Byte>, at: nat, bytes: seq<Byte>): (r: seq<Byte>)
    requires at + |bytes| <= |base|
    ensures |r| == |base|
  {
    base[..at] + bytes + base[at + |bytes|..]
  }

  /** The selector and the three addresses. */
  function LayoutHead(selector: Selector, collateral: Address, debt: Address, borrower: Address): (data: seq<Byte>)
    ensures |data| == CALL_LENGTH
  {
    var head := Overwritten(Zeros(CALL_LENGTH), 0, selector);
    var first := Overwritten(head, 4 + 12, AddressBytes(collateral));
    var second := Overwritten(first, 4 + 32 + 12, AddressBytes(debt));
    Overwritten(second, 4 + 64 + 12, AddressBytes(borrower))
  }

  /** The amount ends where its word ends and may start before it; then the boolean. */
  function WithTail(head: seq<Byte>, amount: int, receive: bool): (data: seq<Byte>)
    requires |head| == CALL_LENGTH && Writable(amount)
    ensures |data| == CALL_LENGTH
  {
    var amountBytes := ToBytes(Magnitude(amount));
    var fourth := Overwritten(head, 4 + 128 - |amountBytes|, amountBytes);
    if receive then Overwritten(fourth, 4 + 128 + 31, [1]) else fourth
  }

  /** What the code writes, in its order. */
  function Layout(selector: Selector, collateral: Address, debt: Address, borrower: Address, amount: int, receive: bool)
    : (data: seq<Byte>)
    requires Writable(amount)
    ensures |data| == CALL_LENGTH
  {
    WithTail(LayoutHead(selector, collateral, debt, borrower), amount, receive)
  }

  method Copy(data: array<Byte>, at: nat, src: seq<Byte>)
    requires at + |src| <= data.Length
    modifies data
    ensures data[..] == Overwritten(old(data[..]), at, src)
  {
    ghost var before := data[..];
    for i := 0 to |src|
      invariant data[..] == Overwritten(before, at, src[..i])
    {
      data[at + i] := src[i];
      assert src[..i + 1] == src[..i] + [src[i]];
    }
    assert src[..|src|] == src;
  }

  method CopyHead(data: array<Byte>, selector: Selector, collateralAsset: Address, debtAsset: Address,
                  borrower: Address)
    requires data[..] == Zeros(CALL_LENGTH)
    modifies data
    ensures data[..] == LayoutHead(selector, collateralAsset, debtAsset, borrower)
  {
    Copy(data, 0, selector);
    Copy(data, 4 + 12, AddressBytes(collateralAsset));
    Copy(data, 4 + 32 + 12, AddressBytes(debtAsset));
    Copy(data, 4 + 64 + 12, AddressBytes(borrower));
  }

  method CopyTail(data: array<Byte>, debtAmount: int, receiveAToken: bool)
    requires data.Length == CALL_LENGTH && Writable(debtAmount)
    modifies data
    ensures data[..] == WithTail(old(data[..]), debtAmount, receiveAToken)
  {
    var debtBytes := ToBytes(Magnitude(debtAmount));
    Copy(data, 4 + 128 - |debtBytes|, debtBytes);
    if receiveAToken {
      Copy(data, 4 + 128 + 31, [1]);
    }
  }

  method BuildLiquidationCalldata(selector: Selector, collateralAsset: Address, debtAsset: Address, borrower: Address,
                                  debtAmount: int, receiveAToken: bool)
    returns (data: array<Byte>)
    requires Writable(debtAmount)
    ensures fresh(data) && data[..] == Layout(selector, collateralAsset, debtAsset, borrower, debtAmount, receiveAToken)
  {
    data := new Byte[CALL_LENGTH](_ => 0);
    assert data[..] == Zeros(CALL_LENGTH);
    CopyHead(data, selector, collateralAsset, debtAsset, borrower);
    CopyTail(data, debtAmount, receiveAToken);
  }

  // ---------- The ABI's own view ----------

  const WORD_LIMIT: int := Pow256(32)

  /** uint256: 32 bytes, big-endian. Addresses and booleans are encoded as the number they are. */
  function Word(n: nat): (w: seq<Byte>)
    requires n < WORD_LIMIT
    ensures |w| == 32 && FromBytes(w) == n
  {
    BytesFitIff(n, 32);
    BytesRoundTrip(n);
    PaddingKeepsValue(32 - |ToBytes(n)|, ToBytes(n));
    Padded(ToBytes(n), 32)
  }

  datatype CallArgs = CallArgs(collateral: Address, debt: Address, borrower: Address, amount: int, receive: bool)

  /** Word k of the argument block. */
  function WordAt(data: seq<Byte>, k: nat): seq<Byte>
    requires k < 5 && |data| == CALL_LENGTH
  {
    data[4 + 32 * k..4 + 32 * k + 32]
  }

  /** A strict ABI decoder: the selector must match, addresses must fit 20 bytes, a boolean must be 0 or 1. */
  function DecodeCall(selector: Selector, data: seq<Byte>): Option<CallArgs> {
    if |data| != CALL_LENGTH || data[..4] != selector then None
    else
      var c, d, b := FromBytes(WordAt(data, 0)), FromBytes(WordAt(data, 1)), FromBytes(WordAt(data, 2));
      var amount, receive := FromBytes(WordAt(data, 3)), FromBytes(WordAt(data, 4));
      if c >= ADDRESS_LIMIT || d >= ADDRESS_LIMIT || b >= ADDRESS_LIMIT || receive > 1 then None
      else Some(CallArgs(c, d, b, amount, receive == 1))
  }

  /** Writing into the zeros after a finished prefix. */
  lemma FillZeros(done: seq<Byte>, n: nat, skip: nat, bytes: seq<Byte>)
    requires skip + |bytes| <= n
    ensures Overwritten(done + Zeros(n), |done| + skip, bytes)
            == done + (Zeros(skip) + bytes) + Zeros(n - skip - |bytes|)
  {
  }

  /** The selector and one word for each address. */
  function HeadWords(selector: Selector, c: Address, d: Address, b: Address): (head: seq<Byte>)
    ensures |head| == 4 + 96
  {
    selector + (Zeros(12) + AddressBytes(c)) + (Zeros(12) + AddressBytes(d)) + (Zeros(12) + AddressBytes(b))
  }

  lemma HeadInWords(selector: Selector, c: Address, d: Address, b: Address)
    ensures LayoutHead(selector, c, d, b) == HeadWords(selector, c, d, b) + Zeros(64)
  {
    var s0: seq<Byte> := selector;
    FillZeros([], CALL_LENGTH, 0, selector);
    assert [] + Zeros(CALL_LENGTH) == Zeros(CALL_LENGTH) && [] + (Zeros(0) + selector) == s0;
    FillZeros(s0, 160, 12, AddressBytes(c));
    var s1 := s0 + (Zeros(12) + AddressBytes(c));
    FillZeros(s1, 128, 12, AddressBytes(d));
    FillZeros(s1 + (Zeros(12) + AddressBytes(d)), 96, 12, AddressBytes(b));
  }

  /** The boolean's word: zeros, whose last byte the code may set. */
  lemma LastWord(done: seq<Byte>, receive: bool)
    ensures (if receive then Overwritten(done + Zeros(32), |done| + 31, [1]) else done + Zeros(32))
            == done + (Zeros(31) + [if receive then 1 else 0])
  {
    if receive {
      FillZeros(done, 32, 31, [1]);
      assert Zeros(0) == [];
    } else {
      assert Zeros(32) == Zeros(31) + [0];
    }
  }

  lemma AmountWord(head: seq<Byte>, amount: nat)
    requires amount < WORD_LIMIT
    ensures |ToBytes(amount)| <= 32
    ensures Overwritten(head + Zeros(64), |head| + (32 - |ToBytes(amount)|), ToBytes(amount))
            == head + Word(amount) + Zeros(32)
  {
    BytesFitIff(amount, 32);
    FillZeros(head, 64, 32 - |ToBytes(amount)|, ToBytes(amount));
  }

  /** The words the code writes: selector, then each argument right-aligned in 32 bytes. */
  lemma LayoutInWords(selector: Selector, c: Address, d: Address, b: Address, amount: nat, receive: bool)
    requires amount < WORD_LIMIT
    ensures |ToBytes(amount)| <= 32 && Writable(amount)
    ensures Layout(selector, c, d, b, amount, receive)
            == HeadWords(selector, c, d, b) + Word(amount) + (Zeros(31) + [if receive then 1 else 0])
  {
    HeadInWords(selector, c, d, b);
    var head := HeadWords(selector, c, d, b);
    AmountWord(head, amount);
    LastWord(head + Word(amount), receive);
  }

  /** Read where the ABI puts it, every argument is the number it was. */
  lemma ArgumentsInPlace(selector: Selector, c: Address, d: Address, b: Address, amount: nat, receive: bool)
    requires amount < WORD_LIMIT
    ensures Writable(amount)
    ensures var data := Layout(selector, c, d, b, amount, receive);
            && |data| == 164 && data[0..4] == selector
            && FromBytes(data[4..36]) == c && FromBytes(data[36..68]) == d && FromBytes(data[68..100]) == b
            && FromBytes(data[100..132]) == amount && FromBytes(data[132..164]) == if receive then 1 else 0
  {
    LayoutInWords(selector, c, d, b, amount, receive);
    WordsApart(selector, Zeros(12) + AddressBytes(c), Zeros(12) + AddressBytes(d), Zeros(12) + AddressBytes(b),
               Word(amount), Zeros(31) + [if receive then 1 else 0]);
    PaddingKeepsValue(12, AddressBytes(c));
    PaddingKeepsValue(12, AddressBytes(d));
    PaddingKeepsValue(12, AddressBytes(b));
    PaddingKeepsValue(31, [if receive then 1 else 0]);
    OneByte(if receive then 1 else 0);
  }

  lemma WordsApart(selector: Selector, w0: seq<Byte>, w1: seq<Byte>, w2: seq<Byte>, w3: seq<Byte>, w4: seq<Byte>)
    requires |w0| == |w1| == |w2| == |w3| == |w4| == 32
    ensures var data := selector + w0 + w1 + w2 + w3 + w4;
            && |data| == CALL_LENGTH && data[..4] == selector
            && WordAt(data, 0) == w0 && WordAt(data, 1) == w1 && WordAt(data, 2) == w2
            && WordAt(data, 3) == w3 && WordAt(data, 4) == w4
  {
  }

  /** Any amount word decodes below 2^256. */
  lemma DecodedAmountFits(selector: Selector, data: seq<Byte>)
    requires DecodeCall(selector, data).Some?
    ensures 0 <= DecodeCall(selector, data).value.amount < WORD_LIMIT
  {
    FromBytesBelow(WordAt(data, 3));
  }

  /** Decoding returns exactly the five arguments if and only if the amount is a uint256:
      a negative amount loses its sign, and a larger one overwrites the borrower. */
  lemma CalldataRoundTrip(selector: Selector, c: Address, d: Address, b: Address, amount: int, receive: bool)
    requires Writable(amount)
    ensures DecodeCall(selector, Layout(selector, c, d, b, amount, receive)) == Some(CallArgs(c, d, b, amount, receive))
            <==> 0 <= amount < WORD_LIMIT
  {
    var data := Layout(selector, c, d, b, amount, receive);
    if 0 <= amount < WORD_LIMIT {
      ArgumentsInPlace(selector, c, d, b, amount, receive);
    } else if DecodeCall(selector, data).Some? {
      DecodedAmountFits(selector, data);
    }
  }

  lemma OneByte(b: Byte)
    ensures FromBytes([b]) == b
  {
    assert [b][..0] == [];
  }

  /** So two calls with uint256 amounts have the same calldata only if all their arguments agree. */
  lemma CalldataInjective(selector: Selector, a1: CallArgs, a2: CallArgs)
    requires 0 <= a1.amount < WORD_LIMIT && 0 <= a2.amount < WORD_LIMIT
    ensures Writable(a1.amount) && Writable(a2.amount)
    ensures a1 != a2 ==> Layout(selector, a1.collateral, a1.debt, a1.borrower, a1.amount, a1.receive)
                         != Layout(selector, a2.collateral, a2.debt, a2.borrower, a2.amount, a2.receive)
  {
    BytesFitIff(a1.amount, 32);
    BytesFitIff(a2.amount, 32);
    CalldataRoundTrip(selector, a1.collateral, a1.debt, a1.borrower, a1.amount, a1.receive);
    CalldataRoundTrip(selector, a2.collateral, a2.debt, a2.borrower, a2.amount, a2.receive);
  }
}

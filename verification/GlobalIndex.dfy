/** The global index of a deposit: a mainnet flag, a rollup index and a local index packed into bytes. */
module GlobalIndex {

  type Byte = b: nat | b < 256

  const WORD: nat := 0x1_0000_0000
  const FLAG: nat := 0x1_0000_0000_0000_0000
  /** 32 bytes. */
  const LIMIT: nat := 0x1_0000_0000_0000_0000_0000_0000_0000_0000_0000_0000_0000_0000_0000_0000_0000_0000

  /** `n` shifted right by `k` bytes. */
  function Shift(n: nat, k: nat): nat {
    if k == 0 then n else Shift(n / 256, k - 1)
  }

  /** Big-endian bytes, `big.Int.FillBytes`. */
  function FillBytes(n: nat, width: nat): (bytes: seq<Byte>)
    ensures |bytes| == width
  {
    if width == 0 then [] else FillBytes(n / 256, width - 1) + [n % 256]
  }

  /** `big.Int.SetBytes`. */
  function SetBytes(bytes: seq<Byte>): nat {
    if bytes == [] then 0 else 256 * SetBytes(bytes[..|bytes| - 1]) + bytes[|bytes| - 1]
  }

  /** `DecodeGlobalIndex`; the source panics on more than 32 bytes. */
  function DecodeGlobalIndex(globalIndex: nat): (bool, nat, nat)
    requires globalIndex < LIMIT
  {
    var bytes := FillBytes(globalIndex, 32);
    (SetBytes([bytes[23]]) == 1, SetBytes(bytes[24..28]), SetBytes(bytes[28..32]))
  }

  lemma {:induction false} ByteAt(n: nat, width: nat, k: nat)
    requires k < width
    ensures FillBytes(n, width)[width - 1 - k] == Shift(n, k) % 256
  {
    if k > 0 {
      ByteAt(n / 256, width - 1, k - 1);
    }
  }

  function Word(a: nat, b: nat, c: nat, d: nat): nat {
    0x100_0000 * a + 0x1_0000 * b + 0x100 * c + d
  }

  /** Four base-256 digits of a number make up its remainder. */
  lemma WordOfDigits(x: nat)
    ensures Word(x / 256 / 256 / 256 % 256, x / 256 / 256 % 256, x / 256 % 256, x % 256) == x % WORD
  {
    var x1 := x / 256;
    var x2 := x1 / 256;
    var x3 := x2 / 256;
    var x4 := x3 / 256;
    var low := Word(x3 % 256, x2 % 256, x1 % 256, x % 256);
    assert x == WORD * x4 + low && low < WORD;
    assert x / WORD == x4;
  }

  lemma FourBytes(bytes: seq<Byte>)
    requires |bytes| == 4
    ensures SetBytes(bytes) == Word(bytes[0], bytes[1], bytes[2], bytes[3])
  {
    assert bytes[..3][..2] == bytes[..2] && bytes[..2][..1] == bytes[..1] && bytes[..1][..0] == [];
    assert SetBytes(bytes[..1]) == bytes[0];
    assert SetBytes(bytes[..2]) == 256 * SetBytes(bytes[..1]) + bytes[1];
    assert SetBytes(bytes[..3]) == 256 * SetBytes(bytes[..2]) + bytes[2];
  }

  lemma {:induction false} ShiftMore(n: nat, k: nat)
    ensures Shift(n, k + 1) == Shift(n, k) / 256
  {
    if k > 0 {
      ShiftMore(n / 256, k - 1);
    }
  }

  lemma FourDigits(n: nat, width: nat, k: nat)
    requires k + 4 <= width
    ensures var four, x := FillBytes(n, width)[width - k - 4..width - k], Shift(n, k);
      four == [x / 256 / 256 / 256 % 256, x / 256 / 256 % 256, x / 256 % 256, x % 256]
  {
    ByteAt(n, width, k);
    ByteAt(n, width, k + 1);
    ByteAt(n, width, k + 2);
    ByteAt(n, width, k + 3);
    ShiftMore(n, k);
    ShiftMore(n, k + 1);
    ShiftMore(n, k + 2);
  }

  /** Four bytes of a number, `k` bytes from its end, are those 32 bits of it. */
  lemma WordAt(n: nat, width: nat, k: nat)
    requires k + 4 <= width
    ensures SetBytes(FillBytes(n, width)[width - k - 4..width - k]) == Shift(n, k) % WORD
  {
    FourDigits(n, width, k);
    FourBytes(FillBytes(n, width)[width - k - 4..width - k]);
    WordOfDigits(Shift(n, k));
  }

  lemma ShiftWords(n: nat)
    ensures Shift(n, 4) == n / WORD && Shift(n, 8) == n / FLAG
  {
    ShiftMore(n, 0);
    ShiftMore(n, 1);
    ShiftMore(n, 2);
    ShiftMore(n, 3);
    ShiftMore(n, 4);
    ShiftMore(n, 5);
    ShiftMore(n, 6);
    ShiftMore(n, 7);
  }

  /** Decoding reads the two low words and one byte above them, and ignores everything higher. */
  lemma DecodeReads(g: nat)
    requires g < LIMIT
    ensures DecodeGlobalIndex(g) == ((g / FLAG) % 256 == 1, (g / WORD) % WORD, g % WORD)
  {
    ShiftWords(g);
    ByteAt(g, 32, 8);
    WordAt(g, 32, 4);
    WordAt(g, 32, 0);
    var flag := FillBytes(g, 32)[23];
    assert SetBytes([flag]) == flag by {
      assert [flag][..0] == [];
    }
  }

  /** The number the packed bytes spell. */
  function Packed(mainnetFlag: bool, rollupIndex: nat, localExitRootIndex: nat): nat {
    (if mainnetFlag then FLAG else WORD * rollupIndex) + localExitRootIndex
  }

  lemma WholeWord(n: nat)
    requires n < WORD
    ensures SetBytes(FillBytes(n, 4)) == n
  {
    WordAt(n, 4, 0);
    assert FillBytes(n, 4)[0..4] == FillBytes(n, 4);
  }

  lemma AppendWord(high: seq<Byte>, low: seq<Byte>)
    requires |low| == 4
    ensures SetBytes(high + low) == WORD * SetBytes(high) + SetBytes(low)
  {
    var all := high + low;
    var n := |all|;
    assert all[..n - 1][..n - 2] == all[..n - 2] && all[..n - 2][..n - 3] == all[..n - 3];
    assert all[..n - 3][..n - 4] == high;
    FourBytes(low);
    assert SetBytes(all[..n - 3]) == 256 * SetBytes(high) + low[0];
    assert SetBytes(all[..n - 2]) == 256 * SetBytes(all[..n - 3]) + low[1];
    assert SetBytes(all[..n - 1]) == 256 * SetBytes(all[..n - 2]) + low[2];
  }

  method GenerateGlobalIndex(mainnetFlag: bool, rollupIndex: nat, localExitRootIndex: nat) returns (globalIndex: nat)
    requires rollupIndex < WORD && localExitRootIndex < WORD
    ensures globalIndex == Packed(mainnetFlag, rollupIndex, localExitRootIndex)
  {
    var bytes: seq<Byte> := [];
    if mainnetFlag {
      bytes := bytes + [1];
      bytes := bytes + FillBytes(0, 4);
    } else {
      bytes := bytes + FillBytes(rollupIndex, 4);
    }
    var high := bytes;
    var low := FillBytes(localExitRootIndex, 4);
    bytes := bytes + low;
    globalIndex := SetBytes(bytes);
    WholeWord(localExitRootIndex);
    AppendWord(high, low);
    if mainnetFlag {
      assert high == [1] + FillBytes(0, 4);
      AppendWord([1], FillBytes(0, 4));
      WholeWord(0);
      assert SetBytes([1]) == 1 by {
        assert [1][..0] == [];
      }
    } else {
      assert high == FillBytes(rollupIndex, 4);
      WholeWord(rollupIndex);
    }
  }

  lemma PackedParts(mainnetFlag: bool, rollupIndex: nat, localExitRootIndex: nat)
    requires rollupIndex < WORD && localExitRootIndex < WORD
    ensures var g := Packed(mainnetFlag, rollupIndex, localExitRootIndex);
      g < 2 * FLAG && g / FLAG == (if mainnetFlag then 1 else 0) && g % WORD == localExitRootIndex
      && g / WORD % WORD == if mainnetFlag then 0 else rollupIndex
  {
    var g := Packed(mainnetFlag, rollupIndex, localExitRootIndex);
    if mainnetFlag {
      assert g / WORD == WORD;
    } else {
      assert g / WORD == rollupIndex;
    }
  }

  /** Decoding undoes generation; for mainnet the rollup index is not kept. */
  lemma DecodeGenerated(mainnetFlag: bool, rollupIndex: nat, localExitRootIndex: nat)
    requires rollupIndex < WORD && localExitRootIndex < WORD
    ensures Packed(mainnetFlag, rollupIndex, localExitRootIndex) < 2 * FLAG
    ensures DecodeGlobalIndex(Packed(mainnetFlag, rollupIndex, localExitRootIndex))
         == (mainnetFlag, if mainnetFlag then 0 else rollupIndex, localExitRootIndex)
  {
    PackedParts(mainnetFlag, rollupIndex, localExitRootIndex);
    DecodeReads(Packed(mainnetFlag, rollupIndex, localExitRootIndex));
  }

  /** Generation undoes decoding on exactly the indices that can be generated. */
  lemma GenerateDecoded(g: nat)
    requires g < LIMIT
    ensures var (mainnetFlag, rollupIndex, localExitRootIndex) := DecodeGlobalIndex(g);
      Packed(mainnetFlag, rollupIndex, localExitRootIndex) == g <==> g < FLAG + WORD
  {
    DecodeReads(g);
    if g < FLAG {
      assert g / FLAG == 0 && g / WORD < WORD;
    }
  }
}

/**
 * The two textual converters of the IPv4 calculator: `bin_to_decimal_address`
 * turns a dotted string of bit blocks into dotted decimal, and
 * `invert_bin_address` swaps every '0' and '1' of such a string.
 */
module IpCalc {
  import opened PyStr

  // ---------------------------------------------------------------------------
  // The value of one bit block
  // ---------------------------------------------------------------------------

  function Pow2(k: nat): (r: nat)
    ensures r >= 1
  {
    if k == 0 then 1 else 2 * Pow2(k - 1)
  }

  function Bit(c: char): nat
  {
    if c == '1' then 1 else 0
  }

  /**
   * The value of a block: the sum of 2^power over the positions holding '1',
   * the power counted from the rightmost character as 0. Every other
   * character counts as a zero bit. It is below 2^|block|.
   */
  function BinValue(block: string): (v: nat)
    ensures v < Pow2(|block|)
    decreases |block|
  {
    if block == [] then 0
    else (if block[0] == '1' then Pow2(|block| - 1) else 0) + BinValue(block[1..])
  }

  /** Reference reading of a binary numeral, most significant bit first (Horner's rule). */
  function HornerValue(block: string): nat
    decreases |block|
  {
    if block == [] then 0
    else 2 * HornerValue(block[..|block| - 1]) + Bit(block[|block| - 1])
  }

  /** Appending a bit doubles the value and adds the bit. */
  lemma {:induction false} BinValueAppend(block: string, c: char)
    ensures BinValue(block + [c]) == 2 * BinValue(block) + Bit(c)
    decreases |block|
  {
    if block != [] {
      assert (block + [c])[1..] == block[1..] + [c];
      BinValueAppend(block[1..], c);
    }
  }

  /** The positional sum is the ordinary value of the binary numeral. */
  lemma {:induction false} BinValueIsHorner(block: string)
    ensures BinValue(block) == HornerValue(block)
    decreases |block|
  {
    if block != [] {
      var n := |block| - 1;
      BinValueIsHorner(block[..n]);
      BinValueAppend(block[..n], block[n]);
      assert block[..n] + [block[n]] == block;
    }
  }

  /** Only the positions of the '1's matter: any other character adds nothing. */
  lemma {:induction false} BinValueOnlyOnes(a: string, b: string)
    requires |a| == |b|
    requires forall i :: 0 <= i < |a| ==> (a[i] == '1' <==> b[i] == '1')
    ensures BinValue(a) == BinValue(b)
    decreases |a|
  {
    if a != [] {
      BinValueOnlyOnes(a[1..], b[1..]);
    }
  }

  /** The block of `n` '1's. */
  function Ones(n: nat): string
  {
    seq(n, _ => '1')
  }

  /** A block of n '1's is worth 2^n - 1. */
  lemma {:induction false} BinValueOnes(n: nat)
    ensures BinValue(Ones(n)) == Pow2(n) - 1
  {
    if n > 0 {
      BinValueOnes(n - 1);
      assert Ones(n)[1..] == Ones(n - 1);
    }
  }

  lemma {:induction false} Pow2Monotone(j: nat, k: nat)
    requires j <= k
    ensures Pow2(j) <= Pow2(k)
    decreases k
  {
    if j < k {
      Pow2Monotone(j, k - 1);
    }
  }

  /** A block of at most eight characters is worth 0 to 255; eight '1's are worth 255. */
  lemma {:induction false} OctetRange(block: string)
    requires |block| <= 8
    ensures 0 <= BinValue(block) <= 255
    ensures block == Ones(8) ==> BinValue(block) == 255
  {
    Pow2Monotone(|block|, 8);
    assert Pow2(8) == 256;
    if block == Ones(8) {
      BinValueOnes(8);
    }
  }

  // ---------------------------------------------------------------------------
  // bin_to_decimal_address
  // ---------------------------------------------------------------------------

  /** The decimal numeral of each block, in order. */
  function DecimalBlocks(blocks: seq<string>): (r: seq<string>)
  {
    seq(|blocks|, i requires 0 <= i < |blocks| => Str(BinValue(blocks[i])))
  }

  /** Every character is a decimal digit or a dot. */
  predicate IsDottedDecimal(s: string)
  {
    forall k :: 0 <= k < |s| ==> IsDigit(s[k]) || s[k] == '.'
  }

  /** Numerals joined with dots make a dotted decimal string. */
  lemma {:induction false} JoinNumerals(blocks: seq<string>)
    requires forall i :: 0 <= i < |blocks| ==> AllDigits(blocks[i])
    ensures IsDottedDecimal(Join(blocks, '.'))
  {
    var r := Join(blocks, '.');
    forall k | 0 <= k < |r|
      ensures IsDigit(r[k]) || r[k] == '.'
    {
      var c := r[k];
      JoinChars(blocks, '.', c);
      if c != '.' {
        var i :| 0 <= i < |blocks| && c in blocks[i];
        var j :| 0 <= j < |blocks[i]| && blocks[i][j] == c;
        assert IsDigit(blocks[i][j]);
      }
    }
  }

  /**
   * What `bin_to_decimal_address` returns for a dotted string of bit blocks:
   * a dotted decimal string, every character of which is a digit or a dot.
   */
  function BinToDecimal(binAddress: string): (r: string)
    ensures IsDottedDecimal(r)
  {
    var blocks := DecimalBlocks(Split(binAddress, '.'));
    JoinNumerals(blocks);
    Join(blocks, '.')
  }

  /**
   * `bin_to_decimal_address`: for every block, walk its characters from the
   * right, adding 2^power for each '1', then print the sum; join the numerals
   * with dots.
   */
  method BinToDecimalAddress(binAddress: string) returns (r: string)
    ensures r == BinToDecimal(binAddress)
  {
    var binBlocks := Split(binAddress, '.');
    var decimalBlocks: seq<string> := [];
    for j := 0 to |binBlocks|
      invariant decimalBlocks == DecimalBlocks(binBlocks[..j])
    {
      var binBlock := binBlocks[j];
      var decimalBlock: nat := 0;
      for power := 0 to |binBlock|
        invariant decimalBlock == BinValue(binBlock[|binBlock| - power..])
      {
        var digit := binBlock[|binBlock| - 1 - power];
        if digit == '1' {
          decimalBlock := decimalBlock + Pow2(power);
        }
        assert binBlock[|binBlock| - 1 - power..][1..] == binBlock[|binBlock| - power..];
      }
      assert binBlock[0..] == binBlock;
      decimalBlocks := decimalBlocks + [Str(decimalBlock)];
      assert binBlocks[..j + 1][..j] == binBlocks[..j];
    }
    assert binBlocks[..|binBlocks|] == binBlocks;
    r := Join(decimalBlocks, '.');
  }

  /** Splitting the output on dots gives back the decimal numerals, one per input block. */
  lemma {:induction false} SplitBinToDecimal(binAddress: string)
    ensures Split(BinToDecimal(binAddress), '.') == DecimalBlocks(Split(binAddress, '.'))
  {
    var blocks := DecimalBlocks(Split(binAddress, '.'));
    forall i | 0 <= i < |blocks|
      ensures '.' !in blocks[i]
    {
      assert AllDigits(blocks[i]);
    }
    SplitJoin(blocks, '.');
  }

  /**
   * Each output block stands for the matching input block: the output has as
   * many blocks as the input, and block `i` is a decimal numeral without
   * leading zeros whose value is the bit sum of input block `i`; a block of
   * value 0 (empty or without a '1') gives "0", so no block is empty.
   */
  lemma {:induction false} BinToDecimalBlock(binAddress: string, i: nat)
    requires i < |Split(binAddress, '.')|
    ensures var ins, outs := Split(binAddress, '.'), Split(BinToDecimal(binAddress), '.');
      && |outs| == |ins|
      && AllDigits(outs[i])
      && (|outs[i]| > 1 ==> outs[i][0] != '0')
      && DecimalValue(outs[i]) == BinValue(ins[i])
      && (BinValue(ins[i]) == 0 ==> outs[i] == "0")
  {
    SplitBinToDecimal(binAddress);
  }

  /** A dotted quad is the four blocks with a dot between neighbours. */
  lemma {:induction false} JoinQuad(a: string, b: string, c: string, d: string)
    ensures Join([a, b, c, d], '.') == a + "." + b + "." + c + "." + d
  {
    assert [c, d][1..] == [d];
    assert Join([c, d], '.') == c + "." + d;
    assert [b, c, d][1..] == [c, d];
    assert Join([b, c, d], '.') == b + "." + c + "." + d;
    assert [a, b, c, d][1..] == [b, c, d];
  }

  /** The documented example: four blocks of eight '1's give "255.255.255.255". */
  lemma AllOnesAddress()
    ensures BinToDecimal("11111111" + "." + "11111111" + "." + "11111111" + "." + "11111111")
         == "255" + "." + "255" + "." + "255" + "." + "255"
  {
    var o := "11111111";
    JoinQuad(o, o, o, o);
    SplitJoin([o, o, o, o], '.');
    var t := Str(BinValue(o));
    assert DecimalBlocks([o, o, o, o]) == [t, t, t, t];
    AllOnesOctet();
    JoinQuad(t, t, t, t);
  }

  /** Eight '1's print as "255". */
  lemma AllOnesOctet()
    ensures Str(BinValue("11111111")) == "255"
  {
    assert "11111111" == Ones(8);
    OctetRange(Ones(8));
    assert Str(255) == "255";
  }

  // ---------------------------------------------------------------------------
  // invert_bin_address
  // ---------------------------------------------------------------------------

  /** The table `str.maketrans("01", "10")` builds: '0' goes to '1' and '1' to '0'. */
  const BitSwap: map<char, char> := map['0' := '1', '1' := '0']

  lemma BitSwapIsMakeTrans()
    ensures MakeTrans("01", "10") == BitSwap
  {
  }

  /**
   * `invert_bin_address`: the translation table {'0' -> '1', '1' -> '0'}
   * applied to every character. The length is kept, '0' and '1' are swapped
   * and every other character, the dots included, stays as it is.
   */
  function Invert(address: string): (r: string)
    ensures |r| == |address|
    ensures forall i :: 0 <= i < |address| && address[i] == '0' ==> r[i] == '1'
    ensures forall i :: 0 <= i < |address| && address[i] == '1' ==> r[i] == '0'
    ensures forall i :: 0 <= i < |address| && address[i] != '0' && address[i] != '1' ==> r[i] == address[i]
  {
    Translate(address, BitSwap)
  }

  /** Inverting twice gives the address back. */
  lemma {:induction false} InvertInvolution(address: string)
    ensures Invert(Invert(address)) == address
  {
  }

  /** Inversion works character by character, so it distributes over concatenation. */
  lemma {:induction false} InvertConcat(a: string, b: string)
    ensures Invert(a + b) == Invert(a) + Invert(b)
  {
  }

  predicate IsBits(block: string)
  {
    forall i :: 0 <= i < |block| ==> block[i] == '0' || block[i] == '1'
  }

  /** The value of `block` with every bit flipped: `2^len - 1` minus its value. */
  function ComplementValue(block: string): nat
  {
    Pow2(|block|) - 1 - BinValue(block)
  }

  /** For a block of '0's and '1's the inverted block is worth 2^|block| - 1 minus the block. */
  lemma {:induction false} InvertBinValue(block: string)
    requires IsBits(block)
    ensures BinValue(Invert(block)) == Pow2(|block|) - 1 - BinValue(block)
    decreases |block|
  {
    if block != [] {
      InvertCons(block);
      InvertBinValue(block[1..]);
    }
  }

  function InvertAll(blocks: seq<string>): (r: seq<string>)
  {
    seq(|blocks|, i requires 0 <= i < |blocks| => Invert(blocks[i]))
  }

  /** Inverting a non-empty string inverts its head and its tail separately. */
  lemma {:induction false} InvertCons(address: string)
    requires address != []
    ensures Invert(address)[1..] == Invert(address[1..])
    ensures Invert(address)[0] == '.' <==> address[0] == '.'
  {
  }

  /** Inverting a dotted string inverts its pieces and keeps the dots between them. */
  lemma {:induction false} InvertJoin(parts: seq<string>)
    ensures Invert(Join(parts, '.')) == Join(InvertAll(parts), '.')
    decreases |parts|
  {
    var iparts := InvertAll(parts);
    if |parts| == 1 {
      assert iparts == [Invert(parts[0])];
    } else if |parts| > 1 {
      var tail := Join(parts[1..], '.');
      InvertConcat(parts[0] + ".", tail);
      InvertConcat(parts[0], ".");
      assert Invert(".") == ".";
      InvertJoin(parts[1..]);
      assert iparts[1..] == InvertAll(parts[1..]);
    }
  }

  /** A string holds a dot exactly when its inversion does. */
  lemma {:induction false} InvertKeepsDots(block: string)
    ensures '.' in Invert(block) <==> '.' in block
  {
  }

  /** Inversion keeps the dots where they are, so it inverts the blocks one by one. */
  lemma {:induction false} InvertSplit(address: string)
    ensures Split(Invert(address), '.') == InvertAll(Split(address, '.'))
  {
    var blocks := Split(address, '.');
    var iblocks := InvertAll(blocks);
    JoinSplit(address, '.');
    InvertJoin(blocks);
    forall i | 0 <= i < |iblocks|
      ensures '.' !in iblocks[i]
    {
      InvertKeepsDots(blocks[i]);
    }
    SplitJoin(iblocks, '.');
  }

  /**
   * Converting an inverted address of bit blocks gives, block by block,
   * 2^|block| - 1 minus the original value: 255 minus it for 8-bit blocks.
   */
  lemma {:induction false} InvertedToDecimal(binAddress: string)
    requires forall i :: 0 <= i < |Split(binAddress, '.')| ==> IsBits(Split(binAddress, '.')[i])
    ensures var ins, outs := Split(binAddress, '.'), Split(BinToDecimal(Invert(binAddress)), '.');
      && |outs| == |ins|
      && forall i :: 0 <= i < |outs| ==>
           && outs[i] == Str(ComplementValue(ins[i]))
           && (|ins[i]| == 8 ==> ComplementValue(ins[i]) == 255 - BinValue(ins[i]))
  {
    InvertSplit(binAddress);
    SplitBinToDecimal(Invert(binAddress));
    InvertedNumerals(Split(binAddress, '.'), Split(BinToDecimal(Invert(binAddress)), '.'));
  }


  /** The numerals `outs` of inverted bit blocks `ins`: `2^len - 1` minus each block's value. */
  lemma {:induction false} InvertedNumerals(ins: seq<string>, outs: seq<string>)
    requires forall i :: 0 <= i < |ins| ==> IsBits(ins[i])
    requires outs == DecimalBlocks(InvertAll(ins))
    ensures |outs| == |ins|
    ensures forall i :: 0 <= i < |outs| ==>
      && outs[i] == Str(ComplementValue(ins[i]))
      && (|ins[i]| == 8 ==> ComplementValue(ins[i]) == 255 - BinValue(ins[i]))
  {
    assert Pow2(8) == 256;
    forall i | 0 <= i < |outs|
      ensures outs[i] == Str(ComplementValue(ins[i]))
    {
      assert outs[i] == Str(BinValue(Invert(ins[i])));
      InvertBinValue(ins[i]);
    }
  }

  /** Inverting a dotted quad inverts its four blocks and keeps the dots. */
  lemma {:induction false} InvertQuad(a: string, b: string, c: string, d: string)
    ensures Invert(a + "." + b + "." + c + "." + d)
         == Invert(a) + "." + Invert(b) + "." + Invert(c) + "." + Invert(d)
  {
  }

  /** The first documented example of `invert_bin_address`, block by block. */
  lemma InvertExampleMask21()
    ensures Invert("11111111" + "." + "11111000" + "." + "00000000" + "." + "00000000")
         == "00000000" + "." + "00000111" + "." + "11111111" + "." + "11111111"
  {
    assert Invert("11111111") == "00000000" && Invert("00000000") == "11111111";
    assert Invert("11111000") == "00000111";
    InvertQuad("11111111", "11111000", "00000000", "00000000");
  }

  /** The second documented example of `invert_bin_address`, block by block. */
  lemma InvertExampleMask28()
    ensures Invert("11111111" + "." + "11111111" + "." + "11111111" + "." + "11110000")
         == "00000000" + "." + "00000000" + "." + "00000000" + "." + "00001111"
  {
    assert Invert("11111111") == "00000000";
    assert Invert("11110000") == "00001111";
    InvertQuad("11111111", "11111111", "11111111", "11110000");
  }
}

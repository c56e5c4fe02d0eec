/** The Equivalent Inverse Cipher of section 5.3.5 of FIPS 197, for any number of rounds. */
module AesCipher {
  import opened Gf256
  import opened AesTables
  import opened AesColumns
  import opened Aes

  // ----- The round transformations and their inverses

  lemma SubBytesInverts(s: Block)
    ensures InvSubBytes(SubBytes(s)) == s && SubBytes(InvSubBytes(s)) == s
  {
    hide SBox, InvSBox;
    forall i | 0 <= i < 16
      ensures InvSBox(SBox(s[i])) == s[i] && SBox(InvSBox(s[i])) == s[i]
    {
      TablesAreInverse(s[i]);
    }
  }

  lemma ShiftRowsInverts(s: Block)
    ensures InvShiftRows(ShiftRows(s)) == s && ShiftRows(InvShiftRows(s)) == s
  {
    hide ShiftRows, InvShiftRows;
    ShiftedBytes(s);
    InvShiftedBytes(ShiftRows(s));
    InvShiftedBytes(s);
    ShiftedBytes(InvShiftRows(s));
  }

  /** Moving bytes around and substituting them can be done in either order. */
  lemma ShiftAndSubCommute(s: Block)
    ensures ShiftRows(SubBytes(s)) == SubBytes(ShiftRows(s))
    ensures InvShiftRows(InvSubBytes(s)) == InvSubBytes(InvShiftRows(s))
  {
    hide SBox, InvSBox;
  }

  lemma MixColumnsInverts(s: Block)
    ensures InvMixColumns(MixColumns(s)) == s && MixColumns(InvMixColumns(s)) == s
  {
    hide Product;
    MixColumnInverts(ColumnOf(s, 0));
    MixColumnInverts(ColumnOf(s, 1));
    MixColumnInverts(ColumnOf(s, 2));
    MixColumnInverts(ColumnOf(s, 3));
    ColumnsOfMultiply(MIX, s);
    ColumnsOfMultiply(INV_MIX, s);
    Reassemble(s);
  }

  lemma ColumnsOfMultiply(k: Column, s: Block)
    ensures forall c :: 0 <= c < 4 ==> ColumnOf(MultiplyColumns(k, s), c) == Product(k, ColumnOf(s, c))
  {
    hide Product;
  }

  /** InvMixColumns distributes over the addition of a round key. */
  lemma InvMixColumnsLinear(s: Block, t: Block)
    ensures InvMixColumns(XorBlock(s, t)) == XorBlock(InvMixColumns(s), InvMixColumns(t))
  {
    hide Product, Xor;
    forall c | 0 <= c < 4
      ensures ColumnOf(XorBlock(s, t), c) == XorColumn(ColumnOf(s, c), ColumnOf(t, c))
      ensures Product(INV_MIX, ColumnOf(XorBlock(s, t), c))
           == XorColumn(Product(INV_MIX, ColumnOf(s, c)), Product(INV_MIX, ColumnOf(t, c)))
    {
      ProductLinear(INV_MIX, ColumnOf(s, c), ColumnOf(t, c), ONE);
    }
  }

  lemma XorBlockCancels(s: Block, k: Block)
    ensures XorBlock(XorBlock(s, k), k) == s
  {
    hide Xor;
    forall i | 0 <= i < 16
      ensures Xor(Xor(s[i], k[i]), k[i]) == s[i]
    {
      XorAssociates(s[i], k[i], k[i]);
      XorCancels(k[i]);
      XorCancels(s[i]);
    }
  }

  // ----- What a round key does

  const NO_KEY: Block := [ZERO, ZERO, ZERO, ZERO, ZERO, ZERO, ZERO, ZERO, ZERO, ZERO, ZERO, ZERO, ZERO, ZERO, ZERO, ZERO]

  lemma KeyedByte(s: Block, k: Block, keyed: Block, i: nat)
    requires i < 16 && keyed == XorBlock(s, k)
    ensures keyed[i].bits == s[i].bits ^ k[i].bits
  {
  }

  /** Every round adds each byte of its key to that byte of what it computes without one. */
  lemma RoundKeysAreAdded(s: Block, k: Block, i: nat)
    requires i < 16
    ensures AesEnc(s, k)[i].bits == AesEnc(s, NO_KEY)[i].bits ^ k[i].bits
    ensures AesEncLast(s, k)[i].bits == AesEncLast(s, NO_KEY)[i].bits ^ k[i].bits
  {
    hide ShiftRows, SubBytes, MixColumns, XorBlock;
    RoundsWithoutKey(s);
    KeyedByte(AesEnc(s, NO_KEY), k, AesEnc(s, k), i);
    KeyedByte(AesEncLast(s, NO_KEY), k, AesEncLast(s, k), i);
  }

  lemma InverseRoundKeysAreAdded(s: Block, k: Block, i: nat)
    requires i < 16
    ensures AesDec(s, k)[i].bits == AesDec(s, NO_KEY)[i].bits ^ k[i].bits
    ensures AesDecLast(s, k)[i].bits == AesDecLast(s, NO_KEY)[i].bits ^ k[i].bits
  {
    hide InvShiftRows, InvSubBytes, InvMixColumns, XorBlock;
    RoundsWithoutKey(s);
    KeyedByte(AesDec(s, NO_KEY), k, AesDec(s, k), i);
    KeyedByte(AesDecLast(s, NO_KEY), k, AesDecLast(s, k), i);
  }

  /** Without a key a round is its transformations in order, and adding a key to nothing leaves the key. */
  lemma RoundsWithoutKey(s: Block)
    ensures AesEnc(s, NO_KEY) == MixColumns(SubBytes(ShiftRows(s)))
    ensures AesEncLast(s, NO_KEY) == SubBytes(ShiftRows(s))
    ensures AesDec(s, NO_KEY) == InvMixColumns(InvSubBytes(InvShiftRows(s)))
    ensures AesDecLast(s, NO_KEY) == InvSubBytes(InvShiftRows(s))
    ensures XorBlock(s, NO_KEY) == s && XorBlock(NO_KEY, s) == s
  {
    hide ShiftRows, SubBytes, InvShiftRows, InvSubBytes, MixColumns, InvMixColumns;
    NoKeyAddsNothing(MixColumns(SubBytes(ShiftRows(s))));
    NoKeyAddsNothing(SubBytes(ShiftRows(s)));
    NoKeyAddsNothing(InvMixColumns(InvSubBytes(InvShiftRows(s))));
    NoKeyAddsNothing(InvSubBytes(InvShiftRows(s)));
    NoKeyAddsNothing(s);
  }

  lemma NoKeyAddsNothing(s: Block)
    ensures XorBlock(s, NO_KEY) == s && XorBlock(NO_KEY, s) == s
  {
    hide Xor;
    forall i | 0 <= i < 16
      ensures Xor(s[i], NO_KEY[i]) == s[i] && Xor(NO_KEY[i], s[i]) == s[i]
    {
      XorCancels(s[i]);
    }
  }

  // ----- Chains of rounds

  /** The part of a round that does not depend on its position or key. */
  function Scramble(s: Block): Block {
    SubBytes(ShiftRows(s))
  }

  function Unscramble(s: Block): Block {
    InvSubBytes(InvShiftRows(s))
  }

  lemma ScrambleInverts(s: Block)
    ensures Unscramble(Scramble(s)) == s && Scramble(Unscramble(s)) == s
  {
    hide SubBytes, InvSubBytes, ShiftRows, InvShiftRows;
    ShiftAndSubCommute(ShiftRows(s));
    ShiftAndSubCommute(Scramble(s));
    ShiftAndSubCommute(InvShiftRows(s));
    SubBytesInverts(ShiftRows(s));
    SubBytesInverts(InvShiftRows(s));
    ShiftRowsInverts(s);
    ShiftAndSubCommute(s);
    SubBytesInverts(s);
    ShiftRowsInverts(SubBytes(s));
    ShiftRowsInverts(InvSubBytes(s));
  }

  /** aesenc with each key in turn. */
  function EncRounds(s: Block, keys: seq<Block>): Block
    decreases |keys|
  {
    if keys == [] then s else AesEnc(EncRounds(s, keys[..|keys| - 1]), keys[|keys| - 1])
  }

  /** aesdec with the aesimc image of each key, last key first. */
  function DecRounds(s: Block, keys: seq<Block>): Block
    decreases |keys|
  {
    if keys == [] then s else DecRounds(AesDec(s, InvMixColumns(keys[|keys| - 1])), keys[..|keys| - 1])
  }

  /** Whitening with the first key, aesenc with the middle ones, aesenclast with the last. */
  function Encrypt(s: Block, first: Block, middle: seq<Block>, last: Block): Block {
    AesEncLast(EncRounds(XorBlock(s, first), middle), last)
  }

  /** Whitening with the last key, aesdec with transformed middle keys, aesdeclast with the first. */
  function Decrypt(s: Block, first: Block, middle: seq<Block>, last: Block): Block {
    AesDecLast(DecRounds(XorBlock(s, last), middle), first)
  }

  /** One aesdec with a transformed key strips one aesenc from under a Scramble. */
  lemma OneRound(s: Block, k: Block)
    ensures AesDec(Scramble(AesEnc(s, k)), InvMixColumns(k)) == Scramble(s)
  {
    hide Scramble, Unscramble, SubBytes, ShiftRows, InvSubBytes, InvShiftRows, MultiplyColumns, XorBlock;
    RoundShapes(s, k);
    var m := MixColumns(Scramble(s));
    ScrambleInverts(XorBlock(m, k));
    RoundShapes(Scramble(AesEnc(s, k)), InvMixColumns(k));
    InvMixColumnsLinear(m, k);
    MixColumnsInverts(Scramble(s));
    XorBlockCancels(Scramble(s), InvMixColumns(k));
  }

  lemma RoundShapes(s: Block, k: Block)
    ensures AesEnc(s, k) == XorBlock(MixColumns(Scramble(s)), k)
    ensures AesEncLast(s, k) == XorBlock(Scramble(s), k)
    ensures AesDec(s, k) == XorBlock(InvMixColumns(Unscramble(s)), k)
    ensures AesDecLast(s, k) == XorBlock(Unscramble(s), k)
  {
  }

  /** ... and one aesenc puts it back. */
  lemma OneRoundBack(s: Block, k: Block)
    ensures AesEnc(Unscramble(AesDec(s, InvMixColumns(k))), k) == Unscramble(s)
  {
    hide Scramble, Unscramble, SubBytes, ShiftRows, InvSubBytes, InvShiftRows, MultiplyColumns, XorBlock;
    RoundShapes(s, InvMixColumns(k));
    var d := AesDec(s, InvMixColumns(k));
    RoundShapes(Unscramble(d), k);
    ScrambleInverts(d);
    InvMixColumnsLinear(Unscramble(s), k);
    MixColumnsInverts(XorBlock(Unscramble(s), k));
    XorBlockCancels(Unscramble(s), k);
  }

  lemma {:induction false} RoundsInvert(s: Block, keys: seq<Block>)
    ensures DecRounds(Scramble(EncRounds(s, keys)), keys) == Scramble(s)
    decreases |keys|
  {
    hide Scramble, AesEnc, AesDec, InvMixColumns;
    if keys != [] {
      var init, k := keys[..|keys| - 1], keys[|keys| - 1];
      OneRound(EncRounds(s, init), k);
      RoundsInvert(s, init);
    }
  }

  lemma {:induction false} RoundsInvertBack(s: Block, keys: seq<Block>)
    ensures EncRounds(Unscramble(DecRounds(s, keys)), keys) == Unscramble(s)
    decreases |keys|
  {
    hide Unscramble, AesEnc, AesDec, InvMixColumns;
    if keys != [] {
      var init, k := keys[..|keys| - 1], keys[|keys| - 1];
      var d := AesDec(s, InvMixColumns(k));
      RoundsInvertBack(d, init);
      OneRoundBack(s, k);
    }
  }

  /** Section 5.3.5: for every number of rounds, decryption undoes encryption ... */
  lemma DecryptInverts(s: Block, first: Block, middle: seq<Block>, last: Block)
    ensures Decrypt(Encrypt(s, first, middle, last), first, middle, last) == s
  {
    hide Scramble, Unscramble, EncRounds, DecRounds, AesEncLast, AesDecLast, XorBlock;
    var w := XorBlock(s, first);
    var e := EncRounds(w, middle);
    RoundShapes(e, last);
    XorBlockCancels(Scramble(e), last);
    RoundsInvert(w, middle);
    RoundShapes(Scramble(w), first);
    ScrambleInverts(w);
    XorBlockCancels(s, first);
  }

  /** ... and encryption undoes decryption. */
  lemma EncryptInverts(s: Block, first: Block, middle: seq<Block>, last: Block)
    ensures Encrypt(Decrypt(s, first, middle, last), first, middle, last) == s
  {
    hide Scramble, Unscramble, EncRounds, DecRounds, AesEncLast, AesDecLast, XorBlock;
    var w := XorBlock(s, last);
    var d := DecRounds(w, middle);
    RoundShapes(d, first);
    XorBlockCancels(Unscramble(d), first);
    RoundsInvertBack(w, middle);
    RoundShapes(Unscramble(w), last);
    ScrambleInverts(w);
    XorBlockCancels(s, last);
  }
}

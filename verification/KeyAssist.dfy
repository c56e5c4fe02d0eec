/** The key generation assist of aes_impl.hpp, and exactly when its word rotation agrees with FIPS 197. */
module KeyAssist {
  import opened Gf256
  import opened AesTables
  import opened AesColumns
  import opened Aes

  /** The 32-bit word that four bytes are on a little-endian machine. */
  function Word(c: Column): bv32 {
    Bits(c.b0.bits, c.b1.bits, c.b2.bits, c.b3.bits)
  }

  function Bits(b0: bv8, b1: bv8, b2: bv8, b3: bv8): bv32 {
    (b0 as bv32) | ((b1 as bv32) << 8) | ((b2 as bv32) << 16) | ((b3 as bv32) << 24)
  }

  function Unword(w: bv32): Column {
    Column(Byte((w & 0xff) as bv8), Byte(((w >> 8) & 0xff) as bv8),
           Byte(((w >> 16) & 0xff) as bv8), Byte(((w >> 24) & 0xff) as bv8))
  }

  /** sub_word */
  function SubWord(w: bv32): bv32 {
    Word(SubColumn(Unword(w)))
  }

  /** rot_word */
  function RotWord(w: bv32): bv32 {
    (w << 8) | (w >> 24)
  }

  function AddConstant(w: bv32, rcon: Byte): bv32 {
    w ^ (rcon.bits as bv32)
  }

  function SubColumn(c: Column): Column {
    Column(SBox(c.b0), SBox(c.b1), SBox(c.b2), SBox(c.b3))
  }

  /** Section 5.2 of FIPS 197: RotWord takes [a0, a1, a2, a3] to [a1, a2, a3, a0]. */
  function StandardRotation(c: Column): Column {
    Column(c.b1, c.b2, c.b3, c.b0)
  }

  lemma WordsRoundTrip(c: Column, w: bv32)
    ensures Unword(Word(c)) == c
    ensures Word(Unword(w)) == w
  {
  }

  /** The code rotates the bytes of a word the other way. */
  lemma RotWordMoves(c: Column)
    ensures RotWord(Word(c)) == Word(Column(c.b3, c.b0, c.b1, c.b2))
  {
  }

  function WithConstant(c: Column, rcon: Byte): Column {
    Column(Xor(c.b0, rcon), c.b1, c.b2, c.b3)
  }

  /** The assist built on a given rotation: words 1 and 3 substituted, then rotated with the round constant. */
  function Assist(s: Block, rcon: Byte, rotate: Column -> Column): Block {
    var s1, s3 := SubColumn(ColumnOf(s, 1)), SubColumn(ColumnOf(s, 3));
    FromColumns(s1, WithConstant(rotate(s1), rcon), s3, WithConstant(rotate(s3), rcon))
  }

  function CodeRotation(c: Column): Column {
    Column(c.b3, c.b0, c.b1, c.b2)
  }

  lemma XorWord(c: Column, rcon: Byte)
    ensures AddConstant(Word(c), rcon) == Word(WithConstant(c, rcon))
  {
    hide Bits, AddConstant;
    XorBits(c.b0.bits, c.b1.bits, c.b2.bits, c.b3.bits, rcon);
  }

  lemma XorBits(b0: bv8, b1: bv8, b2: bv8, b3: bv8, r: Byte)
    ensures AddConstant(Bits(b0, b1, b2, b3), r) == Bits(b0 ^ r.bits, b1, b2, b3)
  {
  }

  function Stored(s: Block, at: nat, c: Column): Block
    requires at + 4 <= 16
  {
    s[..at] + [c.b0, c.b1, c.b2, c.b3] + s[at + 4..]
  }

  lemma FourStores(s: Block, c0: Column, c1: Column, c2: Column, c3: Column)
    ensures Stored(Stored(Stored(Stored(s, 0, c0), 4, c1), 8, c2), 12, c3) == FromColumns(c0, c1, c2, c3)
  {
  }

  method StoreWord(dst: array<Byte>, at: nat, w: bv32)
    requires dst.Length == 16 && at + 4 <= 16
    modifies dst
    ensures dst[..] == Stored(old(dst[..]), at, Unword(w))
  {
    hide Unword;
    var c := Unword(w);
    dst[at], dst[at + 1], dst[at + 2], dst[at + 3] := c.b0, c.b1, c.b2, c.b3;
  }

  /** aeskeygenassist */
  method AesKeyGenAssist(dst: array<Byte>, src: array<Byte>, rcon: Byte)
    requires dst.Length == 16 && src.Length == 16
    modifies dst
    ensures dst[..] == Assist(old(src[..]), rcon, CodeRotation)
  {
    hide *;
    ghost var s: Block := src[..];
    ghost var d: Block := dst[..];
    var x1 := Word(Column(src[4], src[5], src[6], src[7]));
    var x3 := Word(Column(src[12], src[13], src[14], src[15]));
    var sw1, sw3 := SubWord(x1), SubWord(x3);
    var rw1, rw3 := AddConstant(RotWord(sw1), rcon), AddConstant(RotWord(sw3), rcon);
    WordsAreAssist(s, rcon);
    FourStores(d, Unword(sw1), Unword(rw1), Unword(sw3), Unword(rw3));
    StoreWord(dst, 0, sw1);
    StoreWord(dst, 4, rw1);
    StoreWord(dst, 8, sw3);
    StoreWord(dst, 12, rw3);
  }

  lemma HalfOfAssist(c: Column, rcon: Byte)
    ensures Unword(SubWord(Word(c))) == SubColumn(c)
    ensures Unword(AddConstant(RotWord(SubWord(Word(c))), rcon)) == WithConstant(CodeRotation(SubColumn(c)), rcon)
  {
    hide SubColumn, AddConstant, Word, Unword, WithConstant, RotWord;
    var t := SubColumn(c);
    WordsRoundTrip(c, 0);
    WordsRoundTrip(t, 0);
    RotWordMoves(t);
    XorWord(CodeRotation(t), rcon);
    WordsRoundTrip(WithConstant(CodeRotation(t), rcon), 0);
  }

  lemma WordsAreAssist(s: Block, rcon: Byte)
    ensures var x1, x3 := Word(Column(s[4], s[5], s[6], s[7])), Word(Column(s[12], s[13], s[14], s[15]));
      var sw1, sw3 := SubWord(x1), SubWord(x3);
      Assist(s, rcon, CodeRotation)
      == FromColumns(Unword(sw1), Unword(AddConstant(RotWord(sw1), rcon)),
                     Unword(sw3), Unword(AddConstant(RotWord(sw3), rcon)))
  {
    hide SubColumn, AddConstant, Word, Unword, WithConstant, RotWord, SubWord, CodeRotation, FromColumns;
    HalfOfAssist(Column(s[4], s[5], s[6], s[7]), rcon);
    HalfOfAssist(Column(s[12], s[13], s[14], s[15]), rcon);
    assert ColumnOf(s, 1) == Column(s[4], s[5], s[6], s[7]);
    assert ColumnOf(s, 3) == Column(s[12], s[13], s[14], s[15]);
  }

  /** The result byte by byte: words 1 and 3 substituted, and again rotated, the low byte with the round constant. */
  lemma AssistBytes(s: Block, rcon: Byte)
    ensures var d := Assist(s, rcon, CodeRotation);
      && d[..4] == [SBox(s[4]), SBox(s[5]), SBox(s[6]), SBox(s[7])]
      && d[4] == Xor(SBox(s[7]), rcon) && d[5..8] == [SBox(s[4]), SBox(s[5]), SBox(s[6])]
      && d[8..12] == [SBox(s[12]), SBox(s[13]), SBox(s[14]), SBox(s[15])]
      && d[12] == Xor(SBox(s[15]), rcon) && d[13..] == [SBox(s[12]), SBox(s[13]), SBox(s[14])]
  {
    hide SBox, Xor;
  }

  /** The round constant is added bit by bit, in either half of the result. */
  lemma RoundConstantBits(s: Block, rcon: Byte, half: nat)
    requires half < 2
    ensures Assist(s, rcon, CodeRotation)[8 * half + 4].bits == SBox(s[8 * half + 7]).bits ^ rcon.bits
  {
    hide *;
    LowBytes(s, rcon);
    XorOfBits(Assist(s, rcon, CodeRotation)[8 * half + 4], SBox(s[8 * half + 7]), rcon);
  }

  lemma LowBytes(s: Block, rcon: Byte)
    ensures Assist(s, rcon, CodeRotation)[4] == Xor(SBox(s[7]), rcon)
    ensures Assist(s, rcon, CodeRotation)[12] == Xor(SBox(s[15]), rcon)
  {
    hide *;
    AssistBytes(s, rcon);
  }

  lemma XorOfBits(x: Byte, a: Byte, b: Byte)
    requires x == Xor(a, b)
    ensures x.bits == a.bits ^ b.bits
  {
  }

  lemma SBoxIsInjective(x: Byte, y: Byte)
    ensures SBox(x) == SBox(y) <==> x == y
  {
    hide SBox, InvSBox;
    TablesAreInverse(x);
    TablesAreInverse(y);
  }

  /** The two rotations agree exactly on words whose two halves are equal. */
  predicate HalvesEqual(c: Column) {
    c.b0 == c.b2 && c.b1 == c.b3
  }

  lemma RotationsAgree(c: Column, rcon: Byte)
    ensures WithConstant(CodeRotation(SubColumn(c)), rcon) == WithConstant(StandardRotation(SubColumn(c)), rcon)
        <==> HalvesEqual(c)
  {
    hide SBox, Xor;
    SBoxIsInjective(c.b0, c.b2);
    SBoxIsInjective(c.b1, c.b3);
    XorUndoes(SBox(c.b3), rcon);
    XorUndoes(SBox(c.b1), rcon);
  }

  lemma XorUndoes(a: Byte, b: Byte)
    ensures Xor(Xor(a, b), b) == a
  {
  }

  /** The assist is the one key expansion needs exactly if words 1 and 3 of the key both have equal halves. */
  lemma AssistIsStandardIff(s: Block, rcon: Byte)
    ensures Assist(s, rcon, CodeRotation) == Assist(s, rcon, StandardRotation)
        <==> HalvesEqual(ColumnOf(s, 1)) && HalvesEqual(ColumnOf(s, 3))
  {
    hide SubColumn, WithConstant, StandardRotation, CodeRotation, HalvesEqual, ColumnOf;
    var c1, c3 := ColumnOf(s, 1), ColumnOf(s, 3);
    RotationsAgree(c1, rcon);
    RotationsAgree(c3, rcon);
    ColumnsAreUnique(SubColumn(c1), WithConstant(CodeRotation(SubColumn(c1)), rcon), WithConstant(StandardRotation(SubColumn(c1)), rcon),
                     SubColumn(c3), WithConstant(CodeRotation(SubColumn(c3)), rcon), WithConstant(StandardRotation(SubColumn(c3)), rcon));
  }

  lemma ColumnsAreUnique(a: Column, b: Column, b': Column, c: Column, d: Column, d': Column)
    ensures FromColumns(a, b, c, d) == FromColumns(a, b', c, d') <==> b == b' && d == d'
  {
    var x, y := FromColumns(a, b, c, d), FromColumns(a, b', c, d');
    if x == y {
      assert b == Column(x[4], x[5], x[6], x[7]) && b' == Column(y[4], y[5], y[6], y[7]);
      assert d == Column(x[12], x[13], x[14], x[15]) && d' == Column(y[12], y[13], y[14], y[15]);
    }
  }

  /** A key that fails: all zero but for byte 4. */
  lemma AssistIsNotStandard(s: Block, rcon: Byte)
    requires s == seq(16, i => if i == 4 then ONE else ZERO)
    ensures Assist(s, rcon, CodeRotation) != Assist(s, rcon, StandardRotation)
  {
    hide Assist;
    AssistIsStandardIff(s, rcon);
    assert ColumnOf(s, 1).b0 == ONE && ColumnOf(s, 1).b2 == ZERO;
  }
}

/** The in-place round transformations of aes_impl.hpp, each proved against its definition in FIPS 197. */
module Aes {
  import opened Gf256
  import opened AesTables
  import opened AesColumns

  /** A 16-byte state in column-major order: byte row + 4 * column. */
  type Block = s: seq<Byte> | |s| == 16 witness seq(16, _ => ZERO)

  function SubBytes(s: Block): Block {
    seq(16, i requires 0 <= i < 16 => SBox(s[i]))
  }

  function InvSubBytes(s: Block): Block {
    seq(16, i requires 0 <= i < 16 => InvSBox(s[i]))
  }

  function ShiftIndex(i: nat): (j: nat)
    requires i < 16
    ensures j < 16
  {
    i % 4 + 4 * ((i / 4 + i % 4) % 4)
  }

  function InvShiftIndex(i: nat): (j: nat)
    requires i < 16
    ensures j < 16
  {
    i % 4 + 4 * ((i / 4 + 4 - i % 4) % 4)
  }

  lemma ShiftedBytes(s: Block)
    ensures ShiftRows(s) == [s[0], s[5], s[10], s[15], s[4], s[9], s[14], s[3],
                             s[8], s[13], s[2], s[7], s[12], s[1], s[6], s[11]]
  {
  }

  lemma InvShiftedBytes(s: Block)
    ensures InvShiftRows(s) == [s[0], s[13], s[10], s[7], s[4], s[1], s[14], s[11],
                                s[8], s[5], s[2], s[15], s[12], s[9], s[6], s[3]]
  {
  }

  /** Section 5.1.2: byte (r, c) of the result is byte (r, c + r mod 4). */
  function ShiftRows(s: Block): Block {
    seq(16, i requires 0 <= i < 16 => s[ShiftIndex(i)])
  }

  /** Section 5.3.1: byte (r, c + r mod 4) of the result is byte (r, c). */
  function InvShiftRows(s: Block): Block {
    seq(16, i requires 0 <= i < 16 => s[InvShiftIndex(i)])
  }

  function ColumnOf(s: Block, c: nat): Column
    requires c < 4
  {
    Column(s[4 * c], s[4 * c + 1], s[4 * c + 2], s[4 * c + 3])
  }

  function FromColumns(c0: Column, c1: Column, c2: Column, c3: Column): Block {
    [c0.b0, c0.b1, c0.b2, c0.b3, c1.b0, c1.b1, c1.b2, c1.b3,
     c2.b0, c2.b1, c2.b2, c2.b3, c3.b0, c3.b1, c3.b2, c3.b3]
  }

  /** Every column of s multiplied by the polynomial k. */
  function MultiplyColumns(k: Column, s: Block): Block {
    FromColumns(Product(k, ColumnOf(s, 0)), Product(k, ColumnOf(s, 1)),
                Product(k, ColumnOf(s, 2)), Product(k, ColumnOf(s, 3)))
  }

  function MixColumns(s: Block): Block {
    MultiplyColumns(MIX, s)
  }

  function InvMixColumns(s: Block): Block {
    MultiplyColumns(INV_MIX, s)
  }

  function XorBlock(s: Block, k: Block): Block {
    seq(16, i requires 0 <= i < 16 => Xor(s[i], k[i]))
  }

  function AesEnc(s: Block, k: Block): Block {
    XorBlock(MixColumns(SubBytes(ShiftRows(s))), k)
  }

  function AesEncLast(s: Block, k: Block): Block {
    XorBlock(SubBytes(ShiftRows(s)), k)
  }

  function AesDec(s: Block, k: Block): Block {
    XorBlock(InvMixColumns(InvSubBytes(InvShiftRows(s))), k)
  }

  function AesDecLast(s: Block, k: Block): Block {
    XorBlock(InvSubBytes(InvShiftRows(s)), k)
  }

  // ----- The code

  method SubBytesInPlace(state: array<Byte>)
    requires state.Length == 16
    modifies state
    ensures state[..] == SubBytes(old(state[..]))
    ensures forall i :: 0 <= i < 16 ==> state[i] == SBox(old(state[i]))
  {
    hide SBox;
    for i := 0 to 16
      invariant forall j :: 0 <= j < i ==> state[j] == SBox(old(state[j]))
      invariant forall j :: i <= j < 16 ==> state[j] == old(state[j])
    {
      state[i] := SBox(state[i]);
    }
  }

  method InvSubBytesInPlace(state: array<Byte>)
    requires state.Length == 16
    modifies state
    ensures state[..] == InvSubBytes(old(state[..]))
    ensures forall i :: 0 <= i < 16 ==> state[i] == InvSBox(old(state[i]))
  {
    hide InvSBox;
    for i := 0 to 16
      invariant forall j :: 0 <= j < i ==> state[j] == InvSBox(old(state[j]))
      invariant forall j :: i <= j < 16 ==> state[j] == old(state[j])
    {
      state[i] := InvSBox(state[i]);
    }
  }

  /** t = s[i]; s[i] = s[j]; s[j] = s[k]; s[k] = s[l]; s[l] = t */
  method Cycle(s: array<Byte>, i: nat, j: nat, k: nat, l: nat)
    requires s.Length == 16 && i < 16 && j < 16 && k < 16 && l < 16
    requires i != j && i != k && i != l && j != k && j != l && k != l
    modifies s
    ensures s[..] == old(s[..])[i := old(s[j])][j := old(s[k])][k := old(s[l])][l := old(s[i])]
  {
    var t := s[i];
    s[i] := s[j];
    s[j] := s[k];
    s[k] := s[l];
    s[l] := t;
  }

  /** t = s[i]; s[i] = s[j]; s[j] = t */
  method Swap(s: array<Byte>, i: nat, j: nat)
    requires s.Length == 16 && i < 16 && j < 16
    modifies s
    ensures s[..] == old(s[..])[i := old(s[j])][j := old(s[i])]
  {
    var t := s[i];
    s[i] := s[j];
    s[j] := t;
  }

  method ShiftRowsInPlace(s: array<Byte>)
    requires s.Length == 16
    modifies s
    ensures s[..] == ShiftRows(old(s[..]))
  {
    hide ShiftRows;
    ghost var was := s[..];
    Cycle(s, 1, 5, 9, 13);
    Swap(s, 2, 10);
    Swap(s, 6, 14);
    Cycle(s, 15, 11, 7, 3);
    ShiftedBytes(was);
  }

  method InvShiftRowsInPlace(s: array<Byte>)
    requires s.Length == 16
    modifies s
    ensures s[..] == InvShiftRows(old(s[..]))
  {
    hide InvShiftRows;
    ghost var was := s[..];
    Cycle(s, 13, 9, 5, 1);
    Swap(s, 2, 10);
    Swap(s, 6, 14);
    Cycle(s, 3, 7, 11, 15);
    InvShiftedBytes(was);
  }

  /** p ^ q ^ r ^ s, associated as the code evaluates it. */
  function Xor4(p: Byte, q: Byte, r: Byte, s: Byte): Byte {
    Xor(Xor(Xor(p, q), r), s)
  }

  lemma Xor4Pairs(p: Byte, q: Byte, r: Byte, s: Byte)
    ensures Xor4(p, q, r, s) == Xor(Xor(p, q), Xor(r, s))
  {
    XorAssociates(Xor(p, q), r, s);
  }

  /** The four sums of mix_columns are one multiplication by MIX. */
  lemma MixColumnCode(a: Column)
    ensures Product(MIX, a)
         == Column(Xor4(GMul(a.b0, Byte(2)), GMul(a.b1, Byte(3)), a.b2, a.b3),
                   Xor4(a.b0, GMul(a.b1, Byte(2)), GMul(a.b2, Byte(3)), a.b3),
                   Xor4(a.b0, a.b1, GMul(a.b2, Byte(2)), GMul(a.b3, Byte(3))),
                   Xor4(GMul(a.b0, Byte(3)), a.b1, a.b2, GMul(a.b3, Byte(2))))
  {
    hide GMul, Xor, Xor4;
    TimesUnits(a.b0);
    TimesUnits(a.b1);
    TimesUnits(a.b2);
    TimesUnits(a.b3);
    Xor4Pairs(GMul(a.b0, Byte(2)), GMul(a.b1, Byte(3)), a.b2, a.b3);
    Xor4Pairs(a.b0, GMul(a.b1, Byte(2)), GMul(a.b2, Byte(3)), a.b3);
    Xor4Pairs(a.b0, a.b1, GMul(a.b2, Byte(2)), GMul(a.b3, Byte(3)));
    Xor4Pairs(GMul(a.b0, Byte(3)), a.b1, a.b2, GMul(a.b3, Byte(2)));
  }

  /** The four sums of inv_mix_columns are one multiplication by INV_MIX. */
  lemma InvMixColumnCode(a: Column)
    ensures Product(INV_MIX, a)
         == Column(Xor4(GMul(a.b0, Byte(14)), GMul(a.b1, Byte(11)), GMul(a.b2, Byte(13)), GMul(a.b3, Byte(9))),
                   Xor4(GMul(a.b0, Byte(9)), GMul(a.b1, Byte(14)), GMul(a.b2, Byte(11)), GMul(a.b3, Byte(13))),
                   Xor4(GMul(a.b0, Byte(13)), GMul(a.b1, Byte(9)), GMul(a.b2, Byte(14)), GMul(a.b3, Byte(11))),
                   Xor4(GMul(a.b0, Byte(11)), GMul(a.b1, Byte(13)), GMul(a.b2, Byte(9)), GMul(a.b3, Byte(14))))
  {
    hide GMul, Xor, Xor4;
    Xor4Pairs(GMul(a.b0, Byte(14)), GMul(a.b1, Byte(11)), GMul(a.b2, Byte(13)), GMul(a.b3, Byte(9)));
    Xor4Pairs(GMul(a.b0, Byte(9)), GMul(a.b1, Byte(14)), GMul(a.b2, Byte(11)), GMul(a.b3, Byte(13)));
    Xor4Pairs(GMul(a.b0, Byte(13)), GMul(a.b1, Byte(9)), GMul(a.b2, Byte(14)), GMul(a.b3, Byte(11)));
    Xor4Pairs(GMul(a.b0, Byte(11)), GMul(a.b1, Byte(13)), GMul(a.b2, Byte(9)), GMul(a.b3, Byte(14)));
  }

  /** Byte by byte: column c of MixColumns is the four sums of the code over column c. */
  lemma MixedColumn(s: Block, c: nat)
    requires c < 4
    ensures var a0, a1, a2, a3 := s[4 * c], s[4 * c + 1], s[4 * c + 2], s[4 * c + 3];
      var t := MixColumns(s);
      && t[4 * c] == Xor(Xor(Xor(GMul(a0, Byte(2)), GMul(a1, Byte(3))), a2), a3)
      && t[4 * c + 1] == Xor(Xor(Xor(a0, GMul(a1, Byte(2))), GMul(a2, Byte(3))), a3)
      && t[4 * c + 2] == Xor(Xor(Xor(a0, a1), GMul(a2, Byte(2))), GMul(a3, Byte(3)))
      && t[4 * c + 3] == Xor(Xor(Xor(GMul(a0, Byte(3)), a1), a2), GMul(a3, Byte(2)))
  {
    hide GMul, Xor, Product;
    MixColumnCode(ColumnOf(s, c));
  }

  lemma InvMixedColumn(s: Block, c: nat)
    requires c < 4
    ensures var a0, a1, a2, a3 := s[4 * c], s[4 * c + 1], s[4 * c + 2], s[4 * c + 3];
      var t := InvMixColumns(s);
      && t[4 * c] == Xor(Xor(Xor(GMul(a0, Byte(14)), GMul(a1, Byte(11))), GMul(a2, Byte(13))), GMul(a3, Byte(9)))
      && t[4 * c + 1] == Xor(Xor(Xor(GMul(a0, Byte(9)), GMul(a1, Byte(14))), GMul(a2, Byte(11))), GMul(a3, Byte(13)))
      && t[4 * c + 2] == Xor(Xor(Xor(GMul(a0, Byte(13)), GMul(a1, Byte(9))), GMul(a2, Byte(14))), GMul(a3, Byte(11)))
      && t[4 * c + 3] == Xor(Xor(Xor(GMul(a0, Byte(11)), GMul(a1, Byte(13))), GMul(a2, Byte(9))), GMul(a3, Byte(14)))
  {
    hide GMul, Xor, Product;
    InvMixColumnCode(ColumnOf(s, c));
  }

  lemma Reassemble(s: Block)
    ensures FromColumns(ColumnOf(s, 0), ColumnOf(s, 1), ColumnOf(s, 2), ColumnOf(s, 3)) == s
  {
  }

  lemma WriteColumn(s: Block, c: nat, b: Column)
    requires c < 4
    ensures var t := s[4 * c := b.b0][4 * c + 1 := b.b1][4 * c + 2 := b.b2][4 * c + 3 := b.b3];
            |t| == 16 && forall k :: 0 <= k < 4 ==> ColumnOf(t, k) == if k == c then b else ColumnOf(s, k)
  {
  }

  method MixColumnsInPlace(s: array<Byte>)
    requires s.Length == 16
    modifies s
    ensures s[..] == MixColumns(old(s[..]))
  {
    hide GMul, Xor, Xor4, Product;
    for c := 0 to 4
      invariant forall k :: 0 <= k < c ==> ColumnOf(s[..], k) == Product(MIX, ColumnOf(old(s[..]), k))
      invariant forall k :: c <= k < 4 ==> ColumnOf(s[..], k) == ColumnOf(old(s[..]), k)
    {
      var i := 4 * c;
      var a0, a1, a2, a3 := s[i], s[i + 1], s[i + 2], s[i + 3];
      ghost var was := s[..];
      s[i] := Xor4(GMul(a0, Byte(2)), GMul(a1, Byte(3)), a2, a3);
      s[i + 1] := Xor4(a0, GMul(a1, Byte(2)), GMul(a2, Byte(3)), a3);
      s[i + 2] := Xor4(a0, a1, GMul(a2, Byte(2)), GMul(a3, Byte(3)));
      s[i + 3] := Xor4(GMul(a0, Byte(3)), a1, a2, GMul(a3, Byte(2)));
      MixColumnCode(Column(a0, a1, a2, a3));
      WriteColumn(was, c, Column(s[i], s[i + 1], s[i + 2], s[i + 3]));
      assert s[..] == was[i := s[i]][i + 1 := s[i + 1]][i + 2 := s[i + 2]][i + 3 := s[i + 3]];
    }
    Reassemble(s[..]);
  }

  method InvMixColumnsInPlace(s: array<Byte>)
    requires s.Length == 16
    modifies s
    ensures s[..] == InvMixColumns(old(s[..]))
  {
    hide GMul, Xor, Xor4, Product;
    for c := 0 to 4
      invariant forall k :: 0 <= k < c ==> ColumnOf(s[..], k) == Product(INV_MIX, ColumnOf(old(s[..]), k))
      invariant forall k :: c <= k < 4 ==> ColumnOf(s[..], k) == ColumnOf(old(s[..]), k)
    {
      var i := 4 * c;
      var a0, a1, a2, a3 := s[i], s[i + 1], s[i + 2], s[i + 3];
      ghost var was := s[..];
      s[i] := Xor4(GMul(a0, Byte(14)), GMul(a1, Byte(11)), GMul(a2, Byte(13)), GMul(a3, Byte(9)));
      s[i + 1] := Xor4(GMul(a0, Byte(9)), GMul(a1, Byte(14)), GMul(a2, Byte(11)), GMul(a3, Byte(13)));
      s[i + 2] := Xor4(GMul(a0, Byte(13)), GMul(a1, Byte(9)), GMul(a2, Byte(14)), GMul(a3, Byte(11)));
      s[i + 3] := Xor4(GMul(a0, Byte(11)), GMul(a1, Byte(13)), GMul(a2, Byte(9)), GMul(a3, Byte(14)));
      InvMixColumnCode(Column(a0, a1, a2, a3));
      WriteColumn(was, c, Column(s[i], s[i + 1], s[i + 2], s[i + 3]));
      assert s[..] == was[i := s[i]][i + 1 := s[i + 1]][i + 2 := s[i + 2]][i + 3 := s[i + 3]];
    }
    Reassemble(s[..]);
  }

  lemma XorIsBitwise()
    ensures forall a: Byte, b: Byte {:trigger Xor(a, b)} :: Xor(a, b).bits == a.bits ^ b.bits
  {
  }

  method XorBlockInPlace(dst: array<Byte>, key: array<Byte>)
    requires dst.Length == 16 && key.Length == 16
    modifies dst
    ensures dst[..] == XorBlock(old(dst[..]), old(key[..]))
    ensures forall i :: 0 <= i < 16 ==> dst[i].bits == old(dst[i]).bits ^ old(key[i]).bits
  {
    XorIsBitwise();
    hide Xor;
    ghost var was, k := dst[..], key[..];
    for i := 0 to 16
      invariant forall j :: 0 <= j < i ==> dst[j] == Xor(was[j], k[j])
      invariant forall j :: i <= j < 16 ==> dst[j] == was[j]
      invariant dst != key ==> key[..] == k
    {
      dst[i] := Xor(dst[i], key[i]);
    }
  }

  method AesEncInPlace(state: array<Byte>, key: array<Byte>)
    requires state.Length == 16 && key.Length == 16 && state != key
    modifies state
    ensures state[..] == AesEnc(old(state[..]), old(key[..]))
  {
    hide ShiftRows, SubBytes, MultiplyColumns, XorBlock;
    ShiftRowsInPlace(state);
    SubBytesInPlace(state);
    MixColumnsInPlace(state);
    XorBlockInPlace(state, key);
  }

  method AesEncLastInPlace(state: array<Byte>, key: array<Byte>)
    requires state.Length == 16 && key.Length == 16 && state != key
    modifies state
    ensures state[..] == AesEncLast(old(state[..]), old(key[..]))
  {
    hide ShiftRows, SubBytes, XorBlock;
    ShiftRowsInPlace(state);
    SubBytesInPlace(state);
    XorBlockInPlace(state, key);
  }

  method AesDecInPlace(state: array<Byte>, key: array<Byte>)
    requires state.Length == 16 && key.Length == 16 && state != key
    modifies state
    ensures state[..] == AesDec(old(state[..]), old(key[..]))
  {
    hide InvShiftRows, InvSubBytes, MultiplyColumns, XorBlock;
    InvShiftRowsInPlace(state);
    InvSubBytesInPlace(state);
    InvMixColumnsInPlace(state);
    XorBlockInPlace(state, key);
  }

  method AesDecLastInPlace(state: array<Byte>, key: array<Byte>)
    requires state.Length == 16 && key.Length == 16 && state != key
    modifies state
    ensures state[..] == AesDecLast(old(state[..]), old(key[..]))
  {
    hide InvShiftRows, InvSubBytes, XorBlock;
    InvShiftRowsInPlace(state);
    InvSubBytesInPlace(state);
    XorBlockInPlace(state, key);
  }

  method AesImcInPlace(dst: array<Byte>, src: array<Byte>)
    requires dst.Length == 16 && src.Length == 16
    modifies dst
    ensures dst[..] == InvMixColumns(old(src[..]))
  {
    hide MultiplyColumns;
    forall i | 0 <= i < 16 {
      dst[i] := src[i];
    }
    assert dst[..] == old(src[..]);
    InvMixColumnsInPlace(dst);
  }
}

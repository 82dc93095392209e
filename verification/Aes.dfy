/** AES-128: the in-place key schedule and rounds against FIPS 197, and against the inverse cipher. */
module Aes {
  import opened ByteField
  import opened Bytes
  import opened Gcm
  import opened Sbox

  // ---- States: byte r of column c is s[r + 4 * c] ----

  type State = s: seq<bv8> | |s| == 16 witness seq(16, _ => 0)
  type WordBytes = s: seq<bv8> | |s| == 4 witness [0, 0, 0, 0]

  // Section 5.1.1
  function SubBytesOf(s: State): State { seq(16, i requires 0 <= i < 16 => Sub(s[i])) }

  // Section 5.1.2: row r rotates left by r
  function ShiftRowsOf<T>(s: seq<T>): (t: seq<T>)
    requires |s| == 16
    ensures |t| == 16
  {
    seq(16, i requires 0 <= i < 16 => var r, c := i % 4, i / 4; s[r + 4 * ((c + r) % 4)])
  }

  // Section 5.1.3: the first row of the circulant matrix is 2 3 1 1
  function Mixed(a: bv8, b: bv8, c: bv8, d: bv8): bv8 { Four(Mul(2, a), Mul(3, b), Mul(1, c), Mul(1, d)) }

  // The column that starts at byte p
  function MixedColumn(s: State, p: nat): WordBytes
    requires p <= 12
  {
    hide Mixed;
    var a, b, c, d := s[p], s[p + 1], s[p + 2], s[p + 3];
    [Mixed(a, b, c, d), Mixed(b, c, d, a), Mixed(c, d, a, b), Mixed(d, a, b, c)]
  }

  function MixColumnsOf(s: State): State {
    hide Mixed;
    MixedColumn(s, 0) + MixedColumn(s, 4) + MixedColumn(s, 8) + MixedColumn(s, 12)
  }

  // Section 5.1.4
  function AddRoundKeyOf(s: State, k: State): State { seq(16, i requires 0 <= i < 16 => Plus(s[i], k[i])) }

  // ---- Key expansion: section 5.2 ----

  function XorWords(a: WordBytes, b: WordBytes): WordBytes {
    [Plus(a[0], b[0]), Plus(a[1], b[1]), Plus(a[2], b[2]), Plus(a[3], b[3])]
  }

  function RotWord(w: WordBytes): WordBytes { [w[1], w[2], w[3], w[0]] }
  function SubWord(w: WordBytes): WordBytes { hide Sub; [Sub(w[0]), Sub(w[1]), Sub(w[2]), Sub(w[3])] }

  // x^n
  function XPower(n: nat): bv8 { if n == 0 then 1 else XTime(XPower(n - 1)) }

  function Rcon(i: nat): WordBytes
    requires i > 0
  {
    [XPower(i - 1), 0, 0, 0]
  }

  // w[i]
  function KeyWord(key: State, i: nat): WordBytes {
    if i < 4 then key[4 * i..4 * i + 4]
    else if i % 4 == 0 then XorWords(KeyWord(key, i - 4), XorWords(SubWord(RotWord(KeyWord(key, i - 1))), Rcon(i / 4)))
    else XorWords(KeyWord(key, i - 4), KeyWord(key, i - 1))
  }

  const ROUND_KEY_BYTES := 176

  // Word i of a schedule kept as bytes
  function WordAt(w: seq<bv8>, i: nat): WordBytes
    requires |w| == ROUND_KEY_BYTES && i < 44
  {
    w[4 * i..4 * i + 4]
  }

  // The first n words are those of section 5.2
  ghost predicate ScheduledTo(key: State, w: seq<bv8>, n: nat)
    requires |w| == ROUND_KEY_BYTES && n <= 44
  {
    forall i :: 0 <= i < n ==> WordAt(w, i) == KeyWord(key, i)
  }

  ghost predicate IsSchedule(key: State, w: seq<bv8>) { |w| == ROUND_KEY_BYTES && ScheduledTo(key, w, 44) }

  // ---- The cipher: section 5.1 ----

  const ROUNDS := 10

  function RoundKey(w: seq<bv8>, round: nat): State
    requires |w| == ROUND_KEY_BYTES && round <= ROUNDS
  {
    w[16 * round..16 * round + 16]
  }

  function FullRound(s: State, k: State): State { AddRoundKeyOf(MixColumnsOf(ShiftRowsOf(SubBytesOf(s))), k) }
  function LastRound(s: State, k: State): State { AddRoundKeyOf(ShiftRowsOf(SubBytesOf(s)), k) }

  // State after the first n full rounds
  function AfterRounds(w: seq<bv8>, input: State, n: nat): State
    requires |w| == ROUND_KEY_BYTES && n < ROUNDS
  {
    if n == 0 then AddRoundKeyOf(input, RoundKey(w, 0))
    else FullRound(AfterRounds(w, input, n - 1), RoundKey(w, n))
  }

  function CipherOf(w: seq<bv8>, input: State): State
    requires |w| == ROUND_KEY_BYTES
  {
    LastRound(AfterRounds(w, input, ROUNDS - 1), RoundKey(w, ROUNDS))
  }

  // ---- In place ----

  method AddRoundKey(s: array<bv8>, k: State)
    requires s.Length == 16
    modifies s
    ensures s[..] == AddRoundKeyOf(old(s[..]), k)
  {
    for i := 0 to 16
      invariant forall j :: 0 <= j < i ==> s[j] == Plus(old(s[j]), k[j])
      invariant forall j :: i <= j < 16 ==> s[j] == old(s[j])
    {
      s[i] := s[i] ^ k[i];
    }
  }

  method SubBytes(s: array<bv8>)
    requires s.Length == 16
    modifies s
    ensures s[..] == SubBytesOf(old(s[..]))
  {
    hide Sub;
    for i := 0 to 16
      invariant forall j :: 0 <= j < i ==> s[j] == Sub(old(s[j]))
      invariant forall j :: i <= j < 16 ==> s[j] == old(s[j])
    {
      s[i] := Sub(s[i]);
    }
  }

  lemma ShiftRowsList<T>(s: seq<T>)
    requires |s| == 16
    ensures ShiftRowsOf(s)
      == [s[0], s[5], s[10], s[15], s[4], s[9], s[14], s[3], s[8], s[13], s[2], s[7], s[12], s[1], s[6], s[11]]
  {}

  // The second row moves one column, a saved byte closing the cycle
  method RotateRow1<T>(s: array<T>)
    requires s.Length == 16
    modifies s
    ensures s[..]
      == old([s[0], s[5], s[2], s[3], s[4], s[9], s[6], s[7], s[8], s[13], s[10], s[11], s[12], s[1], s[14], s[15]])
  {
    var t := s[1];
    s[1] := s[5];
    s[5] := s[9];
    s[9] := s[13];
    s[13] := t;
  }

  // The third row moves two columns: two exchanges
  method RotateRow2<T>(s: array<T>)
    requires s.Length == 16
    modifies s
    ensures s[..]
      == old([s[0], s[1], s[10], s[3], s[4], s[5], s[14], s[7], s[8], s[9], s[2], s[11], s[12], s[13], s[6], s[15]])
  {
    var t := s[2];
    s[2] := s[10];
    s[10] := t;
    t := s[6];
    s[6] := s[14];
    s[14] := t;
  }

  // The fourth row moves three columns, which is one to the right
  method RotateRow3<T>(s: array<T>)
    requires s.Length == 16
    modifies s
    ensures s[..]
      == old([s[0], s[1], s[2], s[15], s[4], s[5], s[6], s[3], s[8], s[9], s[10], s[7], s[12], s[13], s[14], s[11]])
  {
    var t := s[15];
    s[15] := s[11];
    s[11] := s[7];
    s[7] := s[3];
    s[3] := t;
  }

  method ShiftRows(s: array<bv8>)
    requires s.Length == 16
    modifies s
    ensures s[..] == ShiftRowsOf(old(s[..]))
  {
    hide ShiftRowsOf;
    ShiftRowsList(s[..]);
    RotateRow1(s);
    RotateRow2(s);
    RotateRow3(s);
  }

  lemma OnlyOne(a: bv8)
    ensures Four(a, 0, 0, 0) == a
  {}

  // The summands that the factors 1, 2 and 3 keep
  lemma SmallPicks(a: bv8, b: bv8, p: bv8, q: bv8, r: bv8, s: bv8, t: bv8, u: bv8)
    ensures Picked(1, a, b, p, q, r, s, t, u) == a && Picked(2, a, b, p, q, r, s, t, u) == b
    ensures Picked(3, a, b, p, q, r, s, t, u) == Plus(a, b)
  {
    hide Plus, Four;
    OnlyOne(a);
    OnlyOne(b);
    OnlyOne(0);
    PlusLaws(a, b, 0);
    PlusLaws(b, 0, 0);
    PlusLaws(Plus(a, b), 0, 0);
    FourIs(0, b, 0, 0);
    FourIs(a, b, 0, 0);
    PlusLaws(0, 0, 0);
  }

  lemma SmallProducts(a: bv8)
    ensures Mul(1, a) == a && Mul(2, a) == XTime(a) && Mul(3, a) == Plus(a, XTime(a))
  {
    hide XTime, Pick, Plus, Four;
    var a3 := XTime(XTime(XTime(a)));
    SmallPicks(a, XTime(a), XTime(XTime(a)), a3, XTime(a3), XTime(XTime(a3)), XTime(XTime(XTime(a3))),
               XTime(XTime(XTime(XTime(a3)))));
  }

  // What mix_columns stores
  function Stored(a: bv8, b: bv8, all: bv8): bv8 { a ^ (all ^ XTime(a ^ b)) }

  // With all = a ^ b ^ c ^ d, that is one row of the matrix product
  lemma MixStep(a: bv8, b: bv8, c: bv8, d: bv8)
    ensures Stored(a, b, Four(a, b, c, d)) == Mixed(a, b, c, d)
  {
    hide XTime, Mul, Plus, Four;
    SmallProducts(a);
    SmallProducts(b);
    SmallProducts(c);
    SmallProducts(d);
    XTimePlus(a, b);
    MixXor(a, b, c, d, XTime(a), XTime(b));
  }

  lemma MixXor(a: bv8, b: bv8, c: bv8, d: bv8, p: bv8, q: bv8)
    ensures a ^ (Four(a, b, c, d) ^ Plus(p, q)) == Four(p, Plus(b, q), c, d)
    ensures Plus(a, b) == a ^ b
  {}

  lemma FourTurns(a: bv8, b: bv8, c: bv8, d: bv8)
    ensures Four(a, b, c, d) == Four(b, c, d, a)
  {
    hide Plus, Four;
    FourIs(a, b, c, d);
    FourIs(b, c, d, a);
    PlusLaws(a, b, 0);
    Interchange(b, a, c, d);
    PlusLaws(a, d, 0);
  }

  method MixColumns(s: array<bv8>)
    requires s.Length == 16
    modifies s
    ensures s[..] == MixColumnsOf(old(s[..]))
  {
    hide MixedColumn;
    ghost var o: State := s[..];
    for c := 0 to 4
      invariant forall k: nat :: k < c ==> s[4 * k..4 * k + 4] == MixedColumn(o, 4 * k)
      invariant s[4 * c..] == o[4 * c..]
    {
      ghost var before := s[..];
      MixColumn(s, 4 * c, o);
      forall k: nat | k < c ensures s[4 * k..4 * k + 4] == before[4 * k..4 * k + 4] {
        assert s[4 * k..4 * k + 4] == s[..4 * c][4 * k..4 * k + 4];
      }
    }
    assert s[..] == s[4 * 0..4 * 0 + 4] + s[4 * 1..4 * 1 + 4] + s[4 * 2..4 * 2 + 4] + s[4 * 3..4 * 3 + 4];
  }

  // One column in place
  method MixColumn(s: array<bv8>, i: nat, ghost o: State)
    requires s.Length == 16 && i <= 12 && s[i..] == o[i..]
    modifies s
    ensures s[..i] == old(s[..i]) && s[i..i + 4] == MixedColumn(o, i) && s[i + 4..] == o[i + 4..]
  {
    hide Mixed, Stored, Four;
    var a0, a1, a2, a3 := s[i], s[i + 1], s[i + 2], s[i + 3];
    var all := Four(a0, a1, a2, a3);
    FourTurns(a0, a1, a2, a3);
    FourTurns(a1, a2, a3, a0);
    FourTurns(a2, a3, a0, a1);
    MixStep(a0, a1, a2, a3);
    MixStep(a1, a2, a3, a0);
    MixStep(a2, a3, a0, a1);
    MixStep(a3, a0, a1, a2);
    s[i] := Stored(a0, a1, all);
    s[i + 1] := Stored(a1, a2, all);
    s[i + 2] := Stored(a2, a3, all);
    s[i + 3] := Stored(a3, a0, all);
  }

  // aes128_encrypt_block
  method EncryptBlock(input: State, roundKeys: seq<bv8>) returns (out: State)
    requires |roundKeys| == ROUND_KEY_BYTES
    ensures out == CipherOf(roundKeys, input)
  {
    hide AddRoundKeyOf, SubBytesOf, ShiftRowsOf, MixColumnsOf;
    var s := new bv8[16](i requires 0 <= i < 16 => input[i]);
    assert s[..] == input;
    AddRoundKey(s, roundKeys[0..16]);
    for round := 1 to ROUNDS
      invariant s[..] == AfterRounds(roundKeys, input, round - 1)
    {
      SubBytes(s);
      ShiftRows(s);
      MixColumns(s);
      AddRoundKey(s, roundKeys[round * 16..round * 16 + 16]);
    }
    SubBytes(s);
    ShiftRows(s);
    AddRoundKey(s, roundKeys[ROUNDS * 16..ROUNDS * 16 + 16]);
    out := s[..];
  }

  // ---- The inverse cipher: section 5.3 ----

  ghost function InvSubBytesOf(s: State): State { seq(16, i requires 0 <= i < 16 => InvSub(s[i])) }

  function InvShiftRowsOf<T>(s: seq<T>): (t: seq<T>)
    requires |s| == 16
    ensures |t| == 16
  {
    seq(16, i requires 0 <= i < 16 => var r, c := i % 4, i / 4; s[r + 4 * ((c + 4 - r) % 4)])
  }

  // The first row of the matrix is e b d 9
  function InvMixed(a: bv8, b: bv8, c: bv8, d: bv8): bv8 {
    Four(Mul(0x0e, a), Mul(0x0b, b), Mul(0x0d, c), Mul(0x09, d))
  }

  function InvMixedColumn(s: State, p: nat): WordBytes
    requires p <= 12
  {
    hide InvMixed;
    var a, b, c, d := s[p], s[p + 1], s[p + 2], s[p + 3];
    [InvMixed(a, b, c, d), InvMixed(b, c, d, a), InvMixed(c, d, a, b), InvMixed(d, a, b, c)]
  }

  function InvMixColumnsOf(s: State): State {
    hide InvMixed;
    InvMixedColumn(s, 0) + InvMixedColumn(s, 4) + InvMixedColumn(s, 8) + InvMixedColumn(s, 12)
  }

  // State after the first n of the nine inverse rounds: the round keys come from the end, from bytes 160 to 175 on
  ghost function Undone(w: seq<bv8>, output: State, n: nat): State
    requires |w| == 176 && n <= 9
  {
    hide InvMixedColumn, AddRoundKeyOf, InvSubBytesOf, InvShiftRowsOf;
    if n == 0 then AddRoundKeyOf(output, w[160..176])
    else
      var s := InvSubBytesOf(InvShiftRowsOf(Undone(w, output, n - 1)));
      InvMixColumnsOf(AddRoundKeyOf(s, w[160 - 16 * n..176 - 16 * n]))
  }

  ghost function InvCipherOf(w: seq<bv8>, output: State): State
    requires |w| == 176
  {
    hide Undone;
    AddRoundKeyOf(InvSubBytesOf(InvShiftRowsOf(Undone(w, output, 9))), w[0..16])
  }

  lemma InvSubBytes(s: State)
    ensures InvSubBytesOf(SubBytesOf(s)) == s
  {
    hide Sub, InvSub;
    forall i | 0 <= i < 16 ensures InvSub(Sub(s[i])) == s[i] { InvSubOf(s[i]); }
  }

  lemma InvShiftRows<T>(s: seq<T>)
    requires |s| == 16
    ensures InvShiftRowsOf(ShiftRowsOf(s)) == s
  {
    hide ShiftRowsOf;
    ShiftRowsList(s);
  }

  lemma AddTwice(s: State, k: State)
    ensures AddRoundKeyOf(AddRoundKeyOf(s, k), k) == s
  {
    hide Plus;
    forall i | 0 <= i < 16 ensures Plus(Plus(s[i], k[i]), k[i]) == s[i] { PlusTwice(s[i], k[i]); }
  }

  // Multiplication by a constant goes through a row
  lemma MulFour(c: bv8, p: bv8, q: bv8, r: bv8, s: bv8)
    ensures Mul(c, Four(p, q, r, s)) == Four(Mul(c, p), Mul(c, q), Mul(c, r), Mul(c, s))
  {
    hide Mul, Four, Plus;
    FourIs(p, q, r, s);
    FourIs(Mul(c, p), Mul(c, q), Mul(c, r), Mul(c, s));
    MulPlus(c, p, q);
    MulPlus(c, r, s);
    MulPlus(c, Plus(p, q), Plus(r, s));
  }

  // The products with the second matrix, from a, x a, x^2 a and x^3 a
  lemma ProductE(a: bv8, b: bv8, c: bv8, d: bv8)
    requires b == XTime(a) && c == XTime(b) && d == XTime(c)
    ensures Mul(0x0e, a) == b ^ c ^ d
  {
    hide XTime;
  }

  lemma ProductB(a: bv8, b: bv8, c: bv8, d: bv8)
    requires b == XTime(a) && c == XTime(b) && d == XTime(c)
    ensures Mul(0x0b, a) == a ^ b ^ d
  {
    hide XTime;
  }

  lemma ProductD(a: bv8, b: bv8, c: bv8, d: bv8)
    requires b == XTime(a) && c == XTime(b) && d == XTime(c)
    ensures Mul(0x0d, a) == a ^ c ^ d
  {
    hide XTime;
  }

  lemma Product9(a: bv8, b: bv8, c: bv8, d: bv8)
    requires b == XTime(a) && c == XTime(b) && d == XTime(c)
    ensures Mul(0x09, a) == a ^ d
  {
    hide XTime;
  }

  // The first row of the product of the two matrices, in the multiples of a: 1 0 0 0
  lemma Cancel1(a: bv8, b: bv8, c: bv8, d: bv8, f: bv8, p: bv8, q: bv8, r: bv8, s: bv8, t: bv8)
    requires p == c ^ d ^ f && q == a ^ b ^ d && r == a ^ c ^ d && s == a ^ d && t == b ^ f
    ensures Four(p, q, r, Plus(s, t)) == a
  {}

  lemma Cancel2(a: bv8, b: bv8, c: bv8, d: bv8, f: bv8, p: bv8, q: bv8, r: bv8, s: bv8, t: bv8)
    requires p == b ^ c ^ d && t == c ^ d ^ f && q == b ^ c ^ f && r == a ^ c ^ d && s == a ^ d
    ensures Four(Plus(p, t), q, r, s) == 0
  {}

  lemma Cancel3(a: bv8, b: bv8, c: bv8, d: bv8, f: bv8, p: bv8, q: bv8, r: bv8, s: bv8, t: bv8)
    requires p == b ^ c ^ d && q == a ^ b ^ d && t == b ^ c ^ f && r == b ^ d ^ f && s == a ^ d
    ensures Four(p, Plus(q, t), r, s) == 0
  {}

  lemma Cancel4(a: bv8, b: bv8, c: bv8, d: bv8, f: bv8, p: bv8, q: bv8, r: bv8, s: bv8, t: bv8)
    requires p == b ^ c ^ d && q == a ^ b ^ d && r == a ^ c ^ d && t == b ^ d ^ f && s == b ^ f
    ensures Four(p, q, Plus(r, t), s) == 0
  {}

  lemma Column1(a: bv8)
    ensures Four(Mul(0x0e, Mul(2, a)), Mul(0x0b, Mul(1, a)), Mul(0x0d, Mul(1, a)), Mul(0x09, Mul(3, a))) == a
  {
    hide Mul, XTime, Four, Plus;
    var b := XTime(a);
    var c := XTime(b);
    var d := XTime(c);
    var f := XTime(d);
    SmallProducts(a);
    MulPlus(0x09, a, b);
    ProductE(b, c, d, f);
    ProductB(a, b, c, d);
    ProductD(a, b, c, d);
    Product9(a, b, c, d);
    Product9(b, c, d, f);
    Cancel1(a, b, c, d, f, Mul(0x0e, b), Mul(0x0b, a), Mul(0x0d, a), Mul(0x09, a), Mul(0x09, b));
  }

  lemma Column2(a: bv8)
    ensures Four(Mul(0x0e, Mul(3, a)), Mul(0x0b, Mul(2, a)), Mul(0x0d, Mul(1, a)), Mul(0x09, Mul(1, a))) == 0
  {
    hide Mul, XTime, Four, Plus;
    var b := XTime(a);
    var c := XTime(b);
    var d := XTime(c);
    var f := XTime(d);
    SmallProducts(a);
    MulPlus(0x0e, a, b);
    ProductE(a, b, c, d);
    ProductE(b, c, d, f);
    ProductB(b, c, d, f);
    ProductD(a, b, c, d);
    Product9(a, b, c, d);
    Cancel2(a, b, c, d, f, Mul(0x0e, a), Mul(0x0b, b), Mul(0x0d, a), Mul(0x09, a), Mul(0x0e, b));
  }

  lemma Column3(a: bv8)
    ensures Four(Mul(0x0e, Mul(1, a)), Mul(0x0b, Mul(3, a)), Mul(0x0d, Mul(2, a)), Mul(0x09, Mul(1, a))) == 0
  {
    hide Mul, XTime, Four, Plus;
    var b := XTime(a);
    var c := XTime(b);
    var d := XTime(c);
    var f := XTime(d);
    SmallProducts(a);
    MulPlus(0x0b, a, b);
    ProductE(a, b, c, d);
    ProductB(a, b, c, d);
    ProductB(b, c, d, f);
    ProductD(b, c, d, f);
    Product9(a, b, c, d);
    Cancel3(a, b, c, d, f, Mul(0x0e, a), Mul(0x0b, a), Mul(0x0d, b), Mul(0x09, a), Mul(0x0b, b));
  }

  lemma Column4(a: bv8)
    ensures Four(Mul(0x0e, Mul(1, a)), Mul(0x0b, Mul(1, a)), Mul(0x0d, Mul(3, a)), Mul(0x09, Mul(2, a))) == 0
  {
    hide Mul, XTime, Four, Plus;
    var b := XTime(a);
    var c := XTime(b);
    var d := XTime(c);
    var f := XTime(d);
    SmallProducts(a);
    MulPlus(0x0d, a, b);
    ProductE(a, b, c, d);
    ProductB(a, b, c, d);
    ProductD(a, b, c, d);
    ProductD(b, c, d, f);
    Product9(b, c, d, f);
    Cancel4(a, b, c, d, f, Mul(0x0e, a), Mul(0x0b, a), Mul(0x0d, a), Mul(0x09, b), Mul(0x0d, b));
  }

  // Sixteen terms by rows and by columns
  lemma Transpose(p: seq<bv8>)
    requires |p| == 16
    ensures Four(Four(p[0], p[1], p[2], p[3]), Four(p[4], p[5], p[6], p[7]),
                 Four(p[8], p[9], p[10], p[11]), Four(p[12], p[13], p[14], p[15]))
         == Four(Four(p[0], p[4], p[8], p[12]), Four(p[1], p[5], p[9], p[13]),
                 Four(p[2], p[6], p[10], p[14]), Four(p[3], p[7], p[11], p[15]))
  {
    hide Four, Plus;
    FourIs(Four(p[0], p[1], p[2], p[3]), Four(p[4], p[5], p[6], p[7]),
           Four(p[8], p[9], p[10], p[11]), Four(p[12], p[13], p[14], p[15]));
    FourPlus(p[0], p[1], p[2], p[3], p[4], p[5], p[6], p[7]);
    FourPlus(p[8], p[9], p[10], p[11], p[12], p[13], p[14], p[15]);
    FourPlus(Plus(p[0], p[4]), Plus(p[1], p[5]), Plus(p[2], p[6]), Plus(p[3], p[7]),
             Plus(p[8], p[12]), Plus(p[9], p[13]), Plus(p[10], p[14]), Plus(p[11], p[15]));
    FourIs(p[0], p[4], p[8], p[12]);
    FourIs(p[1], p[5], p[9], p[13]);
    FourIs(p[2], p[6], p[10], p[14]);
    FourIs(p[3], p[7], p[11], p[15]);
  }

  lemma MixUndone(a: bv8, b: bv8, c: bv8, d: bv8)
    ensures InvMixed(Mixed(a, b, c, d), Mixed(b, c, d, a), Mixed(c, d, a, b), Mixed(d, a, b, c)) == a
  {
    hide Mul, Four;
    MulFour(0x0e, Mul(2, a), Mul(3, b), Mul(1, c), Mul(1, d));
    MulFour(0x0b, Mul(1, a), Mul(2, b), Mul(3, c), Mul(1, d));
    MulFour(0x0d, Mul(1, a), Mul(1, b), Mul(2, c), Mul(3, d));
    MulFour(0x09, Mul(3, a), Mul(1, b), Mul(1, c), Mul(2, d));
    FourTurns(Mul(1, a), Mul(2, b), Mul(3, c), Mul(1, d));
    FourTurns(Mul(1, a), Mul(1, b), Mul(2, c), Mul(3, d));
    FourTurns(Mul(1, b), Mul(2, c), Mul(3, d), Mul(1, a));
    FourTurns(Mul(2, d), Mul(3, a), Mul(1, b), Mul(1, c));
    Transpose([
      Mul(0x0e, Mul(2, a)), Mul(0x0e, Mul(3, b)), Mul(0x0e, Mul(1, c)), Mul(0x0e, Mul(1, d)),
      Mul(0x0b, Mul(1, a)), Mul(0x0b, Mul(2, b)), Mul(0x0b, Mul(3, c)), Mul(0x0b, Mul(1, d)),
      Mul(0x0d, Mul(1, a)), Mul(0x0d, Mul(1, b)), Mul(0x0d, Mul(2, c)), Mul(0x0d, Mul(3, d)),
      Mul(0x09, Mul(3, a)), Mul(0x09, Mul(1, b)), Mul(0x09, Mul(1, c)), Mul(0x09, Mul(2, d))]);
    Column1(a);
    Column2(b);
    Column3(c);
    Column4(d);
    OnlyOne(a);
  }

  lemma InvMixColumn(m: State, s: State, p: nat)
    requires p <= 12 && m[p..p + 4] == MixedColumn(s, p)
    ensures InvMixedColumn(m, p) == s[p..p + 4]
  {
    hide Mixed, InvMixed;
    var a, b, c, d := s[p], s[p + 1], s[p + 2], s[p + 3];
    MixUndone(a, b, c, d);
    MixUndone(b, c, d, a);
    MixUndone(c, d, a, b);
    MixUndone(d, a, b, c);
    assert m[p] == m[p..p + 4][0] && m[p + 1] == m[p..p + 4][1];
    assert m[p + 2] == m[p..p + 4][2] && m[p + 3] == m[p..p + 4][3];
  }

  lemma InvMixColumns(s: State)
    ensures InvMixColumnsOf(MixColumnsOf(s)) == s
  {
    hide MixedColumn, InvMixedColumn;
    var m := MixColumnsOf(s);
    InvMixColumn(m, s, 0);
    InvMixColumn(m, s, 4);
    InvMixColumn(m, s, 8);
    InvMixColumn(m, s, 12);
    assert s == s[0..4] + s[4..8] + s[8..12] + s[12..16];
  }

  // After n inverse rounds the state is what SubBytes and ShiftRows had made before the n-th round from the end
  lemma {:induction false} UndoneIs(w: seq<bv8>, input: State, n: nat)
    requires |w| == 176 && n <= 9
    ensures Undone(w, CipherOf(w, input), n) == ShiftRowsOf(SubBytesOf(AfterRounds(w, input, 9 - n)))
  {
    hide AddRoundKeyOf, SubBytesOf, ShiftRowsOf, MixColumnsOf, InvSubBytesOf, InvShiftRowsOf, InvMixColumnsOf;
    var s := AfterRounds(w, input, 9 - n);
    if n == 0 {
      AddTwice(ShiftRowsOf(SubBytesOf(s)), w[160..176]);
    } else {
      UndoneIs(w, input, n - 1);
      var t := AfterRounds(w, input, 10 - n);
      InvShiftRows(SubBytesOf(t));
      InvSubBytes(t);
      AddTwice(MixColumnsOf(ShiftRowsOf(SubBytesOf(s))), w[160 - 16 * n..176 - 16 * n]);
      InvMixColumns(ShiftRowsOf(SubBytesOf(s)));
    }
  }

  // The inverse cipher of section 5.3 undoes the cipher, under every round keys and on every block
  lemma CipherInverts(w: seq<bv8>, input: State)
    requires |w| == 176
    ensures InvCipherOf(w, CipherOf(w, input)) == input
  {
    hide AddRoundKeyOf, SubBytesOf, ShiftRowsOf, InvSubBytesOf, InvShiftRowsOf;
    UndoneIs(w, input, 9);
    var s := AfterRounds(w, input, 0);
    InvShiftRows(SubBytesOf(s));
    InvSubBytes(s);
    AddTwice(input, w[0..16]);
  }

  // expand_aes128_key
  method ExpandKey(key: State, roundKeys: array<bv8>)
    requires roundKeys.Length == ROUND_KEY_BYTES
    modifies roundKeys
    ensures IsSchedule(key, roundKeys[..])
  {
    hide KeyWord, XPower, ScheduledTo, WordAt, XTime, XorWords;
    CopyKey(key, roundKeys);
    var generated := 16;
    var rcon: bv8 := 1;
    ghost var word := 4;
    RconStep(0);
    while generated < ROUND_KEY_BYTES
      invariant generated == 4 * word && 4 <= word <= 44
      invariant rcon == XPower((word - 1) / 4)
      invariant ScheduledTo(key, roundKeys[..], word)
    {
      LastWord(key, roundKeys[..], word);
      RconStep(word);
      assert generated % 16 == 0 <==> word % 4 == 0;
      var temp := NextTemp(key, word, generated, roundKeys[generated - 4..generated], rcon);
      if generated % 16 == 0 {
        rcon := XTime(rcon);
      }
      StoreWord(key, word, roundKeys, generated, temp);
      generated, word := generated + 4, word + 1;
    }
  }

  method CopyKey(key: State, roundKeys: array<bv8>)
    requires roundKeys.Length == ROUND_KEY_BYTES
    modifies roundKeys
    ensures ScheduledTo(key, roundKeys[..], 4)
  {
    hide KeyWord;
    for i := 0 to 16
      invariant roundKeys[..i] == key[..i]
    {
      roundKeys[i] := key[i];
    }
    FirstWords(key, roundKeys[..]);
  }

  lemma LastWord(key: State, w: seq<bv8>, n: nat)
    requires |w| == ROUND_KEY_BYTES && 1 <= n <= 44 && ScheduledTo(key, w, n)
    ensures w[4 * n - 4..4 * n] == KeyWord(key, n - 1)
  {
    hide KeyWord;
    assert WordAt(w, n - 1) == w[4 * n - 4..4 * n];
  }

  lemma RconStep(word: nat)
    ensures XPower(0) == 1
    ensures word >= 4 ==>
      XPower(word / 4) == if word % 4 == 0 then XTime(XPower((word - 1) / 4)) else XPower((word - 1) / 4)
  {
    hide XTime;
  }

  // The word to be added to the one four places back
  method NextTemp(ghost key: State, ghost word: nat, generated: nat, previous: WordBytes, rcon: bv8)
    returns (temp: WordBytes)
    requires generated == 4 * word && word >= 4 && previous == KeyWord(key, word - 1) && rcon == XPower((word - 1) / 4)
    ensures KeyWord(key, word) == XorWords(KeyWord(key, word - 4), temp)
  {
    hide Sub, XPower, XorWords, KeyWord, Plus;
    temp := previous;
    if generated % 16 == 0 {
      var t := temp[0];
      temp := [Sub(temp[1]), Sub(temp[2]), Sub(temp[3]), Sub(t)];
      temp := temp[0 := Plus(temp[0], rcon)];
      assert (word - 1) / 4 == word / 4 - 1;
    }
    NextWord(key, word, temp);
  }

  // The inner loop: four more bytes, each from the byte 16 places back
  method StoreWord(ghost key: State, ghost word: nat, roundKeys: array<bv8>, generated: nat, temp: WordBytes)
    requires roundKeys.Length == ROUND_KEY_BYTES && generated == 4 * word && 4 <= word < 44
    requires ScheduledTo(key, roundKeys[..], word)
    requires KeyWord(key, word) == XorWords(KeyWord(key, word - 4), temp)
    modifies roundKeys
    ensures ScheduledTo(key, roundKeys[..], word + 1)
  {
    hide KeyWord;
    ghost var before := roundKeys[..];
    for i := 0 to 4
      invariant roundKeys[..generated] == before[..generated]
      invariant forall j :: 0 <= j < i ==> roundKeys[generated + j] == Plus(before[generated - 16 + j], temp[j])
    {
      assert roundKeys[generated + i - 16] == roundKeys[..generated][generated + i - 16];
      roundKeys[generated + i] := roundKeys[generated + i - 16] ^ temp[i];
    }
    assert roundKeys[generated..generated + 4] == XorWords(WordAt(before, word - 4), temp);
    NextScheduled(key, before, roundKeys[..], word);
  }

  lemma NextScheduled(key: State, before: seq<bv8>, after: seq<bv8>, n: nat)
    requires |before| == |after| == ROUND_KEY_BYTES && n < 44 && ScheduledTo(key, before, n)
    requires after[..4 * n] == before[..4 * n] && after[4 * n..4 * n + 4] == KeyWord(key, n)
    ensures ScheduledTo(key, after, n + 1)
  {
    hide KeyWord;
    forall i | 0 <= i < n ensures WordAt(after, i) == KeyWord(key, i) {
      assert after[4 * i..4 * i + 4] == after[..4 * n][4 * i..4 * i + 4];
      assert before[4 * i..4 * i + 4] == before[..4 * n][4 * i..4 * i + 4];
      assert WordAt(before, i) == KeyWord(key, i);
    }
  }

  lemma FirstWords(key: State, w: seq<bv8>)
    requires |w| == ROUND_KEY_BYTES && w[..16] == key
    ensures ScheduledTo(key, w, 4)
  {
    forall i | 0 <= i < 4 ensures WordAt(w, i) == KeyWord(key, i) {
      assert WordAt(w, i) == w[..16][4 * i..4 * i + 4];
    }
  }

  // The recurrence, with the round constant folded into the first byte
  lemma NextWord(key: State, i: nat, temp: WordBytes)
    requires i >= 4
    requires var w := KeyWord(key, i - 1);
      temp == if i % 4 == 0 then [Plus(Sub(w[1]), XPower(i / 4 - 1)), Sub(w[2]), Sub(w[3]), Sub(w[0])] else w
    ensures KeyWord(key, i) == XorWords(KeyWord(key, i - 4), temp)
  {
    hide Sub, XPower, Plus;
    var w := KeyWord(key, i - 1);
    PlusLaws(Sub(w[2]), 0, 0);
    PlusLaws(Sub(w[3]), 0, 0);
    PlusLaws(Sub(w[0]), 0, 0);
  }

  // ---- AES-128 as the cipher of a key handle ----

  function ScheduleOf(key: State): (w: seq<bv8>)
    ensures |w| == ROUND_KEY_BYTES
  {
    hide KeyWord;
    seq(ROUND_KEY_BYTES, j requires 0 <= j < ROUND_KEY_BYTES => KeyWord(key, j / 4)[j % 4])
  }

  lemma ScheduleOfKey(key: State)
    ensures IsSchedule(key, ScheduleOf(key))
  {
    hide KeyWord;
    var w := ScheduleOf(key);
    forall i | 0 <= i < 44 ensures WordAt(w, i) == KeyWord(key, i) {
      assert WordAt(w, i) == [w[4 * i], w[4 * i + 1], w[4 * i + 2], w[4 * i + 3]];
    }
  }

  lemma ScheduleUnique(key: State, v: seq<bv8>, w: seq<bv8>)
    requires IsSchedule(key, v) && IsSchedule(key, w)
    ensures v == w
  {
    hide KeyWord;
    forall j | 0 <= j < ROUND_KEY_BYTES ensures v[j] == w[j] {
      assert WordAt(v, j / 4)[j % 4] == v[j] && WordAt(w, j / 4)[j % 4] == w[j];
    }
  }

  function Bits(s: BlockBytes): State { seq(16, i requires 0 <= i < 16 => s[i] as bv8) }
  function Values(s: State): BlockBytes { seq(16, i requires 0 <= i < 16 => s[i] as int) }

  // The cipher that GCM runs under this key
  function Aes128(key: BlockBytes): Cipher { input => Values(CipherOf(ScheduleOf(Bits(key)), Bits(input))) }

  // Host key schedule and device rounds together
  method Encrypt(key: BlockBytes, input: BlockBytes) returns (out: BlockBytes)
    ensures out == Aes128(key)(input)
  {
    hide CipherOf, KeyWord;
    var roundKeys := new bv8[ROUND_KEY_BYTES];
    ExpandKey(Bits(key), roundKeys);
    var state := EncryptBlock(Bits(input), roundKeys[..]);
    ScheduleOfKey(Bits(key));
    ScheduleUnique(Bits(key), roundKeys[..], ScheduleOf(Bits(key)));
    out := Values(state);
  }

  lemma BitsOfByte(v: bv8)
    ensures (v as int) as bv8 == v
  {}

  lemma NextByte(v: bv8)
    requires v != 0xff
    ensures (v + 1) as int == v as int + 1
  {}

  lemma {:induction false} ByteOfBits(b: byte)
    ensures (b as bv8) as int == b
  {
    if b > 0 {
      ByteOfBits(b - 1);
      NextByte((b - 1) as bv8);
      BitsOfByte((b - 1) as bv8 + 1);
    }
  }

  lemma ValuesOfBits(s: BlockBytes)
    ensures Values(Bits(s)) == s
  {
    forall i | 0 <= i < 16 ensures (s[i] as bv8) as int == s[i] { ByteOfBits(s[i]); }
  }

  lemma BitsOfValues(s: State)
    ensures Bits(Values(s)) == s
  {
    forall i | 0 <= i < 16 ensures (s[i] as int) as bv8 == s[i] { BitsOfByte(s[i]); }
  }

  // Two blocks never have one image
  lemma CipherInjective(key: BlockBytes, x: BlockBytes, y: BlockBytes)
    requires Aes128(key)(x) == Aes128(key)(y)
    ensures x == y
  {
    hide CipherOf, KeyWord, Bits, Values;
    var w := ScheduleOf(Bits(key));
    BitsOfValues(CipherOf(w, Bits(x)));
    BitsOfValues(CipherOf(w, Bits(y)));
    CipherInverts(w, Bits(x));
    CipherInverts(w, Bits(y));
    ValuesOfBits(x);
    ValuesOfBits(y);
  }
}

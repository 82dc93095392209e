/** The table of H^(2^i) and the powers read from it. */
module Powers {
  import opened Words
  import opened Blocks
  import opened GhashTree

  // h_pow2[i] = H^(2^i)
  ghost predicate PowerTable(h: Block128, table: seq<Block128>) {
    |table| == 64 && forall i :: 0 <= i < 64 ==> table[i] == Pow(h, Pow2(i))
  }

  function Popcount(n: nat): nat { if n == 0 then 0 else n % 2 + Popcount(n / 2) }

  lemma FirstEntry(h: Block128)
    ensures Pow(h, Pow2(0)) == h
  {
    MulOne(h);
  }

  // Repeated squaring, as init_hash_key_kernel does it
  method FillTable(h: Block128, table: array<Block128>)
    requires table.Length == 64
    modifies table
    ensures PowerTable(h, table[..])
  {
    hide Mul, Pow, Pow2;
    table[0] := h;
    FirstEntry(h);
    for i := 1 to 64
      invariant forall j :: 0 <= j < i ==> table[j] == Pow(h, Pow2(j))
    {
      var square := GfMul(table[i - 1], table[i - 1]);
      SquareEntry(h, i);
      table[i] := square;
    }
  }

  lemma SquareEntry(h: Block128, i: nat)
    requires i > 0
    ensures Mul(Pow(h, Pow2(i - 1)), Pow(h, Pow2(i - 1))) == Pow(h, Pow2(i))
  {
    PowAdd(h, Pow2(i - 1), Pow2(i - 1));
  }

  lemma SplitRest(p: nat, rest: nat)
    ensures p * rest == (2 * p) * (rest / 2) + if rest % 2 == 1 then p else 0
  {}

  // result * H^(p * rest), when the loop consumes the low bit of rest
  lemma PowStep(h: Block128, result: Block128, p: nat, rest: nat)
    ensures Mul(result, Pow(h, p * rest)) ==
            Mul(if rest % 2 == 1 then Mul(result, Pow(h, p)) else result, Pow(h, (2 * p) * (rest / 2)))
  {
    var half := (2 * p) * (rest / 2);
    SplitRest(p, rest);
    if rest % 2 == 1 {
      PowAdd(h, p, half);
      MulAssociates(result, Pow(h, p), Pow(h, half));
    }
  }

  // muls counts the field multiplications
  method GfPowFromTable(ghost h: Block128, table: seq<Block128>, exponent: uint64) returns (result: Block128, muls: nat)
    requires PowerTable(h, table)
    ensures result == Pow(h, exponent)
    ensures muls == Popcount(exponent)
  {
    result := ONE;
    muls := 0;
    var bit := 0;
    var rest := exponent;
    MulOne(Pow(h, exponent));
    while rest != 0
      invariant Mul(result, Pow(h, Pow2(bit) * rest)) == Pow(h, exponent)
      invariant Pow2(bit) * rest <= exponent
      invariant muls + Popcount(rest) == Popcount(exponent)
    {
      InTable(bit, rest, exponent);
      PowStep(h, result, Pow2(bit), rest);
      if rest % 2 == 1 {
        result := GfMul(result, table[bit]);
        muls := muls + 1;
      }
      SplitRest(Pow2(bit), rest);
      rest := rest / 2;
      bit := bit + 1;
    }
    MulOne(result);
  }

  // A set bit of a 64-bit exponent is inside the table
  lemma InTable(bit: nat, rest: nat, exponent: uint64)
    requires rest > 0 && Pow2(bit) * rest <= exponent
    ensures bit < 64
  {
    Widths();
    Multiple(Pow2(bit), rest);
    if bit >= 64 { Pow2Monotone(64, bit); }
  }
}

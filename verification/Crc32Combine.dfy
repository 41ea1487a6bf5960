/** crc32_combine: the CRC of a concatenation from the CRCs of its parts, by repeated squaring. */
module Crc32Combine {
  import opened Gf2
  import opened Crc32

  /** gf2_matrix_times. */
  method MatrixTimes(mat: array<bv32>, vec0: bv32) returns (sum: bv32)
    requires mat.Length == 32
    ensures sum == MatVec(mat[..], vec0)
  {
    hide Add, Odd, Half;
    sum := 0;
    var vec, i := vec0, 0;
    EveryWordFits(vec);
    AddZero(MatVec(mat[..], vec));
    assert mat[..][0..] == mat[..];
    while vec != 0
      invariant 0 <= i <= 32 && Fits(vec, 32 - i)
      invariant MatVec(mat[..], vec0) == Add(sum, MatVec(mat[..][i..], vec))
      decreases 32 - i
    {
      ghost var rest := mat[..][i..];
      assert rest[1..] == mat[..][i + 1..];
      AddAssoc(sum, if Odd(vec) then mat[i] else 0, MatVec(rest[1..], Half(vec)));
      AddZero(sum);
      OddBit(vec);
      if vec & 1 == 1 {
        sum := Add(sum, mat[i]);
      }
      vec := Half(vec);
      i := i + 1;
    }
    ZeroVector(mat[..][i..]);
    AddZero(sum);
  }

  lemma OddBit(v: bv32)
    ensures Odd(v) == (v & 1 == 1)
  {
  }

  lemma {:induction false} ZeroVector(mat: seq<bv32>)
    ensures MatVec(mat, 0) == 0
    decreases |mat|
  {
    if mat != [] {
      ZeroVector(mat[1..]);
    }
  }

  /** gf2_matrix_square: squaring the operator of `n` zero bits gives that of `2 n`. */
  method MatrixSquare(square: array<bv32>, mat: array<bv32>, ghost n: nat)
    requires square.Length == 32 && mat.Length == 32 && square != mat
    requires Operator(mat[..], n)
    modifies square
    ensures Operator(square[..], 2 * n)
  {
    hide Step, MatVec;
    for i := 0 to 32
      invariant forall j :: 0 <= j < i ==> square[j] == Steps(Unit(j), 2 * n)
      invariant Operator(mat[..], n)
    {
      var column := MatrixTimes(mat, mat[i]);
      assert mat[i] == mat[..][i];
      OperatorApplies(mat[..], mat[i], n);
      StepsCompose(Unit(i), n, n);
      square[i] := column;
      assert mat[..] == old(mat[..]);
    }
  }

  /** The operator for one zero bit, as crc32_combine_ writes it down. */
  method OneZeroBit(odd: array<bv32>)
    requires odd.Length == 32
    modifies odd
    ensures Operator(odd[..], 1)
  {
    hide Double;
    odd[0] := POLY;
    var row: bv32 := 1;
    FirstColumn();
    for n := 1 to 32
      invariant row == Unit(n - 1)
      invariant forall j :: 0 <= j < n ==> odd[j] == Steps(Unit(j), 1)
    {
      odd[n] := row;
      StepUnit(n);
      OneStep(Unit(n));
      row := Double(row);
    }
  }

  lemma OneStep(c: bv32)
    ensures Steps(c, 1) == Step(c)
  {
  }

  lemma FirstColumn()
    ensures Steps(Unit(0), 1) == POLY
  {
  }

  /** One bit of the length: after applying the operator of this bit, twice the operator remains for the rest. */
  lemma OneLengthBit(c: bv32, p: nat, len: nat)
    ensures Steps(if len % 2 == 1 then Steps(c, p) else c, 2 * p * (len / 2)) == Steps(c, p * len)
  {
    hide Step;
    LengthSplits(p, len % 2, len / 2);
    assert len == len % 2 + 2 * (len / 2);
    if len % 2 == 1 {
      StepsCompose(c, p, 2 * p * (len / 2));
    }
  }

  lemma LengthSplits(p: nat, bit: nat, half: nat)
    ensures p * (bit + 2 * half) == p * bit + 2 * p * half
  {
    assert p * (bit + 2 * half) == p * bit + p * (2 * half);
    assert p * (2 * half) == 2 * p * half;
  }

  /** crc32_combine_. */
  method Crc32CombineZeros(crc1: bv32, crc2: bv32, len0: int) returns (c: bv32)
    ensures c == if len0 <= 0 then crc1 else Add(Steps(crc1, 8 * len0), crc2)
  {
    hide Step, Add, Operator, MatVec;
    if len0 <= 0 { return crc1; }
    var even, odd := new bv32[32], new bv32[32];
    c := crc1;
    var len2: nat := len0;
    OneZeroBit(odd);
    MatrixSquare(even, odd, 1);
    MatrixSquare(odd, even, 2);
    ghost var p: nat := 4;
    while len2 != 0
      invariant Operator(odd[..], p)
      invariant Steps(c, 2 * p * len2) == Steps(crc1, 8 * len0)
      decreases len2
    {
      OneLengthBit(c, 2 * p, len2);
      MatrixSquare(even, odd, p);
      if len2 % 2 == 1 {
        OperatorApplies(even[..], c, 2 * p);
        c := MatrixTimes(even, c);
      }
      len2 := len2 / 2;
      if len2 == 0 { break; }
      OneLengthBit(c, 4 * p, len2);
      MatrixSquare(odd, even, 2 * p);
      if len2 % 2 == 1 {
        OperatorApplies(odd[..], c, 4 * p);
        c := MatrixTimes(odd, c);
      }
      len2 := len2 / 2;
      p := 4 * p;
    }
    c := Add(c, crc2);
  }

  /** The CRC of a concatenation, in terms of the CRCs of its parts. */
  lemma CrcOfConcatenation(a: seq<bv8>, b: seq<bv8>)
    ensures Crc(0, a + b) == Add(Steps(Crc(0, a), 8 * |b|), Crc(0, b))
  {
    hide Add, Step, Register;
    var ones: bv32, n := 0xffffffff, 8 * |b|;
    var mb := MessageBits(b);
    MessageConcat(a, b);
    AddZero(ones);
    RegisterConcat(ones, MessageBits(a), mb);
    var r := Register(ones, MessageBits(a));
    AddZero(r);
    RegisterLinear(r, 0, mb);
    AddZero(ones);
    RegisterLinear(ones, 0, mb);
    StepsAdd(r, ones, n);
    Rearrange(Steps(r, n), Steps(ones, n), Register(0, mb), ones);
  }

  lemma Rearrange(x: bv32, y: bv32, z: bv32, w: bv32)
    ensures Add(Add(x, z), w) == Add(Add(x, y), Add(Add(y, z), w))
  {
    hide Add;
    AddAssoc(x, y, Add(Add(y, z), w));
    AddAssoc(y, Add(y, z), w);
    AddAssoc(y, y, z);
    AddZero(y);
    AddZero(z);
    AddAssoc(x, z, w);
  }

  /** crc32_combine of the CRCs of two messages is the CRC of their concatenation. */
  method Crc32CombineMessages(a: array<bv8>, b: array<bv8>) returns (c: bv32)
    ensures c == Crc(0, a[..] + b[..])
  {
    hide Crc;
    c := Crc32CombineZeros(Crc(0, a[..]), Crc(0, b[..]), b.Length);
    CrcOfConcatenation(a[..], b[..]);
    if b.Length == 0 {
      assert a[..] + b[..] == a[..];
    }
  }
}

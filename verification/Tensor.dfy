/**
 * Tensor descriptors over a byte buffer: saturating element counts, wrapping byte lengths, the
 * in-place fill, and what a frozen tensor reads back.
 */
module Tensor {
  import opened Wrappers
  import opened CellCore
  import opened Arithmetic
  import opened FrameSets

  datatype DType = F32 | F16 | BF16 | I8 | U8 {
    function SizeInBytes(): nat {
      match this
      case F32 => 4
      case F16 => 2
      case BF16 => 2
      case I8 => 1
      case U8 => 1
    }
  }

  datatype TensorShape = TensorShape(dims: seq<nat>, rank: nat) {
    /** Four dimensions of the machine's word size; the rank is a byte and is not checked. */
    predicate Valid() {
      |dims| == 4 && rank < 256 && forall d :: d in dims ==> d < TWO_TO_64
    }

    function Used(): seq<nat>
      requires Valid() && rank <= 4
    {
      dims[..rank]
    }
  }

  function Shape1d(len: nat): TensorShape {
    TensorShape([len, 0, 0, 0], 1)
  }

  function Shape2d(rows: nat, cols: nat): TensorShape {
    TensorShape([rows, cols, 0, 0], 2)
  }

  function Shape3d(batch: nat, sequence: nat, depth: nat): TensorShape {
    TensorShape([batch, sequence, depth, 0], 3)
  }

  function Shape4d(batch: nat, channels: nat, height: nat, width: nat): TensorShape {
    TensorShape([batch, channels, height, width], 4)
  }

  function Product(dims: seq<nat>): nat {
    if dims == [] then 1 else Product(dims[..|dims| - 1]) * dims[|dims| - 1]
  }

  lemma ProductOfTwo(a: nat, b: nat)
    ensures Product([a]) == a && Product([a, b]) == a * b
  {
    assert [a][..0] == [] && [a, b][..1] == [a];
    assert Product([]) == 1;
    assert Product([a]) == Product([]) * a;
  }

  /**
   * The unused dimensions are zero and do not count: each shape has the product of those it was given.
   */
  lemma ShapeProducts(a: u64, b: u64, d: u64, e: u64)
    ensures Product(Shape1d(a).Used()) == a
    ensures Product(Shape2d(a, b).Used()) == a * b
    ensures Product(Shape3d(a, b, d).Used()) == a * b * d
    ensures Product(Shape4d(a, b, d, e).Used()) == a * b * d * e
    ensures Shape1d(a).dims[1..] == [0, 0, 0] && Shape2d(a, b).dims[2..] == [0, 0] && Shape3d(a, b, d).dims[3..] == [0]
  {
    ProductOfTwo(a, b);
    assert Shape1d(a).Used() == [a] && Shape2d(a, b).Used() == [a, b];
    assert Shape3d(a, b, d).Used() == [a, b, d] && [a, b, d][..2] == [a, b];
    assert Shape4d(a, b, d, e).Used() == [a, b, d, e] && [a, b, d, e][..3] == [a, b, d];
  }

  function Saturated(n: nat): nat {
    if n < TWO_TO_64 then n else TWO_TO_64 - 1
  }

  function SaturatingMul(a: nat, b: nat): nat {
    Saturated(a * b)
  }

  lemma SaturatingStep(p: nat, d: nat)
    ensures SaturatingMul(Saturated(p), d) == Saturated(p * d)
    ensures Saturated(p) == if p <= 0xffff_ffff_ffff_ffff then p else 0xffff_ffff_ffff_ffff
  {
    if p >= TWO_TO_64 && d > 0 {
      assert p * d >= p && (TWO_TO_64 - 1) * d >= TWO_TO_64 - 1;
      assert d > 1 ==> (TWO_TO_64 - 1) * d >= (TWO_TO_64 - 1) * 2;
    }
  }

  /** The loop of saturating products; a rank above four reads past the dimensions and panics. */
  method TotalElements(shape: TensorShape) returns (total: Option<nat>)
    requires shape.Valid()
    ensures total == if shape.rank <= 4 then Some(Saturated(Product(shape.Used()))) else None
    ensures shape.rank <= 4 && Product(shape.Used()) <= 0xffff_ffff_ffff_ffff ==> total == Some(Product(shape.Used()))
    ensures shape.rank <= 4 && Product(shape.Used()) > 0xffff_ffff_ffff_ffff ==> total == Some(0xffff_ffff_ffff_ffff)
  {
    var t := 1;
    var index := 0;
    while index < shape.rank
      invariant index <= shape.rank && index <= 4
      invariant t == Saturated(Product(shape.dims[..index]))
    {
      if index >= |shape.dims| {
        return None;
      }
      assert shape.dims[..index + 1][..index] == shape.dims[..index];
      SaturatingStep(Product(shape.dims[..index]), shape.dims[index]);
      t := SaturatingMul(t, shape.dims[index]);
      index := index + 1;
    }
    total := Some(t);
  }

  lemma {:induction false} ProductWithout(s: seq<nat>, i: nat)
    requires i < |s|
    ensures Product(s) == s[i] * Product(s[..i] + s[i + 1..])
  {
    var last := |s| - 1;
    if i < last {
      ProductWithout(s[..last], i);
      var rest := s[..i] + s[i + 1..];
      assert rest[..|rest| - 1] == s[..last][..i] + s[..last][i + 1..];
      Regroup(s[i], Product(rest[..|rest| - 1]), s[last]);
    } else {
      assert s[..i] + s[i + 1..] == s[..last];
    }
  }

  lemma MultisetWithout(s: seq<nat>, i: nat)
    requires i < |s|
    ensures multiset(s[..i] + s[i + 1..]) == multiset(s) - multiset{s[i]}
  {
    assert s == s[..i] + [s[i]] + s[i + 1..];
  }

  lemma Regroup(a: nat, b: nat, d: nat)
    ensures a * b * d == a * (b * d)
  {
  }

  /** The element count does not depend on the order of the dimensions, saturated or not. */
  lemma {:induction false} ProductIgnoresOrder(s: seq<nat>, t: seq<nat>)
    requires multiset(s) == multiset(t)
    ensures Product(s) == Product(t)
    decreases |s|
  {
    if s == [] {
      assert |t| == |multiset(t)| == |multiset(s)| == 0;
    } else {
      var last := |s| - 1;
      assert s == s[..last] + [s[last]];
      assert s[last] in multiset(t);
      var i :| 0 <= i < |t| && t[i] == s[last];
      var rest := t[..i] + t[i + 1..];
      MultisetWithout(t, i);
      MultisetWithout(s, last);
      assert s[..last] + s[last + 1..] == s[..last];
      ProductIgnoresOrder(s[..last], rest);
      ProductWithout(t, i);
    }
  }

  /** The byte length of the constructor; the multiplication wraps. */
  function ByteLength(shape: TensorShape, dtype: DType): nat
    requires shape.Valid() && shape.rank <= 4
  {
    Saturated(Product(shape.Used())) * dtype.SizeInBytes() % TWO_TO_64
  }

  /**
   * The byte length in numbers: as many bytes as the elements take, modulo 2^64, and when not even
   * the elements can be counted, 2^64 less the size of one.
   */
  lemma ByteLengthIs(shape: TensorShape, dtype: DType)
    requires shape.Valid() && shape.rank <= 4
    ensures var elements := Product(shape.Used());
            var size := match dtype case F32 => 4 case F16 => 2 case BF16 => 2 case I8 => 1 case U8 => 1;
            (elements * size <= 0xffff_ffff_ffff_ffff ==> ByteLength(shape, dtype) == elements * size)
            && (elements <= 0xffff_ffff_ffff_ffff ==>
                  ByteLength(shape, dtype) == elements * size % 0x1_0000_0000_0000_0000)
            && (elements > 0xffff_ffff_ffff_ffff ==>
                  ByteLength(shape, dtype) == 0x1_0000_0000_0000_0000 - size)
  {
    hide Product;
  }

  /** How many four-byte elements take 2^64 bytes. */
  const WORDS_PER_WRAP: nat := 0x4000_0000_0000_0000

  /** The number of elements `as_slice` returns for the matching type; its checks pass. */
  function SliceLength(shape: TensorShape, dtype: DType): nat
    requires shape.Valid() && shape.rank <= 4
  {
    ByteLength(shape, dtype) / dtype.SizeInBytes()
  }

  lemma WrapKeepsMultiples(n: nat, size: nat)
    requires size in {1, 2, 4}
    ensures n * size % TWO_TO_64 % size == 0
  {
    var q := n * size / TWO_TO_64;
    assert n * size % TWO_TO_64 == n * size - q * TWO_TO_64;
    var k := TWO_TO_64 / size;
    assert TWO_TO_64 == k * size;
    assert q * TWO_TO_64 == (q * k) * size by {
      assert q * (k * size) == (q * k) * size;
    }
    assert n * size % TWO_TO_64 == (n - q * k) * size by {
      assert (n - q * k) * size == n * size - (q * k) * size;
    }
    MultipleHasNoRemainder(n - q * k, size);
  }

  lemma MultipleHasNoRemainder(n: int, size: nat)
    requires size in {1, 2, 4}
    ensures n * size % size == 0
  {
  }

  /**
   * The length check of `as_slice` always passes, and the slice has as many elements as the shape
   * exactly when their bytes can be counted in a machine word.
   */
  lemma SliceHasAllElements(shape: TensorShape, dtype: DType)
    requires shape.Valid() && shape.rank <= 4
    ensures ByteLength(shape, dtype) % dtype.SizeInBytes() == 0
    ensures SliceLength(shape, dtype) == Product(shape.Used())
            <==> Product(shape.Used()) * (match dtype case F32 => 4 case F16 => 2 case BF16 => 2 case I8 => 1 case U8 => 1)
                 <= 0xffff_ffff_ffff_ffff
  {
    hide Product, Saturated;
    var p, size := Product(shape.Used()), dtype.SizeInBytes();
    WrapKeepsMultiples(Saturated(p), size);
    LengthOfProduct(p, size);
  }

  lemma LengthOfProduct(p: nat, size: nat)
    requires size in {1, 2, 4}
    ensures Saturated(p) * size % TWO_TO_64 / size == p <==> p * size < TWO_TO_64
  {
    if p * size < TWO_TO_64 {
      assert Saturated(p) == p;
      assert p * size / size == p;
    } else {
      var bytes := Saturated(p) * size % TWO_TO_64;
      assert bytes / size * size <= bytes < TWO_TO_64;
    }
  }

  /**
   * The bytes of a one-dimensional F32 tensor, as the constructor counts them, are at most a frame
   * exactly when its element count, taken modulo 2^62, is at most 1024.
   */
  lemma FitsOneFrame(n: nat)
    requires n < TWO_TO_64
    ensures ByteLength(Shape1d(n), F32) == 4 * (n % WORDS_PER_WRAP)
    ensures ByteLength(Shape1d(n), F32) <= FRAME_SIZE <==> n % WORDS_PER_WRAP <= 1024
    ensures n < WORDS_PER_WRAP ==> ByteLength(Shape1d(n), F32) == 4 * n
  {
    var used := Shape1d(n).Used();
    assert used == [n] && used[..0] == [];
    assert Product(used) == Product(used[..0]) * n;
    Remainder(4 * n, n / WORDS_PER_WRAP, 4 * (n % WORDS_PER_WRAP), TWO_TO_64);
  }

  /** 2^62 elements are counted as no bytes. */
  lemma HugeTensorTakesNoBytes()
    ensures var n := WORDS_PER_WRAP;
            Product(Shape1d(n).Used()) == n && ByteLength(Shape1d(n), F32) == 0
            && SliceLength(Shape1d(n), F32) == 0
  {
    var used := Shape1d(WORDS_PER_WRAP).Used();
    assert used == [WORDS_PER_WRAP] && used[..0] == [];
    assert Product(used) == Product(used[..0]) * WORDS_PER_WRAP;
    FitsOneFrame(WORDS_PER_WRAP);
  }

  // Contents

  /** The bytes of 1.0 in memory order: 0x3f800000, least significant byte first. */
  const ONE_BYTES: seq<bv8> := [0x00, 0x00, 0x80, 0x3f]

  /** The bit pattern of a binary32 number from its four bytes. */
  function BitsOfBytes(b: seq<bv8>): nat
    requires |b| == 4
  {
    LittleEndian(b[0] as nat, b[1] as nat, b[2] as nat, b[3] as nat)
  }

  function LittleEndian(x: nat, y: nat, z: nat, w: nat): nat {
    x + 0x100 * y + 0x1_0000 * z + 0x100_0000 * w
  }

  /**
   * The value of a bit pattern that stands for a natural number below 2^24 (section 3.4 of
   * IEEE 754-2008); nothing for other patterns.
   */
  function WholeValue(bits: nat): Option<nat> {
    var exponent, fraction := bits / 0x80_0000, bits % 0x80_0000;
    if bits == 0 then Some(0)
    else if 127 <= exponent <= 150 && (0x80_0000 + fraction) % Pow2(150 - exponent) == 0
    then Some((0x80_0000 + fraction) / Pow2(150 - exponent))
    else None
  }

  /** The `i`-th group of four bytes. */
  function Word(bytes: seq<bv8>, i: nat): seq<bv8>
    requires 4 * i + 4 <= |bytes|
  {
    bytes[4 * i..4 * i + 4]
  }

  /** What a frozen F32 tensor over these bytes reads as. */
  function Elements(bytes: seq<bv8>): seq<Option<nat>> {
    seq(|bytes| / 4, i requires 0 <= i < |bytes| / 4 => WholeValue(BitsOfBytes(Word(bytes, i))))
  }

  /** How often `n` is doubled to bring its highest bit to that of 2^23. */
  function Doublings(n: nat): (k: nat)
    requires 0 < n < 0x100_0000
    ensures 0x80_0000 <= n * Pow2(k) < 0x100_0000
    decreases 0x100_0000 - n
  {
    if n >= 0x80_0000 then 0
    else
      var k := Doublings(2 * n);
      Regroup(n, 2, Pow2(k));
      1 + k
  }

  /** The bit pattern of a natural number: sign and exponent field, then the bits below the highest. */
  function PatternOf(n: nat): nat
    requires n < 0x100_0000
  {
    if n == 0 then 0
    else
      var k := Doublings(n);
      DoublingsBound(n, k);
      (150 - k) * 0x80_0000 + (n * Pow2(k) - 0x80_0000)
  }

  lemma {:induction false} DoublingsUnique(n: nat, k: nat)
    requires 0x80_0000 <= n * Pow2(k) < 0x100_0000
    ensures 0 < n < 0x100_0000 && k == Doublings(n)
    decreases k
  {
    assert n > 0;
    AtLeast(n, Pow2(k));
    if k > 0 {
      var p := Pow2(k - 1);
      assert n * (2 * p) == 2 * n * p;
      DoublingsUnique(2 * n, k - 1);
    }
  }

  lemma AtLeast(n: nat, p: nat)
    requires p >= 1
    ensures n <= n * p
  {
  }

  lemma DoublingsBound(n: nat, k: nat)
    requires 0x80_0000 <= n * Pow2(k) < 0x100_0000 && n > 0
    ensures Pow2(k) < 0x100_0000 && k <= 23
  {
    AtLeast(Pow2(k), n);
    if k > 23 {
      PowersGrow(24, k);
      Pow2Of23();
    }
  }

  lemma {:induction false} PowersGrow(j: nat, k: nat)
    requires j <= k
    ensures Pow2(j) <= Pow2(k)
    decreases k
  {
    if j < k {
      PowersGrow(j, k - 1);
    }
  }

  /** Decoding undoes encoding, and every pattern that decodes to `n` is the one that encodes it. */
  lemma PatternIff(bits: nat, n: nat)
    ensures WholeValue(bits) == Some(n) <==> n < 0x100_0000 && bits == PatternOf(n)
  {
    hide Pow2, Doublings;
    if n < 0x100_0000 && bits == PatternOf(n) {
      if n > 0 {
        PatternDecodes(n);
      }
    } else if WholeValue(bits) == Some(n) && bits > 0 {
      var exponent, fraction := bits / 0x80_0000, bits % 0x80_0000;
      var k := 150 - exponent;
      assert 0x80_0000 + fraction == Pow2(k) * n;
      DoublingsUnique(n, k);
      assert false;
    }
  }

  lemma PatternDecodes(n: nat)
    requires 0 < n < 0x100_0000
    ensures WholeValue(PatternOf(n)) == Some(n)
  {
    hide Pow2, Doublings;
    var k := Doublings(n);
    DoublingsBound(n, k);
    var fraction := n * Pow2(k) - 0x80_0000;
    Remainder(PatternOf(n), 150 - k, fraction, 0x80_0000);
    Remainder(n * Pow2(k), n, 0, Pow2(k));
  }

  /** The bytes of a word of memory are the digits of its bit pattern, the least significant first. */
  lemma BytesAreDigits(b: seq<bv8>)
    requires |b| == 4
    ensures var bits := BitsOfBytes(b);
            bits < 0x1_0000_0000
            && b[0] as nat == bits % 0x100 && b[1] as nat == bits / 0x100 % 0x100
            && b[2] as nat == bits / 0x1_0000 % 0x100 && b[3] as nat == bits / 0x100_0000
  {
    hide LittleEndian;
    Digits(b[0] as nat, b[1] as nat, b[2] as nat, b[3] as nat);
  }

  lemma Digits(x: nat, y: nat, z: nat, w: nat)
    requires x < 0x100 && y < 0x100 && z < 0x100 && w < 0x100
    ensures var n := LittleEndian(x, y, z, w);
            n < 0x1_0000_0000
            && n % 0x100 == x && n / 0x100 % 0x100 == y && n / 0x1_0000 % 0x100 == z && n / 0x100_0000 == w
  {
    var n := x + 0x100 * y + 0x1_0000 * z + 0x100_0000 * w;
    Remainder(n, y + 0x100 * z + 0x1_0000 * w, x, 0x100);
    Remainder(y + 0x100 * z + 0x1_0000 * w, z + 0x100 * w, y, 0x100);
    Remainder(n, z + 0x100 * w, x + 0x100 * y, 0x1_0000);
    Remainder(z + 0x100 * w, w, z, 0x100);
    Remainder(n, w, x + 0x100 * y + 0x1_0000 * z, 0x100_0000);
  }

  /**
   * What a slice reads: element `i` is the natural number whose bit pattern the four bytes from
   * `4 * i` on spell, and there are as many elements as whole groups of four bytes.
   */
  lemma ElementsExactly(bytes: seq<bv8>, i: nat, n: nat)
    requires 4 * i + 4 <= |bytes|
    ensures |Elements(bytes)| == |bytes| / 4
    ensures Elements(bytes)[i] == Some(n)
            <==> n < 0x100_0000
                 && PatternOf(n) == bytes[4 * i] as nat + 0x100 * (bytes[4 * i + 1] as nat)
                                    + 0x1_0000 * (bytes[4 * i + 2] as nat) + 0x100_0000 * (bytes[4 * i + 3] as nat)
  {
    hide WholeValue, PatternOf;
    PatternIff(BitsOfBytes(Word(bytes, i)), n);
  }

  lemma OneDecodes()
    ensures WholeValue(BitsOfBytes(ONE_BYTES)) == Some(1)
  {
    assert BitsOfBytes(ONE_BYTES) == 0x3f80_0000;
    Pow2Of23();
  }

  lemma Pow2Of23()
    ensures Pow2(23) == 0x80_0000 && Pow2(24) == 0x100_0000
  {
    assert Pow2(8) == 0x100;
    assert Pow2(16) == 0x1_0000;
  }

  predicate WordsAreOne(bytes: seq<bv8>, n: nat)
    requires 4 * n <= |bytes|
  {
    forall i :: 0 <= i < n ==> Word(bytes, i) == ONE_BYTES
  }

  lemma OneMoreWord(before: seq<bv8>, after: seq<bv8>, len: nat, i: nat)
    requires 4 * i + 4 <= len <= |before| == |after| && WordsAreOne(before[..len], i)
    requires after[..4 * i] == before[..4 * i]
    requires forall k :: 0 <= k < 4 ==> after[4 * i + k] == ONE_BYTES[k]
    ensures WordsAreOne(after[..len], i + 1)
  {
    assert Word(after[..len], i) == ONE_BYTES;
    forall j | 0 <= j < i
      ensures Word(after[..len], j) == ONE_BYTES
    {
      assert Word(after[..len], j) == after[..4 * i][4 * j..4 * j + 4];
      assert Word(before[..len], j) == before[..4 * i][4 * j..4 * j + 4];
    }
  }

  class TensorChunk {
    const context: TraceContext
    const shape: TensorShape
    const dtype: DType
    const physAddr: nat
    const virtPtr: nat
    const byteLen: nat
    /** The memory from `virtPtr` on that the creator handed over. */
    const memory: array<bv8>
    /** False while the tensor may be written, true once frozen. */
    var ready: bool

    /** The creator provides at least `byteLen` bytes. */
    ghost predicate Valid() {
      shape.Valid() && shape.rank <= 4 && byteLen == ByteLength(shape, dtype) && byteLen <= memory.Length
    }

    constructor (context: TraceContext, physAddr: nat, virtPtr: nat, shape: TensorShape, dtype: DType,
                 memory: array<bv8>)
      requires shape.Valid() && shape.rank <= 4 && ByteLength(shape, dtype) <= memory.Length
      ensures Valid() && !ready && this.memory == memory
      ensures this.context == context && this.physAddr == physAddr && this.virtPtr == virtPtr
      ensures this.shape == shape && this.dtype == dtype && byteLen == ByteLength(shape, dtype)
      ensures var size := match dtype case F32 => 4 case F16 => 2 case BF16 => 2 case I8 => 1 case U8 => 1;
              Product(shape.Used()) * size <= 0xffff_ffff_ffff_ffff ==> byteLen == Product(shape.Used()) * size
    {
      this.context, this.physAddr, this.virtPtr := context, physAddr, virtPtr;
      this.shape, this.dtype, this.memory := shape, dtype, memory;
      this.ready := false;
      var total := TotalElements(shape);
      byteLen := total.value * dtype.SizeInBytes() % TWO_TO_64;
      ByteLengthIs(shape, dtype);
    }

    /** Writes 1.0 into every whole group of four bytes of the tensor, and nothing else. */
    method FillOnes()
      requires Valid() && !ready
      modifies memory
      ensures WordsAreOne(memory[..byteLen], byteLen / 4)
      ensures memory[byteLen / 4 * 4..] == old(memory[byteLen / 4 * 4..])
    {
      for i := 0 to byteLen / 4
        invariant WordsAreOne(memory[..byteLen], i)
        invariant memory[4 * i..] == old(memory[4 * i..])
      {
        ghost var before := memory[..];
        forall k | 0 <= k < 4 {
          memory[4 * i + k] := ONE_BYTES[k];
        }
        OneMoreWord(before, memory[..], byteLen, i);
        assert memory[4 * (i + 1)..] == before[4 * i..][4..];
      }
    }

    method Freeze()
      requires Valid() && !ready
      modifies this
      ensures Valid() && ready
    {
      ready := true;
    }

    /**
     * The frozen contents as 4-byte elements.  Nothing stands for a panic: the element size or the
     * alignment does not match.
     */
    method AsSliceF32() returns (values: Option<seq<Option<nat>>>)
      requires Valid() && ready
      ensures values == if dtype == F32 && virtPtr % 4 == 0 then Some(Elements(memory[..byteLen])) else None
      ensures values.Some? ==> |values.value| == SliceLength(shape, dtype)
    {
      SliceHasAllElements(shape, dtype);
      if 4 != dtype.SizeInBytes() || byteLen % 4 != 0 || virtPtr % 4 != 0 {
        return None;
      }
      values := Some(Elements(memory[..byteLen]));
    }

    method Deconstruct() returns (context: TraceContext, physAddr: nat)
      ensures context == this.context && physAddr == this.physAddr
    {
      context, physAddr := this.context, this.physAddr;
    }
  }

  /** Every element reads as 1. */
  predicate ReadsAsOnes(elements: seq<Option<nat>>) {
    forall i :: 0 <= i < |elements| ==> elements[i] == Some(1)
  }

  /** Filling and freezing gives a tensor that reads back as as many ones as the shape has elements. */
  method PrepareOnes(context: TraceContext, physAddr: nat, virtPtr: nat, n: nat, frame: array<bv8>)
    returns (tensor: TensorChunk)
    requires n <= 1024 && frame.Length == FRAME_SIZE
    modifies frame
    ensures tensor.Valid() && tensor.ready && fresh(tensor) && tensor.memory == frame
    ensures tensor.shape == Shape1d(n) && tensor.dtype == F32 && tensor.virtPtr == virtPtr
    ensures tensor.physAddr == physAddr && tensor.context == context
    ensures tensor.byteLen == 4 * n && ReadsAsOnes(Elements(frame[..tensor.byteLen]))
  {
    FitsOneFrame(n);
    tensor := new TensorChunk(context, physAddr, virtPtr, Shape1d(n), F32, frame);
    tensor.FillOnes();
    tensor.Freeze();
    OneDecodes();
  }
}

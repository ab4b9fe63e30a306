/**
  The CRC of mkpimage.c: the table-driven loop, against bit-serial division by the generator of section 3.2.9
  of IEEE 802.3, most significant bit first.
 */
module CrcAlgebra {

  /** n applications of f. */
  function Iterate<T>(f: T -> T, n: nat, x: T): T {
    if n == 0 then x else Iterate(f, n - 1, f(x))
  }

  ghost predicate Additive<T(!new)>(f: T -> T, add: (T, T) -> T) {
    forall x, y :: AdditiveAt(f, add, x, y)
  }

  predicate AdditiveAt<T(==)>(f: T -> T, add: (T, T) -> T, x: T, y: T) {
    f(add(x, y)) == add(f(x), f(y))
  }

  lemma {:induction false} IterateAdditive<T(!new)>(f: T -> T, add: (T, T) -> T, n: nat, x: T, y: T)
    requires Additive(f, add)
    ensures Iterate(f, n, add(x, y)) == add(Iterate(f, n, x), Iterate(f, n, y))
  {
    if n > 0 {
      assert AdditiveAt(f, add, x, y);
      IterateAdditive(f, add, n - 1, f(x), f(y));
    }
  }

  /** A register c that is fed n items, taken one after the other from b. */
  function FeedAll<T, B>(feed: (T, B) -> T, drop: B -> B, n: nat, c: T, b: B): T {
    if n == 0 then c else FeedAll(feed, drop, n - 1, feed(c, b), drop(b))
  }

  /** If b is added to the register first, a step without input does what feeding the first item of b does. */
  ghost predicate Carried<T(!new), B(!new)>(
    step: T -> T, add: (T, T) -> T, feed: (T, B) -> T, drop: B -> B, lift: B -> T) {
    forall c, b :: CarriedAt(step, add, feed, drop, lift, c, b)
  }

  predicate CarriedAt<T(==), B>(
    step: T -> T, add: (T, T) -> T, feed: (T, B) -> T, drop: B -> B, lift: B -> T, c: T, b: B) {
    step(add(c, lift(b))) == add(feed(c, b), lift(drop(b)))
  }

  lemma {:induction false} FeedAllCarried<T(!new), B(!new)>(
    step: T -> T, add: (T, T) -> T, feed: (T, B) -> T, drop: B -> B, lift: B -> T, n: nat, c: T, b: B)
    requires Carried(step, add, feed, drop, lift)
    ensures Iterate(step, n, add(c, lift(b))) == add(FeedAll(feed, drop, n, c, b), lift(Iterate(drop, n, b)))
  {
    if n > 0 {
      assert CarriedAt(step, add, feed, drop, lift, c, b);
      FeedAllCarried(step, add, feed, drop, lift, n - 1, feed(c, b), drop(b));
    }
  }

  lemma IterateEight<T>(f: T -> T, x: T)
    ensures Iterate(f, 8, x) == f(f(f(f(f(f(f(f(x))))))))
  {
    var y := f(f(f(f(x))));
    assert Iterate(f, 4, y) == f(f(f(f(y))));
    assert Iterate(f, 8, x) == Iterate(f, 7, f(x)) ==
      Iterate(f, 6, f(f(x))) == Iterate(f, 5, f(f(f(x)))) == Iterate(f, 4, y);
  }
}

module CrcRegister {
  import opened CrcAlgebra

  type Word = bv32
  type Byte = bv8

  const GENERATOR: Word := 0x04c11db7

  predicate Top(x: Word) {
    x & 0x8000_0000 != 0
  }

  function Xor(x: Word, y: Word): Word {
    x ^ y
  }

  /** One bit of the message enters the register; it and the bit that leaves decide about the generator. */
  function Feed(crc: Word, bit: bool): Word {
    if Top(crc) != bit then (crc << 1) ^ GENERATOR else crc << 1
  }

  /** The bit to feed is the first one of a byte. */
  function FeedFirst(crc: Word, b: Byte): Word {
    Feed(crc, b & 0x80 != 0)
  }

  function Drop(b: Byte): Byte {
    b << 1
  }

  /** Bit-serial division of one byte, most significant bit first. */
  function SerialByte(crc: Word, b: Byte): Word {
    FeedAll(FeedFirst, Drop, 8, crc, b)
  }

  /** Bit-serial division of a message: the register after its last bit. */
  function Serial(crc: Word, s: seq<Byte>): Word
    decreases |s|
  {
    if s == [] then crc else Serial(SerialByte(crc, s[0]), s[1..])
  }

  /** A message can be divided piece by piece. */
  lemma {:induction false} SerialConcat(crc: Word, a: seq<Byte>, b: seq<Byte>)
    ensures Serial(crc, a + b) == Serial(Serial(crc, a), b)
    decreases |a|
  {
    if a == [] {
      assert a + b == b;
    } else {
      assert (a + b)[1..] == a[1..] + b;
      SerialConcat(SerialByte(crc, a[0]), a[1..], b);
    }
  }

  // ------------------------------------------------- the register is linear

  /** One step of the register without a message bit. */
  function Step(x: Word): Word {
    if Top(x) then (x << 1) ^ GENERATOR else x << 1
  }

  lemma StepLinearTop(x: Word, y: Word)
    requires Top(x) && Top(y)
    ensures Step(x ^ y) == Step(x) ^ Step(y)
  {
  }

  lemma StepLinearMixed(x: Word, y: Word)
    requires Top(x) && !Top(y)
    ensures Step(x ^ y) == Step(x) ^ Step(y) && Step(y ^ x) == Step(y) ^ Step(x)
  {
  }

  lemma StepLinearLow(x: Word, y: Word)
    requires !Top(x) && !Top(y)
    ensures Step(x ^ y) == Step(x) ^ Step(y)
  {
  }

  lemma StepLinear(x: Word, y: Word)
    ensures Step(Xor(x, y)) == Xor(Step(x), Step(y))
  {
    if Top(x) && Top(y) {
      StepLinearTop(x, y);
    } else if Top(x) {
      StepLinearMixed(x, y);
    } else if Top(y) {
      StepLinearMixed(y, x);
    } else {
      StepLinearLow(x, y);
    }
  }

  lemma StepAdditiveAt(x: Word, y: Word)
    ensures AdditiveAt(Step, Xor, x, y)
  {
    StepLinear(x, y);
  }

  lemma StepAdditive()
    ensures Additive(Step, Xor)
  {
    forall x: Word, y: Word ensures AdditiveAt(Step, Xor, x, y) {
      StepAdditiveAt(x, y);
    }
  }

  // ------------------------------------------- a byte at a time, added on top

  /** A byte in the top byte of a word. */
  function Aloft(b: Byte): Word {
    (b as Word) << 24
  }

  lemma FeedAloftSame(c: Word, b: Byte)
    requires Top(c) == (b & 0x80 != 0)
    ensures Step(c ^ Aloft(b)) == Feed(c, b & 0x80 != 0) ^ Aloft(b << 1)
  {
  }

  lemma FeedAloftOther(c: Word, b: Byte)
    requires Top(c) != (b & 0x80 != 0)
    ensures Step(c ^ Aloft(b)) == Feed(c, b & 0x80 != 0) ^ Aloft(b << 1)
  {
  }

  /** With the byte added on top, a step without message bit does what feeding its first bit does. */
  lemma FeedAloft(c: Word, b: Byte)
    ensures Step(Xor(c, Aloft(b))) == Xor(FeedFirst(c, b), Aloft(Drop(b)))
  {
    if Top(c) == (b & 0x80 != 0) {
      FeedAloftSame(c, b);
    } else {
      FeedAloftOther(c, b);
    }
  }

  lemma ByteCarriedAt(c: Word, b: Byte)
    ensures CarriedAt(Step, Xor, FeedFirst, Drop, Aloft, c, b)
  {
    FeedAloft(c, b);
  }

  lemma ByteCarried()
    ensures Carried(Step, Xor, FeedFirst, Drop, Aloft)
  {
    forall c: Word, b: Byte ensures CarriedAt(Step, Xor, FeedFirst, Drop, Aloft, c, b) {
      ByteCarriedAt(c, b);
    }
  }

  lemma DropAll(b: Byte)
    ensures Iterate(Drop, 8, b) == 0
  {
    IterateEight(Drop, b);
  }

  /** Eight steps of the register that has the byte on top. */
  lemma ByteOnTop(c: Word, b: Byte)
    ensures SerialByte(c, b) == Iterate(Step, 8, Xor(c, Aloft(b)))
  {
    ByteCarried();
    FeedAllCarried(Step, Xor, FeedFirst, Drop, Aloft, 8, c, b);
    DropAll(b);
    XorNothing(SerialByte(c, b));
  }

  lemma XorNothing(x: Word)
    ensures Xor(x, Aloft(0)) == x
  {
  }

  lemma AddOnTop(c: Word, b: Byte)
    ensures Xor(c, Aloft(b)) == Xor(c, (b as Word) << 24)
  {
  }

  lemma SplitWord(c: Word, b: Byte)
    ensures Xor(c, (b as Word) << 24) == Xor((((c >> 24) ^ (b as Word)) & 0xff) << 24, c & 0x00ff_ffff)
  {
  }

  /** The sum of register and byte: the table index in the top byte, the rest of the register below. */
  lemma SplitTop(c: Word, b: Byte)
    ensures Xor(c, Aloft(b)) == Xor((((c >> 24) ^ (b as Word)) & 0xff) << 24, c & 0x00ff_ffff)
  {
    AddOnTop(c, b);
    SplitWord(c, b);
  }

  function Shift(x: Word): Word {
    x << 1
  }

  /** The n highest bits of x are clear, found by shifting. */
  predicate Clear(x: Word, n: nat)
    decreases n
  {
    n > 0 ==> !Top(x) && Clear(Shift(x), n - 1)
  }

  /** A step only shifts while no bit leaves the register. */
  lemma {:induction false} ClearShifts(x: Word, n: nat)
    requires Clear(x, n)
    ensures Iterate(Step, n, x) == Iterate(Shift, n, x)
    decreases n
  {
    if n > 0 { ClearShifts(Shift(x), n - 1); }
  }

  lemma LowClear(c: Word)
    ensures Clear(c & 0x00ff_ffff, 8)
  {
    var x := c & 0x00ff_ffff;
    assert Clear(Shift(Shift(Shift(Shift(x)))), 4);
  }

  lemma ShiftEight(c: Word)
    ensures Shift(Shift(Shift(Shift(Shift(Shift(Shift(Shift(c & 0x00ff_ffff)))))))) == c << 8
  {
  }

  /** Eight steps shift a word with an empty top byte. */
  lemma LowShifts(c: Word)
    ensures Iterate(Step, 8, c & 0x00ff_ffff) == c << 8
  {
    LowClear(c);
    ClearShifts(c & 0x00ff_ffff, 8);
    IterateEight(Shift, c & 0x00ff_ffff);
    ShiftEight(c);
  }

  /** What eight steps leave of a byte on top: the remainder that the table holds. */
  function Remainder(index: Word): Word {
    Iterate(Step, 8, index << 24)
  }

  lemma SumRemainder(high: Word, c: Word)
    ensures Iterate(Step, 8, Xor(high, c & 0x00ff_ffff)) == Xor(Iterate(Step, 8, high), c << 8)
  {
    StepAdditive();
    IterateAdditive(Step, Xor, 8, high, c & 0x00ff_ffff);
    LowShifts(c);
  }

  /** A byte of the message takes the register to the remainder of the table index plus the shifted register. */
  lemma ByteByRemainder(c: Word, b: Byte)
    ensures SerialByte(c, b) == Xor(Remainder(((c >> 24) ^ (b as Word)) & 0xff), c << 8)
  {
    ByteOnTop(c, b);
    SplitTop(c, b);
    SumRemainder((((c >> 24) ^ (b as Word)) & 0xff) << 24, c);
  }
}

/** The table of mkpimage.c, sixteen entries to a row, and the loop that uses it. */
module CrcTable {
  import opened CrcAlgebra
  import opened CrcRegister

  function Pick(k: Word, e0: Word, e1: Word, e2: Word, e3: Word, e4: Word, e5: Word, e6: Word, e7: Word,
                e8: Word, e9: Word, e10: Word, e11: Word, e12: Word, e13: Word, e14: Word, e15: Word): Word {
    if k == 0 then e0 else if k == 1 then e1 else if k == 2 then e2 else if k == 3 then e3
    else if k == 4 then e4 else if k == 5 then e5 else if k == 6 then e6 else if k == 7 then e7
    else if k == 8 then e8 else if k == 9 then e9 else if k == 10 then e10 else if k == 11 then e11
    else if k == 12 then e12 else if k == 13 then e13 else if k == 14 then e14 else e15
  }

  function Row0(k: Word): Word {
    Pick(k, 0x00000000, 0x04c11db7, 0x09823b6e, 0x0d4326d9, 0x130476dc, 0x17c56b6b, 0x1a864db2, 0x1e475005,
      0x2608edb8, 0x22c9f00f, 0x2f8ad6d6, 0x2b4bcb61, 0x350c9b64, 0x31cd86d3, 0x3c8ea00a, 0x384fbdbd)
  }

  function Row1(k: Word): Word {
    Pick(k, 0x4c11db70, 0x48d0c6c7, 0x4593e01e, 0x4152fda9, 0x5f15adac, 0x5bd4b01b, 0x569796c2, 0x52568b75,
      0x6a1936c8, 0x6ed82b7f, 0x639b0da6, 0x675a1011, 0x791d4014, 0x7ddc5da3, 0x709f7b7a, 0x745e66cd)
  }

  function Row2(k: Word): Word {
    Pick(k, 0x9823b6e0, 0x9ce2ab57, 0x91a18d8e, 0x95609039, 0x8b27c03c, 0x8fe6dd8b, 0x82a5fb52, 0x8664e6e5,
      0xbe2b5b58, 0xbaea46ef, 0xb7a96036, 0xb3687d81, 0xad2f2d84, 0xa9ee3033, 0xa4ad16ea, 0xa06c0b5d)
  }

  function Row3(k: Word): Word {
    Pick(k, 0xd4326d90, 0xd0f37027, 0xddb056fe, 0xd9714b49, 0xc7361b4c, 0xc3f706fb, 0xceb42022, 0xca753d95,
      0xf23a8028, 0xf6fb9d9f, 0xfbb8bb46, 0xff79a6f1, 0xe13ef6f4, 0xe5ffeb43, 0xe8bccd9a, 0xec7dd02d)
  }

  function Row4(k: Word): Word {
    Pick(k, 0x34867077, 0x30476dc0, 0x3d044b19, 0x39c556ae, 0x278206ab, 0x23431b1c, 0x2e003dc5, 0x2ac12072,
      0x128e9dcf, 0x164f8078, 0x1b0ca6a1, 0x1fcdbb16, 0x018aeb13, 0x054bf6a4, 0x0808d07d, 0x0cc9cdca)
  }

  function Row5(k: Word): Word {
    Pick(k, 0x7897ab07, 0x7c56b6b0, 0x71159069, 0x75d48dde, 0x6b93dddb, 0x6f52c06c, 0x6211e6b5, 0x66d0fb02,
      0x5e9f46bf, 0x5a5e5b08, 0x571d7dd1, 0x53dc6066, 0x4d9b3063, 0x495a2dd4, 0x44190b0d, 0x40d816ba)
  }

  function Row6(k: Word): Word {
    Pick(k, 0xaca5c697, 0xa864db20, 0xa527fdf9, 0xa1e6e04e, 0xbfa1b04b, 0xbb60adfc, 0xb6238b25, 0xb2e29692,
      0x8aad2b2f, 0x8e6c3698, 0x832f1041, 0x87ee0df6, 0x99a95df3, 0x9d684044, 0x902b669d, 0x94ea7b2a)
  }

  function Row7(k: Word): Word {
    Pick(k, 0xe0b41de7, 0xe4750050, 0xe9362689, 0xedf73b3e, 0xf3b06b3b, 0xf771768c, 0xfa325055, 0xfef34de2,
      0xc6bcf05f, 0xc27dede8, 0xcf3ecb31, 0xcbffd686, 0xd5b88683, 0xd1799b34, 0xdc3abded, 0xd8fba05a)
  }

  function Row8(k: Word): Word {
    Pick(k, 0x690ce0ee, 0x6dcdfd59, 0x608edb80, 0x644fc637, 0x7a089632, 0x7ec98b85, 0x738aad5c, 0x774bb0eb,
      0x4f040d56, 0x4bc510e1, 0x46863638, 0x42472b8f, 0x5c007b8a, 0x58c1663d, 0x558240e4, 0x51435d53)
  }

  function Row9(k: Word): Word {
    Pick(k, 0x251d3b9e, 0x21dc2629, 0x2c9f00f0, 0x285e1d47, 0x36194d42, 0x32d850f5, 0x3f9b762c, 0x3b5a6b9b,
      0x0315d626, 0x07d4cb91, 0x0a97ed48, 0x0e56f0ff, 0x1011a0fa, 0x14d0bd4d, 0x19939b94, 0x1d528623)
  }

  function Row10(k: Word): Word {
    Pick(k, 0xf12f560e, 0xf5ee4bb9, 0xf8ad6d60, 0xfc6c70d7, 0xe22b20d2, 0xe6ea3d65, 0xeba91bbc, 0xef68060b,
      0xd727bbb6, 0xd3e6a601, 0xdea580d8, 0xda649d6f, 0xc423cd6a, 0xc0e2d0dd, 0xcda1f604, 0xc960ebb3)
  }

  function Row11(k: Word): Word {
    Pick(k, 0xbd3e8d7e, 0xb9ff90c9, 0xb4bcb610, 0xb07daba7, 0xae3afba2, 0xaafbe615, 0xa7b8c0cc, 0xa379dd7b,
      0x9b3660c6, 0x9ff77d71, 0x92b45ba8, 0x9675461f, 0x8832161a, 0x8cf30bad, 0x81b02d74, 0x857130c3)
  }

  function Row12(k: Word): Word {
    Pick(k, 0x5d8a9099, 0x594b8d2e, 0x5408abf7, 0x50c9b640, 0x4e8ee645, 0x4a4ffbf2, 0x470cdd2b, 0x43cdc09c,
      0x7b827d21, 0x7f436096, 0x7200464f, 0x76c15bf8, 0x68860bfd, 0x6c47164a, 0x61043093, 0x65c52d24)
  }

  function Row13(k: Word): Word {
    Pick(k, 0x119b4be9, 0x155a565e, 0x18197087, 0x1cd86d30, 0x029f3d35, 0x065e2082, 0x0b1d065b, 0x0fdc1bec,
      0x3793a651, 0x3352bbe6, 0x3e119d3f, 0x3ad08088, 0x2497d08d, 0x2056cd3a, 0x2d15ebe3, 0x29d4f654)
  }

  function Row14(k: Word): Word {
    Pick(k, 0xc5a92679, 0xc1683bce, 0xcc2b1d17, 0xc8ea00a0, 0xd6ad50a5, 0xd26c4d12, 0xdf2f6bcb, 0xdbee767c,
      0xe3a1cbc1, 0xe760d676, 0xea23f0af, 0xeee2ed18, 0xf0a5bd1d, 0xf464a0aa, 0xf9278673, 0xfde69bc4)
  }

  function Row15(k: Word): Word {
    Pick(k, 0x89b8fd09, 0x8d79e0be, 0x803ac667, 0x84fbdbd0, 0x9abc8bd5, 0x9e7d9662, 0x933eb0bb, 0x97ffad0c,
      0xafb010b1, 0xab710d06, 0xa6322bdf, 0xa2f33668, 0xbcb4666d, 0xb8757bda, 0xb5365d03, 0xb1f740b4)
  }

  /** The entry of an index below 256. */
  function Table(index: Word): Word {
    var row, k := index >> 4, index & 15;
    if row == 1 then Row1(k) else if row == 2 then Row2(k) else if row == 3 then Row3(k) else if row == 4 then Row4(k)
    else if row == 5 then Row5(k) else if row == 6 then Row6(k)
    else if row == 7 then Row7(k) else if row == 8 then Row8(k)
    else if row == 9 then Row9(k) else if row == 10 then Row10(k)
    else if row == 11 then Row11(k) else if row == 12 then Row12(k)
    else if row == 13 then Row13(k) else if row == 14 then Row14(k) else if row == 15 then Row15(k) else Row0(k)
  }

  /** The remainder of a table index, written out. */
  function EightSteps(index: Word): Word {
    Step(Step(Step(Step(Step(Step(Step(Step(index << 24))))))))
  }

  lemma Row0Entries(index: Word)
    requires index >> 4 == 0
    ensures Row0(index & 15) == EightSteps(index)
  {
  }

  lemma Row0Found(index: Word)
    requires index >> 4 == 0
    ensures Table(index) == Row0(index & 15)
  {
  }

  lemma Row0Correct(index: Word)
    requires index >> 4 == 0
    ensures Table(index) == EightSteps(index)
  {
    Row0Entries(index);
    Row0Found(index);
  }

  lemma Row1Correct(index: Word)
    requires index >> 4 == 1
    ensures Table(index) == EightSteps(index)
  {
  }

  lemma Row2Correct(index: Word)
    requires index >> 4 == 2
    ensures Table(index) == EightSteps(index)
  {
  }

  lemma Row3Correct(index: Word)
    requires index >> 4 == 3
    ensures Table(index) == EightSteps(index)
  {
  }

  lemma Row4Correct(index: Word)
    requires index >> 4 == 4
    ensures Table(index) == EightSteps(index)
  {
  }

  lemma Row5Correct(index: Word)
    requires index >> 4 == 5
    ensures Table(index) == EightSteps(index)
  {
  }

  lemma Row6Correct(index: Word)
    requires index >> 4 == 6
    ensures Table(index) == EightSteps(index)
  {
  }

  lemma Row7Correct(index: Word)
    requires index >> 4 == 7
    ensures Table(index) == EightSteps(index)
  {
  }

  lemma Row8Correct(index: Word)
    requires index >> 4 == 8
    ensures Table(index) == EightSteps(index)
  {
  }

  lemma Row9Correct(index: Word)
    requires index >> 4 == 9
    ensures Table(index) == EightSteps(index)
  {
  }

  lemma Row10Correct(index: Word)
    requires index >> 4 == 10
    ensures Table(index) == EightSteps(index)
  {
  }

  lemma Row11Correct(index: Word)
    requires index >> 4 == 11
    ensures Table(index) == EightSteps(index)
  {
  }

  lemma Row12Correct(index: Word)
    requires index >> 4 == 12
    ensures Table(index) == EightSteps(index)
  {
  }

  lemma Row13Correct(index: Word)
    requires index >> 4 == 13
    ensures Table(index) == EightSteps(index)
  {
  }

  lemma Row14Correct(index: Word)
    requires index >> 4 == 14
    ensures Table(index) == EightSteps(index)
  {
  }

  lemma Row15Correct(index: Word)
    requires index >> 4 == 15
    ensures Table(index) == EightSteps(index)
  {
  }

  /** Every entry of the table is the remainder of its index. */
  lemma TableCorrect(index: Word)
    requires index <= 0xff
    ensures Table(index) == EightSteps(index)
  {
    var row := index >> 4;
    if row == 0 {
      Row0Correct(index);
    } else if row == 1 {
      Row1Correct(index);
    } else if row == 2 {
      Row2Correct(index);
    } else if row == 3 {
      Row3Correct(index);
    } else if row == 4 {
      Row4Correct(index);
    } else if row == 5 {
      Row5Correct(index);
    } else if row == 6 {
      Row6Correct(index);
    } else if row == 7 {
      Row7Correct(index);
    } else if row == 8 {
      Row8Correct(index);
    } else if row == 9 {
      Row9Correct(index);
    } else if row == 10 {
      Row10Correct(index);
    } else if row == 11 {
      Row11Correct(index);
    } else if row == 12 {
      Row12Correct(index);
    } else if row == 13 {
      Row13Correct(index);
    } else if row == 14 {
      Row14Correct(index);
    } else {
      Row15Correct(index);
    }
  }

  lemma TableIsRemainder(index: Word)
    requires index <= 0xff
    ensures Remainder(index) == Table(index)
  {
    TableCorrect(index);
    IterateEight(Step, index << 24);
  }

  lemma IndexInRange(x: Word)
    ensures x & 0xff <= 0xff
  {
  }

  /** One turn of the table-driven loop divides one byte. */
  lemma ByteByTable(crc: Word, b: Byte)
    ensures SerialByte(crc, b) == (crc << 8) ^ Table(((crc >> 24) ^ (b as Word)) & 0xff)
  {
    ByteByRemainder(crc, b);
    IndexInRange((crc >> 24) ^ (b as Word));
    TableIsRemainder(((crc >> 24) ^ (b as Word)) & 0xff);
  }

  method Turn(crc: Word, b: Byte) returns (next: Word)
    ensures next == SerialByte(crc, b)
  {
    ByteByTable(crc, b);
    next := (crc << 8) ^ Table(((crc >> 24) ^ (b as Word)) & 0xff);
  }

  /** The checksum loop: table-driven, one byte of the buffer at a time, equal to the bit-serial division. */
  method Crc32(start: Word, buf: array<Byte>, length: nat) returns (crc: Word)
    requires length <= buf.Length
    ensures crc == Serial(start, buf[..length])
  {
    crc := start;
    var p, left := 0, length;
    while left > 0
      invariant p + left == length
      invariant Serial(start, buf[..length]) == Serial(crc, buf[p..length])
    {
      assert buf[p..length][1..] == buf[p + 1..length];
      left := left - 1;
      crc := Turn(crc, buf[p]);
      p := p + 1;
    }
  }
}

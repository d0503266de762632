/** The burst CRC-32: the shifting loop, its error-detecting strength and its
    meaning as a polynomial remainder (section 3.2.9 of IEEE 802.3).
    A 32-bit register is its 32 bits, least significant first. */
module Crc32 {
  import opened Bytes

  type Word = s: seq<bool> | |s| == 32 witness seq(32, _ => false)

  // ----- the algorithm -----

  /** Bit i of the reflected generator constant 0xEDB88320. */
  predicate PolyBit(i: nat) {
    0xEDB88320 / Pow2(i) % 2 == 1
  }

  function Poly(): Word {
    seq(32, i requires 0 <= i < 32 => PolyBit(i))
  }

  function AllOnes(): Word {
    seq(32, _ => true)
  }

  function Zeros(n: nat): seq<bool> {
    seq(n, _ => false)
  }

  function Xor(x: seq<bool>, y: seq<bool>): (z: seq<bool>)
    requires |x| == |y|
    ensures |z| == |x|
  {
    seq(|x|, i requires 0 <= i < |x| => x[i] != y[i])
  }

  function And(x: Word, y: Word): Word {
    seq(32, i requires 0 <= i < 32 => x[i] && y[i])
  }

  function Not(x: Word): Word {
    seq(32, i requires 0 <= i < 32 => !x[i])
  }

  function ShiftRight(x: Word): Word {
    x[1..] + [false]
  }

  /** `0u - (crc & 1u)`: the lowest bit copied to all 32 positions. */
  function Spread(x: Word): Word {
    seq(32, i => x[0])
  }

  /** At most 32 bits widened to a register. */
  function Widen(bits: seq<bool>): Word
    requires |bits| <= 32
  {
    bits + Zeros(32 - |bits|)
  }

  /** One turn of the inner loop. */
  function Shift(r: Word): Word {
    Xor(ShiftRight(r), And(Poly(), Spread(r)))
  }

  function ShiftN(r: Word, n: nat): Word
    decreases n
  {
    if n == 0 then r else ShiftN(Shift(r), n - 1)
  }

  /** A message's bits in transmission order. */
  function MessageBits(data: seq<byte>): (bits: seq<bool>)
    ensures |bits| == 8 * |data|
  {
    if data == [] then [] else Bits(data[0], 8) + MessageBits(data[1..])
  }

  /** The bit-serial register: one message bit enters at every shift. */
  function Feed(r: Word, bits: seq<bool>): Word
    decreases |bits|
  {
    if bits == [] then r else Feed(Shift(Xor(r, Widen(bits[..1]))), bits[1..])
  }

  /** What `crc32` returns, told bit-serially. */
  function Checksum(data: seq<byte>): u32 {
    if data == [] then 0 else WordValue(Not(Feed(AllOnes(), MessageBits(data))))
  }

  function WordValue(w: Word): u32 {
    BitsValue(w);
    Pow2At32();
    Value(w)
  }

  /** The byte-at-a-time nested loops compute the bit-serial checksum. */
  method Compute(data: seq<byte>) returns (crc: u32)
    ensures crc == Checksum(data)
  {
    if |data| == 0 {
      return 0;
    }
    var r: Word := AllOnes();
    assert data[0..] == data;
    for i := 0 to |data|
      invariant Feed(r, MessageBits(data[i..])) == Feed(AllOnes(), MessageBits(data))
    {
      ghost var before := r;
      r := Xor(r, Widen(Bits(data[i], 8)));
      for b := 0 to 8
        invariant ShiftN(r, 8 - b) == ShiftN(Xor(before, Widen(Bits(data[i], 8))), 8)
      {
        r := Xor(ShiftRight(r), And(Poly(), Spread(r)));
      }
      AbsorbWord(before, Bits(data[i], 8));
      assert data[i..][1..] == data[i + 1..];
      FeedConcat(before, Bits(data[i], 8), MessageBits(data[i + 1..]));
    }
    crc := WordValue(Not(r));
  }

  // ----- the register is injective -----

  lemma PolyTopBit()
    ensures Poly()[31]
  {
    Pow2At32();
    assert Pow2(32) == 2 * Pow2(31);
    assert PolyBit(31);
  }

  lemma ShiftInjective(r: Word, s: Word)
    requires Shift(r) == Shift(s)
    ensures r == s
  {
    PolyTopBit();
    assert r[0] == s[0] by { assert Shift(r)[31] == r[0] && Shift(s)[31] == s[0]; }
    forall i | 0 < i < 32
      ensures r[i] == s[i]
    {
      assert Shift(r)[i - 1] == Shift(s)[i - 1];
    }
  }

  lemma {:induction false} ShiftNInjective(r: Word, s: Word, n: nat)
    requires ShiftN(r, n) == ShiftN(s, n)
    ensures r == s
    decreases n
  {
    if n > 0 {
      ShiftNInjective(Shift(r), Shift(s), n - 1);
      ShiftInjective(r, s);
    }
  }

  /** Bits still to come may already sit above the one being absorbed. */
  lemma ShiftUnder(r: Word, bits: seq<bool>)
    requires 1 <= |bits| <= 32
    ensures Shift(Xor(r, Widen(bits))) == Xor(Shift(Xor(r, Widen(bits[..1]))), Widen(bits[1..]))
  {
  }

  /** Up to 32 bits fed one at a time act like one word combined in at once. */
  lemma {:induction false} AbsorbWord(r: Word, bits: seq<bool>)
    requires |bits| <= 32
    ensures Feed(r, bits) == ShiftN(Xor(r, Widen(bits)), |bits|)
    decreases |bits|
  {
    if bits == [] {
      assert Xor(r, Widen([])) == r;
    } else {
      ShiftUnder(r, bits);
      AbsorbWord(Shift(Xor(r, Widen(bits[..1]))), bits[1..]);
    }
  }

  lemma {:induction false} FeedConcat(r: Word, x: seq<bool>, y: seq<bool>)
    ensures Feed(r, x + y) == Feed(Feed(r, x), y)
    decreases |x|
  {
    if x == [] {
      assert x + y == y;
    } else {
      assert (x + y)[1..] == x[1..] + y && (x + y)[..1] == x[..1];
      FeedConcat(Shift(Xor(r, Widen(x[..1]))), x[1..], y);
    }
  }

  lemma XorCancels(r: Word, s: Word, x: Word)
    requires Xor(r, x) == Xor(s, x)
    ensures r == s
  {
    forall i | 0 <= i < 32
      ensures r[i] == s[i]
    {
      assert Xor(r, x)[i] == Xor(s, x)[i];
    }
  }

  lemma {:induction false} FeedInjective(r: Word, s: Word, bits: seq<bool>)
    requires Feed(r, bits) == Feed(s, bits)
    ensures r == s
    decreases |bits|
  {
    if bits != [] {
      var b := Widen(bits[..1]);
      FeedInjective(Shift(Xor(r, b)), Shift(Xor(s, b)), bits[1..]);
      ShiftInjective(Xor(r, b), Xor(s, b));
      XorCancels(r, s, b);
    }
  }

  // ----- strength: every error burst of at most 32 bits is detected -----

  /** `x` and `y` agree outside the 32 positions starting at `w`. */
  ghost predicate DifferWithin(x: seq<bool>, y: seq<bool>, w: nat) {
    |x| == |y| && forall i :: 0 <= i < |x| && x[i] != y[i] ==> w <= i < w + 32
  }

  lemma FeedDetectsWord(r: Word, x: seq<bool>, y: seq<bool>)
    requires |x| == |y| <= 32 && Feed(r, x) == Feed(r, y)
    ensures x == y
  {
    AbsorbWord(r, x);
    AbsorbWord(r, y);
    ShiftNInjective(Xor(r, Widen(x)), Xor(r, Widen(y)), |x|);
    assert Xor(Widen(x), r) == Xor(r, Widen(x)) && Xor(Widen(y), r) == Xor(r, Widen(y));
    XorCancels(Widen(x), Widen(y), r);
    assert x == Widen(x)[..|x|] && y == Widen(y)[..|x|];
  }

  lemma {:induction false} FeedDetectsBurst(r: Word, x: seq<bool>, y: seq<bool>, w: nat)
    requires DifferWithin(x, y, w) && Feed(r, x) == Feed(r, y)
    ensures x == y
    decreases w
  {
    if x == [] {
    } else if w > 0 {
      assert x[..1] == y[..1];
      FeedDetectsBurst(Shift(Xor(r, Widen(x[..1]))), x[1..], y[1..], w - 1);
      assert x == x[..1] + x[1..] && y == y[..1] + y[1..];
    } else {
      var n := if |x| < 32 then |x| else 32;
      assert x[n..] == y[n..];
      assert x == x[..n] + x[n..] && y == y[..n] + y[n..];
      FeedConcat(r, x[..n], x[n..]);
      FeedConcat(r, y[..n], y[n..]);
      FeedInjective(Feed(r, x[..n]), Feed(r, y[..n]), x[n..]);
      FeedDetectsWord(r, x[..n], y[..n]);
    }
  }

  lemma {:induction false} MessageBitsInjective(a: seq<byte>, b: seq<byte>)
    requires |a| == |b| && MessageBits(a) == MessageBits(b)
    ensures a == b
  {
    if a != [] {
      var x, y := MessageBits(a), MessageBits(b);
      assert x[..8] == Bits(a[0], 8) && y[..8] == Bits(b[0], 8);
      assert x[8..] == MessageBits(a[1..]) && y[8..] == MessageBits(b[1..]);
      assert Pow2(8) == 256;
      ValueBits(a[0], 8);
      ValueBits(b[0], 8);
      MessageBitsInjective(a[1..], b[1..]);
      assert a == [a[0]] + a[1..] && b == [b[0]] + b[1..];
    }
  }

  lemma WordValueInjective(v: Word, w: Word)
    requires WordValue(v) == WordValue(w)
    ensures v == w
  {
    BitsValue(v);
    BitsValue(w);
  }

  /** Two different payloads of the same length whose differing bits all lie in
      one window of 32 consecutive bits never share a checksum. */
  lemma DetectsEveryShortBurst(a: seq<byte>, b: seq<byte>, w: nat)
    requires a != b
    requires DifferWithin(MessageBits(a), MessageBits(b), w)
    ensures Checksum(a) != Checksum(b)
  {
    if Checksum(a) == Checksum(b) {
      var p, q := Feed(AllOnes(), MessageBits(a)), Feed(AllOnes(), MessageBits(b));
      WordValueInjective(Not(p), Not(q));
      assert p == Not(Not(p)) && q == Not(Not(q));
      FeedDetectsBurst(AllOnes(), MessageBits(a), MessageBits(b), w);
      MessageBitsInjective(a, b);
    }
  }

  // ----- meaning: the remainder of a polynomial division -----
  // A polynomial over GF(2) is its coefficients, highest degree first. Bit 0 of
  // the register is then the coefficient of x^31.

  /** The exponents of the generator polynomial of section 3.2.9 of IEEE 802.3. */
  const EXPONENTS := {32, 26, 23, 22, 16, 12, 11, 10, 8, 7, 5, 4, 2, 1, 0}

  function Generator(): seq<bool> {
    seq(33, k => (32 - k) in EXPONENTS)
  }

  /** `p` added to the leading coefficients of `v`. */
  function XorFront(v: seq<bool>, p: seq<bool>): (z: seq<bool>)
    requires |p| <= |v|
    ensures |z| == |v|
  {
    seq(|v|, i requires 0 <= i < |v| => if i < |p| then v[i] != p[i] else v[i])
  }

  /** The polynomial q * Generator + r, by Horner's rule on q. */
  function Combine(q: seq<bool>, r: Word): (v: seq<bool>)
    ensures |v| == |q| + 32
  {
    if q == [] then r else
      var low := [false] + Combine(q[1..], r);
      if q[0] then XorFront(low, Generator()) else low
  }

  /** M(x) * x^32 plus the all-ones preset shifted above the message's low end. */
  function Dividend(data: seq<byte>): seq<bool> {
    XorFront(MessageBits(data) + Zeros(32), AllOnes())
  }

  lemma Pow2Table()
    ensures Pow2(0) == 0x1 && Pow2(1) == 0x2 && Pow2(2) == 0x4 && Pow2(3) == 0x8
    ensures Pow2(4) == 0x10 && Pow2(5) == 0x20 && Pow2(6) == 0x40 && Pow2(7) == 0x80
    ensures Pow2(8) == 0x100 && Pow2(9) == 0x200 && Pow2(10) == 0x400 && Pow2(11) == 0x800
    ensures Pow2(12) == 0x1000 && Pow2(13) == 0x2000 && Pow2(14) == 0x4000 && Pow2(15) == 0x8000
    ensures Pow2(16) == 0x10000 && Pow2(17) == 0x20000 && Pow2(18) == 0x40000
    ensures Pow2(19) == 0x80000 && Pow2(20) == 0x100000 && Pow2(21) == 0x200000
    ensures Pow2(22) == 0x400000 && Pow2(23) == 0x800000 && Pow2(24) == 0x1000000
    ensures Pow2(25) == 0x2000000 && Pow2(26) == 0x4000000 && Pow2(27) == 0x8000000
    ensures Pow2(28) == 0x10000000 && Pow2(29) == 0x20000000 && Pow2(30) == 0x40000000
    ensures Pow2(31) == 0x80000000
  {
  }

  /** The constant in the code is the standard's polynomial, reflected. */
  lemma PolyIsReflectedGenerator(i: nat)
    requires i < 32
    ensures PolyBit(i) <==> (31 - i) in EXPONENTS
  {
    Pow2Table();
  }

  /** Feeding bits is long division: some quotient explains the final register. */
  lemma {:induction false} FeedDivides(r: Word, bits: seq<bool>) returns (q: seq<bool>)
    ensures |q| == |bits|
    ensures Combine(q, Feed(r, bits)) == XorFront(bits + Zeros(32), r)
    decreases |bits|
  {
    if bits == [] {
      q := [];
    } else {
      var x: Word := Xor(r, Widen(bits[..1]));
      var q' := FeedDivides(Shift(x), bits[1..]);
      q := [x[0]] + q';
      assert q[1..] == q';
      DivisionStep(r, bits);
    }
  }

  lemma DivisionStep(r: Word, bits: seq<bool>)
    requires bits != []
    ensures var x: Word := Xor(r, Widen(bits[..1]));
            var low := [false] + XorFront(bits[1..] + Zeros(32), Shift(x));
            XorFront(bits + Zeros(32), r) == if x[0] then XorFront(low, Generator()) else low
  {
    var x: Word := Xor(r, Widen(bits[..1]));
    var low := [false] + XorFront(bits[1..] + Zeros(32), Shift(x));
    var v := XorFront(bits + Zeros(32), r);
    forall k | 0 <= k < |v|
      ensures v[k] == (if x[0] then XorFront(low, Generator()) else low)[k]
    {
      if 1 <= k <= 32 {
        PolyIsReflectedGenerator(k - 1);
        assert Shift(x)[k - 1] == (ShiftRight(x)[k - 1] != (PolyBit(k - 1) && x[0]));
      }
    }
  }

  lemma {:induction false} DivisionIsUnique(q: seq<bool>, r: Word, q': seq<bool>, r': Word)
    requires |q| == |q'| && Combine(q, r) == Combine(q', r')
    ensures q == q' && r == r'
  {
    if q != [] {
      var low, low' := [false] + Combine(q[1..], r), [false] + Combine(q'[1..], r');
      var v, v' := Combine(q, r), Combine(q', r');
      assert Generator()[0];
      assert v[0] == q[0] && v'[0] == q'[0];
      assert low == low' by {
        forall k | 0 <= k < |low|
          ensures low[k] == low'[k]
        {
          assert v[k] == v'[k];
        }
      }
      assert low[1..] == low'[1..];
      DivisionIsUnique(q[1..], r, q'[1..], r');
      assert q == [q[0]] + q[1..] && q' == [q'[0]] + q'[1..];
    }
  }

  /** `crc32` is the complement of the reflected remainder: `w` is the register
      that divides the message with nothing else left over, and no other one does. */
  lemma ChecksumIsRemainder(data: seq<byte>, w: Word)
    ensures Checksum(data) == WordValue(Not(w)) <==>
            exists q :: |q| == 8 * |data| && Combine(q, w) == Dividend(data)
  {
    var r := Feed(AllOnes(), MessageBits(data));
    var q := FeedDivides(AllOnes(), MessageBits(data));
    assert Combine(q, r) == Dividend(data);
    if data == [] {
      ChecksumOfNothing();
    }
    assert Checksum(data) == WordValue(Not(r));
    if Checksum(data) == WordValue(Not(w)) {
      WordValueInjective(Not(r), Not(w));
      assert r == Not(Not(r)) && w == Not(Not(w));
    }
    forall p | |p| == 8 * |data| && Combine(p, w) == Dividend(data)
      ensures w == r
    {
      DivisionIsUnique(p, w, q, r);
    }
  }

  /** The early return on an empty payload agrees with the general formula. */
  lemma ChecksumOfNothing()
    ensures WordValue(Not(Feed(AllOnes(), []))) == 0
  {
    assert Not(AllOnes()) == Zeros(32);
    ValueOfZeros(32);
  }

  lemma {:induction false} ValueOfZeros(n: nat)
    ensures Value(Zeros(n)) == 0
  {
    if n > 0 {
      assert Zeros(n)[1..] == Zeros(n - 1);
      ValueOfZeros(n - 1);
    }
  }
}

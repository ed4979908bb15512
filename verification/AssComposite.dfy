/**
  The pixel arithmetic of src/ass_composite.h: two 8-bit channels blended at a time
  inside one 32-bit word, and the division-free conversion to straight alpha.

  Words are naturals below 2^32; every C operation that could wrap is wrapped with
  `Wrap`, and the bit operators are defined bit by bit, so that "no lane carries into
  its neighbour" is something the lemmas below have to establish.
 */
module AssComposite {
  type Byte = n: int | 0 <= n < 256
  type Word = n: int | 0 <= n < 0x1_0000_0000

  /** One pixel as four channels, in the byte order of the output buffer. */
  datatype Rgba = Rgba(r: Byte, g: Byte, b: Byte, a: Byte)

  const TRANSPARENT := Rgba(0, 0, 0, 0)

  const LANES: Word := 0x00ff00ff

  function Wrap(n: int): (w: Word)
  {
    n % 0x1_0000_0000
  }

  lemma WrapSmall(n: nat)
    requires n < 0x1_0000_0000
    ensures Wrap(n) == n
  {
  }

  // ----- bit operators on naturals

  /** Bit by bit `and` (`conj`) or `or` of two naturals. */
  function Bitwise(conj: bool, x: nat, y: nat): nat
    decreases x + y
  {
    if x == 0 && y == 0 then 0
    else Bit(conj, x % 2, y % 2) + 2 * Bitwise(conj, x / 2, y / 2)
  }

  function Bit(conj: bool, p: nat, q: nat): nat
  {
    if (if conj then p == 1 && q == 1 else p == 1 || q == 1) then 1 else 0
  }

  function BitAnd(x: nat, y: nat): nat
  {
    Bitwise(true, x, y)
  }

  function BitOr(x: nat, y: nat): nat
  {
    Bitwise(false, x, y)
  }

  function Shl(k: nat, x: nat): nat
  {
    if k == 0 then x else 2 * Shl(k - 1, x)
  }

  /** A bit operator distributes over a split of both operands at bit `k`. */
  lemma {:induction false} SplitAt(conj: bool, k: nat, lo: nat, hi: nat, mlo: nat, mhi: nat)
    requires lo < Shl(k, 1) && mlo < Shl(k, 1)
    ensures Bitwise(conj, lo + Shl(k, hi), mlo + Shl(k, mhi)) == Bitwise(conj, lo, mlo) + Shl(k, Bitwise(conj, hi, mhi))
  {
    if k == 0 {
      assert Bitwise(conj, 0, 0) == 0;
    } else {
      SplitAt(conj, k - 1, lo / 2, hi, mlo / 2, mhi);
      BitStep(conj, lo, mlo, Shl(k - 1, hi), Shl(k - 1, mhi));
      BitStep(conj, lo, mlo, 0, 0);
    }
  }

  lemma BitStep(conj: bool, lo: nat, mlo: nat, s: nat, t: nat)
    ensures Bitwise(conj, lo + 2 * s, mlo + 2 * t) == Bit(conj, lo % 2, mlo % 2) +
            2 * Bitwise(conj, lo / 2 + s, mlo / 2 + t)
  {
    assert (lo + 2 * s) / 2 == lo / 2 + s && (lo + 2 * s) % 2 == lo % 2;
    assert (mlo + 2 * t) / 2 == mlo / 2 + t && (mlo + 2 * t) % 2 == mlo % 2;
  }

  lemma Shl8(x: nat)
    ensures Shl(8, x) == 256 * x
  {
    assert Shl(8, x) == 2 * Shl(7, x) && Shl(7, x) == 2 * Shl(6, x);
    assert Shl(6, x) == 2 * Shl(5, x) && Shl(5, x) == 2 * Shl(4, x);
    assert Shl(4, x) == 2 * Shl(3, x) && Shl(3, x) == 2 * Shl(2, x);
    assert Shl(2, x) == 2 * Shl(1, x) && Shl(1, x) == 2 * x;
  }

  lemma SplitByte(conj: bool, lo: nat, hi: nat, mlo: nat, mhi: nat)
    requires lo < 256 && mlo < 256
    ensures Bitwise(conj, lo + 256 * hi, mlo + 256 * mhi) == Bitwise(conj, lo, mlo) + 256 * Bitwise(conj, hi, mhi)
  {
    Shl8(1);
    Shl8(hi);
    Shl8(mhi);
    Shl8(Bitwise(conj, hi, mhi));
    SplitAt(conj, 8, lo, hi, mlo, mhi);
  }

  predicate AllOnes(m: nat)
  {
    m == 0 || (m % 2 == 1 && AllOnes(m / 2))
  }

  lemma {:induction false} AndAllOnes(x: nat, m: nat)
    requires AllOnes(m) && x <= m
    ensures BitAnd(x, m) == x
  {
    if m > 0 {
      AndAllOnes(x / 2, m / 2);
    }
  }

  lemma {:induction false} AndZero(x: nat)
    ensures BitAnd(x, 0) == 0
  {
    if x > 0 {
      AndZero(x / 2);
    }
  }

  lemma {:induction false} OrZero(x: nat)
    ensures BitOr(x, 0) == x && BitOr(0, x) == x
  {
    if x > 0 {
      OrZero(x / 2);
    }
  }

  // ----- words as four bytes

  function FromBytes(b0: Byte, b1: Byte, b2: Byte, b3: Byte): Word
  {
    b0 + 256 * (b1 + 256 * (b2 + 256 * b3))
  }

  function Pack(p: Rgba): Word
  {
    FromBytes(p.r, p.g, p.b, p.a)
  }

  function Unpack(w: Word): Rgba
  {
    Rgba(w % 256, w / 256 % 256, w / 65536 % 256, w / 16777216)
  }

  lemma UnpackPack(p: Rgba)
    ensures Unpack(Pack(p)) == p
  {
    FromBytesParts(p.r, p.g, p.b, p.a);
  }

  lemma PackUnpack(w: Word)
    ensures Pack(Unpack(w)) == w
  {
    var u := w / 256;
    var v := u / 256;
    assert w / 65536 == v;
    assert w / 16777216 == v / 256;
    assert w == w % 256 + 256 * u;
    assert u == u % 256 + 256 * v;
    assert v == v % 256 + 256 * (v / 256);
  }

  lemma FromBytesParts(b0: Byte, b1: Byte, b2: Byte, b3: Byte)
    ensures var w := FromBytes(b0, b1, b2, b3);
            w % 256 == b0 && w / 256 == b1 + 256 * (b2 + 256 * b3) && w / 256 % 256 == b1
            && w / 65536 == b2 + 256 * b3 && w / 65536 % 256 == b2 && w / 16777216 == b3
  {
    var w := FromBytes(b0, b1, b2, b3);
    assert w / 256 == b1 + 256 * (b2 + 256 * b3);
    assert w / 256 / 256 == b2 + 256 * b3;
    assert w / 65536 == w / 256 / 256;
    assert w / 16777216 == w / 65536 / 256;
  }

  /** The mask 0x00ff00ff keeps bytes 0 and 2 and clears the others. */
  lemma MaskLanes(b0: Byte, b1: Byte, b2: Byte, b3: Byte)
    ensures BitAnd(FromBytes(b0, b1, b2, b3), LANES) == b0 + 65536 * b2
  {
    var hi := b2 + 256 * b3;
    SplitByte(true, b0, b1 + 256 * hi, 255, 256 * 255);
    SplitByte(true, b1, hi, 0, 255);
    KeepByte(b0, 0);
    KeepByte(b2, b3);
    AndZero(b1);
  }

  lemma KeepByte(lo: Byte, hi: nat)
    ensures BitAnd(lo + 256 * hi, 255) == lo
  {
    SplitByte(true, lo, hi, 255, 0);
    assert AllOnes(255) by { assert AllOnes(15); }
    AndAllOnes(lo, 255);
    AndZero(hi);
  }

  /** Joining words whose bytes are zero in opposite places places each byte in its own lane. */
  lemma JoinLanes(b0: Byte, b1: Byte, b2: Byte, b3: Byte)
    ensures BitOr(b0 + 65536 * b2, 256 * (b1 + 65536 * b3)) == FromBytes(b0, b1, b2, b3)
  {
    SplitByte(false, b0, 256 * b2, 0, b1 + 65536 * b3);
    OrZero(b0);
    JoinUpper(b1, b2, b3);
  }

  lemma JoinUpper(b1: Byte, b2: Byte, b3: Byte)
    ensures BitOr(256 * b2, b1 + 65536 * b3) == b1 + 256 * (b2 + 256 * b3)
  {
    SplitByte(false, 0, b2, b1, 256 * b3);
    OrZero(b1);
    SplitByte(false, b2, 0, 0, b3);
    OrZero(b2);
    OrZero(b3);
  }

  // ----- src/ass_composite.h

  function Div255Pair(rounded: Word): Word
  {
    var sum := Wrap(rounded + BitAnd(rounded / 256, LANES));
    Wrap(BitAnd(sum / 256, LANES))
  }

  /** The weighted sum of two lane pairs, plus the rounding constant of each lane. */
  function WeighLanes(source: nat, dst: nat, a: Byte): Word
  {
    Wrap(Wrap(Wrap(source * a) + Wrap(dst * (255 - a))) + 0x00800080)
  }

  function BlendPixel(dst: Word, source: Word, a: Byte): Word
  {
    var rb := WeighLanes(BitAnd(source, LANES), BitAnd(dst, LANES), a);
    var ga := WeighLanes(BitAnd(source / 256, LANES), BitAnd(dst / 256, LANES), a);
    Wrap(BitOr(Div255Pair(rb), Wrap(256 * Div255Pair(ga))))
  }

  /** One channel of the documented scalar blend: round(s*a + d*(255-a)) over 255. */
  function Mix(s: Byte, d: Byte, a: Byte): (c: Byte)
    ensures a == 0 ==> c == d
    ensures a == 255 ==> c == s
  {
    var n := s * a + d * (255 - a);
    MixRange(s, d, a);
    (n + 127) / 255
  }

  lemma MixRange(s: Byte, d: Byte, a: Byte)
    ensures 0 <= s * a <= 255 * a
    ensures 0 <= d * (255 - a) <= 255 * (255 - a)
    ensures 0 <= s * a + d * (255 - a) <= 65025
  {
    MulLe(0, s, a);
    MulLe(s, 255, a);
    MulLe(0, d, 255 - a);
    MulLe(d, 255, 255 - a);
  }

  /** Layering `source` at coverage `a` over a premultiplied destination, channel by channel. */
  function Over(d: Rgba, s: Rgba, a: Byte): Rgba
  {
    Rgba(Mix(s.r, d.r, a), Mix(s.g, d.g, a), Mix(s.b, d.b, a), Mix(s.a, d.a, a))
  }

  /** The rounding identity: adding 128 and folding the high byte back in divides by 255. */
  lemma Div255Exact(n: nat)
    requires n <= 65025
    ensures var m := n + 128; m + m / 256 < 65536 && (m + m / 256) / 256 == (n + 127) / 255
  {
    var q := (n + 127) / 255;
    var m := n + 128;
    assert 255 * q <= n + 127 < 255 * q + 255;
    assert 0 <= q <= 255;
    assert 256 * (m / 256) <= m < 256 * (m / 256) + 256;
  }

  /** The middle bytes of a pair of 16-bit lanes, as the shift by eight exposes them. */
  lemma ShiftPair(u: nat, v: nat)
    requires u < 65536 && v < 65536
    ensures BitAnd((u + 65536 * v) / 256, LANES) == u / 256 + 65536 * (v / 256)
  {
    assert (u + 65536 * v) / 256 == u / 256 + 256 * v;
    MaskLanes(u / 256, v % 256, v / 256, 0);
  }

  lemma FoldPair(u: nat, v: nat)
    requires u + u / 256 < 65536 && v + v / 256 < 65536
    ensures Div255Pair(u + 65536 * v) == (u + u / 256) / 256 + 65536 * ((v + v / 256) / 256)
  {
    var p, q := u + u / 256, v + v / 256;
    ShiftPair(u, v);
    Div255PairSteps(u + 65536 * v, u / 256 + 65536 * (v / 256), p, q);
    PairDown(p, q);
  }

  lemma Div255PairSteps(w: Word, high: nat, p: nat, q: nat)
    requires BitAnd(w / 256, LANES) == high && w + high == p + 65536 * q
    ensures Div255Pair(w) == Wrap(BitAnd(Wrap(p + 65536 * q) / 256, LANES))
  {
  }

  lemma PairDown(p: nat, q: nat)
    requires p < 65536 && q < 65536
    ensures Wrap(BitAnd(Wrap(p + 65536 * q) / 256, LANES)) == p / 256 + 65536 * (q / 256)
  {
    WrapSmall(p + 65536 * q);
    ShiftPair(p, q);
    WrapSmall(p / 256 + 65536 * (q / 256));
  }

  /** Both 16-bit lanes are divided exactly and neither disturbs the other. */
  lemma Div255PairLanes(x: nat, y: nat)
    requires x <= 65025 && y <= 65025
    ensures Div255Pair((x + 128) + 65536 * (y + 128)) == (x + 127) / 255 + 65536 * ((y + 127) / 255)
  {
    Div255Exact(x);
    Div255Exact(y);
    FoldPair(x + 128, y + 128);
  }

  lemma WeighLanesExact(s0: Byte, s2: Byte, d0: Byte, d2: Byte, a: Byte)
    ensures WeighLanes(s0 + 65536 * s2, d0 + 65536 * d2, a)
         == (s0 * a + d0 * (255 - a) + 128) + 65536 * (s2 * a + d2 * (255 - a) + 128)
  {
    MixRange(s0, d0, a);
    MixRange(s2, d2, a);
    var m0, m2, n0, n2 := s0 * a, s2 * a, d0 * (255 - a), d2 * (255 - a);
    ScaleLanes(s0, s2, a);
    ScaleLanes(d0, d2, 255 - a);
    WrapSmall(m0 + 65536 * m2);
    WrapSmall(n0 + 65536 * n2);
    WrapSmall(m0 + 65536 * m2 + (n0 + 65536 * n2));
    WrapSmall(m0 + 65536 * m2 + (n0 + 65536 * n2) + 0x00800080);
  }

  lemma ScaleLanes(x: nat, y: nat, k: nat)
    ensures (x + 65536 * y) * k == x * k + 65536 * (y * k)
  {
    var z := y * k;
    assert 65536 * y * k == 65536 * z;
  }

  lemma LanesBlend(s0: Byte, s2: Byte, d0: Byte, d2: Byte, a: Byte)
    ensures Div255Pair(WeighLanes(s0 + 65536 * s2, d0 + 65536 * d2, a)) == Mix(s0, d0, a) + 65536 * Mix(s2, d2, a)
  {
    WeighLanesExact(s0, s2, d0, d2, a);
    var x := MixNumerator(s0, d0, a);
    var y := MixNumerator(s2, d2, a);
    Div255PairLanes(x, y);
  }

  /** The numerator of `Mix`. */
  lemma MixNumerator(s: Byte, d: Byte, a: Byte) returns (n: nat)
    ensures n == s * a + d * (255 - a) <= 65025 && Mix(s, d, a) == (n + 127) / 255
  {
    MixRange(s, d, a);
    n := s * a + d * (255 - a);
  }

  lemma LowLanes(p: Rgba)
    ensures BitAnd(Pack(p), LANES) == p.r + 65536 * p.b
    ensures BitAnd(Pack(p) / 256, LANES) == p.g + 65536 * p.a
  {
    MaskLanes(p.r, p.g, p.b, p.a);
    FromBytesParts(p.r, p.g, p.b, p.a);
    MaskLanes(p.g, p.b, p.a, 0);
  }

  /**
    The packed blend is the scalar blend on every channel: no lane carry and no 32-bit
    overflow, for every pair of words and every coverage.
   */
  lemma BlendPixelExact(d: Rgba, s: Rgba, a: Byte)
    ensures BlendPixel(Pack(d), Pack(s), a) == Pack(Over(d, s, a))
  {
    var o := Over(d, s, a);
    LowLanes(s);
    LowLanes(d);
    LanesBlend(s.r, s.b, d.r, d.b, a);
    LanesBlend(s.g, s.a, d.g, d.a, a);
    BlendPixelSteps(Pack(d), Pack(s), a, o.r + 65536 * o.b, o.g + 65536 * o.a);
    JoinWrapped(o.r, o.g, o.b, o.a);
  }

  lemma BlendPixelSteps(dst: Word, source: Word, a: Byte, rb: Word, ga: Word)
    requires Div255Pair(WeighLanes(BitAnd(source, LANES), BitAnd(dst, LANES), a)) == rb
    requires Div255Pair(WeighLanes(BitAnd(source / 256, LANES), BitAnd(dst / 256, LANES), a)) == ga
    ensures BlendPixel(dst, source, a) == Wrap(BitOr(rb, Wrap(256 * ga)))
  {
  }

  lemma JoinWrapped(b0: Byte, b1: Byte, b2: Byte, b3: Byte)
    ensures Wrap(BitOr(b0 + 65536 * b2, Wrap(256 * (b1 + 65536 * b3)))) == FromBytes(b0, b1, b2, b3)
  {
    WrapSmall(256 * (b1 + 65536 * b3));
    JoinLanes(b0, b1, b2, b3);
    WrapSmall(FromBytes(b0, b1, b2, b3));
  }

  // ----- conversion to straight alpha

  function Reciprocal(alpha: Byte): Word
  {
    if alpha == 0 then 0 else 65536 / alpha
  }

  function StraightChannel(premultiplied: Byte, alpha: Byte, reciprocal: Word): Byte
  {
    var n := Wrap(premultiplied * 255 + alpha / 2);
    var q0 := Wrap(n * reciprocal) / 65536;
    var q := Wrap(q0 + if Wrap(n - Wrap(q0 * alpha)) >= alpha then 1 else 0);
    if q > 255 then 255 else q
  }

  /** Multiplying by floor(65536/alpha) underestimates the quotient by at most one. */
  lemma ReciprocalQuotient(n: nat, alpha: nat)
    requires 1 <= alpha <= 255 && n < 65536
    ensures var q := n * (65536 / alpha) / 65536; n / alpha - 1 <= q <= n / alpha
  {
    var k := 65536 / alpha;
    DivBounds(65536, alpha);
    Reassociate(alpha, n, k);
    MulLe(alpha * k, 65536, n);
    MulLe(65536 - alpha, alpha * k, n);
    Difference(n, 65536, alpha);
    MulLe(n, 65536, alpha);
    QuotientUpper(n, alpha, n * k);
    QuotientLower(n, alpha, n * k);
  }

  lemma DivBounds(n: nat, d: nat)
    requires d > 0
    ensures d * (n / d) <= n < d * (n / d) + d
  {
  }

  lemma Reassociate(a: nat, n: nat, k: nat)
    ensures a * (n * k) == n * (a * k)
  {
  }

  lemma Difference(n: nat, x: int, y: int)
    ensures n * (x - y) == x * n - y * n
  {
  }

  lemma QuotientUpper(n: nat, alpha: nat, m: nat)
    requires alpha >= 1 && alpha * m <= 65536 * n
    ensures m / 65536 <= n / alpha
  {
    var q, t := m / 65536, n / alpha;
    assert n < alpha * t + alpha && 65536 * q <= m;
    if q > t {
      MulLe(65536 * (t + 1), m, alpha);
    }
  }

  lemma QuotientLower(n: nat, alpha: nat, m: nat)
    requires alpha >= 1 && alpha * m >= 65536 * n - 65536 * alpha
    ensures n / alpha - 1 <= m / 65536
  {
    var q, t := m / 65536, n / alpha;
    assert alpha * t <= n && m < 65536 * q + 65536;
    if q < t - 1 {
      MulLe(m + 1, 65536 * (t - 1), alpha);
    }
  }

  lemma MulLe(x: int, y: int, z: nat)
    requires x <= y
    ensures x * z <= y * z && z * x <= z * y
  {
  }

  /**
    The division-free conversion equals the rounded quotient (255*p + alpha/2)/alpha, cut at
    255, for every channel value: no 32-bit overflow and an exact one-step correction.
   */
  lemma StraightChannelExact(p: Byte, alpha: Byte)
    requires alpha != 0
    ensures var q := (255 * p + alpha / 2) / alpha;
            StraightChannel(p, alpha, Reciprocal(alpha)) == if q > 255 then 255 else q
  {
    var n := p * 255 + alpha / 2;
    StraightChannelSteps(p, alpha, Reciprocal(alpha));
    CorrectedQuotient(n, alpha);
  }

  lemma StraightChannelSteps(p: Byte, alpha: Byte, k: Word)
    ensures var n := p * 255 + alpha / 2;
            var q0 := Wrap(n * k) / 65536;
            var q := Wrap(q0 + if Wrap(n - Wrap(q0 * alpha)) >= alpha then 1 else 0);
            StraightChannel(p, alpha, k) == if q > 255 then 255 else q
  {
    WrapSmall(p * 255 + alpha / 2);
  }

  /** The estimate and its one-step correction, free of 32-bit overflow. */
  lemma CorrectedQuotient(n: nat, alpha: nat)
    requires 1 <= alpha <= 255 && n < 65536
    ensures var q0 := Wrap(n * (65536 / alpha)) / 65536;
            Wrap(q0 + if Wrap(n - Wrap(q0 * alpha)) >= alpha then 1 else 0) == n / alpha
  {
    var k := 65536 / alpha;
    assert k <= 65536;
    ProductBelow(n, k);
    WrapSmall(n * k);
    ReciprocalQuotient(n, alpha);
    var q0 := n * k / 65536;
    Correction(n, alpha, q0);
    WrapSmall(q0 * alpha);
    WrapSmall(n - q0 * alpha);
    WrapSmall(n / alpha);
  }

  lemma ProductBelow(n: nat, k: nat)
    requires n < 65536 && k <= 65536
    ensures 0 <= n * k < 0x1_0000_0000
  {
    MulLe(n, 65535, k);
    MulLe(0, n, k);
  }

  lemma Correction(n: nat, alpha: nat, q0: nat)
    requires 1 <= alpha <= 255 && n < 65536
    requires n / alpha - 1 <= q0 <= n / alpha
    ensures 0 <= q0 * alpha <= n
    ensures q0 + (if n - q0 * alpha >= alpha then 1 else 0) == n / alpha < 65536
  {
    var t := n / alpha;
    assert alpha * t <= n < alpha * t + alpha;
    if q0 == t {
      assert q0 * alpha == alpha * t;
    } else {
      assert q0 * alpha == alpha * t - alpha;
    }
    MulLe(1, alpha, t);
  }

  lemma QuotientBound(p: nat, alpha: nat)
    requires alpha > 0 && p <= alpha
    ensures (255 * p + alpha / 2) / alpha <= 255
  {
    var n := 255 * p + alpha / 2;
    DivBounds(n, alpha);
    if n / alpha >= 256 {
      MulLe(256, n / alpha, alpha);
    }
  }

  /** With a channel no larger than alpha the cut at 255 never happens. */
  lemma StraightChannelUnclamped(p: Byte, alpha: Byte)
    requires alpha != 0 && p <= alpha
    ensures (255 * p + alpha / 2) / alpha <= 255
    ensures StraightChannel(p, alpha, Reciprocal(alpha)) == (255 * p + alpha / 2) / alpha
  {
    StraightChannelExact(p, alpha);
    QuotientBound(p, alpha);
  }

  // ----- the premultiplied invariant

  predicate Premultiplied(p: Rgba)
  {
    p.r <= p.a && p.g <= p.a && p.b <= p.a
  }

  lemma MixMonotone(s: Byte, s': Byte, d: Byte, d': Byte, a: Byte)
    requires s <= s' && d <= d'
    ensures Mix(s, d, a) <= Mix(s', d', a)
  {
    MulLe(s, s', a);
    MulLe(d, d', 255 - a);
  }

  lemma OverPremultiplied(d: Rgba, s: Rgba, a: Byte)
    requires Premultiplied(d) && s.a == 255
    ensures Premultiplied(Over(d, s, a))
  {
    MixMonotone(s.r, s.a, d.r, d.a, a);
    MixMonotone(s.g, s.a, d.g, d.a, a);
    MixMonotone(s.b, s.a, d.b, d.a, a);
  }

  /** The rounded quotient 255*p/alpha of a premultiplied channel. */
  function Quotient(p: Byte, alpha: Byte): Byte
    requires alpha != 0 && p <= alpha
  {
    QuotientBound(p, alpha);
    (255 * p + alpha / 2) / alpha
  }

  /** Straight alpha by exact division; a transparent pixel has no colour to recover. */
  function Straight(p: Rgba): Rgba
    requires Premultiplied(p)
  {
    if p.a == 0 then p
    else Rgba(Quotient(p.r, p.a), Quotient(p.g, p.a), Quotient(p.b, p.a), p.a)
  }

  /** An opaque pixel is already straight, which is why the loop may skip it. */
  lemma StraightOpaque(p: Rgba)
    requires p.a == 255
    ensures Straight(p) == p
  {
  }
}

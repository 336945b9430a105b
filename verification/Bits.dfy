/** Bit strings of byte buffers, least significant bit first, padded with zeros. */
module Bits {

  type Byte = x: int | 0 <= x < 256

  function Min(a: nat, b: nat): nat {
    if a < b then a else b
  }

  function Pow2(n: nat): (p: nat)
    ensures p >= 1
  {
    if n == 0 then 1 else 2 * Pow2(n - 1)
  }

  function BitNum(b: bool): nat {
    if b then 1 else 0
  }

  /** Bit `k` of the number `v`, bit 0 least significant. */
  predicate NatBit(v: nat, k: nat) {
    if k == 0 then v % 2 == 1 else NatBit(v / 2, k - 1)
  }

  /** Bit `i` of `src`; positions past the end read as zero, as the C bit reader pads. */
  predicate BitAt(src: seq<Byte>, i: nat) {
    i / 8 < |src| && NatBit(src[i / 8], i % 8)
  }

  /** The bits at positions `lo` to `hi - 1` as a number, first bit least significant. */
  function FieldBetween(src: seq<Byte>, lo: nat, hi: nat): nat
    requires lo <= hi
    decreases hi - lo
  {
    if lo == hi then 0 else BitNum(BitAt(src, lo)) + 2 * FieldBetween(src, lo + 1, hi)
  }

  /** A data field: the `n` bits from `cur` on, first bit least significant. */
  function Field(src: seq<Byte>, cur: nat, n: nat): nat {
    FieldBetween(src, cur, cur + n)
  }

  /** The bits at positions `lo` to `hi - 1` as a number, first bit most significant. */
  function CodeBetween(src: seq<Byte>, lo: nat, hi: nat): nat
    requires lo <= hi
    decreases hi - lo
  {
    if lo == hi then 0 else 2 * CodeBetween(src, lo, hi - 1) + BitNum(BitAt(src, hi - 1))
  }

  /** `n` bits spelling `v`, least significant first (data fields). */
  function FieldBits(v: nat, n: nat): (w: seq<bool>)
    ensures |w| == n
  {
    seq(n, k requires 0 <= k < n => NatBit(v, k))
  }

  /** `n` bits spelling `v`, most significant first (Huffman codes). */
  function CodeBits(v: nat, n: nat): (w: seq<bool>)
    ensures |w| == n
  {
    seq(n, k requires 0 <= k < n => NatBit(v, n - 1 - k))
  }

  /** The number a bit string spells, first bit least significant. */
  function Value(w: seq<bool>): nat {
    if w == [] then 0 else BitNum(w[0]) + 2 * Value(w[1..])
  }

  /** The `n` bits from `cur` on. */
  function Window(src: seq<Byte>, cur: nat, n: nat): (w: seq<bool>)
    ensures |w| == n
  {
    seq(n, k requires 0 <= k < n => BitAt(src, cur + k))
  }

  /** The bits of whole bytes. */
  function BytesBits(s: seq<Byte>): (w: seq<bool>)
    ensures |w| == 8 * |s|
  {
    seq(8 * |s|, i requires 0 <= i < 8 * |s| => BitAt(s, i))
  }

  /** The bit string `w` stands at position `cur` of `src`. */
  ghost predicate At(src: seq<Byte>, cur: nat, w: seq<bool>) {
    forall k :: 0 <= k < |w| ==> BitAt(src, cur + k) == w[k]
  }

  // ---- arithmetic

  lemma {:induction false} Pow2Add(a: nat, b: nat)
    ensures Pow2(a + b) == Pow2(a) * Pow2(b)
  {
    if a != 0 {
      Pow2Add(a - 1, b);
      MulDouble(Pow2(a - 1), Pow2(b));
    }
  }

  lemma {:induction false} Pow2Mono(a: nat, b: nat)
    requires a <= b
    ensures Pow2(a) <= Pow2(b)
  {
    if a < b {
      Pow2Mono(a, b - 1);
    }
  }

  lemma Pow2Values()
    ensures Pow2(0) == 1 && Pow2(1) == 2 && Pow2(2) == 4 && Pow2(3) == 8 && Pow2(4) == 16
    ensures Pow2(5) == 32 && Pow2(6) == 64 && Pow2(7) == 128 && Pow2(8) == 256
    ensures Pow2(9) == 512 && Pow2(10) == 1024 && Pow2(11) == 2048 && Pow2(12) == 4096
    ensures Pow2(13) == 8192 && Pow2(14) == 16384 && Pow2(15) == 32768 && Pow2(16) == 65536
  {
  }

  lemma MulDouble(p: nat, x: nat)
    ensures 2 * (p * x) == (2 * p) * x
  {
  }

  lemma {:induction false} MulMono(p: nat, a: nat, b: nat)
    requires a <= b
    ensures p * a <= p * b
    ensures a < b ==> p * a + p <= p * b
    decreases b
  {
    if a < b {
      MulMono(p, a, b - 1);
      assert p * b == p * (b - 1) + p;
    }
  }

  /** Euclidean division is the only way to split `t` by `p`. */
  lemma DivModUnique(t: nat, p: nat, hi: nat, lo: nat)
    requires p > 0 && lo < p && t == lo + p * hi
    ensures t / p == hi && t % p == lo
  {
    var q, r := t / p, t % p;
    assert p * q + r == t;
    if q < hi {
      MulMono(p, q, hi);
      assert false;
    } else if hi < q {
      MulMono(p, hi, q);
      assert false;
    }
  }

  lemma DivDouble(v: nat, p: nat)
    requires p > 0
    ensures v / p / 2 == v / (2 * p)
  {
    var q, r := v / p, v % p;
    assert v == r + p * q;
    var h, b := q / 2, q % 2;
    DistributeDouble(p, h, b);
    DivModUnique(v, 2 * p, h, r + p * b);
  }

  lemma DistributeDouble(p: nat, h: nat, b: nat)
    requires b < 2
    ensures p * (2 * h + b) == (2 * p) * h + p * b
    ensures p * b <= p
  {
  }

  lemma DivHalf(v: nat, p: nat)
    requires p > 0
    ensures v / 2 / p == v / (2 * p)
  {
    var m, c := v / 2, v % 2;
    var q, r := m / p, m % p;
    assert m == r + p * q;
    MulDouble(p, q);
    DivModUnique(v, 2 * p, q, 2 * r + c);
  }

  lemma {:induction false} NatBool(v: nat, k: nat)
    ensures NatBit(v, k) <==> v / Pow2(k) % 2 == 1
    decreases k
  {
    if k > 0 {
      NatBool(v / 2, k - 1);
      DivHalf(v, Pow2(k - 1));
    }
  }

  // ---- data fields

  lemma {:induction false} FieldBound(src: seq<Byte>, cur: nat, n: nat)
    ensures Field(src, cur, n) < Pow2(n)
    decreases n
  {
    if n != 0 {
      FieldBound(src, cur + 1, n - 1);
      assert cur + 1 + (n - 1) == cur + n;
    }
  }

  lemma {:induction false} FieldSplit(src: seq<Byte>, cur: nat, a: nat, b: nat)
    ensures Field(src, cur, a + b) == Field(src, cur, a) + Pow2(a) * Field(src, cur + a, b)
    decreases a
  {
    if a != 0 {
      FieldSplit(src, cur + 1, a - 1, b);
      MulDouble(Pow2(a - 1), Field(src, cur + a, b));
      assert cur + 1 + (a - 1) == cur + a && cur + 1 + (a - 1 + b) == cur + (a + b);
      assert Field(src, cur + 1 + (a - 1), b) == Field(src, cur + a, b);
    }
  }

  /** Splitting a field of `a + b` bits by division and remainder. */
  lemma FieldTakeDrop(src: seq<Byte>, cur: nat, a: nat, b: nat)
    ensures Field(src, cur, a + b) % Pow2(a) == Field(src, cur, a)
    ensures Field(src, cur, a + b) / Pow2(a) == Field(src, cur + a, b)
  {
    FieldSplit(src, cur, a, b);
    FieldBound(src, cur, a);
    DivModUnique(Field(src, cur, a + b), Pow2(a), Field(src, cur + a, b), Field(src, cur, a));
  }

  lemma {:induction false} FieldByteTail(src: seq<Byte>, p: nat, k: nat)
    requires k <= 8
    ensures FieldBetween(src, 8 * p + k, 8 * p + 8) == if p < |src| then src[p] / Pow2(k) else 0
    decreases 8 - k
  {
    if k == 8 {
      Pow2Values();
    } else {
      FieldByteTail(src, p, k + 1);
      assert (8 * p + k) / 8 == p && (8 * p + k) % 8 == k;
      if p < |src| {
        NatBool(src[p], k);
        DivDouble(src[p], Pow2(k));
      }
    }
  }

  /** A byte is the field of its eight bits. */
  lemma FieldByte(src: seq<Byte>, p: nat)
    ensures Field(src, 8 * p, 8) == if p < |src| then src[p] else 0
  {
    FieldByteTail(src, p, 0);
    assert Pow2(0) == 1;
  }

  lemma FieldBitsCons(v: nat, n: nat)
    requires n > 0
    ensures FieldBits(v, n) == [v % 2 == 1] + FieldBits(v / 2, n - 1)
  {
  }

  lemma CodeBitsSnoc(v: nat, n: nat)
    requires n > 0
    ensures CodeBits(v, n) == CodeBits(v / 2, n - 1) + [v % 2 == 1]
  {
    var x, w := CodeBits(v / 2, n - 1), CodeBits(v, n);
    forall k | 0 <= k < n ensures w[k] == (x + [v % 2 == 1])[k] {
      assert w[k] == NatBit(v, n - 1 - k);
      if k < n - 1 {
        assert x[k] == NatBit(v / 2, n - 1 - 1 - k);
      }
    }
  }

  lemma AtEmpty(src: seq<Byte>, cur: nat)
    ensures At(src, cur, [])
  {
  }

  lemma AtOne(src: seq<Byte>, cur: nat, b: bool)
    ensures At(src, cur, [b]) <==> BitAt(src, cur) == b
  {
    if At(src, cur, [b]) {
      assert BitAt(src, cur + 0) == [b][0];
    }
  }

  /** The bits spelling `v` stand at `cur` exactly when the field read there is `v`. */
  lemma {:induction false} FieldIff(src: seq<Byte>, cur: nat, v: nat, n: nat)
    requires v < Pow2(n)
    ensures At(src, cur, FieldBits(v, n)) <==> Field(src, cur, n) == v
    decreases n
  {
    if n != 0 {
      FieldBitsCons(v, n);
      AtConcat(src, cur, [v % 2 == 1], FieldBits(v / 2, n - 1));
      AtOne(src, cur, v % 2 == 1);
      FieldIff(src, cur + 1, v / 2, n - 1);
      assert cur + 1 + (n - 1) == cur + n;
    }
  }

  /** The codeword spelling `v` stands at `cur` exactly when the code read there is `v`. */
  lemma {:induction false} CodeIff(src: seq<Byte>, cur: nat, v: nat, n: nat)
    requires v < Pow2(n)
    ensures At(src, cur, CodeBits(v, n)) <==> CodeBetween(src, cur, cur + n) == v
    decreases n
  {
    if n != 0 {
      CodeBitsSnoc(v, n);
      AtConcat(src, cur, CodeBits(v / 2, n - 1), [v % 2 == 1]);
      AtOne(src, cur + n - 1, v % 2 == 1);
      CodeIff(src, cur, v / 2, n - 1);
      assert cur + (n - 1) == cur + n - 1;
    }
  }

  lemma AtWindow(src: seq<Byte>, cur: nat, w: seq<bool>)
    ensures At(src, cur, w) <==> Window(src, cur, |w|) == w
  {
    if Window(src, cur, |w|) == w {
      forall k | 0 <= k < |w| ensures BitAt(src, cur + k) == w[k] {
        assert Window(src, cur, |w|)[k] == w[k];
      }
    }
  }

  /** A field is the number its bits spell. */
  lemma {:induction false} FieldValue(src: seq<Byte>, cur: nat, n: nat)
    ensures Field(src, cur, n) == Value(Window(src, cur, n))
    decreases n
  {
    if n != 0 {
      FieldValue(src, cur + 1, n - 1);
      assert cur + 1 + (n - 1) == cur + n;
      var w, x := Window(src, cur, n), Window(src, cur + 1, n - 1);
      assert w[1..] == x by {
        forall k | 0 <= k < n - 1 ensures w[1..][k] == x[k] {
          assert cur + (k + 1) == cur + 1 + k;
        }
      }
    }
  }

  lemma {:induction false} ValueBound(w: seq<bool>)
    ensures Value(w) < Pow2(|w|)
  {
    if w != [] {
      ValueBound(w[1..]);
    }
  }

  lemma {:induction false} CodeBound(src: seq<Byte>, lo: nat, hi: nat)
    requires lo <= hi
    ensures CodeBetween(src, lo, hi) < Pow2(hi - lo)
    decreases hi - lo
  {
    if lo != hi {
      CodeBound(src, lo, hi - 1);
    }
  }

  // ---- bit strings standing at a position

  lemma AtConcat(src: seq<Byte>, cur: nat, a: seq<bool>, b: seq<bool>)
    ensures At(src, cur, a + b) <==> At(src, cur, a) && At(src, cur + |a|, b)
  {
    var w := a + b;
    if At(src, cur, w) {
      forall k | 0 <= k < |a| ensures BitAt(src, cur + k) == a[k] {
        assert w[k] == a[k];
      }
      forall k | 0 <= k < |b| ensures BitAt(src, cur + |a| + k) == b[k] {
        assert w[|a| + k] == b[k];
        assert cur + (|a| + k) == cur + |a| + k;
      }
    }
    if At(src, cur, a) && At(src, cur + |a|, b) {
      forall k | 0 <= k < |w| ensures BitAt(src, cur + k) == w[k] {
        if k >= |a| {
          assert w[k] == b[k - |a|];
          assert cur + |a| + (k - |a|) == cur + k;
        }
      }
    }
  }

  lemma AtByte(src: seq<Byte>, p: nat, b: Byte)
    requires p < |src|
    ensures At(src, 8 * p, FieldBits(b, 8)) <==> src[p] == b
  {
    Pow2Values();
    FieldIff(src, 8 * p, b, 8);
    FieldByte(src, p);
  }

  /** Whole bytes standing on a byte boundary are a slice of the buffer. */
  lemma AtBytes(src: seq<Byte>, p: nat, s: seq<Byte>)
    requires p + |s| <= |src|
    ensures At(src, 8 * p, BytesBits(s)) <==> src[p..p + |s|] == s
  {
    var w := BytesBits(s);
    if At(src, 8 * p, w) {
      forall i | 0 <= i < |s| ensures src[p + i] == s[i] {
        var x := FieldBits(s[i], 8);
        forall k | 0 <= k < 8 ensures BitAt(src, 8 * (p + i) + k) == x[k] {
          assert (8 * i + k) / 8 == i && (8 * i + k) % 8 == k;
          assert w[8 * i + k] == x[k];
          assert 8 * p + (8 * i + k) == 8 * (p + i) + k;
        }
        AtByte(src, p + i, s[i]);
      }
    }
    if src[p..p + |s|] == s {
      forall j | 0 <= j < |w| ensures BitAt(src, 8 * p + j) == w[j] {
        assert (8 * p + j) / 8 == p + j / 8 && (8 * p + j) % 8 == j % 8;
        assert src[p + j / 8] == src[p..p + |s|][j / 8];
      }
    }
  }
}

/** Keys of the key-value store: byte strings under lexicographic order, the
    `strinc` successor used to build prefix ranges, and the fixed-width
    lower-case hex formatting (`%0Nx`) the blob-range workload uses to make
    fresh keys and sub-range boundaries. */
module Keys {

  type Byte = b: int | 0 <= b < 256

  /** A key (StringRef / Key): a sequence of bytes. */
  type Key = seq<Byte>

  datatype Option<+T> = None | Some(value: T)

  // ---------------------------------------------------------------------
  // Lexicographic order
  // ---------------------------------------------------------------------

  /** Strict lexicographic order on byte strings: the first differing byte
      decides, and a proper prefix comes first (StringRef's operator<). */
  predicate Less(a: Key, b: Key)
    decreases |a|
  {
    |b| > 0 && (|a| == 0 || a[0] < b[0] || (a[0] == b[0] && Less(a[1..], b[1..])))
  }

  predicate LessEq(a: Key, b: Key) {
    a == b || Less(a, b)
  }

  lemma {:induction false} LessIrreflexive(a: Key)
    ensures !Less(a, a)
  {
    if |a| > 0 {
      LessIrreflexive(a[1..]);
    }
  }

  lemma {:induction false} LessAsymmetric(a: Key, b: Key)
    requires Less(a, b)
    ensures !Less(b, a) && a != b
  {
    LessIrreflexive(a);
    if |a| > 0 && a[0] == b[0] {
      LessAsymmetric(a[1..], b[1..]);
    }
  }

  lemma {:induction false} LessTransitive(a: Key, b: Key, c: Key)
    requires Less(a, b) && Less(b, c)
    ensures Less(a, c)
  {
    if |a| > 0 && a[0] == b[0] && b[0] == c[0] {
      LessTransitive(a[1..], b[1..], c[1..]);
    }
  }

  /** LessEq chains: one strict step makes the whole chain strict. */
  lemma LessEqTransitive(a: Key, b: Key, c: Key)
    requires LessEq(a, b) && LessEq(b, c)
    ensures LessEq(a, c)
    ensures Less(a, b) || Less(b, c) ==> Less(a, c)
  {
    if Less(a, b) && Less(b, c) {
      LessTransitive(a, b, c);
    }
  }

  /** At or below b is never above b. */
  lemma LessEqNotAbove(a: Key, b: Key)
    requires LessEq(a, b)
    ensures !Less(b, a)
  {
    LessIrreflexive(a);
    if a != b {
      LessAsymmetric(a, b);
    }
  }

  lemma {:induction false} LessTotal(a: Key, b: Key)
    ensures a == b || Less(a, b) || Less(b, a)
  {
    if |a| > 0 && |b| > 0 && a[0] == b[0] {
      LessTotal(a[1..], b[1..]);
      if a[1..] == b[1..] {
        assert a == [a[0]] + a[1..] && b == [b[0]] + b[1..];
      }
    }
  }

  /** A proper extension of k sorts after k. */
  lemma {:induction false} LessPrefix(k: Key, s: Key)
    requires |s| > 0
    ensures Less(k, k + s)
  {
    if |k| > 0 {
      assert (k + s)[1..] == k[1..] + s;
      LessPrefix(k[1..], s);
    }
  }

  /** A common prefix does not change the order of two keys. */
  lemma {:induction false} LessCommonPrefix(p: Key, s: Key, t: Key)
    ensures Less(p + s, p + t) <==> Less(s, t)
  {
    if |p| > 0 {
      assert (p + s)[1..] == p[1..] + s;
      assert (p + t)[1..] == p[1..] + t;
      LessCommonPrefix(p[1..], s, t);
    } else {
      assert p + s == s && p + t == t;
    }
  }

  /** Between keys of equal length the order is decided inside them, so
      anything may be appended to either side. */
  lemma {:induction false} LessExtend(a: Key, b: Key, x: Key, y: Key)
    requires |a| == |b| && Less(a, b)
    ensures Less(a + x, b + y)
  {
    if a[0] == b[0] {
      assert (a + x)[1..] == a[1..] + x;
      assert (b + y)[1..] == b[1..] + y;
      LessExtend(a[1..], b[1..], x, y);
    }
  }

  /** Strictly increasing sequence of keys. */
  ghost predicate Increasing(ks: seq<Key>) {
    forall i, j :: 0 <= i < j < |ks| ==> Less(ks[i], ks[j])
  }

  /** Strict order between neighbours extends to every pair. */
  lemma {:induction false} ChainIncreasing(ks: seq<Key>)
    requires forall i :: 0 <= i < |ks| - 1 ==> Less(ks[i], ks[i + 1])
    ensures Increasing(ks)
  {
    if |ks| > 1 {
      ChainIncreasing(ks[1..]);
      forall i, j | 0 <= i < j < |ks|
        ensures Less(ks[i], ks[j])
      {
        if 0 < i {
          assert ks[i] == ks[1..][i - 1] && ks[j] == ks[1..][j - 1];
        } else if 1 < j {
          assert ks[1] == ks[1..][0] && ks[j] == ks[1..][j - 1];
          LessTransitive(ks[0], ks[1], ks[j]);
        }
      }
    }
  }

  // ---------------------------------------------------------------------
  // strinc
  // ---------------------------------------------------------------------

  /** Keys whose last byte can be incremented without carrying. */
  predicate Incrementable(k: Key) {
    |k| > 0 && k[|k| - 1] < 255
  }

  /** strinc: the smallest key greater than every key that has k as a
      prefix, for keys that do not end in 0xff. */
  function Strinc(k: Key): (r: Key)
    requires Incrementable(k)
    ensures |r| == |k| && Less(k, r)
  {
    IncrementLast(k);
    k[..|k| - 1] + [k[|k| - 1] + 1]
  }

  /** Incrementing the last byte gives a greater key. */
  lemma {:induction false} IncrementLast(k: Key)
    requires Incrementable(k)
    ensures Less(k, k[..|k| - 1] + [k[|k| - 1] + 1])
  {
    if |k| > 1 {
      var r := k[..|k| - 1] + [k[|k| - 1] + 1];
      assert r[1..] == k[1..][..|k| - 2] + [k[1..][|k| - 2] + 1];
      IncrementLast(k[1..]);
    }
  }

  lemma StrincTail(k: Key)
    requires Incrementable(k) && |k| > 1
    ensures Incrementable(k[1..]) && Strinc(k) == [k[0]] + Strinc(k[1..])
  {
    assert k[1..][..|k| - 2] == k[1..|k| - 1];
  }

  /** Every key that extends k (k itself included) lies below strinc(k). */
  lemma {:induction false} StrincAbove(k: Key, s: Key)
    requires Incrementable(k)
    ensures Less(k + s, Strinc(k))
  {
    if |k| > 1 {
      StrincTail(k);
      assert (k + s)[1..] == k[1..] + s;
      StrincAbove(k[1..], s);
    }
  }

  /** Conversely, every key from k up to strinc(k) starts with k. */
  lemma {:induction false} StrincBelow(k: Key, x: Key)
    requires Incrementable(k) && LessEq(k, x) && Less(x, Strinc(k))
    ensures |k| <= |x| && x[..|k|] == k
  {
    if x != k {
      if |k| > 1 {
        StrincTail(k);
        var t := Strinc(k[1..]);
        assert Strinc(k)[0] == k[0] && Strinc(k)[1..] == t;
        StrincBelow(k[1..], x[1..]);
        assert x[..|k|] == [x[0]] + x[1..][..|k| - 1];
        assert k == [k[0]] + k[1..];
      }
    }
  }

  /** For keys of one length, strinc(a) does not pass any key above a. */
  lemma {:induction false} StrincNext(a: Key, b: Key)
    requires Incrementable(a) && |a| == |b| && Less(a, b)
    ensures LessEq(Strinc(a), b)
  {
    if |a| > 1 {
      StrincTail(a);
      if a[0] == b[0] {
        StrincNext(a[1..], b[1..]);
        LessCommonPrefix([a[0]], Strinc(a[1..]), b[1..]);
        assert b == [a[0]] + b[1..];
      }
    } else if a[0] + 1 == b[0] {
      assert b == [b[0]];
    }
  }

  // ---------------------------------------------------------------------
  // Fixed-width lower-case hex (printf "%0Nx")
  // ---------------------------------------------------------------------

  function Pow16(w: nat): (p: nat)
    ensures p >= 1
  {
    if w == 0 then 1 else 16 * Pow16(w - 1)
  }

  predicate IsHexDigit(b: Byte) {
    0x30 <= b <= 0x39 || 0x61 <= b <= 0x66
  }

  predicate IsHex(k: Key) {
    forall i :: 0 <= i < |k| ==> IsHexDigit(k[i])
  }

  /** The digit '0'..'9', 'a'..'f' for d. */
  function HexDigit(d: nat): (b: Byte)
    requires d < 16
    ensures IsHexDigit(b)
    ensures d < 10 <==> b <= 0x39
  {
    if d < 10 then 0x30 + d else 0x61 + (d - 10)
  }

  function DigitValue(b: Byte): (d: nat)
    requires IsHexDigit(b)
    ensures d < 16 && HexDigit(d) == b
  {
    if b <= 0x39 then b - 0x30 else b - 0x61 + 10
  }

  /** n written with exactly `width` lower-case hex digits, zero-padded. */
  function Hex(n: nat, width: nat): (r: Key)
    requires n < Pow16(width)
    ensures |r| == width && IsHex(r)
  {
    if width == 0 then [] else Hex(n / 16, width - 1) + [HexDigit(n % 16)]
  }

  /** The number a string of hex digits denotes. */
  function HexValue(k: Key): (n: nat)
    requires IsHex(k)
    ensures n < Pow16(|k|)
  {
    if k == [] then 0 else HexValue(k[..|k| - 1]) * 16 + DigitValue(k[|k| - 1])
  }

  /** Base-16 digit split: q * 16 + d has quotient q and remainder d. */
  lemma DivMod16(q: nat, d: nat)
    requires d < 16
    ensures (q * 16 + d) / 16 == q && (q * 16 + d) % 16 == d
  {
  }

  lemma {:induction false} HexRoundTrip(n: nat, width: nat)
    requires n < Pow16(width)
    ensures HexValue(Hex(n, width)) == n
  {
    if width > 0 {
      HexRoundTrip(n / 16, width - 1);
      var r := Hex(n, width);
      assert r[..|r| - 1] == Hex(n / 16, width - 1);
    }
  }

  lemma {:induction false} HexValueRoundTrip(k: Key)
    requires IsHex(k)
    ensures Hex(HexValue(k), |k|) == k
  {
    if k != [] {
      var init := k[..|k| - 1];
      HexValueRoundTrip(init);
      DivMod16(HexValue(init), DigitValue(k[|k| - 1]));
      assert k == init + [k[|k| - 1]];
    }
  }

  /** Zero-padded hex of one width sorts like the numbers it denotes. */
  lemma {:induction false} HexMonotone(n: nat, m: nat, width: nat)
    requires n < m < Pow16(width)
    ensures Less(Hex(n, width), Hex(m, width))
  {
    if n / 16 < m / 16 {
      HexMonotone(n / 16, m / 16, width - 1);
      LessExtend(Hex(n / 16, width - 1), Hex(m / 16, width - 1), [HexDigit(n % 16)], [HexDigit(m % 16)]);
    } else {
      LessCommonPrefix(Hex(n / 16, width - 1), [HexDigit(n % 16)], [HexDigit(m % 16)]);
    }
  }
}

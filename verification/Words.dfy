/** Numbers as little-endian words, the contents of a BIGNUM, for any word base
    2^BN_BITS2. */
module Words {

  function Pow(b: nat, n: nat): nat {
    if n == 0 then 1 else b * Pow(b, n - 1)
  }

  /** The magnitude sum of d[i] * B^i. */
  function Magnitude(ws: seq<nat>, b: nat): nat {
    if ws == [] then 0 else ws[0] + b * Magnitude(ws[1..], b)
  }

  predicate AreWords(ws: seq<nat>, b: nat) {
    forall i | 0 <= i < |ws| :: ws[i] < b
  }

  /** The condition bn_check_top asserts: no leading zero word. */
  predicate IsTight(ws: seq<nat>) {
    ws == [] || ws[|ws| - 1] != 0
  }

  /** The words without the zero words at the top. */
  function Stripped(ws: seq<nat>): seq<nat> {
    if IsTight(ws) then ws else Stripped(ws[..|ws| - 1])
  }

  // -------------------------------------------------------------- arithmetic

  lemma PowPositive(b: nat, n: nat)
    requires b > 0
    ensures Pow(b, n) > 0
  {
  }

  lemma {:induction false} PowAdd(b: nat, m: nat, n: nat)
    ensures Pow(b, m + n) == Pow(b, m) * Pow(b, n)
  {
    if m > 0 {
      PowAdd(b, m - 1, n);
      Associate(b, Pow(b, m - 1), Pow(b, n), 0);
    }
  }

  lemma {:induction false} PowMonotone(b: nat, m: nat, n: nat)
    requires b > 0 && m <= n
    ensures Pow(b, m) <= Pow(b, n)
  {
    if m < n {
      PowMonotone(b, m, n - 1);
      PowPositive(b, n - 1);
      Grow(b, Pow(b, n - 1));
    }
  }

  lemma Grow(b: nat, x: nat)
    requires b > 0
    ensures x <= b * x
  {
  }

  /** (2^k)^n is 2^(k*n). */
  lemma {:induction false} PowOfPow(k: nat, n: nat)
    ensures Pow(Pow(2, k), n) == Pow(2, k * n)
  {
    if n > 0 {
      PowOfPow(k, n - 1);
      PowAdd(2, k, k * (n - 1));
      assert k + k * (n - 1) == k * n;
    }
  }

  lemma Scale(b: nat, x: nat, y: nat)
    requires x <= y
    ensures b * x <= b * y
  {
    assert b * y == b * x + b * (y - x);
  }

  lemma ScaleBelow(b: nat, x: nat, m: nat, p: nat)
    requires x < b && m < p
    ensures x + b * m < b * p
  {
    Scale(b, m + 1, p);
    assert b * (m + 1) == b * m + b;
  }

  /** A number has one remainder and one quotient. */
  lemma Unique(b: nat, x1: nat, q1: nat, x2: nat, q2: nat)
    requires x1 < b && x2 < b && x1 + b * q1 == x2 + b * q2
    ensures x1 == x2 && q1 == q2
  {
    if q1 < q2 {
      ScaleBelow(b, x1, q1, q2);
    } else if q2 < q1 {
      ScaleBelow(b, x2, q2, q1);
    }
  }

  // --------------------------------------------------------------- magnitude

  lemma {:induction false} TopZero(ws: seq<nat>, b: nat)
    requires ws != [] && ws[|ws| - 1] == 0
    ensures Magnitude(ws[..|ws| - 1], b) == Magnitude(ws, b)
  {
    if |ws| > 1 {
      TopZero(ws[1..], b);
      assert ws[1..][..|ws| - 2] == ws[..|ws| - 1][1..];
    }
  }

  /** Stripping keeps the magnitude, removes only zero words, and stops at the
      first word that is not zero. */
  lemma {:induction false} StrippedCorrect(ws: seq<nat>, b: nat)
    ensures Magnitude(Stripped(ws), b) == Magnitude(ws, b)
    ensures Stripped(ws) <= ws && IsTight(Stripped(ws))
    ensures forall i | |Stripped(ws)| <= i < |ws| :: ws[i] == 0
    ensures AreWords(ws, b) ==> AreWords(Stripped(ws), b)
  {
    if !IsTight(ws) {
      StrippedCorrect(ws[..|ws| - 1], b);
      TopZero(ws, b);
    }
  }

  /** No other prefix has these properties: the new top is the least one above
      which every word is zero. */
  lemma {:induction false} StrippedLeast(ws: seq<nat>, n: nat)
    requires n <= |ws| && forall i | n <= i < |ws| :: ws[i] == 0
    ensures |Stripped(ws)| <= n
  {
    if |ws| > n {
      StrippedLeast(ws[..|ws| - 1], n);
    } else {
      StrippedCorrect(ws, 1);
    }
  }

  lemma {:induction false} TightBounds(ws: seq<nat>, b: nat)
    requires b > 1 && AreWords(ws, b) && IsTight(ws)
    ensures Magnitude(ws, b) < Pow(b, |ws|)
    ensures ws != [] ==> Pow(b, |ws| - 1) <= Magnitude(ws, b)
  {
    if |ws| > 1 {
      TightBounds(ws[1..], b);
      ScaleBelow(b, ws[0], Magnitude(ws[1..], b), Pow(b, |ws| - 1));
      Scale(b, Pow(b, |ws| - 2), Magnitude(ws[1..], b));
    } else if |ws| == 1 {
      assert Magnitude(ws, b) == ws[0] && Pow(b, 1) == b * Pow(b, 0) == b;
    }
  }

  /** Two tight arrays have the same magnitude exactly when they are the same
      words. */
  lemma {:induction false} TightUnique(ws: seq<nat>, vs: seq<nat>, b: nat)
    requires b > 1 && AreWords(ws, b) && AreWords(vs, b) && IsTight(ws) && IsTight(vs)
    ensures Magnitude(ws, b) == Magnitude(vs, b) <==> ws == vs
  {
    if ws == [] || vs == [] {
      TightBounds(ws, b);
      TightBounds(vs, b);
      PowPositive(b, if ws == [] then if vs == [] then 0 else |vs| - 1 else |ws| - 1);
    } else if Magnitude(ws, b) == Magnitude(vs, b) {
      Unique(b, ws[0], Magnitude(ws[1..], b), vs[0], Magnitude(vs[1..], b));
      TightUnique(ws[1..], vs[1..], b);
      assert ws == [ws[0]] + ws[1..] && vs == [vs[0]] + vs[1..];
    }
  }

  /** Any two arrays of the same magnitude agree once they are stripped. */
  lemma SameMagnitude(ws: seq<nat>, vs: seq<nat>, b: nat)
    requires b > 1 && AreWords(ws, b) && AreWords(vs, b)
    ensures Magnitude(ws, b) == Magnitude(vs, b) <==> Stripped(ws) == Stripped(vs)
  {
    StrippedCorrect(ws, b);
    StrippedCorrect(vs, b);
    TightUnique(Stripped(ws), Stripped(vs), b);
  }

  // ------------------------------------------------------------ lengths in bits

  /** The fewest bits that hold `n`, what BN_num_bits_word returns. */
  function BitLength(n: nat): nat {
    if n == 0 then 0 else 1 + BitLength(n / 2)
  }

  lemma {:induction false} BitLengthBounds(n: nat)
    ensures n < Pow(2, BitLength(n)) && (n == 0 <==> BitLength(n) == 0)
    ensures n > 0 ==> Pow(2, BitLength(n) - 1) <= n
  {
    if n > 1 {
      BitLengthBounds(n / 2);
      assert Pow(2, BitLength(n)) == 2 * Pow(2, BitLength(n / 2));
      assert Pow(2, BitLength(n) - 1) == 2 * Pow(2, BitLength(n / 2) - 1);
    }
  }

  /** A length in digits is settled by its bounds. */
  lemma OneLength(b: nat, n: nat, i: nat, j: nat)
    requires b > 1 && i > 0 && j > 0
    requires Pow(b, i - 1) <= n < Pow(b, i) && Pow(b, j - 1) <= n < Pow(b, j)
    ensures i == j
  {
    if i < j {
      PowMonotone(b, i, j - 1);
    } else if j < i {
      PowMonotone(b, j, i - 1);
    }
  }

  lemma Associate(b: nat, p: nat, x: nat, m: nat)
    ensures b * (m + p * x) == b * m + (b * p) * x
  {
  }

  lemma {:induction false} TopWord(ws: seq<nat>, b: nat)
    requires ws != []
    ensures Magnitude(ws, b) == Magnitude(ws[..|ws| - 1], b) + Pow(b, |ws| - 1) * ws[|ws| - 1]
  {
    if |ws| > 1 {
      TopWord(ws[1..], b);
      assert ws[1..][..|ws| - 2] == ws[..|ws| - 1][1..];
      Associate(b, Pow(b, |ws| - 2), ws[|ws| - 1], Magnitude(ws[1..][..|ws| - 2], b));
    }
  }

  lemma Below(ws: seq<nat>, b: nat)
    requires b > 1 && AreWords(ws, b)
    ensures Magnitude(ws, b) < Pow(b, |ws|)
  {
    StrippedCorrect(ws, b);
    TightBounds(Stripped(ws), b);
    PowMonotone(b, |Stripped(ws)|, |ws|);
  }

  /** BN_num_bits of a tight array: full words below the top one, and the bits
      of the top word. */
  function NumBits(ws: seq<nat>, bits2: nat): nat {
    if ws == [] then 0 else (|ws| - 1) * bits2 + BitLength(ws[|ws| - 1])
  }

  /** It is the bit length of the number. */
  lemma NumBitsCorrect(ws: seq<nat>, bits2: nat)
    requires bits2 > 0 && AreWords(ws, Pow(2, bits2)) && IsTight(ws)
    ensures NumBits(ws, bits2) == BitLength(Magnitude(ws, Pow(2, bits2)))
  {
    if ws != [] {
      var b, n, top := Pow(2, bits2), |ws| - 1, ws[|ws| - 1];
      BaseAboveOne(bits2);
      TopWord(ws, b);
      Below(ws[..n], b);
      PowOfPow(bits2, n);
      ShiftedBits(bits2 * n, Magnitude(ws[..n], b), top);
      Commute(bits2, n);
    }
  }

  lemma Commute(x: nat, y: nat)
    ensures x * y == y * x
  {
  }

  /** `top` above `e` low bits. */
  lemma ShiftedBits(e: nat, low: nat, top: nat)
    requires low < Pow(2, e) && top > 0
    ensures BitLength(low + Pow(2, e) * top) == e + BitLength(top)
  {
    hide Pow, BitLength;
    var t, p := BitLength(top), Pow(2, e);
    var m := low + p * top;
    BitLengthBounds(top);
    PowAdd(2, e, t);
    PowAdd(2, e, t - 1);
    Scale(p, Pow(2, t - 1), top);
    ScaleBelow(p, low, top, Pow(2, t));
    Scale(p, 1, top);
    BitLengthBounds(m);
    OneLength(2, m, e + t, BitLength(m));
  }

  lemma BaseAboveOne(bits2: nat)
    requires bits2 > 0
    ensures Pow(2, bits2) > 1 && Pow(2, bits2) % 2 == 0
  {
    PowPositive(2, bits2 - 1);
  }

  /** BN_num_bytes: the fewest octets that hold the number. */
  lemma NumBytesCorrect(ws: seq<nat>, bits2: nat)
    requires bits2 > 0 && AreWords(ws, Pow(2, bits2)) && IsTight(ws)
    ensures var n, m := (NumBits(ws, bits2) + 7) / 8, Magnitude(ws, Pow(2, bits2));
            m < Pow(256, n) && (n > 0 ==> Pow(256, n - 1) <= m)
  {
    var bits, m := NumBits(ws, bits2), Magnitude(ws, Pow(2, bits2));
    var n := (bits + 7) / 8;
    NumBitsCorrect(ws, bits2);
    BytesForBits(m, BitLength(m));
  }

  lemma BytesForBits(m: nat, bits: nat)
    requires bits == BitLength(m)
    ensures var n := (bits + 7) / 8; m < Pow(256, n) && (n > 0 ==> Pow(256, n - 1) <= m)
  {
    hide BitLength;
    var n := (bits + 7) / 8;
    BitLengthBounds(m);
    EightBits();
    PowOfPow(8, n);
    PowMonotone(2, bits, 8 * n);
    if n > 0 {
      PowOfPow(8, n - 1);
      PowMonotone(2, 8 * (n - 1), bits - 1);
    }
  }

  lemma EightBits()
    ensures Pow(2, 8) == 256
  {
    assert Pow(2, 4) == 16;
    PowAdd(2, 4, 4);
  }

  // ---------------------------------------------------------------- expansion

  /** The number of words for `bits` bits. */
  function WordsFor(bits: nat, bits2: nat): nat
    requires bits2 > 0
  {
    (bits + bits2 - 1) / bits2
  }

  lemma Ceiling(bits: nat, bits2: nat)
    requires bits2 > 0
    ensures var n := WordsFor(bits, bits2); bits2 * n >= bits && (bits > 0 ==> n > 0 && bits2 * (n - 1) < bits)
  {
    var n := WordsFor(bits, bits2);
    assert bits + bits2 - 1 == bits2 * n + (bits + bits2 - 1) % bits2;
    if n == 0 {
      assert bits + bits2 - 1 < bits2;
    } else {
      assert bits2 * (n - 1) == bits2 * n - bits2;
    }
  }

  /** WordsFor is the exact need: every number below 2^bits fits in that many
      words, and the number 2^(bits-1) fits in no fewer. */
  lemma WordsForExact(bits: nat, bits2: nat, ws: seq<nat>)
    requires bits2 > 0 && AreWords(ws, Pow(2, bits2)) && IsTight(ws)
    ensures Magnitude(ws, Pow(2, bits2)) < Pow(2, bits) ==> |ws| <= WordsFor(bits, bits2)
    ensures bits > 0 && Magnitude(ws, Pow(2, bits2)) == Pow(2, bits - 1) ==> |ws| == WordsFor(bits, bits2)
  {
    var b, n := Pow(2, bits2), WordsFor(bits, bits2);
    BaseAboveOne(bits2);
    Ceiling(bits, bits2);
    TightBounds(ws, b);
    if |ws| > n && Magnitude(ws, b) < Pow(2, bits) {
      PowOfPow(bits2, |ws| - 1);
      Scale(bits2, n, |ws| - 1);
      PowMonotone(2, bits, bits2 * (|ws| - 1));
    }
    if bits > 0 && Magnitude(ws, b) == Pow(2, bits - 1) {
      assert Magnitude(ws, b) < Pow(2, bits) by { PowPositive(2, bits - 1); }
      if |ws| < n {
        PowOfPow(bits2, |ws|);
        Scale(bits2, |ws|, n - 1);
        PowMonotone(2, bits2 * |ws|, bits - 1);
      }
    }
  }
}

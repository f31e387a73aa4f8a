/** The BIGNUM structure of include/bn.h and the macros that keep it normal,
    look at it and grow it. BN_BITS2, the word size, is a parameter. */
module BigNum {
  import opened Octets
  import opened Words

  // ------------------------------------------- the macros that only look at it

  /** BN_abs_is_word; the cast to BN_ULONG keeps the low word of w. */
  predicate AbsIsWord(ws: seq<nat>, w: nat, b: nat)
    requires b > 0
  {
    (|ws| == 1 && ws[0] == w % b) || (w == 0 && |ws| == 0)
  }

  predicate IsZero(ws: seq<nat>) {
    |ws| == 0
  }

  predicate IsOne(ws: seq<nat>, neg: bool, b: nat)
    requires b > 0
  {
    AbsIsWord(ws, 1, b) && !neg
  }

  predicate IsWord(ws: seq<nat>, neg: bool, w: nat, b: nat)
    requires b > 0
  {
    AbsIsWord(ws, w, b) && (w == 0 || !neg)
  }

  predicate IsOdd(ws: seq<nat>) {
    |ws| > 0 && ws[0] % 2 == 1
  }

  /** The number a sign and words stand for. */
  function Signed(ws: seq<nat>, neg: bool, b: nat): int {
    var m: int := Magnitude(ws, b);
    if neg then -m else m
  }

  /** What bn_correct_top establishes. */
  predicate IsNormal(ws: seq<nat>, neg: bool) {
    IsTight(ws) && (neg ==> ws != [])
  }

  lemma OneWord(ws: seq<nat>, b: nat)
    requires b > 1 && AreWords(ws, b) && IsTight(ws)
    ensures |ws| == 0 ==> Magnitude(ws, b) == 0
    ensures |ws| == 1 ==> Magnitude(ws, b) == ws[0] > 0
    ensures |ws| > 1 ==> Magnitude(ws, b) >= b
  {
    if |ws| == 1 {
      assert ws[1..] == [];
    } else if |ws| > 1 {
      TightBounds(ws, b);
      PowMonotone(b, 1, |ws| - 1);
      assert Pow(b, 1) == b * Pow(b, 0) == b;
    }
  }

  /** BN_abs_is_word on a normal number asks whether its magnitude is the low
      word of w, and that is w itself exactly when w fits in a word. */
  lemma AbsIsWordExact(ws: seq<nat>, w: nat, b: nat)
    requires b > 1 && AreWords(ws, b) && IsTight(ws)
    ensures AbsIsWord(ws, w, b) <==> Magnitude(ws, b) == w % b && (w % b == 0 ==> w == 0)
    ensures w < b ==> (AbsIsWord(ws, w, b) <==> Magnitude(ws, b) == w)
    ensures w >= b ==> !(AbsIsWord(ws, w, b) && Magnitude(ws, b) == w)
  {
    OneWord(ws, b);
  }

  /** On a normal number each of the macros tells the truth about its value. */
  lemma PredicatesExact(ws: seq<nat>, neg: bool, w: nat, bits2: nat)
    requires bits2 > 0 && AreWords(ws, Pow(2, bits2)) && IsNormal(ws, neg)
    ensures var b := Pow(2, bits2);
            var value := Signed(ws, neg, b);
            && b > 1
            && (IsZero(ws) <==> value == 0)
            && (IsOne(ws, neg, b) <==> value == 1)
            && (w < b ==> (IsWord(ws, neg, w, b) <==> value == w))
            && (IsOdd(ws) <==> value % 2 == 1)
  {
    var b := Pow(2, bits2);
    BaseAboveOne(bits2);
    AbsIsWordExact(ws, 0, b);
    AbsIsWordExact(ws, 1, b);
    AbsIsWordExact(ws, w % b, b);
    if w < b {
      SmallRemainder(w, b);
    }
    Parity(ws, b);
  }

  lemma SmallRemainder(w: nat, b: nat)
    requires w < b
    ensures w % b == w
  {
  }

  lemma Parity(ws: seq<nat>, b: nat)
    requires b % 2 == 0
    ensures Magnitude(ws, b) % 2 == if ws == [] then 0 else ws[0] % 2
  {
    if ws != [] {
      EvenMultiple(ws[0], b, Magnitude(ws[1..], b));
    }
  }

  lemma EvenMultiple(x: nat, b: nat, m: nat)
    requires b % 2 == 0
    ensures (x + b * m) % 2 == x % 2
  {
    var h := b / 2;
    assert b == 2 * h;
    assert b * m == 2 * (h * m) by { Associate(2, h, m, 0); }
  }

  /** Without the normal form BN_is_zero is still right, except for words that
      are there and are all zero. */
  lemma ZeroWithoutNormalForm(ws: seq<nat>, b: nat)
    requires b > 1 && AreWords(ws, b)
    ensures (IsZero(ws) <==> Magnitude(ws, b) == 0) <==> (ws == [] || exists i :: 0 <= i < |ws| && ws[i] != 0)
  {
    StrippedCorrect(ws, b);
    TightBounds(Stripped(ws), b);
    if Stripped(ws) != [] {
      PowPositive(b, |Stripped(ws)| - 1);
      var i := |Stripped(ws)| - 1;
      assert Stripped(ws)[i] == ws[i];
    }
  }

  /** Two normal numbers have the same value exactly when they agree in sign and
      in every word. */
  lemma NormalUnique(ws: seq<nat>, neg1: bool, vs: seq<nat>, neg2: bool, b: nat)
    requires b > 1 && AreWords(ws, b) && AreWords(vs, b) && IsNormal(ws, neg1) && IsNormal(vs, neg2)
    ensures Signed(ws, neg1, b) == Signed(vs, neg2, b) <==> ws == vs && neg1 == neg2
  {
    TightUnique(ws, vs, b);
    OneWord(ws, b);
    OneWord(vs, b);
  }

  // ------------------------------------------------------------ the structure

  /** C division, which truncates toward zero. */
  function CDiv(a: int, b: nat): int
    requires b > 0
  {
    if a >= 0 then a / b else -((-a) / b)
  }

  lemma WordCount(bits: int, bits2: nat)
    requires bits2 > 0
    ensures var words := CDiv(bits + bits2 - 1, bits2);
            if bits >= 0 then words == WordsFor(bits, bits2) else words <= 0
  {
    if bits < 0 && bits + bits2 - 1 >= 0 {
      SmallQuotient(bits + bits2 - 1, bits2);
    }
  }

  lemma SmallQuotient(n: nat, b: nat)
    requires n < b
    ensures n / b == 0
  {
  }

  lemma NoMagnitude(b: nat)
    ensures Magnitude([], b) == 0
  {
  }

  class BIGNUM {
    const bits2: nat
    var d: array<nat>
    var top: int
    var dmax: int
    var neg: bool
    var isStatic: bool

    /** BN_new and BN_init: no words, no sign. */
    constructor (bits2: nat)
      requires 0 < bits2 <= 64
      ensures this.bits2 == bits2 && fresh(d) && d.Length == 0 && !isStatic
      ensures Valid() && Normal() && Value() == 0
    {
      this.bits2 := bits2;
      d, top, dmax, neg, isStatic := new nat[0], 0, 0, false, false;
    }

    ghost predicate Valid()
      reads this, d
    {
      0 < bits2 <= 64 && 0 <= top <= dmax == d.Length && AreWords(d[..top], Pow(2, bits2))
    }

    ghost function Used(): seq<nat>
      requires Valid()
      reads this, d
    {
      d[..top]
    }

    ghost function Value(): int
      requires Valid()
      reads this, d
    {
      Signed(Used(), neg, Pow(2, bits2))
    }

    ghost predicate Normal()
      requires Valid()
      reads this, d
    {
      IsNormal(Used(), neg)
    }

    /** bn_correct_top: the top comes down to the last word that is not zero. No
        word is written, the value stays, and zero loses its sign. */
    method CorrectTop()
      requires Valid()
      modifies `top, `neg
      ensures Valid() && Normal()
      ensures Used() == Stripped(old(Used())) && neg == (old(neg) && Used() != [])
      ensures Value() == old(Value())
      ensures top <= old(top) && forall i | top <= i < old(top) :: d[i] == 0
    {
      hide Pow, Magnitude;
      StrippedCorrect(Used(), Pow(2, bits2));
      ghost var ws := Used();
      assert ws[..|ws|] == ws;
      var tmpTop := top;
      if tmpTop > 0 {
        var ftl := tmpTop - 1;
        while tmpTop > 0
          invariant 0 <= tmpTop <= top && ftl == tmpTop - 1
          invariant Stripped(ws[..tmpTop]) == Stripped(ws)
        {
          var word := d[ftl];
          ftl := ftl - 1;
          if word != 0 {
            break;
          }
          assert ws[..tmpTop][..tmpTop - 1] == ws[..tmpTop - 1];
          tmpTop := tmpTop - 1;
        }
        top := tmpTop;
      }
      assert d[..top] == ws[..top];
      NoMagnitude(Pow(2, bits2));
      if top == 0 {
        neg := false;
      }
    }

    /** BN_zero_ex */
    method Zero()
      requires Valid()
      modifies `top, `neg
      ensures Valid() && Normal() && Value() == 0
    {
      top := 0;
      neg := false;
    }

    /** bn_expand2: room for `words` words, with the used ones kept; false when
        that is more than BIGNUMs may hold or the words are not its own. */
    method Expand2(words: int) returns (ok: bool)
      requires Valid() && words > dmax
      modifies `d, `dmax
      ensures Valid() && Used() == old(Used())
      ensures ok == (words <= INT_MAX / (4 * bits2) && !isStatic)
      ensures if ok then dmax == words && fresh(d) else d == old(d) && dmax == old(dmax)
    {
      if words > INT_MAX / (4 * bits2) || isStatic {
        return false;
      }
      var a := new nat[words];
      forall i | 0 <= i < top {
        a[i] := d[i];
      }
      assert a[..top] == d[..top];
      d, dmax := a, words;
      ok := true;
    }

    /** bn_wexpand */
    method WExpand(words: int) returns (ok: bool)
      requires Valid()
      modifies `d, `dmax
      ensures Valid() && Used() == old(Used())
      ensures ok == (words <= old(dmax) || (words <= INT_MAX / (4 * bits2) && !isStatic))
      ensures if ok && words > old(dmax) then dmax == words && fresh(d) else d == old(d) && dmax == old(dmax)
    {
      if words <= dmax {
        ok := true;
      } else {
        ok := Expand2(words);
      }
    }

    /** bn_set_words: the number that any words stand for, in normal form. */
    method SetWords(words: seq<nat>) returns (ok: bool)
      requires Valid() && AreWords(words, Pow(2, bits2))
      modifies this, d
      ensures Valid()
      ensures ok == (|words| <= old(dmax) || (|words| <= INT_MAX / (4 * bits2) && !old(isStatic)))
      ensures ok ==> Normal() && Used() == Stripped(words) && Value() == Magnitude(words, Pow(2, bits2))
      ensures if ok && |words| > old(dmax) then dmax == |words| && fresh(d) else d == old(d) && dmax == old(dmax)
      ensures !ok ==> Used() == old(Used()) && top == old(top) && neg == old(neg)
      ensures isStatic == old(isStatic)
    {
      hide Magnitude, Stripped, Pow, IsTight;
      ok := WExpand(|words|);
      if ok {
        CopyWords(words);
        CorrectTop();
        StrippedCorrect(words, Pow(2, bits2));
        neg := false;
      }
    }

    /** The memmove of bn_set_words and the assignment to top. */
    method CopyWords(words: seq<nat>)
      requires Valid() && AreWords(words, Pow(2, bits2)) && |words| <= dmax
      modifies `top, d
      ensures Valid() && Used() == words
    {
      hide Pow;
      forall i | 0 <= i < |words| {
        d[i] := words[i];
      }
      top := |words|;
      assert Used() == words;
    }

    /** bn_expand: the guard keeps bits+BN_BITS2-1 an int. */
    method Expand(bits: CInt) returns (ok: bool)
      requires Valid()
      modifies `d, `dmax
      ensures Valid() && Used() == old(Used())
      ensures bits >= 0 && bits + bits2 - 1 > INT_MAX ==> !ok
      ensures bits >= 0 && bits + bits2 - 1 <= INT_MAX ==>
                var words := WordsFor(bits, bits2);
                ok == (words <= old(dmax) || (words <= INT_MAX / (4 * bits2) && !isStatic))
      ensures bits >= 0 && ok && WordsFor(bits, bits2) > old(dmax) ==> dmax == WordsFor(bits, bits2) && fresh(d)
      ensures bits < 0 ==> ok
      ensures !ok || bits < 0 || WordsFor(bits, bits2) <= old(dmax) ==> d == old(d) && dmax == old(dmax)
    {
      if bits > INT_MAX - bits2 + 1 {
        return false;
      }
      var sum: CInt := bits + bits2 - 1;
      var words := CDiv(sum, bits2);
      WordCount(bits, bits2);
      hide CDiv, WordsFor, AreWords;
      if words <= dmax {
        ok := true;
      } else {
        ok := Expand2(words);
      }
    }
  }
}

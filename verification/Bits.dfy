/** Division facts the solver does not find by itself. */
module Division {

  lemma {:induction false} AtLeastOnce(k: int, d: nat)
    requires k >= 1
    ensures k * d >= d
  {
  }

  lemma {:induction false} QuotientIsUnique(q: nat, r: nat, q': nat, r': nat, d: nat)
    requires r < d && r' < d && q * d + r == q' * d + r'
    ensures q == q'
  {
    assert (q - q') * d == q * d - q' * d == r' - r;
    assert (q' - q) * d == q' * d - q * d == r - r';
    if q > q' {
      AtLeastOnce(q - q', d);
    } else if q < q' {
      AtLeastOnce(q' - q, d);
    }
  }

  lemma {:induction false} QuotientIs(v: nat, q: nat, r: nat, d: nat)
    requires v == q * d + r && r < d
    ensures q == v / d && r == v % d
  {
    QuotientIsUnique(q, r, v / d, v % d, d);
  }

  lemma {:induction false} Doubled(q: nat, d: nat)
    ensures q * (2 * d) == 2 * (q * d)
  {
  }
}

/** Bit operations on natural numbers, and small fields packed into words. */
module Bits {
  import Division

  /** Bitwise or. */
  function Or(a: nat, b: nat): nat {
    if a == 0 then b
    else if b == 0 then a
    else 2 * Or(a / 2, b / 2) + (if a % 2 == 1 || b % 2 == 1 then 1 else 0)
  }

  /** Bitwise exclusive or. */
  function Xor(a: nat, b: nat): nat {
    if a == 0 then b
    else if b == 0 then a
    else 2 * Xor(a / 2, b / 2) + (if a % 2 != b % 2 then 1 else 0)
  }

  function Shl(v: nat, k: nat): nat {
    if k == 0 then v else 2 * Shl(v, k - 1)
  }

  function Shr(v: nat, k: nat): nat {
    if k == 0 then v else Shr(v / 2, k - 1)
  }

  /** The low k bits: masking with (1 << k) - 1. */
  function Low(v: nat, k: nat): nat {
    if k == 0 then 0 else 2 * Low(v / 2, k - 1) + v % 2
  }

  /** v has no bits at or above k. */
  predicate Fits(v: nat, k: nat) { Shr(v, k) == 0 }

  lemma {:induction false} OrHalves(a: nat, b: nat)
    ensures Or(a, b) / 2 == Or(a / 2, b / 2)
    ensures Or(a, b) % 2 == if a % 2 == 1 || b % 2 == 1 then 1 else 0
  {
  }

  lemma {:induction false} ShrOr(a: nat, b: nat, k: nat)
    ensures Shr(Or(a, b), k) == Or(Shr(a, k), Shr(b, k))
  {
    if k > 0 {
      OrHalves(a, b);
      ShrOr(a / 2, b / 2, k - 1);
    }
  }

  lemma {:induction false} LowOr(a: nat, b: nat, k: nat)
    ensures Low(Or(a, b), k) == Or(Low(a, k), Low(b, k))
  {
    if k > 0 {
      OrHalves(a, b);
      LowOr(a / 2, b / 2, k - 1);
      OrHalves(Low(a, k), Low(b, k));
    }
  }

  lemma {:induction false} ShrShl(v: nat, k: nat, j: nat)
    requires j <= k
    ensures Shr(Shl(v, k), j) == Shl(v, k - j)
  {
    if j > 0 {
      ShrShl(v, k - 1, j - 1);
    }
  }

  lemma {:induction false} ShrAdds(v: nat, a: nat, b: nat)
    ensures Shr(v, a + b) == Shr(Shr(v, a), b)
  {
    if a > 0 {
      ShrAdds(v / 2, a - 1, b);
    }
  }

  lemma {:induction false} ShrZero(k: nat)
    ensures Shr(0, k) == 0
  {
    if k > 0 {
      ShrZero(k - 1);
    }
  }

  lemma {:induction false} LowShl(v: nat, m: nat, k: nat)
    requires k <= m
    ensures Low(Shl(v, m), k) == 0
  {
    if k > 0 {
      LowShl(v, m - 1, k - 1);
    }
  }

  lemma {:induction false} LowOfFitting(v: nat, k: nat)
    requires Fits(v, k)
    ensures Low(v, k) == v
  {
    if k > 0 {
      LowOfFitting(v / 2, k - 1);
    }
  }

  lemma {:induction false} LowFits(v: nat, k: nat)
    ensures Fits(Low(v, k), k)
  {
    if k > 0 {
      LowFits(v / 2, k - 1);
      assert Low(v, k) / 2 == Low(v / 2, k - 1);
    }
  }

  /** High part and low part make up the word again. */
  lemma {:induction false} Rebuild(v: nat, k: nat)
    ensures Or(Shl(Shr(v, k), k), Low(v, k)) == v
  {
    if k > 0 {
      Rebuild(v / 2, k - 1);
      OrHalves(Shl(Shr(v, k), k), Low(v, k));
      assert Shl(Shr(v, k), k) / 2 == Shl(Shr(v / 2, k - 1), k - 1);
    }
  }

  lemma {:induction false} XorHalves(a: nat, b: nat)
    ensures Xor(a, b) / 2 == Xor(a / 2, b / 2)
    ensures Xor(a, b) % 2 == if a % 2 != b % 2 then 1 else 0
  {
    if a != 0 && b != 0 {
      var x, bit := Xor(a / 2, b / 2), if a % 2 != b % 2 then 1 else 0;
      assert Xor(a, b) == 2 * x + bit;
    } else {
      assert Xor(0, b / 2) == b / 2 && Xor(a / 2, 0) == a / 2;
    }
  }

  /** Shifting right and masking split a word as dividing by a power of two does. */
  lemma {:induction false} SplitAt(v: nat, k: nat)
    ensures v == Shr(v, k) * Shl(1, k) + Low(v, k) && Low(v, k) < Shl(1, k)
  {
    if k > 0 {
      SplitAt(v / 2, k - 1);
      Division.Doubled(Shr(v / 2, k - 1), Shl(1, k - 1));
    }
  }

  lemma {:induction false} ShiftIsDivision(v: nat, k: nat)
    ensures Shl(1, k) > 0 && Shr(v, k) == v / Shl(1, k) && Low(v, k) == v % Shl(1, k)
  {
    SplitAt(v, k);
    hide Shl, Shr, Low;
    Division.QuotientIs(v, Shr(v, k), Low(v, k), Shl(1, k));
  }

  // -------------------------------------------------------------- fields

  /** Bit position of the k-th field of width w. */
  function Place(w: nat, k: nat): nat { w * k }

  /** Reading the k-th field of width w. */
  function GetField(x: nat, w: nat, k: nat): nat {
    Low(Shr(x, Place(w, k)), w)
  }

  /** Or-ing a value into the k-th field of width w. */
  function PackField(x: nat, w: nat, k: nat, v: nat): nat {
    Or(x, Shl(v, Place(w, k)))
  }

  /** The k-th field of width w, as a quotient and a remainder. */
  lemma {:induction false} FieldIs(x: nat, w: nat, k: nat)
    ensures Shl(1, w * k) > 0 && Shl(1, w) > 0 && GetField(x, w, k) == x / Shl(1, w * k) % Shl(1, w)
  {
    ShiftIsDivision(x, w * k);
    ShiftIsDivision(Shr(x, w * k), w);
  }

  /** The field just packed reads back, and the word has grown by one field. */
  lemma {:induction false} PackedReads(x: nat, w: nat, k: nat, v: nat)
    requires Fits(x, Place(w, k)) && Fits(v, w)
    ensures GetField(PackField(x, w, k, v), w, k) == v
    ensures Fits(PackField(x, w, k, v), Place(w, k) + w)
  {
    var s := Place(w, k);
    ShrOr(x, Shl(v, s), s);
    ShrShl(v, s, s);
    LowOfFitting(v, w);
    ShrAdds(PackField(x, w, k, v), s, w);
  }

  /** Fields packed earlier keep their value. */
  lemma {:induction false} PackedKeeps(x: nat, w: nat, k: nat, v: nat, j: nat)
    requires Place(w, j) + w <= Place(w, k)
    ensures GetField(PackField(x, w, k, v), w, j) == GetField(x, w, j)
  {
    var s, r := Place(w, k), Place(w, j);
    ShrOr(x, Shl(v, s), r);
    ShrShl(v, s, r);
    LowOr(Shr(x, r), Shl(v, s - r), w);
    LowShl(v, s - r, w);
  }

  // -------------------------------------------------------------- fields packed n to a word

  /** How many of `count` fields land in word t, n to a word. */
  function Used(count: nat, n: nat, t: nat): nat
    requires n > 0
  {
    if t < count / n then n else if t == count / n then count % n else 0
  }

  /** The words hold the fields in order, n to a word, and nothing else. */
  predicate Packed(words: seq<nat>, fields: seq<nat>, w: nat, n: nat) {
    && n > 0
    && (forall j :: 0 <= j < |fields| ==> j / n < |words| && GetField(words[j / n], w, j % n) == fields[j])
    && (forall t :: 0 <= t < |words| ==> Fits(words[t], Place(w, Used(|fields|, n, t))))
  }

  lemma {:induction false} NextProduct(w: nat, j: nat, k: nat)
    requires j < k
    ensures Place(w, j) + w <= Place(w, k) && Place(w, j + 1) == Place(w, j) + w
  {
    var gap := k - j - 1;
    assert w * k == w * j + w + w * gap;
  }

  lemma {:induction false} Quotients(j: nat, count: nat, n: nat)
    requires j <= count && n > 0
    ensures j / n <= count / n
  {
    if j / n > count / n {
      Division.AtLeastOnce(j / n - count / n, n);
    }
  }

  lemma {:induction false} EarlierPlace(j: nat, count: nat, n: nat)
    requires j < count && n > 0
    ensures j / n < count / n || (j / n == count / n && j % n < count % n)
  {
    Quotients(j, count, n);
  }

  lemma {:induction false} NextPlace(count: nat, n: nat)
    requires n > 0
    ensures (count + 1) / n == (if count % n + 1 == n then count / n + 1 else count / n)
    ensures (count + 1) % n == (if count % n + 1 == n then 0 else count % n + 1)
  {
    var q, r := count / n, count % n;
    if r + 1 == n {
      assert (q + 1) * n == q * n + n;
      Division.QuotientIsUnique(q + 1, 0, (count + 1) / n, (count + 1) % n, n);
    } else {
      Division.QuotientIsUnique(q, r + 1, (count + 1) / n, (count + 1) % n, n);
    }
  }

  lemma {:induction false} ZerosArePacked(words: seq<nat>, w: nat, n: nat)
    requires n > 0 && forall t :: 0 <= t < |words| ==> words[t] == 0
    ensures Packed(words, [], w, n)
  {
    forall t | 0 <= t < |words| ensures Fits(words[t], Place(w, Used(0, n, t))) {
      ShrZero(Place(w, Used(0, n, t)));
    }
  }

  lemma {:induction false} PackNextReads(words: seq<nat>, fields: seq<nat>, w: nat, n: nat, v: nat, j: nat)
    requires Packed(words, fields, w, n) && Fits(v, w) && |fields| / n < |words| && j < |fields|
    ensures var q := |fields| / n;
            GetField(words[q := PackField(words[q], w, |fields| % n, v)][j / n], w, j % n) == fields[j]
  {
    hide GetField, PackField, Fits, Place;
    var q, r := |fields| / n, |fields| % n;
    EarlierPlace(j, |fields|, n);
    if j / n == q {
      NextProduct(w, j % n, r);
      PackedKeeps(words[q], w, r, v, j % n);
    }
  }

  lemma {:induction false} PackNextFits(words: seq<nat>, fields: seq<nat>, w: nat, n: nat, v: nat, t: nat)
    requires Packed(words, fields, w, n) && Fits(v, w) && |fields| / n < |words| && t < |words|
    ensures var q := |fields| / n;
            && GetField(PackField(words[q], w, |fields| % n, v), w, |fields| % n) == v
            && Fits(words[q := PackField(words[q], w, |fields| % n, v)][t], Place(w, Used(|fields| + 1, n, t)))
  {
    hide GetField, PackField, Fits, Place;
    var q, r := |fields| / n, |fields| % n;
    assert Used(|fields|, n, q) == r && Fits(words[q], Place(w, Used(|fields|, n, q)));
    PackedReads(words[q], w, r, v);
    NextPlace(|fields|, n);
    NextProduct(w, r, r + 1);
    if t != q {
      assert Fits(words[t], Place(w, Used(|fields|, n, t)));
    }
  }

  /** Or-ing the next field into its place packs one more field. */
  lemma {:induction false} PackNext(words: seq<nat>, fields: seq<nat>, w: nat, n: nat, v: nat)
    requires Packed(words, fields, w, n) && Fits(v, w) && |fields| / n < |words|
    ensures var q := |fields| / n;
            Packed(words[q := PackField(words[q], w, |fields| % n, v)], fields + [v], w, n)
  {
    hide GetField, PackField, Fits, Place, Used;
    var q := |fields| / n;
    var words' := words[q := PackField(words[q], w, |fields| % n, v)];
    forall j | 0 <= j < |fields| + 1
      ensures j / n < |words'| && GetField(words'[j / n], w, j % n) == (fields + [v])[j]
    {
      if j < |fields| {
        PackNextReads(words, fields, w, n, v, j);
      } else {
        PackNextFits(words, fields, w, n, v, q);
      }
    }
    forall t | 0 <= t < |words'| ensures Fits(words'[t], Place(w, Used(|fields| + 1, n, t))) {
      PackNextFits(words, fields, w, n, v, t);
    }
  }
}

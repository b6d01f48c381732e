/** WKdm page compression (src/compress/wkdm.h).  Each 32-bit word becomes a token against a
    16-entry direct-mapped dictionary; tags, indices and low bits are packed into words. */
module WkdmTokens {
  import opened Bits
  import Division

  const DICT: nat := 16
  const LOW_BITS: nat := 10

  type Dict = d: seq<nat> | |d| == DICT witness seq(DICT, _ => 0)

  datatype Token = Zero | Exact(idx: nat) | Partial(idx: nat, low: nat) | Miss(word: nat)

  /** Direct-mapped slot of a word, hashed from its high 22 bits. */
  function DictIndex(w: nat): (i: nat)
    ensures i < DICT
  {
    var high := Shr(w, LOW_BITS);
    Xor(high, Shr(high, 6)) % DICT
  }

  /** The word with its low bits cleared. */
  function High(w: nat): nat { Shl(Shr(w, LOW_BITS), LOW_BITS) }

  // -------------------------------------------------------------- one word

  function EncodeWord(d: Dict, w: nat): (Token, Dict) {
    if w == 0 then (Zero, d)
    else
      var idx := DictIndex(w);
      if d[idx] == w then (Exact(idx), d)
      else if High(d[idx]) == High(w) then (Partial(idx, Low(w, LOW_BITS)), d[idx := w])
      else (Miss(w), d[idx := w])
  }

  function At(d: Dict, idx: nat): nat {
    if idx < DICT then d[idx] else 0
  }

  function DecodeToken(d: Dict, t: Token): (nat, Dict) {
    match t
    case Zero => (0, d)
    case Exact(idx) => (At(d, idx), d)
    case Partial(idx, low) =>
      var w := Or(High(At(d, idx)), low);
      (w, if idx < DICT then d[idx := w] else d)
    case Miss(w) => (w, d[DictIndex(w) := w])
  }

  lemma {:induction false} HighLow(w: nat)
    ensures Or(High(w), Low(w, LOW_BITS)) == w
  {
    Rebuild(w, LOW_BITS);
  }

  /** Decoding undoes encoding, and the two dictionaries stay the same. */
  lemma {:induction false} WordRoundTrip(d: Dict, w: nat)
    ensures DecodeToken(d, EncodeWord(d, w).0) == (w, EncodeWord(d, w).1)
  {
    hide Or, Low, High, DictIndex;
    var idx := DictIndex(w);
    if w != 0 && d[idx] != w && High(d[idx]) == High(w) {
      HighLow(w);
    }
  }

  // -------------------------------------------------------------- a page

  const EMPTY_DICT: Dict := [0, 0, 0, 0, 0, 0, 0, 0, 0, 0, 0, 0, 0, 0, 0, 0]

  function Encode(words: seq<nat>): (r: (seq<Token>, Dict))
    ensures |r.0| == |words|
  {
    if words == [] then ([], EMPTY_DICT)
    else
      var m := |words| - 1;
      var before := Encode(words[..m]);
      var here := EncodeWord(before.1, words[m]);
      (before.0 + [here.0], here.1)
  }

  function Decode(ts: seq<Token>): (r: (seq<nat>, Dict))
    ensures |r.0| == |ts|
  {
    if ts == [] then ([], EMPTY_DICT)
    else
      var m := |ts| - 1;
      var before := Decode(ts[..m]);
      var here := DecodeToken(before.1, ts[m]);
      (before.0 + [here.0], here.1)
  }

  lemma {:induction false} PageRoundTrip(words: seq<nat>)
    ensures Decode(Encode(words).0) == (words, Encode(words).1)
  {
    if words != [] {
      var m := |words| - 1;
      PageRoundTrip(words[..m]);
      var ts := Encode(words).0;
      assert ts[..m] == Encode(words[..m]).0;
      WordRoundTrip(Encode(words[..m]).1, words[m]);
      assert words == words[..m] + [words[m]];
      hide EncodeWord, DecodeToken;
    }
  }

  function Tag(t: Token): nat {
    match t
    case Zero => 0
    case Exact(_) => 1
    case Partial(_, _) => 2
    case Miss(_) => 3
  }

  // -------------------------------------------------------------- tokens from the page's history

  /** The last word other than 0 with that slot; 0 if there is none. */
  function LastIn(words: seq<nat>, slot: nat): nat {
    if words == [] then 0
    else
      var m := |words| - 1;
      if words[m] != 0 && DictIndex(words[m]) == slot then words[m] else LastIn(words[..m], slot)
  }

  /** 0 for a zero word, 1 for the word seen last in its slot, 2 if only the high 22 bits agree, 3 otherwise. */
  function Class(before: seq<nat>, w: nat): nat {
    var last := LastIn(before, DictIndex(w));
    if w == 0 then 0 else if w == last then 1 else if w / 1024 == last / 1024 then 2 else 3
  }

  lemma {:induction false} Thousand()
    ensures Shl(1, 10) == 1024 && Shl(1, 6) == 64
  {
    assert Shl(1, 2) == 4 * Shl(1, 0);
    assert Shl(1, 4) == 4 * Shl(1, 2);
    assert Shl(1, 6) == 4 * Shl(1, 4);
    assert Shl(1, 8) == 4 * Shl(1, 6);
    assert Shl(1, 10) == 4 * Shl(1, 8);
  }

  lemma {:induction false} ShlTimes(v: nat, k: nat)
    ensures Shl(v, k) == v * Shl(1, k)
  {
    if k > 0 {
      ShlTimes(v, k - 1);
      Division.Doubled(v, Shl(1, k - 1));
    }
  }

  lemma {:induction false} HighIs(w: nat)
    ensures High(w) == w / 1024 * 1024 && Low(w, LOW_BITS) == w % 1024 && Shr(w, LOW_BITS) == w / 1024
  {
    Thousand();
    ShiftIsDivision(w, LOW_BITS);
    ShlTimes(Shr(w, LOW_BITS), LOW_BITS);
  }

  predicate DifferentParity(a: nat, b: nat) { a % 2 != b % 2 }

  lemma {:induction false} EvenAway(q: nat, r: nat)
    ensures (2 * q + r) % 2 == r % 2
  {
  }

  lemma {:induction false} Nibble(x: nat)
    ensures var i := x % 16;
            i % 2 == x % 2 && i / 2 % 2 == x / 2 % 2 && i / 4 % 2 == x / 2 / 2 % 2 && i / 8 % 2 == x / 2 / 2 / 2 % 2
  {
    var q, i := x / 16, x % 16;
    assert x / 2 == 2 * (4 * q) + i / 2;
    assert x / 2 / 2 == 2 * (2 * q) + i / 4;
    assert x / 2 / 2 / 2 == 2 * q + i / 8;
    EvenAway(8 * q, i);
    EvenAway(4 * q, i / 2);
    EvenAway(2 * q, i / 4);
    EvenAway(q, i / 8);
  }

  /** The low four bits of an exclusive or. */
  lemma {:induction false} XorNibble(h: nat, g: nat)
    ensures var i := Xor(h, g) % 16;
            && (i % 2 == 1 <==> DifferentParity(h, g)) && (i / 2 % 2 == 1 <==> DifferentParity(h / 2, g / 2))
            && (i / 4 % 2 == 1 <==> DifferentParity(h / 2 / 2, g / 2 / 2))
            && (i / 8 % 2 == 1 <==> DifferentParity(h / 2 / 2 / 2, g / 2 / 2 / 2))
  {
    XorHalves(h, g);
    XorHalves(h / 2, g / 2);
    XorHalves(h / 2 / 2, g / 2 / 2);
    XorHalves(h / 2 / 2 / 2, g / 2 / 2 / 2);
    Nibble(Xor(h, g));
    hide Xor;
  }

  /** Bit b of the slot is bit 10 + b of the word, exclusive-or bit 16 + b. */
  lemma {:induction false} DictIndexBits(w: nat)
    ensures var i := DictIndex(w);
            && (i % 2 == 1 <==> DifferentParity(w / 0x400, w / 0x10000))
            && (i / 2 % 2 == 1 <==> DifferentParity(w / 0x800, w / 0x20000))
            && (i / 4 % 2 == 1 <==> DifferentParity(w / 0x1000, w / 0x40000))
            && (i / 8 % 2 == 1 <==> DifferentParity(w / 0x2000, w / 0x80000))
  {
    var h := Shr(w, LOW_BITS);
    var g := Shr(h, 6);
    assert DictIndex(w) == Xor(h, g) % 16;
    HighIs(w);
    Thousand();
    ShiftIsDivision(h, 6);
    XorNibble(h, g);
    hide Shr, Shl, Xor, DictIndex, High, DifferentParity;
    assert h == w / 0x400 && h / 2 == w / 0x800 && h / 2 / 2 == w / 0x1000 && h / 2 / 2 / 2 == w / 0x2000;
    assert g == w / 0x10000 && g / 2 == w / 0x20000 && g / 2 / 2 == w / 0x40000 && g / 2 / 2 / 2 == w / 0x80000;
  }

  /** The dictionary holds, in each slot, the last word of that slot. */
  lemma {:induction false} DictIsHistory(words: seq<nat>, slot: nat)
    requires slot < DICT
    ensures Encode(words).1[slot] == LastIn(words, slot)
  {
    hide DictIndex, High, Low;
    if words != [] {
      var m := |words| - 1;
      DictIsHistory(words[..m], slot);
      DictIsHistory(words[..m], DictIndex(words[m]));
    }
  }

  /** What the encoder makes of a word depends on its slot's last word alone. */
  lemma {:induction false} TokenIs(before: seq<nat>, w: nat)
    ensures var t := EncodeWord(Encode(before).1, w).0; var kind := Class(before, w);
            && (t.Zero? <==> kind == 0) && (t.Exact? <==> kind == 1)
            && (t.Partial? <==> kind == 2) && (t.Miss? <==> kind == 3)
            && (t.Exact? || t.Partial? ==> t.idx == DictIndex(w)) && (t.Partial? ==> t.low == w % 1024)
            && (t.Miss? ==> t.word == w)
  {
    var slot := DictIndex(w);
    DictIsHistory(before, slot);
    HighIs(w);
    HighIs(LastIn(before, slot));
    hide Encode, LastIn, DictIndex, High, Low;
  }

  /** Token i of a page, from the words before it. */
  lemma {:induction false} TokenIsHistory(words: seq<nat>, i: nat)
    requires i < |words|
    ensures var t := Encode(words).0[i]; var w := words[i];
            && Tag(t) == Class(words[..i], w)
            && (t.Exact? || t.Partial? ==> t.idx == DictIndex(w)) && (t.Partial? ==> t.low == w % 1024)
            && (t.Miss? ==> t.word == w)
  {
    hide EncodeWord, Class;
    var m := |words| - 1;
    if i < m {
      TokenIsHistory(words[..m], i);
      assert words[..m][..i] == words[..i];
    } else {
      TokenIs(words[..m], words[m]);
    }
  }

  // -------------------------------------------------------------- the four streams

  function Tags(ts: seq<Token>): (q: seq<nat>)
    ensures |q| == |ts|
  {
    seq(|ts|, i requires 0 <= i < |ts| => Tag(ts[i]))
  }

  function IdxOf(t: Token): seq<nat> { if t.Exact? || t.Partial? then [t.idx] else [] }
  function LowOf(t: Token): seq<nat> { if t.Partial? then [t.low] else [] }
  function FullOf(t: Token): seq<nat> { if t.Miss? then [t.word] else [] }

  function Idxs(ts: seq<Token>): seq<nat> {
    if ts == [] then [] else Idxs(ts[..|ts| - 1]) + IdxOf(ts[|ts| - 1])
  }

  function Lows(ts: seq<Token>): seq<nat> {
    if ts == [] then [] else Lows(ts[..|ts| - 1]) + LowOf(ts[|ts| - 1])
  }

  function Fulls(ts: seq<Token>): seq<nat> {
    if ts == [] then [] else Fulls(ts[..|ts| - 1]) + FullOf(ts[|ts| - 1])
  }

  /** The streams of a longer page extend those of its beginning. */
  lemma {:induction false} StreamsGrow(ts: seq<Token>, i: nat)
    requires i <= |ts|
    ensures Idxs(ts[..i]) <= Idxs(ts) && Lows(ts[..i]) <= Lows(ts) && Fulls(ts[..i]) <= Fulls(ts)
  {
    if i < |ts| {
      var m := |ts| - 1;
      assert ts[..m][..i] == ts[..i];
      StreamsGrow(ts[..m], i);
    } else {
      assert ts[..i] == ts;
    }
  }

  /** Appending one token appends its entries. */
  lemma {:induction false} StreamsSnoc(ts: seq<Token>, t: Token)
    ensures Idxs(ts + [t]) == Idxs(ts) + IdxOf(t)
    ensures Lows(ts + [t]) == Lows(ts) + LowOf(t)
    ensures Fulls(ts + [t]) == Fulls(ts) + FullOf(t)
    ensures Tags(ts + [t]) == Tags(ts) + [Tag(t)]
    ensures IdxOf(t) == [] ==> Idxs(ts + [t]) == Idxs(ts)
    ensures LowOf(t) == [] ==> Lows(ts + [t]) == Lows(ts)
    ensures FullOf(t) == [] ==> Fulls(ts + [t]) == Fulls(ts)
  {
    assert (ts + [t])[..|ts|] == ts;
  }

  lemma {:induction false} StreamSizes(ts: seq<Token>)
    ensures |Lows(ts)| <= |Idxs(ts)| && |Idxs(ts)| + |Fulls(ts)| <= |ts|
  {
    if ts != [] {
      StreamSizes(ts[..|ts| - 1]);
    }
  }

  /** How many words of the page have that class. */
  function Classed(words: seq<nat>, kind: nat): nat {
    if words == [] then 0
    else
      var m := |words| - 1;
      Classed(words[..m], kind) + if Class(words[..m], words[m]) == kind then 1 else 0
  }

  /** One full word for each miss, a queue position for each match, low bits for each partial one. */
  lemma {:induction false} StreamCounts(words: seq<nat>)
    ensures var ts := Encode(words).0;
            && |Fulls(ts)| == Classed(words, 3) && |Idxs(ts)| == Classed(words, 1) + Classed(words, 2)
            && |Lows(ts)| == Classed(words, 2)
  {
    hide EncodeWord, Class;
    if words != [] {
      var m := |words| - 1;
      StreamCounts(words[..m]);
      TokenIs(words[..m], words[m]);
      var before := Encode(words[..m]);
      var t := EncodeWord(before.1, words[m]).0;
      StreamsSnoc(before.0, t);
      assert Encode(words).0 == before.0 + [t];
      hide Encode, Idxs, Lows, Fulls;
    }
  }

  // -------------------------------------------------------------- the blob

  const MAGIC: nat := 0x574B4431

  function TagWords(n: nat): nat { (n + 15) / 16 }
  function Base(n: nat): nat { 4 + TagWords(n) }
  function QueueWords(ts: seq<Token>): nat { (|Idxs(ts)| + 7) / 8 }
  function LowWords(ts: seq<Token>): nat { (|Lows(ts)| + 2) / 3 }
  function QueueAt(ts: seq<Token>): nat { Base(|ts|) + |Fulls(ts)| }
  function LowAt(ts: seq<Token>): nat { QueueAt(ts) + QueueWords(ts) }
  function End(ts: seq<Token>): nat { LowAt(ts) + LowWords(ts) }

  /** Words the page takes: header, 2 bits a word, the misses, 4 bits a match, 10 bits a partial match. */
  function PackedSize(words: seq<nat>): nat {
    var exact, partial, miss := Classed(words, 1), Classed(words, 2), Classed(words, 3);
    4 + (|words| + 15) / 16 + miss + (exact + partial + 7) / 8 + (partial + 2) / 3
  }

  lemma {:induction false} SizeIs(words: seq<nat>)
    ensures End(Encode(words).0) == PackedSize(words)
  {
    StreamCounts(words);
    hide Encode, Classed;
  }

  /** The blob lays out header, tags, full words, queue positions and low bits of the tokens. */
  predicate IsBlob(blob: seq<nat>, ts: seq<Token>) {
    && |blob| >= End(ts)
    && blob[..4] == [MAGIC, QueueAt(ts), LowAt(ts), End(ts)]
    && Packed(blob[4..Base(|ts|)], Tags(ts), 2, 16)
    && blob[Base(|ts|)..QueueAt(ts)] == Fulls(ts)
    && Packed(blob[QueueAt(ts)..LowAt(ts)], Idxs(ts), 4, 8)
    && Packed(blob[LowAt(ts)..End(ts)], Lows(ts), 10, 3)
  }

  /** A word of a blob; 0 beyond its end. */
  function WordAt(blob: seq<nat>, k: nat): nat {
    if k < |blob| then blob[k] else 0
  }

  /** Token i as the decoder reads it, given the tokens before it, for a page of n words. */
  function ReadToken(blob: seq<nat>, n: nat, before: seq<Token>): Token {
    var i := |before|;
    var nf, nq, nl := |Fulls(before)|, |Idxs(before)|, |Lows(before)|;
    var tag := GetField(WordAt(blob, 4 + i / 16), 2, i % 16);
    var idx := GetField(WordAt(blob, WordAt(blob, 1) + nq / 8), 4, nq % 8);
    if tag == 0 then Zero
    else if tag == 1 then Exact(idx)
    else if tag == 2 then Partial(idx, GetField(WordAt(blob, WordAt(blob, 2) + nl / 3), 10, nl % 3))
    else Miss(WordAt(blob, Base(n) + nf))
  }

  function ReadTokens(blob: seq<nat>, n: nat, i: nat): (ts: seq<Token>)
    ensures |ts| == i
  {
    if i == 0 then []
    else
      var before := ReadTokens(blob, n, i - 1);
      before + [ReadToken(blob, n, before)]
  }

  lemma {:induction false} PackedAt(words: seq<nat>, fields: seq<nat>, w: nat, n: nat, j: nat)
    requires Packed(words, fields, w, n) && j < |fields|
    ensures j / n < |words| && GetField(words[j / n], w, j % n) == fields[j]
  {
  }

  /** Entry j of a stream packed into blob[from..to]. */
  lemma {:induction false} StreamAt(blob: seq<nat>, from: nat, to: nat, fields: seq<nat>, w: nat, n: nat, j: nat)
    requires from <= to <= |blob| && Packed(blob[from..to], fields, w, n) && j < |fields|
    ensures GetField(WordAt(blob, from + j / n), w, j % n) == fields[j]
  {
    hide GetField;
    PackedAt(blob[from..to], fields, w, n, j);
    assert blob[from..to][j / n] == blob[from + j / n];
  }

  /** The entries of token i in the streams come right after those of the tokens before it. */
  lemma {:induction false} EntriesOf(ts: seq<Token>, i: nat)
    requires i < |ts|
    ensures ts[i].Exact? || ts[i].Partial? ==>
              |Idxs(ts[..i])| < |Idxs(ts)| && Idxs(ts)[|Idxs(ts[..i])|] == ts[i].idx
    ensures ts[i].Partial? ==> |Lows(ts[..i])| < |Lows(ts)| && Lows(ts)[|Lows(ts[..i])|] == ts[i].low
    ensures ts[i].Miss? ==> |Fulls(ts[..i])| < |Fulls(ts)| && Fulls(ts)[|Fulls(ts[..i])|] == ts[i].word
  {
    StreamsSnoc(ts[..i], ts[i]);
    assert ts[..i] + [ts[i]] == ts[..i + 1];
    StreamsGrow(ts, i + 1);
    hide Idxs, Lows, Fulls;
    assert ts[i].Exact? || ts[i].Partial? ==> Idxs(ts)[|Idxs(ts[..i])|] == Idxs(ts[..i + 1])[|Idxs(ts[..i])|];
    assert ts[i].Partial? ==> Lows(ts)[|Lows(ts[..i])|] == Lows(ts[..i + 1])[|Lows(ts[..i])|];
    assert ts[i].Miss? ==> Fulls(ts)[|Fulls(ts[..i])|] == Fulls(ts[..i + 1])[|Fulls(ts[..i])|];
  }

  /** Reading token i of a blob whose first i tokens were read correctly. */
  lemma {:induction false} ReadsNext(blob: seq<nat>, ts: seq<Token>, i: nat)
    requires IsBlob(blob, ts) && i < |ts|
    ensures ReadToken(blob, |ts|, ts[..i]) == ts[i]
  {
    hide GetField, Packed, Idxs, Lows, Fulls;
    var nf, nq, nl := |Fulls(ts[..i])|, |Idxs(ts[..i])|, |Lows(ts[..i])|;
    EntriesOf(ts, i);
    StreamAt(blob, 4, Base(|ts|), Tags(ts), 2, 16, i);
    assert blob[1] == blob[..4][1] && blob[2] == blob[..4][2];
    if ts[i].Exact? || ts[i].Partial? {
      StreamAt(blob, QueueAt(ts), LowAt(ts), Idxs(ts), 4, 8, nq);
    }
    if ts[i].Partial? {
      StreamAt(blob, LowAt(ts), End(ts), Lows(ts), 10, 3, nl);
    }
    if ts[i].Miss? {
      assert blob[Base(|ts|)..QueueAt(ts)][nf] == blob[Base(|ts|) + nf];
    }
  }

  lemma {:induction false} BlobReadsBack(blob: seq<nat>, ts: seq<Token>, i: nat)
    requires IsBlob(blob, ts) && i <= |ts|
    ensures ReadTokens(blob, |ts|, i) == ts[..i]
  {
    hide IsBlob, ReadToken;
    if i > 0 {
      BlobReadsBack(blob, ts, i - 1);
      ReadsNext(blob, ts, i - 1);
      assert ts[..i] == ts[..i - 1] + [ts[i - 1]];
    }
  }

  lemma {:induction false} Four()
    ensures Shl(1, 2) == 4
  {
    assert Shl(1, 1) == 2;
  }

  /** The two tag bits of word i, counted from bit 2 * (i % 16) of their word, are its class. */
  lemma {:induction false} BlobTags(blob: seq<nat>, words: seq<nat>, i: nat)
    requires IsBlob(blob, Encode(words).0) && i < |words|
    ensures 4 + i / 16 < |blob| && Shl(1, 2 * (i % 16)) > 0
    ensures blob[4 + i / 16] / Shl(1, 2 * (i % 16)) % 4 == Class(words[..i], words[i])
  {
    var ts := Encode(words).0;
    TokenIsHistory(words, i);
    StreamAt(blob, 4, Base(|ts|), Tags(ts), 2, 16, i);
    FieldIs(blob[4 + i / 16], 2, i % 16);
    Four();
    hide GetField, Packed, Class, Encode, Shl;
  }
}

module Wkdm {
  import opened Bits
  import opened WkdmTokens

  lemma {:induction false} UpdateInside(a: seq<nat>, base: nat, len: nat, q: nat, x: nat)
    requires base + len <= |a| && q < len
    ensures a[base + q := x][base..base + len] == a[base..base + len][q := x]
    ensures a[base + q := x][..base] == a[..base] && a[base + q := x][base + len..] == a[base + len..]
  {
  }

  /** Or-s a field into its place in the packed area a[base..base + len]. */
  method OrInto(a: array<nat>, base: nat, len: nat, ghost fields: seq<nat>, count: nat, w: nat, n: nat, v: nat)
    requires base + len <= a.Length && count == |fields|
    requires Packed(a[base..base + len], fields, w, n) && Fits(v, w) && count / n < len
    modifies a
    ensures Packed(a[base..base + len], fields + [v], w, n)
    ensures a[..base] == old(a[..base]) && a[base + len..] == old(a[base + len..])
  {
    ghost var was := a[..];
    assert was[base..base + len] == a[base..base + len];
    hide Packed, PackField, Fits;
    PackNext(was[base..base + len], fields, w, n, v);
    var q := count / n;
    assert was[base..base + len][q] == was[base + q];
    var x := PackField(a[base + q], w, count % n, v);
    a[base + q] := x;
    UpdateInside(was, base, len, q, x);
    assert a[..] == was[base + q := x];
    assert a[..][base..base + len] == a[base..base + len];
    assert a[..][..base] == a[..base] && a[..][base + len..] == a[base + len..];
    assert was[..base] == old(a[..base]) && was[base + len..] == old(a[base + len..]);
  }

  /** memcpy of m words of src, from `from` on. */
  method CopyInto(dst: array<nat>, at: nat, src: array<nat>, from: nat, m: nat)
    requires at + m <= dst.Length && from + m <= src.Length && dst != src
    modifies dst
    ensures dst[..at + m] == old(dst[..at]) + src[from..from + m] && dst[at + m..] == old(dst[at + m..])
  {
    for i := 0 to m
      invariant dst[..at + i] == old(dst[..at]) + src[from..from + i] && dst[at + m..] == old(dst[at + m..])
    {
      dst[at + i] := src[from + i];
    }
  }

  lemma {:induction false} SmallFits(v: nat)
    ensures v < 4 ==> Fits(v, 2)
    ensures v < 16 ==> Fits(v, 4)
  {
    assert Shr(v, 4) == Shr(v / 2, 3) == Shr(v / 2 / 2, 2) == Shr(v / 2 / 2 / 2, 1) == Shr(v / 2 / 2 / 2 / 2, 0);
    assert Shr(v, 2) == Shr(v / 2, 1) == Shr(v / 2 / 2, 0);
  }

  /** A packed area may be cut back to the words its fields reach. */
  lemma {:induction false} CutPacked(words: seq<nat>, fields: seq<nat>, w: nat, n: nat, m: nat)
    requires Packed(words, fields, w, n) && m <= |words|
    requires forall j :: 0 <= j < |fields| ==> j / n < m
    ensures Packed(words[..m], fields, w, n)
  {
    hide GetField, Fits, Place, Used;
    assert forall t :: 0 <= t < m ==> words[..m][t] == words[t];
  }

  /** The streams of the tokens so far, as the encoder keeps them. */
  ghost predicate Entries(ts: seq<Token>, full: seq<nat>, queue: seq<nat>, low: seq<nat>) {
    full == Fulls(ts) && Packed(queue, Idxs(ts), 4, 8) && Packed(low, Lows(ts), 10, 3)
  }

  // One scratch buffer holds the queue positions and, right behind them, the low bits.

  function QueueRoom(n: nat): nat { n / 8 + 1 }
  function LowRoom(n: nat): nat { n / 3 + 1 }
  function ScratchRoom(n: nat): nat { QueueRoom(n) + LowRoom(n) }

  ghost function QueuePart(scratch: seq<nat>, n: nat): seq<nat>
    requires ScratchRoom(n) <= |scratch|
  {
    scratch[0..0 + QueueRoom(n)]
  }

  ghost function LowPart(scratch: seq<nat>, n: nat): seq<nat>
    requires ScratchRoom(n) <= |scratch|
  {
    scratch[QueueRoom(n)..QueueRoom(n) + LowRoom(n)]
  }

  /** The two areas fit a scratch of page_size bytes exactly for pages of at least two words. */
  lemma {:induction false} ScratchFits(n: nat)
    ensures ScratchRoom(n) <= n <==> n >= 2
  {
  }

  /** Appends a queue position; the low bits stay. */
  method OrQueue(scratch: array<nat>, n: nat, ghost fields: seq<nat>, count: nat, idx: nat)
    requires ScratchRoom(n) <= scratch.Length && count == |fields| < n && Fits(idx, 4)
    requires Packed(QueuePart(scratch[..], n), fields, 4, 8)
    modifies scratch
    ensures Packed(QueuePart(scratch[..], n), fields + [idx], 4, 8)
    ensures LowPart(scratch[..], n) == old(LowPart(scratch[..], n))
  {
    hide Packed, Fits;
    var q := QueueRoom(n);
    assert scratch[..][0..0 + q] == scratch[0..0 + q];
    assert scratch[..][q..q + LowRoom(n)] == scratch[q..][..LowRoom(n)];
    OrInto(scratch, 0, q, fields, count, 4, 8, idx);
    assert scratch[..][0..0 + q] == scratch[0..0 + q] && scratch[0 + q..] == scratch[q..];
    assert scratch[..][q..q + LowRoom(n)] == scratch[q..][..LowRoom(n)];
  }

  /** Appends low bits; the queue positions stay. */
  method OrLow(scratch: array<nat>, n: nat, ghost fields: seq<nat>, count: nat, low: nat)
    requires ScratchRoom(n) <= scratch.Length && count == |fields| < n && Fits(low, 10)
    requires Packed(LowPart(scratch[..], n), fields, 10, 3)
    modifies scratch
    ensures Packed(LowPart(scratch[..], n), fields + [low], 10, 3)
    ensures QueuePart(scratch[..], n) == old(QueuePart(scratch[..], n))
  {
    hide Packed, Fits;
    var q := QueueRoom(n);
    assert scratch[..][q..q + LowRoom(n)] == scratch[q..q + LowRoom(n)];
    assert scratch[..][0..0 + q] == scratch[..q];
    OrInto(scratch, q, LowRoom(n), fields, count, 10, 3, low);
    assert scratch[..][q..q + LowRoom(n)] == scratch[q..q + LowRoom(n)];
    assert scratch[..][0..0 + q] == scratch[..q];
  }

  /** Encodes one word: or-s its index and low bits into place, or stores it in full; returns its tag. */
  method StoreEntries(w: nat, n: nat, out: array<nat>, scratch: array<nat>, dict: array<nat>,
                      nf0: nat, nq0: nat, nl0: nat, ghost ts: seq<Token>)
    returns (tag: nat, nf: nat, nq: nat, nl: nat, ghost t: Token)
    requires |ts| < n && out != scratch && out != dict && scratch != dict
    requires ScratchRoom(n) <= scratch.Length && dict.Length == DICT
    requires Base(n) + |Fulls(ts + [EncodeWord(dict[..], w).0])| <= out.Length
    requires nf0 == |Fulls(ts)| && nq0 == |Idxs(ts)| && nl0 == |Lows(ts)| && Base(n) + nf0 <= out.Length
    requires Entries(ts, out[Base(n)..Base(n) + nf0], QueuePart(scratch[..], n), LowPart(scratch[..], n))
    modifies out, scratch, dict
    ensures t == EncodeWord(old(dict[..]), w).0 && dict[..] == EncodeWord(old(dict[..]), w).1 && tag == Tag(t)
    ensures nf == |Fulls(ts + [t])| && nq == |Idxs(ts + [t])| && nl == |Lows(ts + [t])| && Base(n) + nf <= out.Length
    ensures Entries(ts + [t], out[Base(n)..Base(n) + nf], QueuePart(scratch[..], n), LowPart(scratch[..], n))
    ensures out[..Base(n)] == old(out[..Base(n)])
  {
    hide Packed, Fits, Idxs, Lows, Fulls, Tags, DictIndex, High, Low, QueuePart, LowPart;
    StreamSizes(ts);
    nf, nq, nl := nf0, nq0, nl0;
    t := EncodeWord(dict[..], w).0;
    StreamsSnoc(ts, t);
    tag := 0;
    if w == 0 {
      return;
    }
    var idx := DictIndex(w);
    SmallFits(idx);
    if dict[idx] == w {
      tag := 1;
      OrQueue(scratch, n, Idxs(ts), nq, idx);
      nq := nq + 1;
    } else if High(dict[idx]) == High(w) {
      tag := 2;
      dict[idx] := w;
      OrQueue(scratch, n, Idxs(ts), nq, idx);
      nq := nq + 1;
      LowFits(w, LOW_BITS);
      OrLow(scratch, n, Lows(ts), nl, Low(w, LOW_BITS));
      nl := nl + 1;
    } else {
      tag := 3;
      dict[idx] := w;
      out[Base(n) + nf] := w;
      nf := nf + 1;
      assert out[Base(n)..Base(n) + nf] == old(out[Base(n)..Base(n) + nf0]) + [w];
    }
  }

  /** Zeroes an array, as memset does. */
  method Clear(a: array<nat>, from: nat, to: nat)
    requires from <= to <= a.Length
    modifies a
    ensures forall k :: 0 <= k < a.Length ==> a[k] == if from <= k < to then 0 else old(a[k])
  {
    for i := from to to
      invariant forall k :: 0 <= k < a.Length ==> a[k] == if from <= k < i then 0 else old(a[k])
    {
      a[i] := 0;
    }
  }

  /** Everything the encoder keeps, when the tokens so far are ts, for a page of n words. */
  ghost predicate Kept(n: nat, ts: seq<Token>, out: seq<nat>, queue: seq<nat>, low: seq<nat>) {
    && Base(n) + |Fulls(ts)| <= |out|
    && Packed(out[4..Base(n)], Tags(ts), 2, 16)
    && Entries(ts, out[Base(n)..Base(n) + |Fulls(ts)|], queue, low)
  }

  /** The cleared buffers hold no tokens. */
  method Start(n: nat, out: array<nat>, scratch: array<nat>)
    requires out != scratch && Base(n) <= out.Length && ScratchRoom(n) <= scratch.Length
    modifies out, scratch
    ensures Kept(n, [], out[..], QueuePart(scratch[..], n), LowPart(scratch[..], n))
  {
    hide Packed;
    Clear(out, 4, Base(n));
    Clear(scratch, 0, QueueRoom(n));
    Clear(scratch, QueueRoom(n), ScratchRoom(n));
    ZerosArePacked(out[..][4..Base(n)], 2, 16);
    ZerosArePacked(QueuePart(scratch[..], n), 4, 8);
    ZerosArePacked(LowPart(scratch[..], n), 10, 3);
    assert Tags([]) == [];
  }

  /** One round of the loop. */
  method EncodeNext(w: nat, i: nat, n: nat, out: array<nat>, scratch: array<nat>, dict: array<nat>,
                    nf0: nat, nq0: nat, nl0: nat, ghost ts: seq<Token>)
    returns (nf: nat, nq: nat, nl: nat, ghost t: Token)
    requires i == |ts| < n && out != scratch && out != dict && scratch != dict
    requires ScratchRoom(n) <= scratch.Length && dict.Length == DICT
    requires Base(n) + |Fulls(ts + [EncodeWord(dict[..], w).0])| <= out.Length
    requires nf0 == |Fulls(ts)| && nq0 == |Idxs(ts)| && nl0 == |Lows(ts)|
    requires Kept(n, ts, out[..], QueuePart(scratch[..], n), LowPart(scratch[..], n))
    modifies out, scratch, dict
    ensures t == EncodeWord(old(dict[..]), w).0 && dict[..] == EncodeWord(old(dict[..]), w).1
    ensures nf == |Fulls(ts + [t])| && nq == |Idxs(ts + [t])| && nl == |Lows(ts + [t])|
    ensures Kept(n, ts + [t], out[..], QueuePart(scratch[..], n), LowPart(scratch[..], n))
  {
    hide Packed, Fits, Idxs, Lows, Fulls, Tags, EncodeWord, QueuePart, LowPart;
    var tag;
    assert out[..][Base(n)..Base(n) + nf0] == out[Base(n)..Base(n) + nf0];
    tag, nf, nq, nl, t := StoreEntries(w, n, out, scratch, dict, nf0, nq0, nl0, ts);
    StreamsSnoc(ts, t);
    SmallFits(tag);
    assert out[4..Base(n)] == out[..Base(n)][4..] == old(out[..][4..Base(n)]);
    ghost var full := out[Base(n)..Base(n) + nf];
    assert full == out[Base(n)..][..nf];
    OrInto(out, 4, TagWords(n), Tags(ts), i, 2, 16, tag);
    assert out[..][4..Base(n)] == out[4..Base(n)];
    assert out[..][Base(n)..Base(n) + nf] == out[Base(n)..][..nf] == full;
  }

  /** The tokens of a page extend those of its beginning, so do the full words. */
  lemma {:induction false} EncodePrefix(src: seq<nat>, i: nat)
    requires i <= |src|
    ensures Encode(src[..i]).0 == Encode(src).0[..i] && |Fulls(Encode(src[..i]).0)| <= |Fulls(Encode(src).0)|
  {
    hide EncodeWord;
    if i < |src| {
      var m := |src| - 1;
      EncodePrefix(src[..m], i);
      assert src[..m][..i] == src[..i];
    } else {
      assert src[..i] == src;
    }
  }

  lemma {:induction false} NothingEncoded()
    ensures Encode([]) == ([], EMPTY_DICT) && Fulls([]) == Idxs([]) == Lows([]) == []
  {
  }

  lemma {:induction false} EncodeSnoc(words: seq<nat>, w: nat)
    ensures var before := Encode(words); var here := EncodeWord(before.1, w);
            Encode(words + [w]) == (before.0 + [here.0], here.1)
  {
    hide EncodeWord;
    assert (words + [w])[..|words|] == words;
  }

  /** The loop over the words of the page. */
  method EncodeWords(src: seq<nat>, out: array<nat>, scratch: array<nat>) returns (nf: nat, nq: nat, nl: nat)
    requires out != scratch && ScratchRoom(|src|) <= scratch.Length
    requires Base(|src|) + |Fulls(Encode(src).0)| <= out.Length
    modifies out, scratch
    ensures nf == Classed(src, 3) && nq == Classed(src, 1) + Classed(src, 2) && nl == Classed(src, 2)
    ensures var ts := Encode(src).0;
            && nf == |Fulls(ts)| && nq == |Idxs(ts)| && nl == |Lows(ts)|
            && Kept(|src|, ts, out[..], QueuePart(scratch[..], |src|), LowPart(scratch[..], |src|))
  {
    hide Kept, EncodeWord, Encode, QueuePart, LowPart, Classed;
    NothingEncoded();
    var n := |src|;
    Start(n, out, scratch);
    var dict := new nat[DICT](_ => 0);
    nf, nq, nl := 0, 0, 0;
    ghost var ts: seq<Token> := [];
    assert src[..0] == [] && dict[..] == EMPTY_DICT;
    for i := 0 to n
      invariant (ts, dict[..]) == Encode(src[..i]) && |ts| == i
      invariant nf == |Fulls(ts)| && nq == |Idxs(ts)| && nl == |Lows(ts)|
      invariant Kept(n, ts, out[..], QueuePart(scratch[..], n), LowPart(scratch[..], n))
    {
      ghost var t;
      EncodeSnoc(src[..i], src[i]);
      assert src[..i + 1] == src[..i] + [src[i]];
      EncodePrefix(src, i + 1);
      nf, nq, nl, t := EncodeNext(src[i], i, n, out, scratch, dict, nf, nq, nl, ts);
      ts := ts + [t];
    }
    assert src[..n] == src;
    StreamCounts(src);
  }

  lemma {:induction false} CutStreams(ts: seq<Token>, full: seq<nat>, queue: seq<nat>, low: seq<nat>)
    requires Entries(ts, full, queue, low) && QueueWords(ts) <= |queue| && LowWords(ts) <= |low|
    ensures Packed(queue[..QueueWords(ts)], Idxs(ts), 4, 8) && Packed(low[..LowWords(ts)], Lows(ts), 10, 3)
  {
    CutPacked(queue, Idxs(ts), 4, 8, QueueWords(ts));
    CutPacked(low, Lows(ts), 10, 3, LowWords(ts));
  }

  lemma {:induction false} Joined(q: seq<nat>, a: nat, b: nat, c: nat, r: seq<nat>)
    requires a <= b <= c <= |q| && q[b..c] == r
    ensures q[a..c] == q[a..b] + r
  {
  }

  /** What the encoder kept: the tag words, and the full words right behind them. */
  lemma {:induction false} KeptFront(ts: seq<Token>, out: seq<nat>, queue: seq<nat>, low: seq<nat>)
    requires Kept(|ts|, ts, out, queue, low)
    ensures QueueAt(ts) <= |out| && out[4..QueueAt(ts)] == out[4..Base(|ts|)] + Fulls(ts)
    ensures Packed(out[4..Base(|ts|)], Tags(ts), 2, 16)
  {
    hide Packed, Idxs, Lows, Fulls, Tags, TagWords;
    Joined(out, 4, Base(|ts|), QueueAt(ts), Fulls(ts));
  }

  /** The packed streams, cut to the words in use. */
  lemma {:induction false} KeptStreams(ts: seq<Token>, out: seq<nat>, queue: seq<nat>, low: seq<nat>)
    requires Kept(|ts|, ts, out, queue, low) && QueueWords(ts) <= |queue| && LowWords(ts) <= |low|
    ensures Packed(queue[..QueueWords(ts)], Idxs(ts), 4, 8) && Packed(low[..LowWords(ts)], Lows(ts), 10, 3)
  {
    CutStreams(ts, out[Base(|ts|)..Base(|ts|) + |Fulls(ts)|], queue, low);
  }

  /** Words that any page of n words can be encoded in. */
  function Room(n: nat): nat { if n == 0 then Base(0) else Base(n) + n + 1 }

  /** The areas hold the streams; the output needs at most n + 1 words after the tags, none for an empty page. */
  lemma {:induction false} RoomBound(ts: seq<Token>)
    ensures End(ts) <= Room(|ts|)
    ensures QueueWords(ts) <= QueueRoom(|ts|) && LowWords(ts) <= LowRoom(|ts|)
  {
    StreamSizes(ts);
  }

  /** Two words that share a dictionary slot and differ in their high bits, in turn. */
  function Alternating(n: nat): (words: seq<nat>)
    ensures |words| == n
  {
    if n == 0 then [] else Alternating(n - 1) + [if n % 2 == 0 then 1024 else 17408]
  }

  lemma {:induction false} SameSlot()
    ensures DictIndex(1024) == DictIndex(17408) == 1
    ensures High(0) == 0 && High(1024) == 1024 && High(17408) == 17408
  {
    HighIs(0);
    HighIs(1024);
    HighIs(17408);
    Thousand();
    ShiftIsDivision(1, 6);
    ShiftIsDivision(17, 6);
    hide Shr, Shl, Low;
  }

  lemma {:induction false} NeverMatches(d: Dict, w: nat)
    requires (w == 1024 && d[1] in {0, 17408}) || (w == 17408 && d[1] in {0, 1024})
    ensures EncodeWord(d, w) == (Miss(w), d[1 := w])
  {
    SameSlot();
    hide DictIndex, High, Low;
  }

  lemma {:induction false} AllMiss(n: nat)
    ensures var (ts, d) := Encode(Alternating(n));
            |Fulls(ts)| == n && d[1] == if n == 0 then 0 else Alternating(n)[n - 1]
  {
    hide EncodeWord, Encode, Fulls;
    if n > 0 {
      AllMiss(n - 1);
      var w := Alternating(n)[n - 1];
      var before := Encode(Alternating(n - 1));
      NeverMatches(before.1, w);
      EncodeSnoc(Alternating(n - 1), w);
      StreamsSnoc(before.0, Miss(w));
    } else {
      NothingEncoded();
    }
  }

  /** A page of any size that never matches: the encoder writes more words than the page has, though
      the comment on compress asks for page_size bytes of room. */
  lemma {:induction false} PageSizeIsNotEnough(n: nat)
    ensures End(Encode(Alternating(n)).0) == Base(n) + n > n
  {
    AllMiss(n);
    StreamSizes(Encode(Alternating(n)).0);
    hide Encode, Fulls, Idxs, Lows;
  }

  /** One partial match against the cleared dictionary, then misses only. */
  function Tight(n: nat): (words: seq<nat>)
    ensures |words| == n
  {
    if n == 0 then [] else Tight(n - 1) + [if n == 1 then 1 else if n % 2 == 0 then 1024 else 17408]
  }

  lemma {:induction false} LowZero(k: nat)
    ensures Low(0, k) == 0
  {
    if k > 0 {
      LowZero(k - 1);
    }
  }

  lemma {:induction false} FirstMatches()
    ensures EncodeWord(EMPTY_DICT, 1) == (Partial(0, 1), EMPTY_DICT[0 := 1])
  {
    ShrZero(10);
    ShrZero(9);
    ShrZero(6);
    assert Shr(1, 10) == Shr(0, 9);
    LowZero(9);
    assert Low(1, 10) == 2 * Low(0, 9) + 1;
    hide Shr, Low, Shl;
  }

  lemma {:induction false} TightStreams(n: nat)
    requires n > 0
    ensures var (ts, d) := Encode(Tight(n));
            && |Fulls(ts)| == n - 1 && |Idxs(ts)| == |Lows(ts)| == 1
            && d[1] == if n == 1 then 0 else Tight(n)[n - 1]
  {
    hide EncodeWord, Encode, Fulls, Idxs, Lows;
    NothingEncoded();
    var w := Tight(n)[n - 1];
    EncodeSnoc(Tight(n - 1), w);
    var before := Encode(Tight(n - 1));
    if n == 1 {
      FirstMatches();
      StreamsSnoc([], Partial(0, 1));
    } else {
      TightStreams(n - 1);
      NeverMatches(before.1, w);
      StreamsSnoc(before.0, Miss(w));
    }
  }

  /** A page of n 32-bit words. */
  ghost predicate IsPage(src: seq<nat>, n: nat) {
    |src| == n && forall i :: 0 <= i < n ==> src[i] < 0x1_0000_0000
  }

  lemma {:induction false} TightIsPage(n: nat)
    ensures IsPage(Tight(n), n)
  {
    if n > 0 {
      TightIsPage(n - 1);
    }
  }

  ghost predicate FitsIn(src: seq<nat>, room: nat) { End(Encode(src).0) <= room }

  /** dst holds the output for every page of n words if and only if it has Room(n) words: header, tags,
      n words and, for n > 0, one more. */
  lemma {:induction false} RoomIsExact(n: nat, room: nat)
    ensures (forall src :: IsPage(src, n) ==> FitsIn(src, room)) <==> room >= Room(n)
  {
    if room >= Room(n) {
      forall src | IsPage(src, n) ensures FitsIn(src, room) {
        RoomBound(Encode(src).0);
      }
    } else {
      TightIsPage(n);
      if n > 0 {
        TightStreams(n);
      } else {
        NothingEncoded();
      }
      hide Encode, Fulls, Idxs, Lows, Tight, IsPage;
      assert IsPage(Tight(n), n) && !FitsIn(Tight(n), room);
    }
  }

  /** The five parts in order are a blob. */
  lemma {:induction false} PartsMakeBlob(ts: seq<Token>, tags: seq<nat>, queue: seq<nat>, low: seq<nat>)
    requires |tags| == TagWords(|ts|) && |queue| == QueueWords(ts) && |low| == LowWords(ts)
    requires Packed(tags, Tags(ts), 2, 16) && Packed(queue, Idxs(ts), 4, 8) && Packed(low, Lows(ts), 10, 3)
    ensures IsBlob([MAGIC, QueueAt(ts), LowAt(ts), End(ts)] + (tags + Fulls(ts)) + (queue + low), ts)
  {
    hide Packed, Idxs, Lows, Fulls, Tags;
    var header := [MAGIC, QueueAt(ts), LowAt(ts), End(ts)];
    var blob := header + (tags + Fulls(ts)) + (queue + low);
    assert |blob| == End(ts);
    assert blob[..4] == header;
    assert blob[4..Base(|ts|)] == tags;
    assert blob[Base(|ts|)..QueueAt(ts)] == Fulls(ts);
    assert blob[QueueAt(ts)..LowAt(ts)] == queue;
    assert blob[LowAt(ts)..End(ts)] == low;
  }

  lemma {:induction false} PartsFront(scratch: seq<nat>, n: nat, qw: nat, lw: nat)
    requires ScratchRoom(n) <= |scratch| && qw <= QueueRoom(n) && lw <= LowRoom(n)
    ensures QueuePart(scratch, n)[..qw] == scratch[0..0 + qw]
    ensures LowPart(scratch, n)[..lw] == scratch[QueueRoom(n)..QueueRoom(n) + lw]
  {
  }

  /** Copies the two packed areas behind the first `at` words. */
  method AppendStreams(out: array<nat>, at: nat, scratch: array<nat>, n: nat, qw: nat, lw: nat)
    requires out != scratch && ScratchRoom(n) <= scratch.Length
    requires qw <= QueueRoom(n) && lw <= LowRoom(n) && at + qw + lw <= out.Length
    modifies out
    ensures out[..at + qw + lw] ==
            old(out[..at]) + (QueuePart(scratch[..], n)[..qw] + LowPart(scratch[..], n)[..lw])
  {
    ghost var front, queue, low := out[..at], QueuePart(scratch[..], n)[..qw], LowPart(scratch[..], n)[..lw];
    PartsFront(scratch[..], n, qw, lw);
    hide QueuePart, LowPart;
    assert queue == scratch[0..0 + qw] && low == scratch[QueueRoom(n)..QueueRoom(n) + lw];
    CopyInto(out, at, scratch, 0, qw);
    assert out[..at + qw] == front + queue;
    CopyInto(out, at + qw, scratch, QueueRoom(n), lw);
    assert front + queue + low == front + (queue + low);
  }

  method SetHeader(out: array<nat>, queueAt: nat, lowAt: nat, end: nat)
    requires 4 <= end <= out.Length
    modifies out
    ensures out[..end] == [MAGIC, queueAt, lowAt, end] + old(out[4..end])
  {
    out[0], out[1], out[2], out[3] := MAGIC, queueAt, lowAt, end;
  }

  /** Both streams and the header. */
  method FinishBlob(out: array<nat>, at: nat, scratch: array<nat>, n: nat, qw: nat, lw: nat)
    requires out != scratch && ScratchRoom(n) <= scratch.Length && 4 <= at
    requires qw <= QueueRoom(n) && lw <= LowRoom(n) && at + qw + lw <= out.Length
    modifies out
    ensures out[..at + qw + lw] ==
            [MAGIC, at, at + qw, at + qw + lw] + old(out[4..at])
            + (QueuePart(scratch[..], n)[..qw] + LowPart(scratch[..], n)[..lw])
  {
    ghost var front := out[..at];
    ghost var tail := QueuePart(scratch[..], n)[..qw] + LowPart(scratch[..], n)[..lw];
    hide QueuePart, LowPart;
    assert front[4..] == out[4..at];
    AppendStreams(out, at, scratch, n, qw, lw);
    var end := at + qw + lw;
    assert out[4..end] == out[..end][4..] == front[4..] + tail;
    SetHeader(out, at, at + qw, end);
  }

  lemma {:induction false} PartSizes(scratch: seq<nat>, n: nat)
    requires ScratchRoom(n) <= |scratch|
    ensures |QueuePart(scratch, n)| == QueueRoom(n) && |LowPart(scratch, n)| == LowRoom(n)
  {
  }

  /** Appends the packed streams to the full words and fills in the header. */
  method Assemble(n: nat, out: array<nat>, scratch: array<nat>, nf: nat, nq: nat, nl: nat, ghost ts: seq<Token>)
    returns (end: nat)
    requires out != scratch && n == |ts| && ScratchRoom(n) <= scratch.Length && End(ts) <= out.Length
    requires nf == |Fulls(ts)| && nq == |Idxs(ts)| && nl == |Lows(ts)|
    requires Kept(n, ts, out[..], QueuePart(scratch[..], n), LowPart(scratch[..], n))
    modifies out
    ensures end == End(ts) && IsBlob(out[..end], ts)
  {
    hide Packed, Kept, Idxs, Lows, Fulls, Tags, IsBlob, QueuePart, LowPart;
    RoomBound(ts);
    ghost var tags, queue, low := out[..][4..Base(n)], QueuePart(scratch[..], n), LowPart(scratch[..], n);
    PartSizes(scratch[..], n);
    KeptFront(ts, out[..], queue, low);
    KeptStreams(ts, out[..], queue, low);
    var queueAt := Base(n) + nf;
    var qw, lw := (nq + 7) / 8, (nl + 2) / 3;
    end := queueAt + qw + lw;
    assert out[4..queueAt] == out[..][4..queueAt] == tags + Fulls(ts);
    PartsMakeBlob(ts, tags, queue[..qw], low[..lw]);
    FinishBlob(out, queueAt, scratch, n, qw, lw);
  }

  /** Compresses the page.  The blob is complete even when the result says incompressible. */
  method Compress(src: seq<nat>, pageBytes: nat, out: array<nat>, capacity: nat, scratch: array<nat>)
    returns (size: nat)
    requires |src| == pageBytes / 4 && out != scratch
    requires out.Length >= End(Encode(src).0) && scratch.Length >= ScratchRoom(|src|)
    modifies out, scratch
    ensures var end := PackedSize(src);
            && end <= out.Length && IsBlob(out[..end], Encode(src).0)
            && size == if end * 4 >= pageBytes || end * 4 > capacity then 0 else end * 4
  {
    hide IsBlob, Kept, QueuePart, LowPart, PackedSize;
    SizeIs(src);
    ghost var ts := Encode(src).0;
    var nf, nq, nl := EncodeWords(src, out, scratch);
    var end := Assemble(|src|, out, scratch, nf, nq, nl, ts);
    size := if end * 4 >= pageBytes || end * 4 > capacity then 0 else end * 4;
  }

  // -------------------------------------------------------------- decompression

  /** The decoder's header checks: long enough, right magic, end offset inside the buffer. */
  predicate Accepted(blob: seq<nat>, srcBytes: nat)
    requires srcBytes <= |blob| * 4
  {
    srcBytes >= 16 && blob[0] == MAGIC && blob[3] * 4 <= srcBytes
  }

  /** Reading the next token, and the entries it calls for, touches only words of the buffer. */
  predicate TokenInside(blob: seq<nat>, n: nat, before: seq<Token>) {
    var t := ReadToken(blob, n, before);
    && 4 + |before| / 16 < |blob|
    && (t.Exact? || t.Partial? ==> blob[1] + |Idxs(before)| / 8 < |blob|)
    && (t.Partial? ==> blob[2] + |Lows(before)| / 3 < |blob|)
    && (t.Miss? ==> Base(n) + |Fulls(before)| < |blob|)
  }

  /** So does reading the first i tokens of a page of n words. */
  predicate ReadableTo(blob: seq<nat>, n: nat, i: nat) {
    i == 0 || (ReadableTo(blob, n, i - 1) && TokenInside(blob, n, ReadTokens(blob, n, i - 1)))
  }

  predicate Readable(blob: seq<nat>, n: nat) { ReadableTo(blob, n, n) }

  // The exact bounds depend on header and tag words alone, so they can be computed before decoding.

  /** The tag of word i. */
  function TagAt(blob: seq<nat>, i: nat): nat { GetField(WordAt(blob, 4 + i / 16), 2, i % 16) }

  /** How many of the first i tags are among `kinds`. */
  function TagCount(blob: seq<nat>, i: nat, kinds: set<nat>): nat {
    if i == 0 then 0 else TagCount(blob, i - 1, kinds) + if TagAt(blob, i - 1) in kinds then 1 else 0
  }

  /** In a buffer of `len` words: the words of i tags, and the streams they call for, as far as those are used. */
  predicate Bounds(len: nat, base: nat, queueAt: nat, lowAt: nat, i: nat, full: nat, idx: nat, low: nat) {
    i == 0 ||
    (&& 4 + TagWords(i) <= len
     && (full > 0 ==> base + full <= len)
     && (idx > 0 ==> queueAt + (idx + 7) / 8 <= len)
     && (low > 0 ==> lowAt + (low + 2) / 3 <= len))
  }

  /** The first i tags lie inside the buffer, and so do the entries they call for: misses (3) take a full word
      each, matches (1, 2) a queue position, partial matches (2) low bits. */
  predicate InsideTo(blob: seq<nat>, n: nat, i: nat) {
    Bounds(|blob|, Base(n), WordAt(blob, 1), WordAt(blob, 2), i,
           TagCount(blob, i, {3}), TagCount(blob, i, {1, 2}), TagCount(blob, i, {2}))
  }

  predicate Inside(blob: seq<nat>, n: nat) { InsideTo(blob, n, n) }

  lemma {:induction false} ReadPrefix(blob: seq<nat>, n: nat, i: nat, m: nat)
    requires i <= m
    ensures ReadTokens(blob, n, i) == ReadTokens(blob, n, m)[..i]
  {
    hide ReadToken;
    if i < m {
      ReadPrefix(blob, n, i, m - 1);
    }
  }

  lemma {:induction false} LowSmall(v: nat)
    ensures Low(v, 4) < 16 && Low(v, 2) < 4
  {
    SplitAt(v, 4);
    SplitAt(v, 2);
    Four();
    assert Shl(1, 4) == 4 * Shl(1, 2);
  }

  lemma {:induction false} FieldSmall(x: nat, k: nat)
    ensures GetField(x, 4, k) < 16 && GetField(x, 2, k) < 4
  {
    LowSmall(Shr(x, Place(4, k)));
    LowSmall(Shr(x, Place(2, k)));
  }

  lemma {:induction false} KindOfTag(blob: seq<nat>, n: nat, ts: seq<Token>)
    ensures var t := ReadToken(blob, n, ts); var tag := TagAt(blob, |ts|);
            && tag < 4 && (t.Zero? <==> tag == 0) && (t.Exact? <==> tag == 1)
            && (t.Partial? <==> tag == 2) && (t.Miss? <==> tag == 3)
  {
    FieldSmall(WordAt(blob, 4 + |ts| / 16), |ts| % 16);
    hide GetField, Idxs, Lows, Fulls;
  }

  lemma {:induction false} NothingRead(blob: seq<nat>, n: nat)
    ensures ReadTokens(blob, n, 0) == [] && Decode([]) == ([], EMPTY_DICT)
    ensures Idxs([]) == Lows([]) == Fulls([]) == []
  {
  }

  lemma {:induction false} ReadSnoc(blob: seq<nat>, n: nat, i: nat)
    ensures ReadTokens(blob, n, i + 1) == ReadTokens(blob, n, i) + [ReadToken(blob, n, ReadTokens(blob, n, i))]
  {
  }

  lemma {:induction false} CountsFromTags(blob: seq<nat>, n: nat, i: nat)
    ensures var ts := ReadTokens(blob, n, i);
            && |Fulls(ts)| == TagCount(blob, i, {3}) && |Idxs(ts)| == TagCount(blob, i, {1, 2})
            && |Lows(ts)| == TagCount(blob, i, {2})
  {
    hide TagAt, ReadToken, Idxs, Lows, Fulls, ReadTokens;
    NothingRead(blob, n);
    if i > 0 {
      CountsFromTags(blob, n, i - 1);
      var ts := ReadTokens(blob, n, i - 1);
      KindOfTag(blob, n, ts);
      ReadSnoc(blob, n, i - 1);
      StreamsSnoc(ts, ReadToken(blob, n, ts));
    }
  }

  lemma {:induction false} NextBounds(len: nat, base: nat, queueAt: nat, lowAt: nat,
                                      i: nat, full: nat, idx: nat, low: nat, tag: nat)
    requires tag < 4 && (i == 0 ==> full == idx == low == 0)
    ensures Bounds(len, base, queueAt, lowAt, i + 1, full + (if tag == 3 then 1 else 0),
                   idx + (if tag in {1, 2} then 1 else 0), low + (if tag == 2 then 1 else 0))
            <==> (&& Bounds(len, base, queueAt, lowAt, i, full, idx, low) && 4 + i / 16 < len
                  && (tag in {1, 2} ==> queueAt + idx / 8 < len) && (tag == 2 ==> lowAt + low / 3 < len)
                  && (tag == 3 ==> base + full < len))
  {
  }

  /** The next token stays in the buffer exactly when the counts with it do. */
  lemma {:induction false} NextInside(blob: seq<nat>, n: nat, i: nat)
    ensures InsideTo(blob, n, i + 1) <==> InsideTo(blob, n, i) && TokenInside(blob, n, ReadTokens(blob, n, i))
  {
    var ts := ReadTokens(blob, n, i);
    CountsFromTags(blob, n, i);
    KindOfTag(blob, n, ts);
    hide TagAt, ReadToken, Idxs, Lows, Fulls, ReadTokens, Bounds, Base;
    NextBounds(|blob|, Base(n), WordAt(blob, 1), WordAt(blob, 2), i,
               TagCount(blob, i, {3}), TagCount(blob, i, {1, 2}), TagCount(blob, i, {2}), TagAt(blob, i));
  }

  /** Decoding reads inside the buffer if and only if tags and the streams they call for lie inside it. */
  lemma {:induction false} ReadableIff(blob: seq<nat>, n: nat, i: nat)
    ensures ReadableTo(blob, n, i) <==> InsideTo(blob, n, i)
  {
    hide TokenInside, TagCount;
    if i > 0 {
      hide InsideTo;
      ReadableIff(blob, n, i - 1);
      NextInside(blob, n, i - 1);
    }
  }

  lemma {:induction false} ReadableGoesDown(blob: seq<nat>, n: nat, i: nat, m: nat)
    requires i <= m && ReadableTo(blob, n, m)
    ensures ReadableTo(blob, n, i)
  {
    hide TokenInside;
    if i < m {
      ReadableGoesDown(blob, n, i, m - 1);
    }
  }

  /** The header checks do not keep reads in the buffer: a bare header is accepted for any page. */
  lemma {:induction false} HeaderIsNotEnough(n: nat)
    requires n > 0
    ensures Accepted([MAGIC, 4, 4, 4], 16) && !Readable([MAGIC, 4, 4, 4], n)
  {
    var blob := [MAGIC, 4, 4, 4];
    if Readable(blob, n) {
      ReadableGoesDown(blob, n, 1, n);
    }
  }

  /** Nor are the offsets checked: with one exact match the first one decides alone. */
  lemma {:induction false} OffsetsAreNotChecked(queueAt: nat, lowAt: nat)
    ensures var blob := [MAGIC, queueAt, lowAt, 5, 1];
            Accepted(blob, 20) && (Readable(blob, 1) <==> queueAt < 5)
  {
    var blob := [MAGIC, queueAt, lowAt, 5, 1];
    assert ReadTokens(blob, 1, 0) == [] && Idxs([]) == [];
    assert GetField(1, 2, 0) == 1 by {
      assert Place(2, 0) == 0 && Shr(1, 0) == 1;
      assert Low(0, 1) == 0 && Low(1, 2) == 1;
    }
    assert WordAt(blob, 4) == 1 && ReadToken(blob, 1, []).Exact?;
    assert ReadableTo(blob, 1, 0);
    assert ReadableTo(blob, 1, 1) <==> TokenInside(blob, 1, []);
  }

  /** Reads the next token, given how many entries of each stream are used up; `inside` is false when
      that would leave the buffer. */
  method ReadNext(blob: seq<nat>, n: nat, i: nat, nf: nat, nq: nat, nl: nat, ghost ts: seq<Token>)
    returns (inside: bool, t: Token)
    requires |blob| >= 4 && i == |ts| && nf == |Fulls(ts)| && nq == |Idxs(ts)| && nl == |Lows(ts)|
    ensures inside <==> TokenInside(blob, n, ts)
    ensures inside ==> t == ReadToken(blob, n, ts) && (t.Exact? || t.Partial? ==> t.idx < DICT)
  {
    hide GetField, Idxs, Lows, Fulls;
    if 4 + i / 16 >= |blob| {
      return false, Zero;
    }
    var tag := GetField(blob[4 + i / 16], 2, i % 16);
    FieldSmall(blob[4 + i / 16], i % 16);
    FieldSmall(WordAt(blob, blob[1] + nq / 8), nq % 8);
    var q, l, f := blob[1] + nq / 8, blob[2] + nl / 3, Base(n) + nf;
    inside := !((tag == 1 || tag == 2) && q >= |blob|) && !(tag == 2 && l >= |blob|) && !(tag == 3 && f >= |blob|);
    if !inside || tag == 0 {
      t := Zero;
    } else if tag == 1 {
      t := Exact(GetField(blob[q], 4, nq % 8));
    } else if tag == 2 {
      t := Partial(GetField(blob[q], 4, nq % 8), GetField(blob[l], 10, nl % 3));
    } else {
      t := Miss(blob[f]);
    }
  }

  /** The word a token stands for; partial matches and misses update the dictionary. */
  method ApplyToken(dict: array<nat>, t: Token) returns (w: nat)
    requires dict.Length == DICT && (t.Exact? || t.Partial? ==> t.idx < DICT)
    modifies dict
    ensures (w, dict[..]) == DecodeToken(old(dict[..]), t)
  {
    hide Or, High, DictIndex;
    match t
    case Zero =>
      w := 0;
    case Exact(idx) =>
      w := dict[idx];
    case Partial(idx, low) =>
      w := Or(High(dict[idx]), low);
      dict[idx] := w;
    case Miss(word) =>
      w := word;
      dict[DictIndex(w)] := w;
  }

  lemma {:induction false} DecodeSnoc(ts: seq<Token>, t: Token)
    ensures var d := DecodeToken(Decode(ts).1, t);
            Decode(ts + [t]) == (Decode(ts).0 + [d.0], d.1)
  {
    hide DecodeToken;
    assert (ts + [t])[..|ts|] == ts;
  }

  method NewDict() returns (dict: array<nat>)
    ensures fresh(dict) && dict.Length == DICT && dict[..] == EMPTY_DICT
  {
    dict := new nat[DICT](_ => 0);
  }

  /** The loop over the words of the page; it ends early at a read outside the buffer. */
  method DecodeWords(blob: seq<nat>, n: nat, dst: array<nat>) returns (inside: bool)
    requires |blob| >= 4 && n <= dst.Length
    modifies dst
    ensures inside <==> Readable(blob, n)
    ensures inside ==> dst[..n] == Decode(ReadTokens(blob, n, n)).0
  {
    hide Decode, ReadTokens, TokenInside, Idxs, Lows, Fulls, ReadToken;
    var dict := NewDict();
    NothingRead(blob, n);
    var nf, nq, nl := 0, 0, 0;
    for i := 0 to n
      invariant ReadableTo(blob, n, i)
      invariant var ts := ReadTokens(blob, n, i);
                && (dst[..i], dict[..]) == Decode(ts)
                && nf == |Fulls(ts)| && nq == |Idxs(ts)| && nl == |Lows(ts)|
    {
      ghost var ts := ReadTokens(blob, n, i);
      var t;
      inside, t := ReadNext(blob, n, i, nf, nq, nl, ts);
      if !inside {
        if Readable(blob, n) {
          ReadableGoesDown(blob, n, i + 1, n);
        }
        return;
      }
      ReadSnoc(blob, n, i);
      DecodeSnoc(ts, t);
      StreamsSnoc(ts, t);
      dst[i] := ApplyToken(dict, t);
      nf, nq, nl := nf + |FullOf(t)|, nq + |IdxOf(t)|, nl + |LowOf(t)|;
      assert dst[..i + 1] == dst[..i] + [dst[i]];
    }
    inside := true;
  }

  /** Decompresses into dst; returns 0 when the header is not accepted.  `inside` is false exactly when
      the header is accepted and decoding the page reads outside the buffer. */
  method Decompress(blob: seq<nat>, srcBytes: nat, dst: array<nat>, pageBytes: nat) returns (size: nat, inside: bool)
    requires srcBytes <= |blob| * 4 && dst.Length >= pageBytes / 4
    modifies dst
    ensures inside <==> (Accepted(blob, srcBytes) ==> Inside(blob, pageBytes / 4))
    ensures inside ==> size == if Accepted(blob, srcBytes) then pageBytes else 0
    ensures var n := pageBytes / 4;
            Accepted(blob, srcBytes) && inside ==> dst[..n] == Decode(ReadTokens(blob, n, n)).0
    ensures !Accepted(blob, srcBytes) ==> dst[..] == old(dst[..])
  {
    hide ReadableTo, InsideTo, Decode, ReadTokens;
    if srcBytes < 16 || blob[0] != MAGIC || blob[3] * 4 > srcBytes {
      return 0, true;
    }
    ReadableIff(blob, pageBytes / 4, pageBytes / 4);
    inside := DecodeWords(blob, pageBytes / 4, dst);
    size := pageBytes;
  }

  // -------------------------------------------------------------- round trip

  /** A blob is accepted when its own size is given, and all its entries are in it. */
  lemma {:induction false} BlobIsReadable(blob: seq<nat>, ts: seq<Token>)
    requires IsBlob(blob, ts) && |blob| == End(ts)
    ensures Accepted(blob, End(ts) * 4) && Inside(blob, |ts|)
  {
    BlobReadsBack(blob, ts, |ts|);
    assert ts[..|ts|] == ts;
    assert forall k :: 0 <= k < 4 ==> blob[k] == blob[..4][k];
    CountsFromTags(blob, |ts|, |ts|);
    hide Packed;
  }

  /** Decoding the blob of any page gives the page back. */
  lemma {:induction false} BlobRoundTrip(blob: seq<nat>, src: seq<nat>)
    requires var ts := Encode(src).0; IsBlob(blob, ts) && |blob| == End(ts)
    ensures Accepted(blob, |blob| * 4) && Inside(blob, |src|)
    ensures Decode(ReadTokens(blob, |src|, |src|)).0 == src
  {
    hide *;
    var ts := Encode(src).0;
    BlobIsReadable(blob, ts);
    BlobReadsBack(blob, ts, |src|);
    assert ts[..|src|] == ts;
    PageRoundTrip(src);
  }

  /** Compressing any page and decompressing the blob, whenever the page compresses, gives the page back. */
  method RoundTrip(src: seq<nat>, pageBytes: nat, capacity: nat) returns (compressed: nat, back: seq<nat>)
    requires |src| == pageBytes / 4
    ensures var size := PackedSize(src) * 4;
            compressed == if size >= pageBytes || size > capacity then 0 else size
    ensures compressed != 0 ==> back == src
  {
    hide *;
    var n := |src|;
    SizeIs(src);
    RoomBound(Encode(src).0);
    var out := new nat[Room(n)](_ => 0);
    var scratch := new nat[ScratchRoom(n)](_ => 0);
    compressed := Compress(src, pageBytes, out, capacity, scratch);
    back := [];
    if compressed != 0 {
      var blob := out[..compressed / 4];
      assert compressed / 4 == End(Encode(src).0);
      BlobRoundTrip(blob, src);
      var dst := new nat[n](_ => 0);
      var size, inside := Decompress(blob, compressed, dst, pageBytes);
      back := dst[..];
      assert dst[..n] == dst[..];
    }
  }
}

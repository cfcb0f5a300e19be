// des.c bit selection: `bit_select_slow` builds a word bit by bit from a
// permutation table; `bit_select_fast` ORs together precomputed table
// entries, one per chunk of the input.

module DesSelect {
  import opened HostWords
  import opened DesBits
  import opened DesTables

  // ---- bit_select_slow -----------------------------------------------

  /** What `bit_select_slow` holds once the table entries from m on have
      been shifted in. */
  function SelectFrom(data: nat, perm: seq<Pos>, m: nat): nat
    requires m <= |perm|
    decreases |perm| - m
  {
    if m == |perm| then 0 else Bit(data, perm[m] as nat - 1) + 2 * SelectFrom(data, perm, m + 1)
  }

  /** `bit_select_slow(data, perm, sizeof perm)`. */
  function Select(data: nat, perm: seq<Pos>): nat {
    SelectFrom(data, perm, 0)
  }

  /** `bit_select_slow`: from the last table entry down to the first, shift
      the input bit it names into x. */
  method BitSelectSlow(data: u64, perm: seq<Pos>) returns (x: nat)
    requires |perm| <= 64
    ensures x == Select(data, perm)
  {
    var bits: nat := |perm|;
    x := 0;
    while bits > 0
      invariant bits <= |perm| && x == SelectFrom(data, perm, bits)
      decreases bits
    {
      bits := bits - 1;
      x := 2 * x + Bit(data, perm[bits] as nat - 1);
    }
  }

  lemma {:induction false} SelectFromBit(data: nat, perm: seq<Pos>, m: nat, j: nat)
    requires m <= |perm|
    ensures Bit(SelectFrom(data, perm, m), j) ==
      if j < |perm| - m then Bit(data, perm[m + j] as nat - 1) else 0
    decreases |perm| - m
  {
    if m == |perm| {
      ShrZero(j);
    } else {
      var b := Bit(data, perm[m] as nat - 1);
      Halve(b, SelectFrom(data, perm, m + 1));
      if j > 0 {
        SelectFromBit(data, perm, m + 1, j - 1);
      }
    }
  }

  lemma {:induction false} SelectFromBound(data: nat, perm: seq<Pos>, m: nat)
    requires m <= |perm|
    ensures SelectFrom(data, perm, m) < Pow2(|perm| - m)
    decreases |perm| - m
  {
    if m < |perm| {
      SelectFromBound(data, perm, m + 1);
    }
  }

  /** Output bit j of `bit_select_slow` is input bit perm[j] - 1, and the
      output has no bit at or above the table's length. */
  lemma SelectMeaning(data: nat, perm: seq<Pos>)
    ensures Select(data, perm) < Pow2(|perm|)
    ensures forall j: nat ::
              Bit(Select(data, perm), j) == if j < |perm| then Bit(data, perm[j] as nat - 1) else 0
  {
    SelectFromBound(data, perm, 0);
    forall j: nat
      ensures Bit(Select(data, perm), j) == if j < |perm| then Bit(data, perm[j] as nat - 1) else 0
    {
      SelectFromBit(data, perm, 0, j);
    }
  }

  // ---- bit_select_fast -----------------------------------------------

  /** `i<<w | j` with j < 2^w: entry j of chunk i's row of a lookup table. */
  function LutIndex(w: nat, i: nat, j: nat): nat {
    i * Pow2(w) + j
  }

  lemma IndexBound(w: nat, i: nat, j: nat, chunks: nat)
    requires i < chunks && j < Pow2(w)
    ensures LutIndex(w, i, j) < chunks * Pow2(w)
  {
    MulLe(i + 1, chunks, Pow2(w));
  }

  /** What `bit_select_fast` returns once chunks i and on are still to do,
      with `data` already shifted down to chunk i and x ORed so far. */
  function FastFrom(data: nat, table: seq<nat>, chunks: nat, w: nat, i: nat, x: nat): nat
    requires |table| == chunks * Pow2(w) && i <= chunks
    decreases chunks - i
  {
    if i == chunks then x
    else
      IndexBound(w, i, Low(data, w), chunks);
      FastFrom(Shr(data, w), table, chunks, w, i + 1,
        Or(x, table[LutIndex(w, i, Low(data, w))], 64))
  }

  /** `bit_select_fast(data, table, chunks, bits)`. */
  function FastSelect(data: nat, table: seq<nat>, chunks: nat, bits: nat): nat
    requires chunks > 0 && |table| == chunks * Pow2(bits / chunks)
  {
    FastFrom(data, table, chunks, bits / chunks, 0, 0)
  }

  /** `bit_select_fast`: for each chunk of `bits / chunks` input bits, OR in
      the table entry that the chunk's value selects from that chunk's row. */
  method BitSelectFast(data: u64, table: array<nat>, chunks: nat, bits: nat) returns (x: nat)
    requires chunks > 0 && table.Length == chunks * Pow2(bits / chunks)
    ensures x == FastSelect(data, table[..], chunks, bits)
  {
    var w := bits / chunks;
    var d: nat := data;
    var i := 0;
    x := 0;
    while i < chunks
      invariant i <= chunks
      invariant FastFrom(d, table[..], chunks, w, i, x) == FastSelect(data, table[..], chunks, bits)
      decreases chunks - i
    {
      IndexBound(w, i, Low(d, w), chunks);
      x := Or(x, table[LutIndex(w, i, Low(d, w))], 64);
      i := i + 1;
      d := Shr(d, w);
    }
  }

  // ---- The tables des_init builds ------------------------------------

  /** Entry k = i<<w | j of a table built by `lut_loop`: the slow selection
      of j placed at chunk i, `bit_select_slow(j << w*i, perm)`. */
  function LutEntry(perm: seq<Pos>, w: nat, k: nat): nat {
    Select(Shl(Low(k, w), w * Shr(k, w)), perm)
  }

  /** The table has one row of 2^w entries per chunk, as `lut_loop` fills
      them. */
  predicate Built(table: seq<nat>, perm: seq<Pos>, chunks: nat, w: nat) {
    |table| == chunks * Pow2(w) &&
    forall k | 0 <= k < |table| :: table[k] == LutEntry(perm, w, k)
  }

  /** The input bit that perm names for output bit q lies in lo..hi-1 and
      is set. */
  predicate Hit(data: nat, perm: seq<Pos>, lo: nat, hi: nat, q: nat) {
    q < |perm| && lo <= perm[q] as nat - 1 < hi && Bit(data, perm[q] as nat - 1) == 1
  }

  /** The entry chunk i selects from a built table has bit q exactly when
      the input bit that perm names for q lies in chunk i and is set. */
  lemma EntryBit(data: nat, table: seq<nat>, perm: seq<Pos>, chunks: nat, w: nat, i: nat, lo: nat, q: nat)
    requires Built(table, perm, chunks, w) && i < chunks && lo == w * i
    ensures LutIndex(w, i, Low(Shr(data, lo), w)) < |table|
    ensures Bit(table[LutIndex(w, i, Low(Shr(data, lo), w))], q) ==
      if Hit(data, perm, lo, lo + w, q) then 1 else 0
  {
    var d := Shr(data, lo);
    var j := Low(d, w);
    IndexBound(w, i, j, chunks);
    Place(j, i, w);
    assert LutIndex(w, i, j) == j + i * Pow2(w);
    EntryValue(table, perm, chunks, w, i, j, lo);
    var v := Shl(j, lo);
    SelectMeaning(v, perm);
    if q < |perm| {
      var p := perm[q] as nat - 1;
      PlaceBit(0, j, lo, p);
      if lo <= p {
        LowBit(d, w, p - lo);
        ShrBit(data, lo, p - lo);
      } else {
        ShrZero(p);
      }
    }
  }

  lemma EntryValue(table: seq<nat>, perm: seq<Pos>, chunks: nat, w: nat, i: nat, j: nat, lo: nat)
    requires Built(table, perm, chunks, w) && i < chunks && j < Pow2(w) && lo == w * i
    requires Low(j + i * Pow2(w), w) == j && Shr(j + i * Pow2(w), w) == i
    ensures LutIndex(w, i, j) < |table|
    ensures table[LutIndex(w, i, j)] == Select(Shl(j, lo), perm)
  {
    IndexBound(w, i, j, chunks);
    assert LutIndex(w, i, j) == j + i * Pow2(w);
  }

  lemma {:induction false} FastFromBit(data: nat, table: seq<nat>, perm: seq<Pos>,
                                       chunks: nat, w: nat, i: nat, lo: nat, hi: nat, x: nat, q: nat)
    requires Built(table, perm, chunks, w) && i <= chunks && q < 64
    requires lo == w * i && hi == w * chunks
    ensures Bit(FastFrom(Shr(data, lo), table, chunks, w, i, x), q) ==
      if Bit(x, q) == 1 || Hit(data, perm, lo, hi, q) then 1 else 0
    decreases chunks - i
  {
    if i < chunks {
      var d := Shr(data, lo);
      EntryBit(data, table, perm, chunks, w, i, lo, q);
      var e := table[LutIndex(w, i, Low(d, w))];
      var x' := Or(x, e, 64);
      assert FastFrom(d, table, chunks, w, i, x) == FastFrom(Shr(d, w), table, chunks, w, i + 1, x');
      ShrShr(data, lo, w);
      MulSucc(w, i);
      MulLe(i + 1, chunks, w);
      FastFromBit(data, table, perm, chunks, w, i + 1, lo + w, hi, x', q);
      OrBit(x, e, 64, q);
      HitSplit(data, perm, lo, lo + w, hi, q);
    }
  }

  lemma HitSplit(data: nat, perm: seq<Pos>, lo: nat, mid: nat, hi: nat, q: nat)
    requires lo <= mid <= hi
    ensures Hit(data, perm, lo, hi, q) <==>
      Hit(data, perm, lo, mid, q) || Hit(data, perm, mid, hi, q)
  {
  }

  lemma MulSucc(w: nat, i: nat)
    ensures w * i + w == w * (i + 1) == (i + 1) * w
  {
  }

  lemma {:induction false} FastFromBound(data: nat, table: seq<nat>, chunks: nat, w: nat, i: nat, x: nat)
    requires |table| == chunks * Pow2(w) && i <= chunks && x < Pow2(64)
    ensures FastFrom(data, table, chunks, w, i, x) < Pow2(64)
    decreases chunks - i
  {
    if i < chunks {
      IndexBound(w, i, Low(data, w), chunks);
      FastFromBound(Shr(data, w), table, chunks, w, i + 1,
        Or(x, table[LutIndex(w, i, Low(data, w))], 64));
    }
  }

  /** With a table that `lut_loop` built from perm, and chunks of w bits
      that cover every bit perm names, `bit_select_fast` equals
      `bit_select_slow`. */
  lemma FastIsSlow(data: nat, table: seq<nat>, perm: seq<Pos>, chunks: nat, w: nat, bits: nat)
    requires chunks > 0 && bits == chunks * w && Built(table, perm, chunks, w)
    requires |perm| <= 64 && forall j | 0 <= j < |perm| :: perm[j] <= bits
    ensures bits / chunks == w
    ensures FastSelect(data, table, chunks, bits) == Select(data, perm)
  {
    DivMul(chunks, w, bits);
    var fast := FastSelect(data, table, chunks, bits);
    FastFromBound(data, table, chunks, w, 0, 0);
    SelectMeaning(data, perm);
    Pow2Le(|perm|, 64);
    forall q: nat | q < 64
      ensures Bit(fast, q) == Bit(Select(data, perm), q)
    {
      ShrZero(q);
      FastFromBit(data, table, perm, chunks, w, 0, 0, bits, 0, q);
    }
    BitsEqual(fast, Select(data, perm), 64);
  }

  lemma DivMul(chunks: nat, w: nat, bits: nat)
    requires chunks > 0 && bits == chunks * w
    ensures bits / chunks == w
  {
    var q, r := bits / chunks, bits % chunks;
    assert bits == q * chunks + r;
    if q > w {
      MulLe(w + 1, q, chunks);
      MulSucc(chunks, w);
    } else if q < w {
      MulLe(q + 1, w, chunks);
      MulSucc(chunks, q);
    }
  }
}

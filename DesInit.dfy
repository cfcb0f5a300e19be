// des.c `des_init`: fills the static lookup tables SP, PC1F, PC2F, IPF and
// IIPF that `f` and `bit_select_fast` read.  Each C 2-D table is an array
// stored row after row, the layout `bit_select_fast` indexes it with.

module DesInit {
  import opened HostWords
  import opened DesBits
  import opened DesTables
  import opened DesSelect

  /** The contents of the five tables. */
  datatype Luts = Luts(sp: seq<nat>, pc1f: seq<nat>, pc2f: seq<nat>, ipf: seq<nat>, iipf: seq<nat>)

  /** `SP[i][j]`, stored at 64 * i + j: S-box i's entry j moved to output
      bits 4i..4i+3 and then through P. */
  function SpEntry(sb: seq<seq<Nibble>>, k: nat): nat
    requires Shaped(sb) && k < 8 * 64
  {
    Select(Shl(sb[k / 64][k % 64], 4 * (k / 64)), P)
  }

  /** sb has the shape of the `S[8][64]` array. */
  predicate Shaped(sb: seq<seq<Nibble>>) {
    |sb| == 8 && forall i | 0 <= i < 8 :: |sb[i]| == 64
  }

  /** sp holds the SP table built from the S-box array sb. */
  predicate SpBuilt(sp: seq<nat>, sb: seq<seq<Nibble>>)
    requires Shaped(sb)
  {
    |sp| == 8 * 64 && forall k | 0 <= k < |sp| :: sp[k] == SpEntry(sb, k)
  }

  /** Every table holds what `des_init` puts there: chunks of 8 bits for the
      64-bit selections, of 7 bits for the 56-bit one. */
  predicate Ready(l: Luts) {
    SpBuilt(l.sp, STable()) &&
    Built(l.pc1f, PC1, 8, 8) && Built(l.pc2f, PC2, 8, 7) &&
    Built(l.ipf, IP, 8, 8) && Built(l.iipf, IIP, 8, 8)
  }

  class DesLuts {
    var sp: array<nat>
    var pc1f: array<nat>
    var pc2f: array<nat>
    var ipf: array<nat>
    var iipf: array<nat>

    ghost predicate Valid()
      reads this
    {
      sp.Length == 8 * 64 && pc1f.Length == 8 * 256 && pc2f.Length == 8 * 128 &&
      ipf.Length == 8 * 256 && iipf.Length == 8 * 256 &&
      pc1f != ipf && pc1f != iipf && ipf != iipf
    }

    function Contents(): Luts
      reads this, sp, pc1f, pc2f, ipf, iipf
    {
      Luts(sp[..], pc1f[..], pc2f[..], ipf[..], iipf[..])
    }

    /** The tables as static storage starts them: all zero. */
    constructor ()
      ensures Valid()
      ensures fresh(sp) && fresh(pc1f) && fresh(pc2f) && fresh(ipf) && fresh(iipf)
    {
      sp := new nat[8 * 64](_ => 0);
      pc1f := new nat[8 * 256](_ => 0);
      pc2f := new nat[8 * 128](_ => 0);
      ipf := new nat[8 * 256](_ => 0);
      iipf := new nat[8 * 256](_ => 0);
    }

    /** `des_init`. */
    method Init()
      requires Valid()
      modifies sp, pc1f, pc2f, ipf, iipf
      ensures Valid() && Ready(Contents())
    {
      Pow2Values();
      FillSp(sp, STable());
      LutLoop(pc1f, PC1, 8, 8);
      LutLoop(pc2f, PC2, 8, 7);
      LutLoop(ipf, IP, 8, 8);
      LutLoop(iipf, IIP, 8, 8);
    }
  }

  /** The SP loop of `des_init`. */
  method FillSp(sp: array<nat>, sb: seq<seq<Nibble>>)
    requires sp.Length == 8 * 64 && Shaped(sb)
    modifies sp
    ensures SpBuilt(sp[..], sb)
  {
    var i := 0;
    while i < 8
      invariant i <= 8
      invariant sp[..64 * i] == SpPrefix(sb, 64 * i)
    {
      SpRow(sp, sb, i);
      i := i + 1;
    }
    SpPrefixEntries(sb, 8 * 64);
    assert sp[..] == sp[..64 * i];
  }

  /** Row i of SP: the 64 entries of S-box i. */
  method SpRow(sp: array<nat>, sb: seq<seq<Nibble>>, i: nat)
    requires sp.Length == 8 * 64 && Shaped(sb) && i < 8
    requires sp[..64 * i] == SpPrefix(sb, 64 * i)
    modifies sp
    ensures sp[..64 * (i + 1)] == SpPrefix(sb, 64 * (i + 1))
  {
    var base, j := 64 * i, 0;
    while j < 64
      invariant j <= 64
      invariant sp[..base + j] == SpPrefix(sb, base + j)
    {
      var k := base + j;
      var v := SpSelect(sb, i, j, k);
      sp[k] := v;
      assert sp[..k + 1] == sp[..k] + [v];
      j := j + 1;
    }
  }

  /** The first n entries of SP. */
  function SpPrefix(sb: seq<seq<Nibble>>, n: nat): (r: seq<nat>)
    requires Shaped(sb) && n <= 8 * 64
    ensures |r| == n
  {
    if n == 0 then [] else SpPrefix(sb, n - 1) + [SpEntry(sb, n - 1)]
  }

  lemma {:induction false} SpPrefixEntries(sb: seq<seq<Nibble>>, n: nat)
    requires Shaped(sb) && n <= 8 * 64
    ensures forall k | 0 <= k < n :: SpPrefix(sb, n)[k] == SpEntry(sb, k)
  {
    if n > 0 {
      SpPrefixEntries(sb, n - 1);
      var p := SpPrefix(sb, n - 1);
      assert SpPrefix(sb, n) == p + [SpEntry(sb, n - 1)];
      forall k | 0 <= k < n
        ensures SpPrefix(sb, n)[k] == SpEntry(sb, k)
      {
        if k < n - 1 {
          assert SpPrefix(sb, n)[k] == p[k];
        }
      }
    }
  }

  /** `SP[i][j] = bit_select_slow(S[i][j] << 4*i, P, sizeof P)`. */
  method SpSelect(sb: seq<seq<Nibble>>, i: nat, j: nat, k: nat) returns (v: nat)
    requires Shaped(sb) && i < 8 && j < 64 && k == 64 * i + j
    ensures v == SpEntry(sb, k)
  {
    assert k / 64 == i && k % 64 == j;
    v := SelectNibble(i, sb[i][j]);
  }

  /** The slow selection of nibble s moved to bits 4i..4i+3. */
  method SelectNibble(i: nat, s: Nibble) returns (v: nat)
    requires i < 8
    ensures v == Select(Shl(s, 4 * i), P)
  {
    NibbleFits(s, i);
    v := BitSelectSlow(Shl(s, 4 * i), P);
  }

  /** A nibble moved to bits 4i..4i+3 of a 32-bit word stays in the word. */
  lemma NibbleFits(s: nat, i: nat)
    requires s < 16 && i < 8
    ensures Shl(s, 4 * i) < 0x1_0000_0000
  {
    var p := Pow2(4 * i);
    Pow2Add(4, 4 * i);
    Pow2Le(4 * i + 4, 32);
    Pow2Values();
    MulLe(s + 1, 16, p);
    assert Shl(s, 4 * i) + p == (s + 1) * p;
  }

  /** `lut_loop`: entry j of row i is the slow selection of j shifted to
      chunk i. */
  method LutLoop(table: array<nat>, perm: seq<Pos>, chunks: nat, w: nat)
    requires table.Length == chunks * Pow2(w) && chunks * w <= 64 && |perm| <= 64
    modifies table
    ensures Built(table[..], perm, chunks, w)
  {
    var i := 0;
    while i < chunks
      invariant i <= chunks
      invariant forall k | 0 <= k < table.Length && k < LutIndex(w, i, 0) :: table[k] == LutEntry(perm, w, k)
    {
      LutRow(table, perm, chunks, w, i);
      i := i + 1;
    }
  }

  /** One row of `lut_loop`: the 2^w entries of chunk i. */
  method LutRow(table: array<nat>, perm: seq<Pos>, chunks: nat, w: nat, i: nat)
    requires table.Length == chunks * Pow2(w) && chunks * w <= 64 && |perm| <= 64 && i < chunks
    requires forall k | 0 <= k < table.Length && k < LutIndex(w, i, 0) :: table[k] == LutEntry(perm, w, k)
    modifies table
    ensures forall k | 0 <= k < table.Length && k < LutIndex(w, i + 1, 0) :: table[k] == LutEntry(perm, w, k)
  {
    var j := 0;
    while j < Pow2(w)
      invariant j <= Pow2(w)
      invariant forall k | 0 <= k < table.Length && k < LutIndex(w, i, j) :: table[k] == LutEntry(perm, w, k)
    {
      IndexBound(w, i, j, chunks);
      var v := LutSelect(perm, chunks, w, i, j);
      table[LutIndex(w, i, j)] := v;
      j := j + 1;
    }
    MulSucc(Pow2(w), i);
  }

  /** `table[i][j] = bit_select_slow((unsigned long long)j << w*i, perm)`. */
  method LutSelect(perm: seq<Pos>, chunks: nat, w: nat, i: nat, j: nat) returns (v: nat)
    requires chunks * w <= 64 && |perm| <= 64 && i < chunks && j < Pow2(w)
    ensures v == LutEntry(perm, w, LutIndex(w, i, j))
  {
    ShiftFits(chunks, w, i, j);
    Place(j, i, w);
    assert LutIndex(w, i, j) == j + i * Pow2(w);
    v := BitSelectSlow(Shl(j, w * i), perm);
  }

  /** j << w*i stays within 64 bits when chunk i lies below bit 64. */
  lemma ShiftFits(chunks: nat, w: nat, i: nat, j: nat)
    requires chunks * w <= 64 && i < chunks && j < Pow2(w)
    ensures Shl(j, w * i) < 0x1_0000_0000_0000_0000
  {
    var lo := w * i;
    var p := Pow2(lo);
    MulSucc(w, i);
    MulLe(i + 1, chunks, w);
    assert lo + w <= 64;
    Pow2Add(w, lo);
    Pow2Le(w + lo, 64);
    Pow2Values();
    MulLe(j + 1, Pow2(w), p);
    assert Shl(j, lo) + p == (j + 1) * p;
  }
}

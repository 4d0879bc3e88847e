/** One-hash membership bitmaps over the values of a segment's column. */
module ValueSummary {
  import opened Bytes

  type Bitmap = seq<bv8>

  const SUMMARY_MAX_BYTES: nat := 8192
  const SUMMARY_MAX_ROWS: nat := 32768
  const BITS_PER_ROW: nat := 16
  const MIN_BITS: nat := 64

  function Mask(k: nat): bv8
    requires k < 8
  {
    if k == 0 then 1 else if k == 1 then 2 else if k == 2 then 4 else if k == 3 then 8
    else if k == 4 then 16 else if k == 5 then 32 else if k == 6 then 64 else 128
  }

  function WithBit(b: bv8, k: nat): bv8
    requires k < 8
  {
    b | Mask(k)
  }

  predicate HasBit(b: bv8, k: nat)
    requires k < 8
  {
    b & Mask(k) != 0
  }

  /** Bit `n` of the bitmap, as `get_bit` reads it. */
  predicate Bit(bitmap: Bitmap, n: nat)
    requires n < 8 * |bitmap|
  {
    HasBit(bitmap[n / 8], n % 8)
  }

  /** The bitmap's set bits are exactly those of the hashes. */
  ghost predicate HoldsExactly(bitmap: Bitmap, hashes: set<nat>) {
    bitmap != [] && forall n: nat | n < 8 * |bitmap| :: Bit(bitmap, n) <==> Claims(hashes, n, 8 * |bitmap|)
  }

  ghost predicate Claims(hashes: set<nat>, n: nat, bits: nat)
    requires bits > 0
  {
    exists h | h in hashes :: h % bits == n
  }

  ghost function Elements(s: seq<nat>): set<nat> {
    set h | h in s
  }

  function BitmapBits(rows: nat): nat {
    var wanted := (rows * BITS_PER_ROW + 7) / 8 * 8;
    if wanted < MIN_BITS then MIN_BITS else if wanted > SUMMARY_MAX_BYTES * 8 then SUMMARY_MAX_BYTES * 8 else wanted
  }

  /** Sixteen bits for a row, rounded up to whole bytes, at least 64 bits and at most 8192 bytes. */
  lemma {:induction false} BitmapSize(rows: nat)
    ensures BitmapBits(rows) % 8 == 0 && 64 <= BitmapBits(rows) <= 65536
    ensures 4 <= rows <= 4096 ==> BitmapBits(rows) == 16 * rows
    ensures rows < 4 ==> BitmapBits(rows) == 64
    ensures rows > 4096 ==> BitmapBits(rows) == 65536
  {
  }

  lemma {:induction false} MaskSets(b: bv8, k: nat, m: nat)
    requires k < 8 && m < 8
    ensures HasBit(WithBit(b, k), m) <==> HasBit(b, m) || k == m
  {
  }

  lemma {:induction false} SamePosition(n: nat, bit: nat)
    ensures n / 8 == bit / 8 && n % 8 == bit % 8 <==> n == bit
  {
  }

  lemma {:induction false} BitSet(bitmap: Bitmap, bit: nat, n: nat)
    requires bit < 8 * |bitmap| && n < 8 * |bitmap|
    ensures Bit(bitmap[bit / 8 := WithBit(bitmap[bit / 8], bit % 8)], n) <==> Bit(bitmap, n) || n == bit
  {
    hide WithBit, HasBit;
    SamePosition(n, bit);
    var q, k := n / 8, bit / 8;
    if q == k {
      MaskSets(bitmap[q], bit % 8, n % 8);
    }
  }

  class ValueSummaryBuilder {
    var hashes: seq<nat>
    var overflowed: bool

    constructor ()
      ensures hashes == [] && !overflowed
    {
      hashes := [];
      overflowed := false;
    }

    ghost predicate Holds(all: set<nat>)
      reads this
    {
      !overflowed ==> all == Elements(hashes)
    }

    method InsertHash(hash: nat)
      modifies this
      ensures overflowed <==> old(overflowed) || |old(hashes)| >= SUMMARY_MAX_ROWS
      ensures old(overflowed ==> hashes == []) ==> overflowed ==> hashes == []
      ensures !overflowed ==> hashes == old(hashes) + [hash]
      ensures forall all | old(Holds(all)) :: Holds(all + {hash})
    {
      if overflowed {
        return;
      }
      if |hashes| >= SUMMARY_MAX_ROWS {
        overflowed := true;
        hashes := [];
        return;
      }
      hashes := hashes + [hash];
    }

    method Finish() returns (r: Option<Bitmap>)
      ensures r.Some? <==> !overflowed && hashes != []
      ensures r.Some? ==> 8 * |r.value| == BitmapBits(|hashes|) && HoldsExactly(r.value, Elements(hashes))
    {
      if overflowed || |hashes| == 0 {
        return None;
      }
      var bits := BitmapBits(|hashes|);
      var summary: Bitmap := seq(bits / 8, _ => 0);
      for i := 0 to |hashes|
        invariant 8 * |summary| == bits
        invariant forall n: nat | n < bits :: Bit(summary, n) <==> Claims(Elements(hashes[..i]), n, bits)
      {
        var bit := hashes[i] % bits;
        ghost var before := summary;
        summary := summary[bit / 8 := WithBit(summary[bit / 8], bit % 8)];
        forall n: nat | n < bits ensures Bit(summary, n) <==> Claims(Elements(hashes[..i + 1]), n, bits) {
          BitSet(before, bit, n);
          ClaimsMore(hashes, i, n, bits);
        }
      }
      assert hashes[..|hashes|] == hashes;
      r := Some(summary);
    }
  }

  lemma {:induction false} ClaimsMore(hashes: seq<nat>, i: nat, n: nat, bits: nat)
    requires i < |hashes| && bits > 0
    ensures Claims(Elements(hashes[..i + 1]), n, bits)
       <==> Claims(Elements(hashes[..i]), n, bits) || hashes[i] % bits == n
  {
    var before, after := Elements(hashes[..i]), Elements(hashes[..i + 1]);
    assert hashes[..i + 1] == hashes[..i] + [hashes[i]];
    assert after == before + {hashes[i]};
    if Claims(before, n, bits) {
      var h :| h in before && h % bits == n;
      assert h in after;
    }
    if hashes[i] % bits == n {
      assert hashes[i] in after;
    }
  }
}

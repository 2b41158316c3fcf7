/** Palette.go: a value copy of libimagequant's liq_palette with a bounds-checked lookup. */
module Palettes {
  import opened Common

  /** Number of entry slots in a liq_palette. */
  const MAX_ENTRIES: nat := 256

  /** One palette entry, channel by channel. */
  datatype Color = Color(r: byte, g: byte, b: byte, a: byte)

  /** The zero Color{} the lookup returns on error. */
  const ZERO_COLOR: Color := Color(0, 0, 0, 0)

  /** The liq_palette struct: a count and a fixed block of entry slots. */
  datatype Palette = Palette(count: uint32, entries: seq<Color>)
  {
    /** The shape the library hands out: 256 slots, of which the first count are in use. */
    predicate Valid()
    {
      |entries| == MAX_ENTRIES && count <= MAX_ENTRIES
    }

    /** The colours in use, in palette order. */
    function Colors(): (cs: seq<Color>)
      requires Valid()
      ensures |cs| == count
      ensures forall i | 0 <= i < |cs| :: cs[i] == entries[i]
    {
      entries[..count]
    }

    /** Palette.Count: the stored count, widened to Go's uint. */
    function Count(): (c: nat)
      ensures c == count
    {
      count
    }

    /** Palette.At: the entry at idx, or the zero colour and ErrValueOutOfRange when idx is
        negative or not below Count(); the entries are only read once the check has passed.
        Since |Colors()| == Count(), the indices that succeed are exactly those of Colors(). */
    function At(idx: GoInt): (r: (Color, Option<Error>))
      requires Valid()
      ensures r.1 == None <==> 0 <= idx < Count()
      ensures r.1 != None ==> r.0 == ZERO_COLOR && r.1 == Some(ErrValueOutOfRange)
      ensures r.1 == None ==> r.0 == Colors()[idx]
    {
      if idx < 0 || idx >= Count() then
        (ZERO_COLOR, Some(ErrValueOutOfRange))
      else
        var e := entries[idx];
        (Color(e.r, e.g, e.b, e.a), None)
    }
  }

  /** The palette type a quantization result carries. */
  type LiqPalette = p: Palette | p.Valid()
    witness Palette(0, seq(MAX_ENTRIES, _ => ZERO_COLOR))

  /** A palette is determined by what Count and At report: two valid palettes that agree on
      Count and on every lookup hold the same colours in use. */
  lemma {:induction false} LookupsDetermineColors(p: Palette, q: Palette)
    requires p.Valid() && q.Valid()
    requires p.Count() == q.Count()
    requires forall i: GoInt | 0 <= i < p.Count() :: p.At(i) == q.At(i)
    ensures p.Colors() == q.Colors()
  {
    forall i | 0 <= i < p.count
      ensures p.Colors()[i] == q.Colors()[i]
    {
      var gi: GoInt := i;
      assert p.At(gi) == q.At(gi);
    }
  }
}

/**
  The per-pixel click counter. Each click bumps the count of one pixel,
  creating it at 1 on the first click there; nothing is ever removed. The
  counts are held by pixel; KeyedTable shows that this is the same table as
  the one the counter keeps under the string keys "x,y".
 */
module ClickCounter {
  import PixelKeys
  import KeyedTable
  import Colors

  class ClickMap {
    /** The count of every pixel clicked at least once. */
    var counts: map<(int, int), nat>

    /** Every pixel clicked so far, in order. */
    ghost var History: seq<(int, int)>

    /** Every stored count is at least 1, and each pixel's count is the
        number of clicks it has received. */
    ghost predicate Valid()
      reads this
    {
      && (forall p :: p in counts ==> counts[p] >= 1)
      && (forall x: int, y: int :: KeyedTable.Count(counts, x, y) == multiset(History)[(x, y)])
    }

    /** The count read for pixel (x, y): the stored value, or 0 when the
        pixel has never been clicked. */
    function CountAt(x: int, y: int): (n: nat)
      reads this
      requires Valid()
      ensures n == multiset(History)[(x, y)]
      ensures n == 0 <==> (x, y) !in counts
    {
      KeyedTable.Count(counts, x, y)
    }

    /** The table starts empty. */
    constructor ()
      ensures Valid()
      ensures counts == map[] && History == []
    {
      counts := map[];
      History := [];
    }

    /** One click at pixel (x, y); returns the new count there, which is the
        intensity the dot at (x, y) is drawn with. */
    method Click(x: int, y: int) returns (intensity: nat)
      requires Valid()
      modifies this
      ensures Valid()
      ensures History == old(History) + [(x, y)]
      ensures intensity == old(CountAt(x, y)) + 1 == CountAt(x, y)
      ensures counts == old(counts)[(x, y) := intensity]
      ensures counts.Keys == old(counts).Keys + {(x, y)}
      ensures forall u: int, v: int :: (u, v) != (x, y) ==> CountAt(u, v) == old(CountAt(u, v))
    {
      intensity := CountAt(x, y) + 1;
      counts := counts[(x, y) := intensity];
      History := History + [(x, y)];
      assert multiset(History) == multiset(old(History)) + multiset{(x, y)};
    }

    /** The colour of the dot drawn for pixel (x, y) once it has been
        clicked. */
    function DotColor(x: int, y: int): (c: Colors.Rgba)
      reads this
      requires Valid() && CountAt(x, y) >= 1
      ensures 25 <= c.r <= 255 && 0 <= c.g <= 229
      ensures c.b == 0 && c.alpha == Colors.DotAlpha
    {
      Colors.ClickedColor(CountAt(x, y));
      Colors.GetColor(CountAt(x, y))
    }
  }

  /** The pixels with an entry in the table are exactly the pixels that
      have been clicked. */
  lemma ClickedPixels(m: ClickMap)
    requires m.Valid()
    ensures forall p :: p in m.counts <==> p in m.History
  {
    forall p: (int, int)
      ensures p in m.counts <==> p in m.History
    {
      assert m.CountAt(p.0, p.1) == multiset(m.History)[p];
    }
  }

  /** A click, as Click leaves the table (after is the counts Click leaves,
      before the counts it started from), is the source's update of the
      string-keyed table: the count under "x,y" becomes the count read there
      (0 when absent) plus one, no other key changes, and reading "x,y" back
      gives the intensity the dot is drawn with. */
  lemma ClickOnStringTable(before: map<(int, int), nat>, after: map<(int, int), nat>, x: int, y: int, intensity: nat)
    requires intensity == KeyedTable.Count(before, x, y) + 1
    requires after == before[(x, y) := intensity]
    ensures var t := KeyedTable.Encode(before);
      KeyedTable.Encode(after) == t[PixelKeys.Key(x, y) := KeyedTable.Lookup(t, x, y) + 1]
    ensures KeyedTable.Lookup(KeyedTable.Encode(after), x, y) == intensity
  {
    KeyedTable.SourceUpdate(before, x, y);
    KeyedTable.EncodeLookup(after, x, y);
  }

  /** Two clicks at one pixel and one at another leave counts 2 and 1 and a
      table of two keys. */
  method ClickScenario(x: int, y: int, u: int, v: int)
    requires (u, v) != (x, y)
  {
    var m := new ClickMap();
    var a := m.Click(x, y);
    var b := m.Click(u, v);
    var before := m.counts;
    var c := m.Click(x, y);
    assert a == 1 && b == 1 && c == 2;
    assert m.counts.Keys == {(x, y), (u, v)};
    ClickOnStringTable(before, m.counts, x, y, c);
    assert KeyedTable.Lookup(KeyedTable.Encode(m.counts), x, y) == 2;
  }
}

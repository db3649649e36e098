/**
  The click table as the source stores it: a dictionary whose keys are the
  strings "x,y". Because that encoding is injective, such a table is the
  same thing as a map from pixel pairs to counts; Encode turns the pair-keyed
  table into the string-keyed one, and the lemmas here show that a lookup or
  an update on one is the same lookup or update on the other.
 */
module KeyedTable {
  import opened PixelKeys

  /** The string-keyed table holding the counts of m. */
  function Encode(m: map<(int, int), nat>): (t: map<string, nat>)
    ensures forall p :: p in m ==> Key(p.0, p.1) in t && t[Key(p.0, p.1)] == m[p]
    ensures forall k :: k in t ==> exists p :: p in m && Key(p.0, p.1) == k
  {
    EncodeFacts(m);
    Rekey(m)
  }

  /** The comprehension behind Encode; keys never collide, by KeyInjective. */
  function Rekey(m: map<(int, int), nat>): map<string, nat> {
    KeyInjectiveAll();
    map p | p in m :: Key(p.0, p.1) := m[p]
  }

  lemma EncodeFacts(m: map<(int, int), nat>)
    ensures var t := Rekey(m);
      && (forall p :: p in m ==> Key(p.0, p.1) in t && t[Key(p.0, p.1)] == m[p])
      && (forall k :: k in t ==> exists p :: p in m && Key(p.0, p.1) == k)
  {
    KeyInjectiveAll();
  }

  /** The count the source reads for pixel (x, y) from a string-keyed table:
      the stored value, or 0 when the key is absent (`t[key] || 0`). */
  function Lookup(t: map<string, nat>, x: int, y: int): (n: nat)
    ensures Key(x, y) in t ==> n == t[Key(x, y)]
    ensures Key(x, y) !in t ==> n == 0
  {
    var k := Key(x, y);
    if k in t then t[k] else 0
  }

  /** The count of pixel (x, y) in a pair-keyed table, 0 when absent. */
  function Count(m: map<(int, int), nat>, x: int, y: int): nat {
    if (x, y) in m then m[(x, y)] else 0
  }

  lemma KeyInjectiveAll()
    ensures forall p: (int, int), q: (int, int) :: Key(p.0, p.1) == Key(q.0, q.1) ==> p == q
  {
    forall p: (int, int), q: (int, int) | Key(p.0, p.1) == Key(q.0, q.1)
      ensures p == q
    {
      KeyInjective(p.0, p.1, q.0, q.1);
    }
  }

  /** Reading pixel (x, y) from the string-keyed table gives its count in
      the pair-keyed one, 0 for a pixel never clicked. */
  lemma EncodeLookup(m: map<(int, int), nat>, x: int, y: int)
    ensures Lookup(Encode(m), x, y) == Count(m, x, y)
  {
    var t, k := Encode(m), Key(x, y);
    if k in t {
      var p :| p in m && Key(p.0, p.1) == k;
      KeyInjective(p.0, p.1, x, y);
    }
  }

  /** Storing count n for pixel (x, y) in the pair-keyed table is storing n
      under the key "x,y" in the string-keyed one. */
  lemma EncodeUpdate(m: map<(int, int), nat>, x: int, y: int, n: nat)
    ensures Encode(m[(x, y) := n]) == Encode(m)[Key(x, y) := n]
  {
    var lhs, rhs := Encode(m[(x, y) := n]), Encode(m)[Key(x, y) := n];
    forall k
      ensures k in lhs <==> k in rhs
      ensures k in lhs ==> lhs[k] == rhs[k]
    {
      EncodeUpdateAt(m, x, y, n, k);
    }
  }

  /** EncodeUpdate at a single key k. */
  lemma EncodeUpdateAt(m: map<(int, int), nat>, x: int, y: int, n: nat, k: string)
    ensures var lhs, rhs := Encode(m[(x, y) := n]), Encode(m)[Key(x, y) := n];
      && (k in lhs <==> k in rhs)
      && (k in lhs ==> lhs[k] == rhs[k])
  {
    var m' := m[(x, y) := n];
    if k in Encode(m') {
      var p :| p in m' && Key(p.0, p.1) == k;
      EncodeUpdateFrom(m, x, y, n, p);
    }
    if k in Encode(m) && k != Key(x, y) {
      var p :| p in m && Key(p.0, p.1) == k;
      assert p in m';
    }
  }

  /** The key of a pixel p of the updated table is in the updated
      string-keyed table, with the same count. */
  lemma EncodeUpdateFrom(m: map<(int, int), nat>, x: int, y: int, n: nat, p: (int, int))
    requires p in m[(x, y) := n]
    ensures var k := Key(p.0, p.1);
      var rhs := Encode(m)[Key(x, y) := n];
      k in rhs && rhs[k] == m[(x, y) := n][p]
  {
    KeyInjective(p.0, p.1, x, y);
  }

  /** One click as the counter performs it on the string-keyed table,
      `t[key] = (t[key] || 0) + 1`, is one click on the pair-keyed table:
      the count of (x, y) goes up by one and nothing else changes. */
  lemma SourceUpdate(m: map<(int, int), nat>, x: int, y: int)
    ensures var t := Encode(m);
      Encode(m[(x, y) := Count(m, x, y) + 1]) == t[Key(x, y) := Lookup(t, x, y) + 1]
  {
    var n := Count(m, x, y) + 1;
    EncodeLookup(m, x, y);
    EncodeUpdate(m, x, y, n);
    assert Lookup(Encode(m), x, y) + 1 == n;
  }
}

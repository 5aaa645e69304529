/** ak24-data-analysis/masterDictionaryBuilder.py: the master dictionary maps
    each column name to its list of values, one per processed session; a
    column missing from a session is padded with -1. The global dictionary
    becomes a parameter and a result; keys and values are generic. */
module MasterDictionary {
  /** A list entry: a value, or the -1 padding marker. */
  datatype Cell<V> = Pad | Val(v: V)

  /** `[-1] * n`; a negative count repeats nothing. */
  function Pads<V>(n: int): (r: seq<Cell<V>>)
    ensures |r| == if n <= 0 then 0 else n
    ensures forall j :: 0 <= j < |r| ==> r[j] == Pad
    decreases n
  {
    if n <= 0 then [] else Pads(n - 1) + [Pad]
  }

  /** `padded` is `original` followed only by padding. */
  predicate PaddedFrom<V(==)>(original: seq<Cell<V>>, padded: seq<Cell<V>>) {
    |original| <= |padded| && padded[..|original|] == original
    && forall j :: |original| <= j < |padded| ==> padded[j] == Pad
  }

  predicate SameLengths<K, V>(m: map<K, seq<Cell<V>>>) {
    forall k1, k2 :: k1 in m && k2 in m ==> |m[k1]| == |m[k2]|
  }

  /** Every list has length h, and there is at least one. */
  predicate Rectangular<K, V>(m: map<K, seq<Cell<V>>>, h: int) {
    m != map[] && forall k :: k in m ==> |m[k]| == h
  }

  // ---------------------------------------------------------- longest list

  /** x is -1 for an empty dictionary, else the length of a longest list. */
  predicate IsMaxLength<K, V>(m: map<K, seq<Cell<V>>>, x: int) {
    (m == map[] ==> x == -1)
    && (forall k :: k in m ==> |m[k]| <= x)
    && (m != map[] ==> exists k :: k in m && |m[k]| == x)
  }

  lemma {:induction false} MaxLengthExists<K, V>(m: map<K, seq<Cell<V>>>)
    ensures exists x :: IsMaxLength(m, x)
    decreases m.Keys
  {
    if m == map[] {
      assert IsMaxLength(m, -1);
    } else {
      var k :| k in m;
      var rest := m - {k};
      MaxLengthExists(rest);
      var y :| IsMaxLength(rest, y);
      var x := if |m[k]| > y then |m[k]| else y;
      forall k' | k' in m
        ensures |m[k']| <= x
      {
        if k' != k {
          assert k' in rest;
        }
      }
      if x != |m[k]| {
        assert rest != map[];
        var k' :| k' in rest && |rest[k']| == y;
        assert k' in m && |m[k']| == x;
      }
      assert IsMaxLength(m, x);
    }
  }

  lemma MaxLengthUnique<K, V>(m: map<K, seq<Cell<V>>>, x: int, y: int)
    requires IsMaxLength(m, x) && IsMaxLength(m, y)
    ensures x == y
  {
    if m != map[] {
      var kx :| kx in m && |m[kx]| == x;
      var ky :| ky in m && |m[ky]| == y;
    }
  }

  ghost function MaxLength<K, V>(m: map<K, seq<Cell<V>>>): (x: int)
    ensures IsMaxLength(m, x)
  {
    MaxLengthExists(m);
    var x :| IsMaxLength(m, x); x
  }

  /** `find_max_values_array_length`. */
  method FindMaxValuesArrayLength<K, V>(master: map<K, seq<Cell<V>>>) returns (maxLength: int)
    ensures master == map[] ==> maxLength == -1
    ensures forall k :: k in master ==> |master[k]| <= maxLength
    ensures master != map[] ==> exists k :: k in master && |master[k]| == maxLength
    ensures maxLength == MaxLength(master)
  {
    maxLength := -1;
    var rest := master.Keys;
    while rest != {}
      invariant rest <= master.Keys
      invariant rest != master.Keys ==> maxLength >= 0
      invariant forall k :: k in master && k !in rest ==> |master[k]| <= maxLength
      invariant maxLength == -1 || exists k :: k in master && |master[k]| == maxLength
      decreases rest
    {
      var key :| key in rest;
      var valueLength := |master[key]|;
      if valueLength > maxLength {
        maxLength := valueLength;
      }
      rest := rest - {key};
    }
    if master != map[] {
      assert master.Keys != {};
    }
    MaxLengthUnique(master, maxLength, MaxLength(master));
  }

  // -------------------------------------------------------------- padding

  /** `fill_in_empty_values`: pads every list with -1 up to the longest. */
  method FillInEmptyValues<K, V(==)>(master: map<K, seq<Cell<V>>>) returns (filled: map<K, seq<Cell<V>>>)
    ensures filled.Keys == master.Keys
    ensures forall k :: k in master ==> PaddedFrom(master[k], filled[k]) && |filled[k]| == MaxLength(master)
    ensures SameLengths(filled)
    ensures master != map[] ==> exists k :: k in master && filled[k] == master[k]
  {
    var arrayLengthSize := FindMaxValuesArrayLength(master);
    filled := master;
    var rest := master.Keys;
    while rest != {}
      invariant rest <= master.Keys
      invariant filled.Keys == master.Keys
      invariant forall k :: k in rest ==> filled[k] == master[k]
      invariant forall k :: k in master && k !in rest ==>
                  PaddedFrom(master[k], filled[k]) && |filled[k]| == arrayLengthSize
      decreases rest
    {
      var key :| key in rest;
      var values := filled[key];
      while |values| < arrayLengthSize
        invariant PaddedFrom(master[key], values)
        invariant |values| <= arrayLengthSize
        decreases arrayLengthSize - |values|
      {
        values := values + [Pad];
      }
      filled := filled[key := values];
      rest := rest - {key};
    }
    if master != map[] {
      var k :| k in master && |master[k]| == arrayLengthSize;
      assert filled[k] == filled[k][..|master[k]|];
    }
  }

  // --------------------------------------------------------------- update

  /** The list a key holds after the loop of `update_master_dictionary` and
      before padding, when `size` is the longest list length found first. */
  ghost function Expected<K, V>(master: map<K, seq<Cell<V>>>, combined: map<K, V>, size: int, k: K): seq<Cell<V>>
    requires k in master || k in combined
  {
    if k !in combined then master[k]
    else if k !in master && size != 0 then Pads(size) + [Val(combined[k])]
    else if size == 0 then [Val(combined[k])]
    else master[k] + [Val(combined[k])]
  }

  /** `update_master_dictionary`: adds one value per key of `combined`, then
      pads every list to the same length. */
  method UpdateMasterDictionary<K, V(==)>(master: map<K, seq<Cell<V>>>, combined: map<K, V>)
    returns (updated: map<K, seq<Cell<V>>>)
    ensures updated.Keys == master.Keys + combined.Keys
    ensures SameLengths(updated)
    ensures forall k :: k in master && k !in combined ==> PaddedFrom(master[k], updated[k])
    ensures MaxLength(master) != 0 ==>
              forall k :: k in master && k in combined ==> PaddedFrom(master[k] + [Val(combined[k])], updated[k])
    ensures MaxLength(master) != 0 ==>
              forall k :: k !in master && k in combined ==>
                PaddedFrom(Pads(MaxLength(master)) + [Val(combined[k])], updated[k])
    ensures MaxLength(master) == 0 ==> forall k :: k in combined ==> PaddedFrom([Val(combined[k])], updated[k])
    ensures master == map[] ==> forall k :: k in combined ==> updated[k] == [Val(combined[k])]
    ensures forall h :: h >= 1 && Rectangular(master, h) && combined != map[] ==>
              Rectangular(updated, h + 1)
              && forall k :: k in updated ==>
                   updated[k][..h] == (if k in master then master[k] else Pads(h))
                   && updated[k][h] == (if k in combined then Val(combined[k]) else Pad)
  {
    var arrayLengthSize := FindMaxValuesArrayLength(master);
    var m := AddCombinedValues(master, combined, arrayLengthSize);
    updated := FillInEmptyValues(m);
    UpdateCases(master, combined, m, updated, arrayLengthSize);
    RectangularUpdate(master, combined, m, updated, arrayLengthSize);
  }

  /** The loop of `update_master_dictionary` over the combined entries. */
  method AddCombinedValues<K, V>(master: map<K, seq<Cell<V>>>, combined: map<K, V>, arrayLengthSize: int)
    returns (m: map<K, seq<Cell<V>>>)
    ensures m.Keys == master.Keys + combined.Keys
    ensures forall k :: k in m ==> m[k] == Expected(master, combined, arrayLengthSize, k)
  {
    m := master;
    var rest := combined.Keys;
    while rest != {}
      invariant rest <= combined.Keys
      invariant m.Keys == master.Keys + (combined.Keys - rest)
      invariant forall k :: k in m ==>
                  m[k] == if k in rest then master[k] else Expected(master, combined, arrayLengthSize, k)
      decreases rest
    {
      var key :| key in rest;
      var value := combined[key];
      if key !in m && arrayLengthSize != 0 {
        m := m[key := Pads(arrayLengthSize) + [Val(value)]];
      } else if arrayLengthSize == 0 {
        m := m[key := [Val(value)]];
      } else {
        m := m[key := m[key] + [Val(value)]];
      }
      rest := rest - {key};
    }
  }

  /** What each key holds after the update, read off the list the loop left. */
  lemma UpdateCases<K, V>(master: map<K, seq<Cell<V>>>, combined: map<K, V>,
                          m: map<K, seq<Cell<V>>>, updated: map<K, seq<Cell<V>>>, size: int)
    requires size == MaxLength(master)
    requires m.Keys == master.Keys + combined.Keys
    requires forall k :: k in m ==> m[k] == Expected(master, combined, size, k)
    requires updated.Keys == m.Keys
    requires forall k :: k in m ==> PaddedFrom(m[k], updated[k]) && |updated[k]| == MaxLength(m)
    ensures forall k :: k in master && k !in combined ==> PaddedFrom(master[k], updated[k])
    ensures size != 0 ==>
              forall k :: k in master && k in combined ==> PaddedFrom(master[k] + [Val(combined[k])], updated[k])
    ensures size != 0 ==>
              forall k :: k !in master && k in combined ==> PaddedFrom(Pads(size) + [Val(combined[k])], updated[k])
    ensures size == 0 ==> forall k :: k in combined ==> PaddedFrom([Val(combined[k])], updated[k])
    ensures master == map[] ==> forall k :: k in combined ==> updated[k] == [Val(combined[k])]
  {
    if master == map[] {
      forall k | k in combined
        ensures updated[k] == [Val(combined[k])]
      {
        assert m[k] == [Val(combined[k])];
        assert forall k' :: k' in m ==> |m[k']| == 1;
        assert |updated[k]| == 1;
      }
    }
  }

  /** The rectangular case of the update: one new row, holding each
      combined value and -1 for every other column. */
  lemma RectangularUpdate<K, V>(master: map<K, seq<Cell<V>>>, combined: map<K, V>,
                                    m: map<K, seq<Cell<V>>>, updated: map<K, seq<Cell<V>>>, size: int)
    requires IsMaxLength(master, size)
    requires m.Keys == master.Keys + combined.Keys
    requires forall k :: k in m ==> m[k] == Expected(master, combined, size, k)
    requires updated.Keys == m.Keys
    requires forall k :: k in m ==> PaddedFrom(m[k], updated[k])
    requires SameLengths(updated)
    requires m != map[] ==> exists k :: k in m && updated[k] == m[k]
    ensures forall h :: h >= 1 && Rectangular(master, h) && combined != map[] ==>
              Rectangular(updated, h + 1)
              && forall k :: k in updated ==>
                   updated[k][..h] == (if k in master then master[k] else Pads(h))
                   && updated[k][h] == (if k in combined then Val(combined[k]) else Pad)
  {
    forall h | h >= 1 && Rectangular(master, h) && combined != map[]
      ensures Rectangular(updated, h + 1)
      ensures forall k :: k in updated ==>
                updated[k][..h] == (if k in master then master[k] else Pads(h))
                && updated[k][h] == (if k in combined then Val(combined[k]) else Pad)
    {
      var k0 :| k0 in master;
      assert size == h;
      var c :| c in combined;
      assert |m[c]| == h + 1;
      var u :| u in m && updated[u] == m[u];
      assert |updated[u]| == h + 1 by {
        assert |m[u]| <= h + 1;
        assert |updated[u]| == |updated[c]| >= h + 1;
      }
      forall k | k in updated
        ensures |updated[k]| == h + 1
        ensures updated[k][..h] == (if k in master then master[k] else Pads(h))
        ensures updated[k][h] == (if k in combined then Val(combined[k]) else Pad)
      {
        assert |updated[k]| == |updated[u]|;
        var prefix := m[k];
        assert updated[k][..|prefix|] == prefix;
        if k in combined {
          assert |prefix| == h + 1;
          assert updated[k] == prefix;
        } else {
          assert prefix == master[k] && |prefix| == h;
          assert updated[k][h] == Pad;
        }
      }
    }
  }
}

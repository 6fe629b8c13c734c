/**
 What reading entries into a map and elements into a set makes of them, in any order and with
 any repetitions: the containers stay ordered and hold what was read last, under the key that
 was read first.
 */
module CodecMaps {
  import opened Ordering
  import opened Streams
  import opened Codec

  datatype Search = Found(entry: Value) | Missing

  /** The first entry whose key is equivalent to c. */
  function Find(less: (Value, Value) -> bool, entries: seq<Value>, c: Value): (f: Search)
    ensures f.Found? ==> f.entry in entries && f.entry.PairV?
  {
    if entries == [] then Missing
    else if entries[0].PairV? && !less(entries[0].fst, c) && !less(c, entries[0].fst) then Found(entries[0])
    else Find(less, entries[1..], c)
  }

  /** The last one. */
  function FindLast(less: (Value, Value) -> bool, entries: seq<Value>, c: Value): (f: Search)
    ensures f.Found? ==> f.entry in entries && f.entry.PairV?
  {
    if entries == [] then Missing
    else
      var n := |entries| - 1;
      if entries[n].PairV? && !less(entries[n].fst, c) && !less(c, entries[n].fst) then Found(entries[n])
      else FindLast(less, entries[..n], c)
  }

  predicate AllPairs(entries: seq<Value>) {
    forall x :: x in entries ==> x.PairV?
  }

  /** The entries of a map: their keys ascend. */
  ghost predicate IsMap(less: (Value, Value) -> bool, entries: seq<Value>) {
    && AllPairs(entries)
    && forall i, j :: 0 <= i < j < |entries| ==>
         entries[i].PairV? && entries[j].PairV? && less(entries[i].fst, entries[j].fst)
  }

  lemma IsMapTail(less: (Value, Value) -> bool, entries: seq<Value>)
    requires IsMap(less, entries) && entries != []
    ensures IsMap(less, entries[1..]) && entries[0].PairV?
    ensures forall x :: x in entries[1..] ==> x.PairV? && less(entries[0].fst, x.fst)
  {
    assert entries[0] in entries;
  }

  lemma IsMapCons(less: (Value, Value) -> bool, x: Value, entries: seq<Value>)
    requires IsMap(less, entries) && x.PairV?
    requires forall y :: y in entries ==> y.PairV? && less(x.fst, y.fst)
    ensures IsMap(less, [x] + entries)
  {
  }

  /** The keys after an insertion are those before and d. */
  lemma {:induction false} InsertKeys(less: (Value, Value) -> bool, entries: seq<Value>, d: Value, r: Value, x: Value)
    requires AllPairs(entries) && x in Insert(less, entries, d, r)
    ensures x.PairV? && (x.fst == d || exists y :: y in entries && y.PairV? && y.fst == x.fst)
  {
    if entries != [] {
      assert entries[0] in entries;
      assert forall y :: y in entries[1..] ==> y in entries;
      if less(entries[0].fst, d) && !less(d, entries[0].fst) && x != entries[0] {
        InsertKeys(less, entries[1..], d, r, x);
      }
    }
  }

  lemma {:induction false} InsertIsMap(less: (Value, Value) -> bool, entries: seq<Value>, d: Value, r: Value)
    requires StrictWeakOrder(less) && IsMap(less, entries)
    ensures IsMap(less, Insert(less, entries, d, r))
  {
    if entries != [] {
      var e, others := entries[0], entries[1..];
      IsMapTail(less, entries);
      if less(d, e.fst) {
        forall y | y in entries ensures y.PairV? && less(d, y.fst) {
          if y != e {
            assert y in others;
            assert Laws(less, d, e.fst, y.fst);
          }
        }
        IsMapCons(less, PairV(d, r), entries);
      } else if less(e.fst, d) {
        InsertIsMap(less, others, d, r);
        forall y | y in Insert(less, others, d, r) ensures y.PairV? && less(e.fst, y.fst) {
          InsertKeys(less, others, d, r, y);
        }
        IsMapCons(less, e, Insert(less, others, d, r));
      } else {
        IsMapCons(less, PairV(e.fst, r), others);
      }
    }
  }

  /** A key before the first one is missing. */
  lemma {:induction false} FindBefore(less: (Value, Value) -> bool, entries: seq<Value>, c: Value)
    requires forall x :: x in entries ==> x.PairV? && less(c, x.fst)
    ensures Find(less, entries, c) == Missing
  {
    if entries != [] {
      FindBefore(less, entries[1..], c);
    }
  }

  /** Equivalent keys are found together. */
  lemma {:induction false} FindEquivalent(less: (Value, Value) -> bool, entries: seq<Value>, c: Value, d: Value)
    requires StrictWeakOrder(less) && Equivalent(less, c, d)
    ensures Find(less, entries, c) == Find(less, entries, d)
  {
    if entries != [] {
      if entries[0].PairV? {
        var k := entries[0].fst;
        assert Laws(less, k, c, d) && Laws(less, k, d, c);
      }
      FindEquivalent(less, entries[1..], c, d);
    }
  }

  /** item[d] = r: any key equivalent to d has the value r then, under the key it had, and no other key is affected. */
  lemma {:induction false} FindInsert(less: (Value, Value) -> bool, entries: seq<Value>, d: Value, r: Value, c: Value)
    requires StrictWeakOrder(less) && IsMap(less, entries)
    ensures Find(less, Insert(less, entries, d, r), c) ==
            if Equivalent(less, c, d) then
              Found(PairV(if Find(less, entries, d).Found? then Find(less, entries, d).entry.fst else d, r))
            else Find(less, entries, c)
  {
    var result := Insert(less, entries, d, r);
    if entries == [] {
      assert result == [PairV(d, r)] && result[1..] == [];
    } else {
      var e, others := entries[0], entries[1..];
      IsMapTail(less, entries);
      assert Laws(less, e.fst, d, c) && Laws(less, e.fst, c, d) && Laws(less, c, d, e.fst) && Laws(less, d, c, e.fst);
      assert Laws(less, c, e.fst, d) && Laws(less, d, e.fst, d) && Laws(less, d, e.fst, c);
      if less(d, e.fst) {
        assert result == [PairV(d, r)] + entries && result[1..] == entries;
        forall y | y in entries ensures y.PairV? && less(d, y.fst) {
          if y != e {
            assert y in others;
            assert Laws(less, d, e.fst, y.fst);
          }
        }
        FindBefore(less, entries, d);
      } else if less(e.fst, d) {
        FindInsert(less, others, d, r, c);
        assert result == [e] + Insert(less, others, d, r) && result[1..] == Insert(less, others, d, r);
      } else {
        assert result == [PairV(e.fst, r)] + others && result[1..] == others;
      }
    }
  }

  // ---------- reading entries ----------

  lemma {:induction false} FindLastCons(less: (Value, Value) -> bool, added: seq<Value>, c: Value)
    requires added != [] && AllPairs(added)
    ensures FindLast(less, added, c) ==
            if FindLast(less, added[1..], c).Found? then FindLast(less, added[1..], c)
            else if Equivalent(less, added[0].fst, c) then Found(added[0]) else Missing
    decreases |added|
  {
    var n := |added| - 1;
    if n == 0 {
      assert added[..0] == [] && added[1..] == [];
    } else {
      assert added[..n][0] == added[0] && added[..n][1..] == added[1..][..n - 1];
      assert added[1..][n - 1] == added[n];
      assert added[0] in added;
      FindLastCons(less, added[..n], c);
    }
  }

  lemma {:induction false} FoundFromBothEnds(less: (Value, Value) -> bool, added: seq<Value>, c: Value)
    requires AllPairs(added)
    ensures Find(less, added, c).Found? <==> FindLast(less, added, c).Found?
  {
    if added != [] {
      assert added[0] in added;
      assert forall x :: x in added[1..] ==> x in added;
      FindLastCons(less, added, c);
      FoundFromBothEnds(less, added[1..], c);
    }
  }

  /** Putting entries into a map one after another, in any order and with any repetitions. */
  lemma {:induction false} InsertEntriesMeaning(
    less: (Value, Value) -> bool, entries: seq<Value>, added: seq<Value>, c: Value)
    requires StrictWeakOrder(less) && IsMap(less, entries) && AllPairs(added)
    ensures IsMap(less, InsertEntries(less, entries, added))
    ensures var before, first, last := Find(less, entries, c), Find(less, added, c), FindLast(less, added, c);
            && (first.Found? <==> last.Found?)
            && Find(less, InsertEntries(less, entries, added), c) ==
               if last.Missing? then before
               else Found(PairV(if before.Found? then before.entry.fst else first.entry.fst, last.entry.snd))
    decreases |added|
  {
    hide Insert;
    FoundFromBothEnds(less, added, c);
    if added != [] {
      var x, others := added[0], added[1..];
      assert x in added && forall y :: y in others ==> y in added;
      var next := Insert(less, entries, x.fst, x.snd);
      assert InsertEntries(less, entries, added) == InsertEntries(less, next, others);
      hide InsertEntries;
      InsertIsMap(less, entries, x.fst, x.snd);
      FindInsert(less, entries, x.fst, x.snd, c);
      if Equivalent(less, c, x.fst) {
        FindEquivalent(less, entries, c, x.fst);
      }
      FindLastCons(less, added, c);
      InsertEntriesMeaning(less, next, others, c);
    }
  }

  /** A map that is read holds, under the first of equivalent keys, the value of the last. */
  lemma ReadMapMeaning(less: (Value, Value) -> bool, added: seq<Value>, c: Value)
    requires StrictWeakOrder(less) && AllPairs(added)
    ensures var m := InsertEntries(less, [], added);
            && IsMap(less, m)
            && (Find(less, added, c).Found? <==> FindLast(less, added, c).Found?)
            && Find(less, m, c) ==
               if Find(less, added, c).Missing? then Missing
               else Found(PairV(Find(less, added, c).entry.fst, FindLast(less, added, c).entry.snd))
  {
    InsertEntriesMeaning(less, [], added, c);
  }

  // ---------- sets ----------

  ghost predicate IsSet(less: (Value, Value) -> bool, elements: seq<Value>) {
    forall i, j :: 0 <= i < j < |elements| ==> less(elements[i], elements[j])
  }

  /** The first element equivalent to c. */
  function FindElement(less: (Value, Value) -> bool, elements: seq<Value>, c: Value): Search {
    if elements == [] then Missing
    else if !less(elements[0], c) && !less(c, elements[0]) then Found(elements[0])
    else FindElement(less, elements[1..], c)
  }

  lemma IsSetTail(less: (Value, Value) -> bool, elements: seq<Value>)
    requires IsSet(less, elements) && elements != []
    ensures IsSet(less, elements[1..])
    ensures forall x :: x in elements[1..] ==> less(elements[0], x)
  {
  }

  lemma IsSetCons(less: (Value, Value) -> bool, x: Value, elements: seq<Value>)
    requires IsSet(less, elements)
    requires forall y :: y in elements ==> less(x, y)
    ensures IsSet(less, [x] + elements)
  {
  }

  lemma {:induction false} InsertElementKeys(
    less: (Value, Value) -> bool, elements: seq<Value>, d: Value, x: Value)
    requires x in InsertElement(less, elements, d)
    ensures x == d || x in elements
  {
    if elements != [] && !less(d, elements[0]) && less(elements[0], d) && x != elements[0] {
      InsertElementKeys(less, elements[1..], d, x);
    }
  }

  lemma {:induction false} InsertElementIsSet(less: (Value, Value) -> bool, elements: seq<Value>, d: Value)
    requires StrictWeakOrder(less) && IsSet(less, elements)
    ensures IsSet(less, InsertElement(less, elements, d))
  {
    if elements != [] {
      var e, others := elements[0], elements[1..];
      IsSetTail(less, elements);
      if less(d, e) {
        forall y | y in elements ensures less(d, y) {
          if y != e {
            assert y in others;
            assert Laws(less, d, e, y);
          }
        }
        IsSetCons(less, d, elements);
      } else if less(e, d) {
        InsertElementIsSet(less, others, d);
        forall y | y in InsertElement(less, others, d) ensures less(e, y) {
          InsertElementKeys(less, others, d, y);
        }
        IsSetCons(less, e, InsertElement(less, others, d));
      }
    }
  }

  lemma {:induction false} FindElementBefore(less: (Value, Value) -> bool, elements: seq<Value>, c: Value)
    requires forall x :: x in elements ==> less(c, x)
    ensures FindElement(less, elements, c) == Missing
  {
    if elements != [] {
      FindElementBefore(less, elements[1..], c);
    }
  }

  lemma {:induction false} FindElementEquivalent(
    less: (Value, Value) -> bool, elements: seq<Value>, c: Value, d: Value)
    requires StrictWeakOrder(less) && Equivalent(less, c, d)
    ensures FindElement(less, elements, c) == FindElement(less, elements, d)
  {
    if elements != [] {
      assert Laws(less, elements[0], c, d) && Laws(less, elements[0], d, c);
      FindElementEquivalent(less, elements[1..], c, d);
    }
  }

  /** item.insert(d): an element equivalent to d that was there stays, and no other one is affected. */
  lemma {:induction false} FindInsertElement(
    less: (Value, Value) -> bool, elements: seq<Value>, d: Value, c: Value)
    requires StrictWeakOrder(less) && IsSet(less, elements)
    ensures FindElement(less, InsertElement(less, elements, d), c) ==
            if Equivalent(less, c, d) && FindElement(less, elements, c).Missing? then Found(d)
            else FindElement(less, elements, c)
  {
    var result := InsertElement(less, elements, d);
    if elements == [] {
      assert result == [d] && result[1..] == [];
    } else {
      var e, others := elements[0], elements[1..];
      IsSetTail(less, elements);
      assert Laws(less, e, d, c) && Laws(less, e, c, d) && Laws(less, c, d, e) && Laws(less, d, c, e);
      assert Laws(less, c, e, d) && Laws(less, d, e, d) && Laws(less, d, e, c);
      if less(d, e) {
        assert result == [d] + elements && result[1..] == elements;
        forall y | y in elements ensures less(d, y) {
          if y != e {
            assert y in others;
            assert Laws(less, d, e, y);
          }
        }
        FindElementBefore(less, elements, d);
        if Equivalent(less, c, d) {
          FindElementEquivalent(less, elements, c, d);
        }
      } else if less(e, d) {
        FindInsertElement(less, others, d, c);
        assert result == [e] + InsertElement(less, others, d) && result[1..] == InsertElement(less, others, d);
      }
    }
  }

  /** A set that is read is ordered and holds the first of equivalent elements. */
  lemma {:induction false} ReadSetMeaning(
    less: (Value, Value) -> bool, elements: seq<Value>, added: seq<Value>, c: Value)
    requires StrictWeakOrder(less) && IsSet(less, elements)
    ensures IsSet(less, InsertElements(less, elements, added))
    ensures FindElement(less, InsertElements(less, elements, added), c) ==
            if FindElement(less, elements, c).Found? then FindElement(less, elements, c)
            else FindElement(less, added, c)
    decreases |added|
  {
    hide InsertElement;
    if added != [] {
      var next := InsertElement(less, elements, added[0]);
      InsertElementIsSet(less, elements, added[0]);
      FindInsertElement(less, elements, added[0], c);
      ReadSetMeaning(less, next, added[1..], c);
    }
  }
}

/**
 * The per-class coverage store (`CoverageData`): a map from a class's VM
 * name to its pending list of snapshots, with the stamp-reset rule on
 * insertion, consolidation on read, merging of whole stores and the
 * external form.
 */
module CoverageStore {
  import opened Wrappers
  import opened CoverageMatrix
  import opened Holders
  import opened Codec

  /** A class descriptor, reduced to the VM name it resolves to. */
  datatype ClassDescriptor = ClassDescriptor(classVMName: string)

  /** `getCoverage(null)` throws IllegalArgumentException. */
  datatype StoreError = IllegalArgument

  // ------------------------------------------------------ the store's state

  /** The documented invariant of the map: every pending list is non-empty
    * and all its holders carry the stamp of its first one. */
  predicate StampInvariant(m: StoreMap)
  {
    forall k :: k in m ==> |m[k]| > 0 && forall h :: h in m[k] ==> h.stamp == m[k][0].stamp
  }

  /** The pending list under `k`, empty when there is none. */
  function Pending(m: StoreMap, k: string): seq<Holder>
  {
    if k in m then m[k] else []
  }

  // ------------------------------------------------------------- insertion

  /** `addCoverage` on one list: a holder whose stamp differs from the first
    * holder's clears the list first; then the holder is appended. */
  function AddToList(list: seq<Holder>, h: Holder): (r: seq<Holder>)
  {
    var kept := if |list| > 0 && list[0].stamp != h.stamp then [] else list;
    kept + [h]
  }

  /** One `addCoverage` keeps the whole list or drops the whole list, and
    * always ends it with the new holder; a list of one stamp becomes a list
    * of the new holder's stamp. */
  lemma AddToListCases(list: seq<Holder>, h: Holder)
    ensures var r := AddToList(list, h);
      && (r == list + [h] || r == [h])
      && (|list| > 0 && list[0].stamp == h.stamp ==> r == list + [h])
      && ((forall i :: 0 <= i < |list| ==> list[i].stamp == list[0].stamp) ==>
            forall i :: 0 <= i < |r| ==> r[i].stamp == h.stamp)
  {
  }

  /** The map after `addCoverage(k, h)`. */
  function Added(m: StoreMap, k: string, h: Holder): (r: StoreMap)
    ensures r.Keys == m.Keys + {k}
    ensures forall k' :: k' in m && k' != k ==> r[k'] == m[k']
    ensures k in m && |m[k]| > 0 && m[k][0].stamp != h.stamp ==> r[k] == [h]
    ensures (k !in m || |m[k]| == 0 || m[k][0].stamp == h.stamp) ==> r[k] == Pending(m, k) + [h]
    ensures StampInvariant(m) ==> StampInvariant(r) && forall g :: g in r[k] ==> g.stamp == h.stamp
  {
    m[k := AddToList(Pending(m, k), h)]
  }

  /** `addCoverage` applied to each holder of `hs`, in order. */
  function AddAll(list: seq<Holder>, hs: seq<Holder>): (r: seq<Holder>)
    decreases |hs|
  {
    if hs == [] then list else AddToList(AddAll(list, hs[..|hs| - 1]), hs[|hs| - 1])
  }

  /** Adding no holders changes nothing; otherwise the last holder added ends
    * the list, and every holder of the result was already pending or added. */
  lemma {:induction false} AddAllEnds(list: seq<Holder>, hs: seq<Holder>)
    ensures hs == [] ==> AddAll(list, hs) == list
    ensures hs != [] ==> |AddAll(list, hs)| > 0 && AddAll(list, hs)[|AddAll(list, hs)| - 1] == hs[|hs| - 1]
    ensures forall g :: g in AddAll(list, hs) ==> g in list || g in hs
    decreases |hs|
  {
    if hs != [] {
      var front := hs[..|hs| - 1];
      AddAllEnds(list, front);
      assert forall g :: g in front ==> g in hs;
      assert hs[|hs| - 1] in hs;
    }
  }

  /** One more `addCoverage` extends the added prefix of `hs` by one holder. */
  lemma AddListStep(m: StoreMap, k: string, hs: seq<Holder>, j: nat)
    requires j < |hs|
    ensures var before := if j == 0 then m else m[k := AddAll(Pending(m, k), hs[..j])];
      Added(before, k, hs[j]) == m[k := AddAll(Pending(m, k), hs[..j + 1])]
  {
    assert hs[..j + 1][..j] == hs[..j];
    assert AddAll(Pending(m, k), hs[..0]) == Pending(m, k);
  }

  /** Adding a list of one stamp either extends a list of that stamp with it
    * or, when the stamps differ, replaces the list by it: incoming entries
    * win over current ones of another stamp and join those of the same
    * stamp. */
  lemma {:induction false} AddAllOneStamp(list: seq<Holder>, hs: seq<Holder>)
    requires |hs| > 0 && forall g :: g in hs ==> g.stamp == hs[0].stamp
    ensures AddAll(list, hs) == if |list| > 0 && list[0].stamp == hs[0].stamp then list + hs else hs
    decreases |hs|
  {
    var n := |hs| - 1;
    var front := hs[..n];
    if n == 0 {
      assert hs == [hs[0]];
      assert front == [];
    } else {
      assert front[0] == hs[0];
      assert forall g :: g in front ==> g in hs;
      AddAllOneStamp(list, front);
      assert hs[n] in hs;
      assert front + [hs[n]] == hs;
      if |list| > 0 && list[0].stamp == hs[0].stamp {
        assert list + front + [hs[n]] == list + hs;
      }
    }
  }

  // ---------------------------------------------------------- store merge

  /** The map after `merge(rhs)` folds every holder of `r` into `m`: keys of
    * `m` that `r` lacks keep their lists, and each key with holders in `r`
    * gets them added in list order. Keys are independent of each other, so
    * the order in which the keys of `r` are visited does not matter. */
  function MergeStores(m: StoreMap, r: StoreMap): StoreMap
  {
    map k | k in m.Keys + Contributing(r) :: if k in r then AddAll(Pending(m, k), r[k]) else m[k]
  }

  /** A merge loses no key of the current store, brings in only keys of
    * `r`, and leaves the lists of keys `r` lacks as they were. */
  lemma MergeStoresKeeps(m: StoreMap, r: StoreMap)
    ensures var res := MergeStores(m, r);
      && m.Keys <= res.Keys && res.Keys <= m.Keys + r.Keys
      && forall k :: k in m && k !in r ==> res[k] == m[k]
  {
  }

  /** The keys under which `r` holds any holder. */
  function Contributing(r: StoreMap): set<string>
  {
    set k | k in r && r[k] != []
  }

  /** Per key, a merge keeps the current list where `r` has nothing to add,
    * appends `r`'s list where the stamps agree, and otherwise replaces the
    * current list by `r`'s; the keys are those of both stores. */
  lemma MergeStoresByKey(m: StoreMap, r: StoreMap)
    requires StampInvariant(r)
    ensures MergeStores(m, r).Keys == m.Keys + r.Keys
    ensures forall k :: k in m && k !in r ==> MergeStores(m, r)[k] == m[k]
    ensures forall k :: k in r ==>
              MergeStores(m, r)[k] == if k in m && |m[k]| > 0 && m[k][0].stamp == r[k][0].stamp then m[k] + r[k] else r[k]
  {
    assert Contributing(r) == r.Keys;
    forall k | k in r
      ensures MergeStores(m, r)[k] ==
              if k in m && |m[k]| > 0 && m[k][0].stamp == r[k][0].stamp then m[k] + r[k] else r[k]
    {
      MergeStoresAt(m, r, k);
    }
  }

  lemma MergeStoresAt(m: StoreMap, r: StoreMap, k: string)
    requires StampInvariant(r) && k in r
    ensures k in MergeStores(m, r)
    ensures MergeStores(m, r)[k] == if k in m && |m[k]| > 0 && m[k][0].stamp == r[k][0].stamp then m[k] + r[k] else r[k]
  {
    assert k in Contributing(r);
    AddAllOneStamp(Pending(m, k), r[k]);
  }

  /** Merging two stores that keep the stamp invariant keeps it. */
  lemma MergeStoresValid(m: StoreMap, r: StoreMap)
    requires StampInvariant(m) && StampInvariant(r)
    ensures StampInvariant(MergeStores(m, r))
  {
    MergeStoresByKey(m, r);
    var res: StoreMap := MergeStores(m, r);
    forall k: string | k in res
      ensures |res[k]| > 0 && forall h :: h in res[k] ==> h.stamp == res[k][0].stamp
    {
      if k in r && k in m && m[k][0].stamp == r[k][0].stamp {
        assert res[k] == m[k] + r[k];
        assert forall h :: h in res[k] ==> h in m[k] || h in r[k];
      }
    }
  }

  /** Merging a store without holders is the no-op that `merge` shortcuts. */
  lemma MergeStoresEmpty(m: StoreMap, r: StoreMap)
    requires forall k :: k in r ==> r[k] == []
    ensures MergeStores(m, r) == m
  {
  }

  /** `r` cut down to the keys in `ks`. */
  function Restrict(r: StoreMap, ks: set<string>): StoreMap
  {
    map k | k in r && k in ks :: r[k]
  }

  /** Folding the holders of one more key of `r` into a partial merge. */
  lemma RestrictStep(r: StoreMap, done: set<string>, k: string)
    requires k in r && k !in done
    ensures k !in Restrict(r, done)
    ensures Restrict(r, done + {k}) == Restrict(r, done)[k := r[k]]
  {
  }

  lemma MergeStoresUntouched(m: StoreMap, r: StoreMap, k: string)
    requires k !in r
    ensures Pending(MergeStores(m, r), k) == Pending(m, k)
  {
  }

  lemma MergeStoresAddNothing(m: StoreMap, r: StoreMap, k: string)
    requires k !in r
    ensures MergeStores(m, r[k := []]) == MergeStores(m, r)
  {
    var r2 := r[k := []];
    var before, after := MergeStores(m, r), MergeStores(m, r2);
    assert Contributing(r2) == Contributing(r);
    assert after.Keys == before.Keys;
    forall x | x in after
      ensures after[x] == before[x]
    {
      if x == k {
        assert AddAll(Pending(m, k), []) == Pending(m, k);
      }
    }
  }

  lemma MergeStoresAddKeyKeys(m: StoreMap, r: StoreMap, k: string, hs: seq<Holder>)
    requires k !in r && hs != []
    ensures MergeStores(m, r[k := hs]).Keys == MergeStores(m, r).Keys + {k}
  {
    assert Contributing(r[k := hs]) == Contributing(r) + {k};
  }

  lemma MergeStoresAddKeyAt(m: StoreMap, r: StoreMap, k: string, hs: seq<Holder>, x: string)
    requires k !in r && hs != [] && x in MergeStores(m, r[k := hs]) && x != k
    ensures x in MergeStores(m, r) && MergeStores(m, r[k := hs])[x] == MergeStores(m, r)[x]
  {
  }

  lemma MergeStoresAddKey(m: StoreMap, r: StoreMap, k: string, hs: seq<Holder>)
    requires k !in r && hs != []
    ensures MergeStores(m, r[k := hs]) == MergeStores(m, r)[k := AddAll(Pending(m, k), hs)]
  {
    var after, expected := MergeStores(m, r[k := hs]), MergeStores(m, r)[k := AddAll(Pending(m, k), hs)];
    MergeStoresAddKeyKeys(m, r, k, hs);
    assert after.Keys == expected.Keys;
    forall x | x in after
      ensures after[x] == expected[x]
    {
      if x != k {
        MergeStoresAddKeyAt(m, r, k, hs, x);
      } else {
        MergeStoresAddKeyHere(m, r, k, hs);
      }
    }
  }

  lemma MergeStoresAddKeyHere(m: StoreMap, r: StoreMap, k: string, hs: seq<Holder>)
    requires hs != []
    ensures k in MergeStores(m, r[k := hs]) && MergeStores(m, r[k := hs])[k] == AddAll(Pending(m, k), hs)
  {
    assert k in Contributing(r[k := hs]);
  }

  /** One more key of `r` folded into a partial merge. */
  lemma MergeStoresStep(m: StoreMap, r: StoreMap, done: set<string>, k: string)
    requires k in r && k !in done
    ensures var before := MergeStores(m, Restrict(r, done));
      MergeStores(m, Restrict(r, done + {k})) ==
        if r[k] == [] then before else before[k := AddAll(Pending(before, k), r[k])]
  {
    RestrictStep(r, done, k);
    MergeStoresUntouched(m, Restrict(r, done), k);
    if r[k] == [] {
      MergeStoresAddNothing(m, Restrict(r, done), k);
    } else {
      MergeStoresAddKey(m, Restrict(r, done), k, r[k]);
    }
  }

  // ---------------------------------------------------------- consolidation

  /** The map after `getCoverage(k)`: a pending list with more than one
    * holder is replaced by the single consolidated holder. */
  function Consolidated(m: StoreMap, k: string): (r: StoreMap)
    requires k in m ==> Mergeable(m[k])
    ensures r.Keys == m.Keys
    ensures forall k' :: k' in m && k' != k ==> r[k'] == m[k']
    ensures k in m ==> r[k] == [Consolidate(m[k])]
    ensures k in m && |m[k]| == 1 ==> r == m
    ensures StampInvariant(m) ==> StampInvariant(r)
  {
    if k in m then
      assert |m[k]| == 1 ==> [m[k][0]] == m[k];
      m[k := [Consolidate(m[k])]]
    else m
  }

  /** Reading a key twice changes nothing the second time and yields the
    * same holder. */
  lemma ConsolidatedIdempotent(m: StoreMap, k: string)
    requires k in m ==> Mergeable(m[k])
    ensures var once := Consolidated(m, k);
      (k in once ==> Mergeable(once[k]) && Consolidate(once[k]) == Consolidate(m[k])) &&
      Consolidated(once, k) == once
  {
    if k in m {
      var once: StoreMap := Consolidated(m, k);
      assert Fold(once[k][0].coverage, once[k][1..]) == Some(once[k][0].coverage);
    }
  }

  /** Every pending list can be consolidated. */
  predicate AllMergeable(m: StoreMap)
  {
    forall k :: k in m ==> Mergeable(m[k])
  }

  /** The consolidated holder of every key. */
  function ConsolidateAll(m: StoreMap): (cm: map<string, Holder>)
    requires AllMergeable(m)
    ensures cm.Keys == m.Keys
  {
    map k | k in m :: Consolidate(m[k])
  }

  /** `m` with every pending list collapsed to its consolidated holder. */
  function Flattened(m: StoreMap): (r: StoreMap)
    requires AllMergeable(m)
    ensures r.Keys == m.Keys
    ensures forall k :: k in r ==> |r[k]| == 1
    ensures StampInvariant(r)
  {
    map k | k in m :: [Consolidate(m[k])]
  }

  /** `m` with the keys of `done` consolidated. */
  function PartlyFlattened(m: StoreMap, done: seq<string>): StoreMap
    requires AllMergeable(m)
  {
    map k | k in m :: if k in done then [Consolidate(m[k])] else m[k]
  }

  /** Reading one more key during a write: it consolidates to the holder the
    * key had before the write began, and joins the consolidated keys. */
  lemma PartlyFlattenedStep(m: StoreMap, order: seq<string>, i: nat)
    requires AllMergeable(m) && i < |order| && order[i] in m
    ensures var p, k := PartlyFlattened(m, order[..i]), order[i];
      && Mergeable(p[k]) && Consolidate(p[k]) == Consolidate(m[k])
      && |p[k][0].coverage| == |m[k][0].coverage|
      && Consolidated(p, k) == PartlyFlattened(m, order[..i + 1])
  {
    var k := order[i];
    PartlyFlattenedPending(m, order[..i], k);
    assert order[..i + 1] == order[..i] + [k];
    PartlyFlattenedGrow(m, order[..i], k);
  }

  /** A key already consolidated consolidates to the same holder again. */
  lemma PartlyFlattenedPending(m: StoreMap, done: seq<string>, k: string)
    requires AllMergeable(m) && k in m
    ensures var p := PartlyFlattened(m, done);
      && Mergeable(p[k]) && Consolidate(p[k]) == Consolidate(m[k])
      && |p[k][0].coverage| == |m[k][0].coverage|
  {
    var p := PartlyFlattened(m, done);
    if k in done {
      assert p[k] == [Consolidate(m[k])];
      assert Fold(p[k][0].coverage, p[k][1..]) == Some(p[k][0].coverage);
    }
  }

  /** Consolidating one more key adds it to the consolidated ones. */
  lemma PartlyFlattenedGrow(m: StoreMap, done: seq<string>, k: string)
    requires AllMergeable(m) && k in m
    ensures var p := PartlyFlattened(m, done);
      Mergeable(p[k]) && Consolidated(p, k) == PartlyFlattened(m, done + [k])
  {
    var p := PartlyFlattened(m, done);
    PartlyFlattenedPending(m, done, k);
    var a, b := Consolidated(p, k), PartlyFlattened(m, done + [k]);
    assert a.Keys == b.Keys;
    forall x | x in a
      ensures a[x] == b[x]
    {
      assert x in done + [k] <==> x in done || x == k;
    }
  }

  /** Before the write nothing is consolidated; after it, everything is. */
  lemma PartlyFlattenedEnds(m: StoreMap, order: seq<string>)
    requires AllMergeable(m) && forall k :: k in m ==> k in order
    ensures PartlyFlattened(m, order[..0]) == m
    ensures PartlyFlattened(m, order[..|order|]) == Flattened(m)
  {
    assert order[..|order|] == order;
    assert PartlyFlattened(m, order[..0]) == m by {
      assert forall k :: k !in order[..0];
    }
  }

  // ----------------------------------------------------------- external form

  /** What `writeExternal` needs: `order` visits every key once (the map's
    * own iteration order, which Java leaves unspecified), counts fit an
    * `int`, and every pending list can be consolidated. */
  predicate Writable(m: StoreMap, order: seq<string>)
  {
    && |order| == |m| && |m| <= MaxInt32
    && (forall k :: k in order ==> k in m) && (forall k :: k in m ==> k in order)
    && (forall k :: k in m ==> Mergeable(m[k]) && |m[k][0].coverage| <= MaxInt32)
  }

  /** A writable store's consolidated holders can all be encoded. */
  lemma WritableEncodable(m: StoreMap, order: seq<string>)
    requires Writable(m, order)
    ensures Encodable(order, ConsolidateAll(m))
  {
  }

  /** Writing a store and reading the stream back, with anything after it,
    * yields the same keys, each with exactly one holder, equal in stamp and
    * matrix to the store's consolidated holder; reading stops where the
    * written part ends. */
  lemma RoundTrip(m: StoreMap, order: seq<string>, rest: seq<Token>)
    requires Writable(m, order)
    ensures Encodable(order, ConsolidateAll(m))
    ensures Decode(Encode(order, ConsolidateAll(m)) + rest) == Success((Flattened(m), |Encode(order, ConsolidateAll(m))|))
  {
    var cm := ConsolidateAll(m);
    DecodeEncode(order, cm, rest);
    RestoredFlattened(m, order);
  }

  lemma RestoredFlattened(m: StoreMap, order: seq<string>)
    requires Writable(m, order)
    ensures Restored(map[], order, ConsolidateAll(m)) == Flattened(m)
  {
    var cm := ConsolidateAll(m);
    RestoredFresh(order, cm);
    WrittenFlattened(m, order);
  }

  lemma WrittenFlattened(m: StoreMap, order: seq<string>)
    requires AllMergeable(m) && forall k :: k in m ==> k in order
    ensures var cm := ConsolidateAll(m);
      (map k | k in order && k in cm :: [cm[k]]) == Flattened(m)
  {
    var cm := ConsolidateAll(m);
    var written: StoreMap := map k | k in order && k in cm :: [cm[k]];
    var b := Flattened(m);
    assert written.Keys == b.Keys;
    SameMaps(written, b);
  }

  /** Each record read puts a one-holder list under its name. */
  lemma {:induction false} ReadEntriesSingletons(ts: seq<Token>, pos: nat, n: nat, acc: StoreMap)
    requires ReadEntries(ts, pos, n, acc).Success?
    requires forall k :: k in acc ==> |acc[k]| == 1
    ensures forall k :: k in ReadEntries(ts, pos, n, acc).value.0 ==> |ReadEntries(ts, pos, n, acc).value.0[k]| == 1
    decreases n
  {
    if n > 0 {
      var (name, h, next) := ReadEntry(ts, pos).value;
      ReadEntriesSingletons(ts, next, n - 1, acc[name := [h]]);
    }
  }

  /** A store read from a stream has exactly one holder per key, so it keeps
    * the stamp invariant. */
  lemma DecodedIsFlat(ts: seq<Token>)
    requires Decode(ts).Success?
    ensures forall k :: k in Decode(ts).value.0 ==> |Decode(ts).value.0[k]| == 1
    ensures StampInvariant(Decode(ts).value.0)
  {
    ReadEntriesSingletons(ts, 1, ts[0].i as nat, map[]);
  }

  // ------------------------------------------------------------ the class

  class CoverageData {
    /** Class VM name to pending list of holders. */
    var coverageMap: StoreMap

    predicate Valid()
      reads this
    {
      StampInvariant(coverageMap)
    }

    /** A fresh, empty store. */
    constructor ()
      ensures Valid() && coverageMap == map[]
    {
      coverageMap := map[];
    }

    /** The private constructor around a ready map. */
    constructor FromMap(m: StoreMap)
      ensures coverageMap == m
    {
      coverageMap := m;
    }

    /** A new store with an equal map of its own. Java's copy shares the
      * pending lists with the original; the model copies them as values. */
    method ShallowCopy() returns (c: CoverageData)
      ensures fresh(c) && c.coverageMap == coverageMap
    {
      c := new CoverageData.FromMap(coverageMap);
    }

    /** The number of classes tracked. */
    function Size(): (n: nat)
      reads this
      ensures n == 0 <==> coverageMap == map[]
    {
      |coverageMap|
    }

    predicate IsEmpty()
      reads this
      ensures IsEmpty() <==> Size() == 0
    {
      coverageMap == map[]
    }

    /** `getCoverage(String)`: the consolidated holder of a class, `None`
      * for an unknown class; a list of several holders is replaced by the
      * one it consolidates to. */
    method GetCoverageByName(classVMName: string) returns (h: Option<Holder>)
      requires classVMName in coverageMap ==> Mergeable(coverageMap[classVMName])
      modifies this
      ensures classVMName !in old(coverageMap) ==> h == None
      ensures classVMName in old(coverageMap) ==> h == Some(Consolidate(old(coverageMap)[classVMName]))
      ensures coverageMap == Consolidated(old(coverageMap), classVMName)
      ensures old(Valid()) ==> Valid()
    {
      if classVMName !in coverageMap {
        return None;
      }
      var coverages := coverageMap[classVMName];
      if |coverages| == 1 {
        return Some(coverages[0]);
      }
      var mergedCoverage := MergeList(coverages);
      coverageMap := coverageMap[classVMName := [mergedCoverage]];
      return Some(mergedCoverage);
    }

    /** `getCoverage(ClassDescriptor)`: rejects a missing descriptor, and
      * otherwise reads the class under its VM name. */
    method GetCoverage(cls: Option<ClassDescriptor>) returns (r: Result<Option<Holder>, StoreError>)
      requires cls.Some? && cls.value.classVMName in coverageMap ==> Mergeable(coverageMap[cls.value.classVMName])
      modifies this
      ensures cls.None? ==> r == Failure(IllegalArgument) && coverageMap == old(coverageMap)
      ensures cls.Some? ==>
        var name := cls.value.classVMName;
        && coverageMap == Consolidated(old(coverageMap), name)
        && r == Success(if name in old(coverageMap) then Some(Consolidate(old(coverageMap)[name])) else None)
      ensures old(Valid()) ==> Valid()
    {
      if cls.None? {
        return Failure(IllegalArgument);
      }
      var h := GetCoverageByName(cls.value.classVMName);
      return Success(h);
    }

    /** `addCoverage`: appends the holder to its class's list, first
      * discarding the list when its stamp differs from the holder's. */
    method AddCoverage(classVMName: string, holder: Holder)
      modifies this
      ensures coverageMap == Added(old(coverageMap), classVMName, holder)
      ensures Size() == old(Size()) + (if classVMName in old(coverageMap) then 0 else 1)
      ensures old(Valid()) ==> Valid()
    {
      var coverageList := if classVMName in coverageMap then coverageMap[classVMName] else [];
      if |coverageList| > 0 {
        var firstCoverage := coverageList[0];
        if firstCoverage.stamp != holder.stamp {
          coverageList := [];
        }
      }
      coverageList := coverageList + [holder];
      coverageMap := coverageMap[classVMName := coverageList];
      assert coverageMap.Keys == old(coverageMap).Keys + {classVMName};
    }

    /** `addClass`: adds a matrix captured against `stamp`. */
    method AddClass(coverage: Matrix, classVMName: string, stamp: int64)
      modifies this
      ensures coverageMap == Added(old(coverageMap), classVMName, Holder(coverage, stamp))
      ensures old(Valid()) ==> Valid()
    {
      AddCoverage(classVMName, Holder(coverage, stamp));
    }

    /** The inner loop of `merge(IMergeable)`: adds the holders of `hs` to
      * one class, in list order. */
    method AddList(classVMName: string, hs: seq<Holder>)
      modifies this
      ensures coverageMap == if hs == [] then old(coverageMap)
                             else old(coverageMap)[classVMName := AddAll(Pending(old(coverageMap), classVMName), hs)]
    {
      for j := 0 to |hs|
        invariant coverageMap == if j == 0 then old(coverageMap)
                                 else old(coverageMap)[classVMName := AddAll(Pending(old(coverageMap), classVMName), hs[..j])]
      {
        AddListStep(old(coverageMap), classVMName, hs, j);
        AddCoverage(classVMName, hs[j]);
      }
      assert hs[..|hs|] == hs;
    }

    /** The loops of `merge(IMergeable)`: every holder of `rhsCoverageMap`
      * is added, key by key and, within a key, in list order. The keys are
      * picked in an arbitrary order (Java's `HashMap` leaves it unspecified),
      * so the result is shown not to depend on it. */
    method AddEntries(rhsCoverageMap: StoreMap)
      modifies this
      ensures coverageMap == MergeStores(old(coverageMap), rhsCoverageMap)
    {
      var remaining := rhsCoverageMap.Keys;
      ghost var done: set<string> := {};
      while remaining != {}
        invariant remaining + done == rhsCoverageMap.Keys && remaining !! done
        invariant coverageMap == MergeStores(old(coverageMap), Restrict(rhsCoverageMap, done))
        decreases remaining
      {
        var classVMName :| classVMName in remaining;
        MergeStoresStep(old(coverageMap), rhsCoverageMap, done, classVMName);
        AddList(classVMName, rhsCoverageMap[classVMName]);
        remaining := remaining - {classVMName};
        done := done + {classVMName};
      }
      assert Restrict(rhsCoverageMap, done) == rhsCoverageMap;
    }

    /** `merge(IMergeable)`: nothing happens for a missing, empty or
      * identical store; otherwise every holder of `rhs` is added to this
      * store. */
    method Merge(rhs: CoverageData?) returns (r: CoverageData)
      modifies this
      ensures r == this
      ensures rhs == null || rhs.IsEmpty() || rhs == this ==> coverageMap == old(coverageMap)
      ensures rhs != null && rhs != this ==> coverageMap == MergeStores(old(coverageMap), rhs.coverageMap)
      ensures rhs != null && old(Valid()) && rhs.Valid() ==> Valid()
    {
      if rhs == null || rhs.IsEmpty() || rhs == this {
        return this;
      }
      AddEntries(rhs.coverageMap);
      if old(Valid()) && rhs.Valid() {
        MergeStoresValid(old(coverageMap), rhs.coverageMap);
      }
      return this;
    }

    /** One record of `writeExternal`: the name, the stamp, the row count
      * and each row in turn. */
    static method WriteHolder(classVMName: string, data: Holder) returns (out: seq<Token>)
      requires |data.coverage| <= MaxInt32
      ensures out == EncodeEntry(classVMName, data)
    {
      var coverage := data.coverage;
      out := [TUtf(classVMName), TLong(data.stamp), TInt(|coverage| as int32)];
      for c := 0 to |coverage|
        invariant out == [TUtf(classVMName), TLong(data.stamp), TInt(|coverage| as int32)] + EncodeRows(coverage[..c])
      {
        assert EncodeRows(coverage[..c + 1]) == EncodeRows(coverage[..c]) + [TBoolRow(coverage[c])];
        out := out + [TBoolRow(coverage[c])];
      }
      assert coverage[..|coverage|] == coverage;
    }

    /** The body of `writeExternal`'s loop: consolidates the `i`th class of
      * `order` and writes its record, which is the record of the holder the
      * class consolidated to before the write began. */
    method WriteClass(order: seq<string>, i: nat, ghost m0: StoreMap) returns (record: seq<Token>)
      requires Writable(m0, order) && i < |order|
      requires coverageMap == PartlyFlattened(m0, order[..i])
      modifies this
      ensures coverageMap == PartlyFlattened(m0, order[..i + 1])
      ensures record == EncodeEntry(order[i], Consolidate(m0[order[i]]))
    {
      var classVMName := order[i];
      PartlyFlattenedStep(m0, order, i);
      var data := GetCoverageByName(classVMName);
      record := WriteHolder(classVMName, data.value);
    }

    /** `writeExternal`: writes the class count, then for each class in
      * `order` its name, the stamp and rows of its consolidated holder;
      * consolidating each class on the way leaves one holder per class. */
    method WriteExternal(order: seq<string>) returns (out: seq<Token>)
      requires Writable(coverageMap, order)
      modifies this
      ensures coverageMap == Flattened(old(coverageMap))
      ensures Encodable(order, ConsolidateAll(old(coverageMap)))
      ensures out == Encode(order, ConsolidateAll(old(coverageMap)))
    {
      ghost var m0 := coverageMap;
      ghost var cm := ConsolidateAll(m0);
      WritableEncodable(m0, order);
      PartlyFlattenedEnds(m0, order);
      var size := |coverageMap|;
      var records := [];
      for i := 0 to size
        invariant coverageMap == PartlyFlattened(m0, order[..i])
        invariant records == EncodeEntries(order[..i], cm)
      {
        var record := WriteClass(order, i, m0);
        EncodeEntriesSnoc(order, i, cm);
        records := records + record;
      }
      out := [TInt(size as int32)] + records;
      EncodeWhole(order, cm, records);
    }

    /** `readExternal`: a new store holding what the stream decodes to, one
      * holder per class; a malformed stream yields no store. */
    static method ReadExternal(input: seq<Token>) returns (r: Result<CoverageData, DecodeError>)
      ensures r.Failure? ==> Decode(input).Failure? && r.error == Decode(input).error
      ensures r.Success? ==> Decode(input).Success? && fresh(r.value)
      ensures r.Success? ==> r.value.coverageMap == Decode(input).value.0 && r.value.Valid()
      ensures Decode(input).Success? ==> r.Success?
    {
      var decoded := DecodeStore(input);
      if decoded.Failure? {
        return Failure(decoded.error);
      }
      DecodedIsFlat(input);
      var store := new CoverageData.FromMap(decoded.value.0);
      return Success(store);
    }
  }
}

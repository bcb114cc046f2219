/**
 * The end of `main`: the per-URL outcomes, in whatever order they were
 * gathered, become the output list by dropping the failed ones (`None`) and
 * sorting the rest in place by store name.
 */
module Finalise {
  import opened Wrappers
  import opened Text
  import opened Sorting
  import opened StoreDetails

  /**
   * The list comprehension `[store for store in results if store]`: the
   * records of the successful outcomes, in their original order. Every record
   * the scraper produces is a non-empty dictionary, so truthiness is `Some?`.
   */
  function Successful(results: seq<Option<StoreRecord>>): (r: seq<StoreRecord>)
  {
    if results == [] then []
    else
      var init := results[..|results| - 1];
      var last := results[|results| - 1];
      assert results == init + [last];
      if last.Some? then Successful(init) + [last.value] else Successful(init)
  }

  /**
   * The filter keeps every record exactly as often as it was produced, and
   * drops exactly the failed outcomes.
   */
  lemma {:induction false} SuccessfulCounts(results: seq<Option<StoreRecord>>)
    ensures |Successful(results)| == |results| - multiset(results)[None]
    ensures forall x :: multiset(Successful(results))[x] == multiset(results)[Some(x)]
  {
    if results != [] {
      var init := results[..|results| - 1];
      var last := results[|results| - 1];
      assert results == init + [last];
      SuccessfulCounts(init);
    }
  }

  /** The sort key `lambda x: x.get('name', '')`; every record carries a name. */
  function NameKey(store: StoreRecord): string {
    store.name
  }

  /**
   * Models lines 142 and 151 of `main`: the output holds exactly the
   * successful records, each as often as it was produced, ordered by name.
   */
  method FinaliseResults(results: seq<Option<StoreRecord>>) returns (stores: seq<StoreRecord>)
    ensures multiset(stores) == multiset(Successful(results))
    ensures forall x :: x in stores <==> Some(x) in results
    ensures |stores| == |results| - multiset(results)[None]
    ensures SortedBy(stores, NameKey)
  {
    var kept := Successful(results);
    SuccessfulCounts(results);
    var allStores := new StoreRecord[|kept|](i requires 0 <= i < |kept| => kept[i]);
    assert allStores[..] == kept;
    SortByKey(allStores, NameKey);
    stores := allStores[..];
    assert |multiset(stores)| == |multiset(kept)|;
    forall x ensures x in stores <==> Some(x) in results {
      assert x in stores <==> x in multiset(stores);
      assert Some(x) in results <==> Some(x) in multiset(results);
    }
  }

  /** Only records that passed the name check reach the output, so every output name is non-empty. */
  lemma OutputNamesNonEmpty(results: seq<Option<StoreRecord>>, stores: seq<StoreRecord>)
    requires forall i :: 0 <= i < |results| && results[i].Some? ==> results[i].value.name != ""
    requires multiset(stores) == multiset(Successful(results))
    ensures forall k :: 0 <= k < |stores| ==> stores[k].name != ""
  {
    SuccessfulCounts(results);
    forall k | 0 <= k < |stores| ensures stores[k].name != "" {
      assert stores[k] in multiset(Successful(results));
      assert Some(stores[k]) in multiset(results);
    }
  }

  /** Appending one more outcome keeps its record, if any, after the earlier ones. */
  lemma SuccessfulSnoc(results: seq<Option<StoreRecord>>, last: Option<StoreRecord>)
    ensures Successful(results + [last]) == Successful(results) + (if last.Some? then [last.value] else [])
  {
    assert (results + [last])[..|results|] == results;
  }

  /** The outcomes of the example: Berri, a failed fetch, Adelaide Central, Barossa. */
  predicate ExampleOutcomes(results: seq<Option<StoreRecord>>, berri: StoreRecord, adelaide: StoreRecord, barossa: StoreRecord) {
    results == [Some(berri), None, Some(adelaide), Some(barossa)]
  }

  lemma ExampleGathered(results: seq<Option<StoreRecord>>, berri: StoreRecord, adelaide: StoreRecord, barossa: StoreRecord)
    requires ExampleOutcomes(results, berri, adelaide, barossa)
    ensures Successful(results) == [berri, adelaide, barossa]
  {
    assert [] + [Some(berri)] == [Some(berri)];
    SuccessfulSnoc([], Some(berri));
    assert [Some(berri)] + [None] == [Some(berri), None];
    SuccessfulSnoc([Some(berri)], None);
    assert [Some(berri), None] + [Some(adelaide)] == [Some(berri), None, Some(adelaide)];
    SuccessfulSnoc([Some(berri), None], Some(adelaide));
    assert [Some(berri), None, Some(adelaide)] + [Some(barossa)] == results;
    SuccessfulSnoc([Some(berri), None, Some(adelaide)], Some(barossa));
    assert [berri] + [adelaide] + [barossa] == [berri, adelaide, barossa];
  }

  lemma ExampleNamesInOrder(berri: StoreRecord, adelaide: StoreRecord, barossa: StoreRecord)
    requires berri.name == "Berri" && adelaide.name == "Adelaide Central" && barossa.name == "Barossa"
    ensures SortedBy([adelaide, barossa, berri], NameKey)
  {
    assert LessEq("Adelaide Central", "Barossa");
    assert LessEq("Barossa", "Berri");
    assert LessEq("Adelaide Central", "Berri");
  }

  lemma ExampleKeysDistinct(berri: StoreRecord, adelaide: StoreRecord, barossa: StoreRecord, stores: seq<StoreRecord>)
    requires berri.name == "Berri" && adelaide.name == "Adelaide Central" && barossa.name == "Barossa"
    requires multiset(stores) == multiset([adelaide, barossa, berri])
    ensures KeysDistinct(stores, NameKey)
  {
    forall x | x in stores ensures x == adelaide || x == barossa || x == berri {
      assert x in multiset([adelaide, barossa, berri]);
    }
  }

  /**
   * Three stores named "Berri", "Adelaide Central" and "Barossa", gathered in
   * that order with one failed fetch among them, come out as "Adelaide
   * Central", "Barossa", "Berri".
   */
  lemma ThreeStoresExample(results: seq<Option<StoreRecord>>, berri: StoreRecord, adelaide: StoreRecord, barossa: StoreRecord,
                           stores: seq<StoreRecord>)
    requires berri.name == "Berri" && adelaide.name == "Adelaide Central" && barossa.name == "Barossa"
    requires ExampleOutcomes(results, berri, adelaide, barossa)
    requires multiset(stores) == multiset(Successful(results))
    requires SortedBy(stores, NameKey)
    ensures stores == [adelaide, barossa, berri]
  {
    var expected := [adelaide, barossa, berri];
    ExampleGathered(results, berri, adelaide, barossa);
    ExampleNamesInOrder(berri, adelaide, barossa);
    assert multiset(stores) == multiset(expected);
    ExampleKeysDistinct(berri, adelaide, barossa, stores);
    SortedUnique(stores, expected, NameKey);
  }
}

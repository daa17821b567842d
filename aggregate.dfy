/**
 * Monthly gains per store: each record's date is cut to its year and month, and the
 * gains of the records sharing a (month, store) key are summed into one group.
 */
module Aggregate {
  import opened Reconcile

  datatype Month = Month(year: int, month: int)

  datatype Key = Key(month: Month, store: string)

  /** One output row: Ano-Mês, Loja and the summed Ganho. */
  datatype Group = Group(key: Key, total: int)

  function KeyOf(r: Record): Key
  {
    Key(Month(r.date.year, r.date.month), r.store)
  }

  /** Add a gain to the group of key k, or open a new group for k at the end. */
  function AddTo(groups: seq<Group>, k: Key, gain: int): seq<Group>
  {
    if groups == [] then [Group(k, gain)]
    else if groups[0].key == k then [Group(k, groups[0].total + gain)] + groups[1..]
    else [groups[0]] + AddTo(groups[1..], k, gain)
  }

  /** `groupby(['Ano-Mês', 'Loja'])['Ganho'].sum()`, groups in order of first appearance. */
  function Monthly(history: seq<Record>): seq<Group>
  {
    if history == [] then []
    else
      var last := history[|history| - 1];
      AddTo(Monthly(history[..|history| - 1]), KeyOf(last), last.gain)
  }

  /** The keys of the groups, in order. */
  function Keys(groups: seq<Group>): (ks: seq<Key>)
    ensures |ks| == |groups|
    ensures forall i :: 0 <= i < |groups| ==> ks[i] == groups[i].key
  {
    if groups == [] then [] else [groups[0].key] + Keys(groups[1..])
  }

  predicate UniqueKeys(groups: seq<Group>)
  {
    forall i, j :: 0 <= i < j < |groups| ==> groups[i].key != groups[j].key
  }

  /** The summed gain of the records with key k. */
  function KeyGain(history: seq<Record>, k: Key): int
  {
    if history == [] then 0
    else
      var last := history[|history| - 1];
      KeyGain(history[..|history| - 1], k) + (if KeyOf(last) == k then last.gain else 0)
  }

  /** The summed gain of the records of one store. */
  function StoreGain(history: seq<Record>, store: string): int
  {
    if history == [] then 0
    else
      var last := history[|history| - 1];
      StoreGain(history[..|history| - 1], store) + (if last.store == store then last.gain else 0)
  }

  /** The summed totals of the groups of one store. */
  function GroupsStoreTotal(groups: seq<Group>, store: string): int
  {
    if groups == [] then 0
    else (if groups[0].key.store == store then groups[0].total else 0) + GroupsStoreTotal(groups[1..], store)
  }

  /** AddTo keeps the keys and their order, adding k at the end if it is new. */
  lemma {:induction false} AddToKeys(groups: seq<Group>, k: Key, gain: int)
    ensures Keys(AddTo(groups, k, gain)) == if k in Keys(groups) then Keys(groups) else Keys(groups) + [k]
  {
    if groups != [] && groups[0].key != k {
      AddToKeys(groups[1..], k, gain);
      assert Keys(groups) == [groups[0].key] + Keys(groups[1..]);
      assert AddTo(groups, k, gain) == [groups[0]] + AddTo(groups[1..], k, gain);
    } else if groups != [] {
      assert Keys(groups)[0] == k;
    }
  }

  /** AddTo never gives two groups the same key. */
  lemma AddToUnique(groups: seq<Group>, k: Key, gain: int)
    requires UniqueKeys(groups)
    ensures UniqueKeys(AddTo(groups, k, gain))
  {
    AddToKeys(groups, k, gain);
    var r := AddTo(groups, k, gain);
    assert forall i :: 0 <= i < |r| ==> r[i].key == Keys(r)[i];
    if k !in Keys(groups) {
      assert forall i :: 0 <= i < |groups| ==> Keys(groups)[i] != k;
    }
  }

  /** Each (month, store) key appears in at most one group. */
  lemma {:induction false} MonthlyUniqueKeys(history: seq<Record>)
    ensures UniqueKeys(Monthly(history))
  {
    if history != [] {
      var last := history[|history| - 1];
      MonthlyUniqueKeys(history[..|history| - 1]);
      AddToUnique(Monthly(history[..|history| - 1]), KeyOf(last), last.gain);
    }
  }

  /** The keys of the records, in order. */
  function RecordKeys(history: seq<Record>): (ks: seq<Key>)
    ensures |ks| == |history|
    ensures forall i :: 0 <= i < |history| ==> ks[i] == KeyOf(history[i])
  {
    if history == [] then []
    else RecordKeys(history[..|history| - 1]) + [KeyOf(history[|history| - 1])]
  }

  /** A key has a group exactly when some record has that key. */
  lemma {:induction false} MonthlyKeysCover(history: seq<Record>, k: Key)
    ensures k in Keys(Monthly(history)) <==> k in RecordKeys(history)
  {
    if history != [] {
      var init, last := history[..|history| - 1], history[|history| - 1];
      MonthlyKeysCover(init, k);
      AddToKeys(Monthly(init), KeyOf(last), last.gain);
    }
  }

  /** The total of the first group with key k. */
  function GroupTotal(groups: seq<Group>, k: Key): int
    requires k in Keys(groups)
  {
    assert Keys(groups) == [groups[0].key] + Keys(groups[1..]);
    if groups[0].key == k then groups[0].total else GroupTotal(groups[1..], k)
  }

  /** With distinct keys, the group at position i is the group of its key. */
  lemma {:induction false} GroupTotalAt(groups: seq<Group>, i: nat)
    requires UniqueKeys(groups) && i < |groups|
    ensures groups[i].key in Keys(groups) && GroupTotal(groups, groups[i].key) == groups[i].total
  {
    assert Keys(groups)[i] == groups[i].key;
    if i > 0 {
      assert groups[0].key != groups[i].key;
      assert UniqueKeys(groups[1..]);
      assert groups[1..][i - 1] == groups[i];
      GroupTotalAt(groups[1..], i - 1);
    }
  }

  /** AddTo adds the gain to the total of key k and leaves every other key's total alone. */
  lemma {:induction false} AddToTotal(groups: seq<Group>, k: Key, gain: int, k': Key)
    requires k' in Keys(AddTo(groups, k, gain))
    ensures k' != k ==> k' in Keys(groups) && GroupTotal(AddTo(groups, k, gain), k') == GroupTotal(groups, k')
    ensures k' == k ==> GroupTotal(AddTo(groups, k, gain), k') == gain + (if k in Keys(groups) then GroupTotal(groups, k) else 0)
  {
    AddToKeys(groups, k, gain);
    var r := AddTo(groups, k, gain);
    if groups == [] {
    } else if groups[0].key == k {
      assert r[1..] == groups[1..];
      assert Keys(groups) == [groups[0].key] + Keys(groups[1..]);
    } else {
      assert Keys(groups) == [groups[0].key] + Keys(groups[1..]);
      assert r == [groups[0]] + AddTo(groups[1..], k, gain);
      assert r[1..] == AddTo(groups[1..], k, gain);
      if k' != groups[0].key {
        AddToKeys(groups[1..], k, gain);
        AddToTotal(groups[1..], k, gain, k');
      }
    }
  }

  /** Every group's total is the summed gain of exactly the records with its key. */
  lemma {:induction false} MonthlyTotals(history: seq<Record>, k: Key)
    requires k in Keys(Monthly(history))
    ensures GroupTotal(Monthly(history), k) == KeyGain(history, k)
  {
    var init, last := history[..|history| - 1], history[|history| - 1];
    var g := Monthly(init);
    AddToTotal(g, KeyOf(last), last.gain, k);
    if k in Keys(g) {
      MonthlyTotals(init, k);
    } else if k == KeyOf(last) {
      MonthlyKeysCover(init, k);
      KeyGainAbsent(init, k);
    }
  }

  /** The group at each position holds the summed gain of the records with its key. */
  lemma MonthlyTotalAt(history: seq<Record>, i: nat)
    requires i < |Monthly(history)|
    ensures Monthly(history)[i].total == KeyGain(history, Monthly(history)[i].key)
  {
    MonthlyUniqueKeys(history);
    GroupTotalAt(Monthly(history), i);
    MonthlyTotals(history, Monthly(history)[i].key);
  }

  lemma {:induction false} KeyGainAbsent(history: seq<Record>, k: Key)
    requires k !in RecordKeys(history)
    ensures KeyGain(history, k) == 0
  {
    if history != [] {
      KeyGainAbsent(history[..|history| - 1], k);
    }
  }

  lemma {:induction false} AddToStoreTotal(groups: seq<Group>, k: Key, gain: int, store: string)
    ensures GroupsStoreTotal(AddTo(groups, k, gain), store) ==
      GroupsStoreTotal(groups, store) + (if k.store == store then gain else 0)
  {
    if groups != [] && groups[0].key != k {
      AddToStoreTotal(groups[1..], k, gain, store);
      assert AddTo(groups, k, gain)[1..] == AddTo(groups[1..], k, gain);
    } else if groups != [] {
      assert AddTo(groups, k, gain)[1..] == groups[1..];
    }
  }

  /** For every store, its groups' totals add up to the gains of all its records. */
  lemma {:induction false} MonthlyStoreTotals(history: seq<Record>, store: string)
    ensures GroupsStoreTotal(Monthly(history), store) == StoreGain(history, store)
  {
    if history != [] {
      var init, last := history[..|history| - 1], history[|history| - 1];
      MonthlyStoreTotals(init, store);
      AddToStoreTotal(Monthly(init), KeyOf(last), last.gain, store);
    }
  }

  /** An empty history aggregates to no groups; a single record to its own group. */
  lemma MonthlySingle(r: Record)
    ensures Monthly([]) == []
    ensures Monthly([r]) == [Group(KeyOf(r), r.gain)]
  {
    assert [r][..0] == [];
  }
}

/** The cache of loaded kernels: a map with a list of its keys in the order of their last use. It
    must behave like one list of associations from which the least recently used one is dropped. */
module LaunchCaches {

  datatype Option<T> = None | Some(value: T)

  datatype Pair<K, E> = Pair(key: K, entry: E)

  /** Least recently used first. */
  type Recency<K, E> = seq<Pair<K, E>>

  datatype Operation<K, E> = Launch(key: K) | Insert(key: K, entry: E)

  function Without<K(==), E>(list: Recency<K, E>, key: K): Recency<K, E> {
    if list == [] then []
    else
      var rest := Without(list[..|list| - 1], key);
      if list[|list| - 1].key == key then rest else rest + [list[|list| - 1]]
  }

  function Find<K(==), E>(list: Recency<K, E>, key: K): (r: Option<E>)
    ensures r.Some? ==> exists i :: 0 <= i < |list| && list[i] == Pair(key, r.value)
    ensures r == None ==> forall i :: 0 <= i < |list| ==> list[i].key != key
  {
    if list == [] then None
    else if list[|list| - 1].key == key then Some(list[|list| - 1].entry)
    else Find(list[..|list| - 1], key)
  }

  function Execute<K(==), E>(list: Recency<K, E>, limit: nat, op: Operation<K, E>): Recency<K, E> {
    match op
    case Launch(key) =>
      (match Find(list, key)
       case None => list
       case Some(e) => Without(list, key) + [Pair(key, e)])
    case Insert(key, entry) =>
      if limit == 0 then list
      else
        var longer := Without(list, key) + [Pair(key, entry)];
        if |longer| > limit then longer[1..] else longer
  }

  function ExecuteAll<K(==), E>(list: Recency<K, E>, limit: nat, ops: seq<Operation<K, E>>): Recency<K, E> {
    if ops == [] then list else Execute(ExecuteAll(list, limit, ops[..|ops| - 1]), limit, ops[|ops| - 1])
  }

  ghost predicate DistinctKeys<K, E>(list: Recency<K, E>) {
    forall i, j :: 0 <= i < j < |list| ==> list[i].key != list[j].key
  }

  lemma {:induction false} WithoutIsFilter<K(!new), E(!new)>(list: Recency<K, E>, key: K)
    requires DistinctKeys(list)
    ensures DistinctKeys(Without(list, key))
    ensures forall p :: p in Without(list, key) <==> p in list && p.key != key
  {
    if list != [] {
      var last := |list| - 1;
      assert DistinctKeys(list[..last]);
      WithoutIsFilter(list[..last], key);
      var rest := Without(list[..last], key);
      assert list == list[..last] + [list[last]];
      assert forall p :: p in list[..last] ==> p.key != list[last].key;
      hide Without;
      AppendedIsDistinct(rest, list[last].key, list[last].entry);
    }
  }

  lemma {:induction false} WithoutSize<K(!new), E(!new)>(list: Recency<K, E>, key: K)
    requires DistinctKeys(list)
    ensures Find(list, key) == None ==> Without(list, key) == list
    ensures Find(list, key).Some? ==> |Without(list, key)| + 1 == |list|
  {
    if list != [] {
      var last := |list| - 1;
      assert DistinctKeys(list[..last]);
      WithoutSize(list[..last], key);
      assert list == list[..last] + [list[last]];
      if list[last].key == key {
        assert forall i :: 0 <= i < last ==> list[..last][i].key != key;
        assert Find(list[..last], key) == None;
      }
    }
  }

  lemma ExecuteKeepsShape<K(!new), E(!new)>(list: Recency<K, E>, limit: nat, op: Operation<K, E>)
    requires DistinctKeys(list) && |list| <= limit
    ensures DistinctKeys(Execute(list, limit, op)) && |Execute(list, limit, op)| <= limit
  {
    hide Without, Find;
    WithoutIsFilter(list, op.key);
    WithoutSize(list, op.key);
    var rest := Without(list, op.key);
    forall e: E ensures DistinctKeys(rest + [Pair(op.key, e)]) {
      AppendedIsDistinct(rest, op.key, e);
    }
  }

  lemma AppendedIsDistinct<K(!new), E(!new)>(list: Recency<K, E>, key: K, entry: E)
    requires DistinctKeys(list) && forall p :: p in list ==> p.key != key
    ensures DistinctKeys(list + [Pair(key, entry)])
  {
    forall i | 0 <= i < |list| ensures list[i].key != key {
      var p := list[i];
      assert p in list;
    }
  }

  /** Whatever happens, the keys are distinct and there are at most `limit`. */
  lemma {:induction false} RunsKeepShape<K(!new), E(!new)>(limit: nat, ops: seq<Operation<K, E>>)
    ensures DistinctKeys(ExecuteAll([], limit, ops)) && |ExecuteAll([], limit, ops)| <= limit
  {
    if ops != [] {
      RunsKeepShape(limit, ops[..|ops| - 1]);
      ExecuteKeepsShape(ExecuteAll([], limit, ops[..|ops| - 1]), limit, ops[|ops| - 1]);
    }
  }

  // ---- Least recently used ----

  /** The key is cached, and all that were used after it are among `others`. */
  ghost predicate UsedSince<K, E>(list: Recency<K, E>, key: K, entry: E, others: set<K>) {
    exists i :: UsedSinceAt(list, key, entry, others, i)
  }

  ghost predicate UsedSinceAt<K, E>(list: Recency<K, E>, key: K, entry: E, others: set<K>, i: int) {
    && 0 <= i < |list| && list[i] == Pair(key, entry)
    && forall j :: i < j < |list| ==> list[j].key in others
  }

  lemma {:induction false} FewKeys<K(!new), E(!new)>(list: Recency<K, E>, others: set<K>)
    requires DistinctKeys(list) && forall j :: 0 <= j < |list| ==> list[j].key in others
    ensures |list| <= |others|
  {
    if list != [] {
      var last := |list| - 1;
      var rest := others - {list[last].key};
      FewKeys(list[..last], rest);
      assert others == rest + {list[last].key};
    }
  }

  lemma {:induction false} WithoutKeepsOrder<K(!new), E(!new)>(
      list: Recency<K, E>, k: K, key: K, entry: E, others: set<K>, i: nat) returns (m: nat)
    requires DistinctKeys(list) && k != key && UsedSinceAt(list, key, entry, others, i)
    ensures UsedSinceAt(Without(list, k), key, entry, others, m) && |Without(list, k)| - m <= |list| - i
  {
    var last := |list| - 1;
    var rest := Without(list[..last], k);
    assert DistinctKeys(list[..last]);
    if i == last {
      WithoutIsFilter(list[..last], k);
      m := |rest|;
    } else {
      assert UsedSinceAt(list[..last], key, entry, others, i);
      m := WithoutKeepsOrder(list[..last], k, key, entry, others, i);
      assert list[last].key in others;
    }
  }

  lemma OtherUse<K(!new), E(!new)>(list: Recency<K, E>, limit: nat, op: Operation<K, E>, key: K, entry: E, others: set<K>)
    requires DistinctKeys(list) && |list| <= limit && UsedSince(list, key, entry, others)
    requires op.key in others && key !in others && |others| < limit
    ensures UsedSince(Execute(list, limit, op), key, entry, others)
  {
    hide DistinctKeys, Without, Find;
    var i :| UsedSinceAt(list, key, entry, others, i);
    WithoutIsFilter(list, op.key);
    WithoutSize(list, op.key);
    var rest := Without(list, op.key);
    var m := WithoutKeepsOrder(list, op.key, key, entry, others, i);
    assert UsedSinceAt(list, key, entry, others, i);
    hide UsedSinceAt;
    if op.Insert? {
      AppendedUse(rest, key, entry, others, m, Pair(op.key, op.entry));
      if |rest| + 1 > limit {
        FewKeysAfter(rest, key, entry, others, m, op.key);
        FirstDropped(rest + [Pair(op.key, op.entry)], key, entry, others, m);
      }
    } else if Find(list, op.key).Some? {
      AppendedUse(rest, key, entry, others, m, Pair(op.key, Find(list, op.key).value));
    }
  }

  lemma AppendedUse<K(!new), E(!new)>(
      list: Recency<K, E>, key: K, entry: E, others: set<K>, m: int, p: Pair<K, E>)
    requires UsedSinceAt(list, key, entry, others, m) && p.key in others
    ensures UsedSinceAt(list + [p], key, entry, others, m)
  {
  }

  lemma FirstDropped<K(!new), E(!new)>(list: Recency<K, E>, key: K, entry: E, others: set<K>, m: int)
    requires UsedSinceAt(list, key, entry, others, m) && m > 0
    ensures UsedSinceAt(list[1..], key, entry, others, m - 1)
  {
  }

  lemma FewKeysAfter<K(!new), E(!new)>(list: Recency<K, E>, key: K, entry: E, others: set<K>, m: nat, k: K)
    requires DistinctKeys(list) && UsedSinceAt(list, key, entry, others, m) && k in others
    requires forall p :: p in list ==> p.key != k
    ensures |list| - m <= |others|
  {
    var tail, rest := list[m + 1..], others - {k};
    forall j | 0 <= j < |tail| ensures tail[j].key in rest {
      assert tail[j] == list[m + 1 + j] && tail[j] in list;
    }
    FewKeys(tail, rest);
    assert others == rest + {k};
  }

  lemma SameUse<K(!new), E(!new)>(list: Recency<K, E>, limit: nat, key: K, entry: E, others: set<K>)
    requires DistinctKeys(list) && UsedSince(list, key, entry, others)
    ensures UsedSince(Execute(list, limit, Launch(key)), key, entry, others)
  {
    var i :| UsedSinceAt(list, key, entry, others, i);
    FindAt(list, key, entry, i);
    var after := Execute(list, limit, Launch(key));
    assert UsedSinceAt(after, key, entry, others, |after| - 1);
  }

  lemma FindAt<K(!new), E(!new)>(list: Recency<K, E>, key: K, entry: E, i: nat)
    requires DistinctKeys(list) && i < |list| && list[i] == Pair(key, entry)
    ensures Find(list, key) == Some(entry)
  {
  }

  /** An entry is found again for as long as fewer than `limit` other keys have been used since its
      last use. */
  lemma {:induction false} RecentlyUsedStays<K(!new), E(!new)>(
      list: Recency<K, E>, limit: nat, key: K, entry: E, others: set<K>, ops: seq<Operation<K, E>>)
    requires DistinctKeys(list) && |list| <= limit && |others| < limit && key !in others
    requires list != [] && list[|list| - 1] == Pair(key, entry)
    requires forall i :: 0 <= i < |ops| ==> ops[i].key in others || ops[i] == Launch(key)
    ensures Find(ExecuteAll(list, limit, ops), key) == Some(entry)
  {
    RunKeepsUse(list, limit, key, entry, others, ops);
    var after := ExecuteAll(list, limit, ops);
    var i :| UsedSinceAt(after, key, entry, others, i);
    FindAt(after, key, entry, i);
  }

  lemma {:induction false} RunKeepsUse<K(!new), E(!new)>(
      list: Recency<K, E>, limit: nat, key: K, entry: E, others: set<K>, ops: seq<Operation<K, E>>)
    requires DistinctKeys(list) && |list| <= limit && |others| < limit && key !in others
    requires list != [] && list[|list| - 1] == Pair(key, entry)
    requires forall i :: 0 <= i < |ops| ==> ops[i].key in others || ops[i] == Launch(key)
    ensures var after := ExecuteAll(list, limit, ops);
            DistinctKeys(after) && |after| <= limit && UsedSince(after, key, entry, others)
  {
    if ops == [] {
      assert UsedSinceAt(list, key, entry, others, |list| - 1);
    } else {
      var last := |ops| - 1;
      RunKeepsUse(list, limit, key, entry, others, ops[..last]);
      var before := ExecuteAll(list, limit, ops[..last]);
      ExecuteKeepsShape(before, limit, ops[last]);
      if ops[last].key in others {
        OtherUse(before, limit, ops[last], key, entry, others);
      } else {
        SameUse(before, limit, key, entry, others);
      }
    }
  }

  // ---- One operation ----

  /** An inserted entry is found, instead of an older one; every other key keeps its entry, except
      that the key used least recently is dropped if there would be too many. A limit of zero turns
      the cache off. */
  lemma InsertMeans<K(!new), E(!new)>(list: Recency<K, E>, limit: nat, key: K, entry: E, other: K)
    requires DistinctKeys(list) && |list| <= limit && other != key
    ensures var after := Execute(list, limit, Insert(key, entry));
            if limit == 0 then after == list
            else
              && Find(after, key) == Some(entry) && after != [] && after[|after| - 1].key == key
              && Find(after, other)
                 == if |list| == limit && Find(list, key) == None && other == list[0].key then None
                    else Find(list, other)
  {
    hide Find, DistinctKeys, Without;
    var longer := Without(list, key) + [Pair(key, entry)];
    WithoutIsFilter(list, key);
    WithoutSize(list, key);
    AppendedIsDistinct(Without(list, key), key, entry);
    FindLast(Without(list, key), key, entry);
    FindInWithout(list, key, entry, other);
    if |longer| > limit {
      FindInRest(longer, key);
      FindInRest(longer, other);
    }
  }

  /** A launch changes no entry. It makes its key the last used one, if it finds it. */
  lemma LaunchMeans<K(!new), E(!new)>(list: Recency<K, E>, limit: nat, key: K, other: K)
    requires DistinctKeys(list)
    ensures var after := Execute(list, limit, Launch(key));
            && Find(after, other) == Find(list, other)
            && (Find(list, key) == None ==> after == list)
            && (Find(list, key).Some? ==> after != [] && after[|after| - 1].key == key)
  {
    hide Find, DistinctKeys, Without;
    match Find(list, key) {
      case None =>
      case Some(entry) =>
        FindLast(Without(list, key), key, entry);
        if other != key {
          FindInWithout(list, key, entry, other);
        }
    }
  }

  /** The other entries keep their order of use. */
  lemma {:induction false} OrderIsKept<K(!new), E(!new)>(list: Recency<K, E>, key: K, i: nat, j: nat)
    requires DistinctKeys(list) && i < j < |list| && list[i].key != key && list[j].key != key
    ensures exists m, n :: 0 <= m < n < |Without(list, key)|
                           && Without(list, key)[m] == list[i] && Without(list, key)[n] == list[j]
  {
    var last := |list| - 1;
    var rest := Without(list[..last], key);
    assert DistinctKeys(list[..last]);
    if j < last {
      OrderIsKept(list[..last], key, i, j);
      var m, n :| 0 <= m < n < |rest| && rest[m] == list[i] && rest[n] == list[j];
      assert Without(list, key)[m] == list[i] && Without(list, key)[n] == list[j];
    } else {
      WithoutIsFilter(list[..last], key);
      assert list[..last][i] == list[i];
      assert list[i] in rest;
      var m :| 0 <= m < |rest| && rest[m] == list[i];
      assert Without(list, key)[m] == list[i] && Without(list, key)[|rest|] == list[j];
    }
  }

  lemma FindLast<K(!new), E(!new)>(list: Recency<K, E>, key: K, entry: E)
    ensures Find(list + [Pair(key, entry)], key) == Some(entry)
  {
  }

  lemma {:induction false} FindInWithout<K(!new), E(!new)>(list: Recency<K, E>, key: K, entry: E, other: K)
    requires other != key
    ensures Find(Without(list, key), other) == Find(list, other)
    ensures Find(Without(list, key) + [Pair(key, entry)], other) == Find(list, other)
  {
    var without := Without(list, key);
    assert (without + [Pair(key, entry)])[..|without|] == without;
    if list != [] {
      var last := |list| - 1;
      var rest := Without(list[..last], key);
      FindInWithout(list[..last], key, entry, other);
      assert (rest + [list[last]])[..|rest|] == rest;
    }
  }

  /** Dropping the first entry of a list loses its key, and no other. */
  lemma {:induction false} FindInRest<K(!new), E(!new)>(list: Recency<K, E>, key: K)
    requires DistinctKeys(list) && list != []
    ensures Find(list[1..], key) == if list[0].key == key then None else Find(list, key)
  {
    var last := |list| - 1;
    if last > 0 {
      assert DistinctKeys(list[..last]);
      FindInRest(list[..last], key);
      assert list[1..][..last - 1] == list[..last][1..];
    }
  }

  // ---- The code ----

  /** The list that the order and the map stand for. */
  function Zip<K(==), E>(order: seq<K>, entries: map<K, E>): Recency<K, E>
    requires forall k :: k in order ==> k in entries
  {
    seq(|order|, i requires 0 <= i < |order| => Pair(order[i], entries[order[i]]))
  }

  predicate Distinct<K(==)>(order: seq<K>) {
    forall i, j :: 0 <= i < j < |order| ==> order[i] != order[j]
  }

  function Remove<K(==)>(order: seq<K>, key: K): seq<K> {
    if order == [] then []
    else
      var rest := Remove(order[..|order| - 1], key);
      if order[|order| - 1] == key then rest else rest + [order[|order| - 1]]
  }

  lemma {:induction false} RemoveIsFilter<K(!new)>(order: seq<K>, key: K)
    ensures forall k :: k in Remove(order, key) <==> k in order && k != key
    ensures Distinct(order) ==> Distinct(Remove(order, key))
    ensures key !in order ==> Remove(order, key) == order
  {
    if order != [] {
      var last := |order| - 1;
      assert order == order[..last] + [order[last]];
      RemoveIsFilter(order[..last], key);
      if Distinct(order) {
        assert Distinct(order[..last]);
        assert order[last] !in order[..last];
      }
    }
  }

  /** A list that has no other entry for the key. */
  lemma {:induction false} ZipWithout<K(!new), E(!new)>(order: seq<K>, entries: map<K, E>, after: map<K, E>, key: K)
    requires forall k :: k in order ==> k in entries
    requires forall k :: k in order && k != key ==> k in after && after[k] == entries[k]
    ensures forall k :: k in Remove(order, key) ==> k in after
    ensures Zip(Remove(order, key), after) == Without(Zip(order, entries), key)
  {
    RemoveIsFilter(order, key);
    if order != [] {
      var last := |order| - 1;
      ZipPrefix(order, entries);
      ZipWithout(order[..last], entries, after, key);
      if order[last] != key {
        RemoveIsFilter(order[..last], key);
        ZipLonger(Remove(order[..last], key), after, order[last]);
      }
    }
  }

  lemma ZipPrefix<K(!new), E(!new)>(order: seq<K>, entries: map<K, E>)
    requires order != [] && forall k :: k in order ==> k in entries
    ensures Zip(order, entries)[..|order| - 1] == Zip(order[..|order| - 1], entries)
    ensures Zip(order, entries) != [] && Zip(order, entries)[|order| - 1] == Pair(order[|order| - 1], entries[order[|order| - 1]])
  {
  }

  lemma {:induction false} FindInZip<K(!new), E(!new)>(order: seq<K>, entries: map<K, E>, key: K)
    requires forall k :: k in order ==> k in entries
    ensures Find(Zip(order, entries), key) == if key in order then Some(entries[key]) else None
  {
    if order != [] {
      var last := |order| - 1;
      assert order == order[..last] + [order[last]];
      FindInZip(order[..last], entries, key);
      assert Zip(order, entries)[..last] == Zip(order[..last], entries);
    }
  }

  lemma ZipLonger<K(!new), E(!new)>(order: seq<K>, entries: map<K, E>, key: K)
    requires key in entries && forall k :: k in order ==> k in entries
    ensures forall k :: k in order + [key] ==> k in entries
    ensures Zip(order + [key], entries) == Zip(order, entries) + [Pair(key, entries[key])]
  {
  }

  /** Order and map after the key's entry has been set, before anything is dropped. */
  lemma InsertedList<K(!new), E(!new)>(order: seq<K>, entries: map<K, E>, key: K, entry: E)
    requires Distinct(order) && (forall k :: k in order ==> k in entries) && (forall k :: k in entries ==> k in order)
    ensures var longer, after := Remove(order, key) + [key], entries[key := entry];
            && Distinct(longer)
            && (forall k :: k in longer ==> k in after) && (forall k :: k in after ==> k in longer)
            && Zip(longer, after) == Without(Zip(order, entries), key) + [Pair(key, entry)]
            && |Zip(longer, after)| == |longer|
  {
    var after := entries[key := entry];
    RemoveIsFilter(order, key);
    ZipWithout(order, entries, after, key);
    ZipLonger(Remove(order, key), after, key);
    hide Remove, Without, Zip;
  }

  class LaunchCache<K(==,!new), E(!new)> {
    const limit: nat
    var order: seq<K>
    var entries: map<K, E>

    constructor (limit: nat)
      ensures Valid() && Contents() == [] && this.limit == limit
    {
      this.limit := limit;
      order, entries := [], map[];
    }

    /** The order lists exactly the keys of the map, each once. */
    ghost predicate Valid()
      reads this
    {
      && Distinct(order) && (forall k :: k in order ==> k in entries) && (forall k :: k in entries ==> k in order)
      && |order| <= limit
    }

    ghost function Contents(): Recency<K, E>
      requires Valid()
      reads this
    {
      Zip(order, entries)
    }

    /** order.splice(order.end(), order, position) */
    method MoveToBack(key: K)
      requires key in order
      modifies this`order
      ensures order == Remove(old(order), key) + [key]
    {
      order := Remove(order, key) + [key];
    }

    /** The lookup of launch(), which counts as a use. */
    method Lookup(key: K) returns (r: Option<E>)
      requires Valid()
      modifies this`order
      ensures Valid() && Contents() == Execute(old(Contents()), limit, Launch(key))
      ensures r == Find(old(Contents()), key)
    {
      FindInZip(order, entries, key);
      if key !in entries {
        return None;
      }
      r := Some(entries[key]);
      RemoveIsFilter(order, key);
      ZipWithout(order, entries, entries, key);
      ZipLonger(Remove(order, key), entries, key);
      WithoutIsShorter(order, key);
      hide Remove, Without, Zip, Find;
      MoveToBack(key);
    }

    method Insert(key: K, entry: E)
      requires Valid()
      modifies this
      ensures Valid() && Contents() == Execute(old(Contents()), limit, Operation.Insert(key, entry))
    {
      hide Remove, Without, Zip, Find, Distinct;
      if limit == 0 {
        return;
      }
      ghost var before := Contents();
      ghost var after := entries[key := entry];
      InsertedList(order, entries, key, entry);
      WithoutIsShorter(order, key);
      RemoveIsFilter(order, key);
      if key in entries {
        entries := entries[key := entry];
        MoveToBack(key);
        return;
      }
      order := order + [key];
      entries := entries[key := entry];
      KeysOfOrder(order, entries);
      if |entries.Keys| > limit {
        ZipOfRest(order, entries);
        entries := entries - {order[0]};
        order := order[1..];
      }
    }

    method Size() returns (n: nat)
      requires Valid()
      ensures n == |Contents()|
    {
      KeysOfOrder(order, entries);
      return |entries.Keys|;
    }
  }

  lemma {:induction false} WithoutIsShorter<K(!new)>(order: seq<K>, key: K)
    ensures |Remove(order, key)| <= |order|
    ensures key in order ==> |Remove(order, key)| + 1 <= |order|
  {
    if order != [] {
      var last := |order| - 1;
      assert order == order[..last] + [order[last]];
      WithoutIsShorter(order[..last], key);
    }
  }

  lemma KeysOfOrder<K(!new), E(!new)>(order: seq<K>, entries: map<K, E>)
    requires Distinct(order) && forall k :: k in order <==> k in entries
    ensures |entries.Keys| == |order|
  {
    assert entries.Keys == set k | k in order;
    SizeOfOrder(order);
  }

  lemma {:induction false} SizeOfOrder<K(!new)>(order: seq<K>)
    requires Distinct(order)
    ensures |set k | k in order| == |order|
  {
    if order != [] {
      var last := |order| - 1;
      SizeOfOrder(order[..last]);
      assert order == order[..last] + [order[last]];
      assert (set k | k in order) == (set k | k in order[..last]) + {order[last]};
    }
  }

  lemma ZipOfRest<K(!new), E(!new)>(order: seq<K>, entries: map<K, E>)
    requires order != [] && Distinct(order) && forall k :: k in order <==> k in entries
    ensures Distinct(order[1..]) && forall k :: k in order[1..] <==> k in entries - {order[0]}
    ensures Zip(order[1..], entries - {order[0]}) == Zip(order, entries)[1..] && |Zip(order, entries)| == |order|
  {
    assert order == [order[0]] + order[1..];
  }
}

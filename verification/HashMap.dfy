/** The open-addressing hash map: linear probing, at most half full, nothing is ever removed. It
    must behave like a finite map in which the first insert of a key wins. */
module HashMaps {
  import opened PowersOfTwo
  import FixedWidthArithmetic

  datatype Option<T> = None | Some(value: T)

  datatype Item<K, V> = Item(key: K, value: V)

  /** What the buckets hold. */
  type Table<K, V> = seq<Option<Item<K, V>>>

  const OCCUPIED_BIT: nat := TWO_63
  const INITIAL_BUCKETS: nat := 4
  const SIZE_MAX: nat := TWO_64 - 1

  /** hash | kOccupiedBit */
  function Needle(hash: nat): (h: nat)
    ensures h >= OCCUPIED_BIT
  {
    hash % OCCUPIED_BIT + OCCUPIED_BIT
  }

  /** h & (n - 1) */
  function Mask(h: nat, n: nat): nat
    requires n > 0
  {
    FixedWidthArithmetic.BitAnd(h, n - 1)
  }

  lemma {:induction false} AndIsLowBits(h: nat, k: nat)
    ensures FixedWidthArithmetic.BitAnd(h, FixedWidthArithmetic.AllOnes(k)) == LowBits(h, k)
  {
    hide Pow2, FixedWidthArithmetic.AllOnes;
    FixedWidthArithmetic.NoOnes();
    if k > 0 {
      FixedWidthArithmetic.OnesStep(k);
      AndIsLowBits(h / 2, k - 1);
    }
  }

  /** For a power of two, the mask gives the remainder. */
  lemma MaskIsRemainder(h: nat, k: nat)
    ensures Mask(h, Pow2(k)) == h % Pow2(k)
  {
    AndIsLowBits(h, k);
    hide Pow2, Shr, Shl, LowBits, FixedWidthArithmetic.BitAnd;
    Split(h, k);
    ShlIsProduct(Shr(h, k), k);
    FixedWidthArithmetic.QuotientIsUnique(h, Pow2(k), Shr(h, k), LowBits(h, k));
  }

  // ---- Probing ----

  /** The bucket d steps after h, around the end of the table. */
  function At(h: nat, d: nat, n: nat): (i: nat)
    requires h < n && d < n
    ensures i < n
  {
    if h + d < n then h + d else h + d - n
  }

  /** How many steps bucket i is after h. */
  function Distance(h: nat, i: nat, n: nat): (d: nat)
    requires h < n && i < n
    ensures d < n && At(h, d, n) == i
  {
    if i >= h then i - h else i + n - h
  }

  function Home(needle: nat, n: nat): (h: nat)
    requires n > 0
    ensures h < n
  {
    needle % n
  }

  /** A probe for this needle gets d steps far without meeting an empty bucket. */
  predicate NoGap<K, V>(t: Table<K, V>, needle: nat, d: nat)
    requires 0 < |t| && d <= |t|
  {
    forall e :: 0 <= e < d ==> t[At(Home(needle, |t|), e, |t|)].Some?
  }

  /** Every item can be reached from its home bucket. */
  ghost predicate Reachable<K, V>(t: Table<K, V>, hash: K -> nat) {
    forall i :: 0 <= i < |t| && t[i].Some? ==> ReachableAt(t, hash, i)
  }

  predicate ReachableAt<K, V>(t: Table<K, V>, hash: K -> nat, i: nat)
    requires i < |t| && t[i].Some?
  {
    var needle := Needle(hash(t[i].value.key));
    NoGap(t, needle, Distance(Home(needle, |t|), i, |t|))
  }

  ghost predicate DistinctKeys<K, V>(t: Table<K, V>) {
    forall i, j :: 0 <= i < |t| && 0 <= j < |t| && t[i].Some? && t[j].Some? && t[i].value.key == t[j].value.key ==> i == j
  }

  predicate Matches<K(==), V>(hashes: seq<nat>, t: Table<K, V>, hash: K -> nat) {
    && |hashes| == |t|
    && forall i :: 0 <= i < |t| ==>
         if t[i].Some? then hashes[i] == Needle(hash(t[i].value.key)) else hashes[i] < OCCUPIED_BIT
  }

  /** The table holds exactly the associations of the map. */
  ghost predicate Represents<K, V>(t: Table<K, V>, m: map<K, V>) {
    && (forall i :: 0 <= i < |t| && t[i].Some? ==> t[i].value.key in m && m[t[i].value.key] == t[i].value.value)
    && (forall k :: k in m ==> Contains(t, k))
  }

  ghost predicate Contains<K, V>(t: Table<K, V>, key: K) {
    exists i :: 0 <= i < |t| && t[i].Some? && t[i].value.key == key
  }

  function Count<K, V>(t: Table<K, V>): nat {
    if t == [] then 0 else Count(t[..|t| - 1]) + (if t[|t| - 1].Some? then 1 else 0)
  }

  lemma {:induction false} CountOfFull<K, V>(t: Table<K, V>)
    requires forall i :: 0 <= i < |t| ==> t[i].Some?
    ensures Count(t) == |t|
  {
    if t != [] {
      CountOfFull(t[..|t| - 1]);
    }
  }

  lemma {:induction false} CountOfEmpty<K, V>(t: Table<K, V>)
    requires forall i :: 0 <= i < |t| ==> t[i] == None
    ensures Count(t) == 0
  {
    if t != [] {
      CountOfEmpty(t[..|t| - 1]);
    }
  }

  lemma {:induction false} CountAfterPlacing<K, V>(t: Table<K, V>, pos: nat, item: Item<K, V>)
    requires pos < |t| && t[pos] == None
    ensures Count(t[pos := Some(item)]) == Count(t) + 1
  {
    var last := |t| - 1;
    var u := t[pos := Some(item)];
    if pos < last {
      assert u[..last] == t[..last][pos := Some(item)];
      CountAfterPlacing(t[..last], pos, item);
    } else {
      assert u[..last] == t[..last];
    }
  }

  /** A table that is not full has an empty bucket before a probe has gone round. */
  lemma ProbeEnds<K, V>(t: Table<K, V>, needle: nat, d: nat)
    requires 0 < |t| && d <= |t| && Count(t) < |t| && NoGap(t, needle, d)
    ensures d < |t|
  {
    if d == |t| {
      forall i | 0 <= i < |t| ensures t[i].Some? {
        var e := Distance(Home(needle, |t|), i, |t|);
        assert t[At(Home(needle, |t|), e, |t|)].Some?;
      }
      CountOfFull(t);
      assert false;
    }
  }

  /** The first d buckets of a probe hold other keys. */
  predicate Missed<K(==), V>(t: Table<K, V>, needle: nat, key: K, d: nat)
    requires 0 < |t| && d <= |t|
  {
    forall e :: 0 <= e < d ==>
      t[At(Home(needle, |t|), e, |t|)].Some? && t[At(Home(needle, |t|), e, |t|)].value.key != key
  }

  lemma MissedOneMore<K, V>(t: Table<K, V>, needle: nat, key: K, d: nat)
    requires d < |t| && Missed(t, needle, key, d) && NoGap(t, needle, d)
    requires t[At(Home(needle, |t|), d, |t|)].Some? && t[At(Home(needle, |t|), d, |t|)].value.key != key
    ensures Missed(t, needle, key, d + 1) && NoGap(t, needle, d + 1)
  {
  }

  lemma NextAt(h: nat, d: nat, n: nat)
    requires h < n && d + 1 < n
    ensures (At(h, d, n) + 1) % n == At(h, d + 1, n)
  {
    var i := At(h, d, n);
    if i + 1 < n {
      FixedWidthArithmetic.QuotientIsUnique(i + 1, n, 0, i + 1);
    } else {
      FixedWidthArithmetic.QuotientIsUnique(i + 1, n, 1, 0);
    }
  }

  lemma AtDistance(h: nat, d: nat, n: nat)
    requires h < n && d < n
    ensures Distance(h, At(h, d, n), n) == d
  {
  }

  /** A probe that ends at an empty bucket has not missed the key. */
  lemma NotFound<K, V>(t: Table<K, V>, hash: K -> nat, key: K, d: nat)
    requires 0 < |t| && d < |t| && Reachable(t, hash)
    requires Missed(t, Needle(hash(key)), key, d) && t[At(Home(Needle(hash(key)), |t|), d, |t|)] == None
    ensures !Contains(t, key)
  {
    var needle := Needle(hash(key));
    var h := Home(needle, |t|);
    forall i | 0 <= i < |t| && t[i].Some? ensures t[i].value.key != key {
      var e := Distance(h, i, |t|);
      if d < Distance(Home(Needle(hash(t[i].value.key)), |t|), i, |t|) {
        NothingBefore(t, hash, i, d);
      }
    }
  }

  /** All buckets between an item's home and the item are occupied. */
  lemma NothingBefore<K, V>(t: Table<K, V>, hash: K -> nat, i: nat, d: nat)
    requires i < |t| && t[i].Some? && Reachable(t, hash)
    requires d < Distance(Home(Needle(hash(t[i].value.key)), |t|), i, |t|)
    ensures t[At(Home(Needle(hash(t[i].value.key)), |t|), d, |t|)].Some?
  {
    assert ReachableAt(t, hash, i);
  }

  /** A new item at the end of its probe. */
  lemma Placed<K, V>(t: Table<K, V>, hash: K -> nat, item: Item<K, V>, d: nat)
    requires 0 < |t| && d < |t| && Reachable(t, hash)
    requires NoGap(t, Needle(hash(item.key)), d)
    requires t[At(Home(Needle(hash(item.key)), |t|), d, |t|)] == None
    ensures Reachable(t[At(Home(Needle(hash(item.key)), |t|), d, |t|) := Some(item)], hash)
  {
    var h := Home(Needle(hash(item.key)), |t|);
    var pos := At(h, d, |t|);
    var u := t[pos := Some(item)];
    forall i | 0 <= i < |u| && u[i].Some? ensures ReachableAt(u, hash, i) {
      if i != pos {
        assert ReachableAt(t, hash, i);
      } else {
        assert Distance(h, pos, |t|) == d;
      }
    }
  }

  lemma PlacedRepresents<K, V>(t: Table<K, V>, m: map<K, V>, item: Item<K, V>, pos: nat)
    requires pos < |t| && t[pos] == None && Represents(t, m) && DistinctKeys(t) && !Contains(t, item.key)
    ensures Represents(t[pos := Some(item)], m[item.key := item.value]) && DistinctKeys(t[pos := Some(item)])
    ensures item.key !in m
  {
    var u := t[pos := Some(item)];
    var m' := m[item.key := item.value];
    NotContained(t, m, item.key);
    forall k | k in m' ensures Contains(u, k) {
      if k == item.key {
        assert u[pos].value.key == k;
      } else {
        ContainedStill(t, pos, item, k);
      }
    }
    forall i | 0 <= i < |t| && t[i].Some? ensures t[i].value.key != item.key {
    }
  }

  lemma ContainedStill<K, V>(t: Table<K, V>, pos: nat, item: Item<K, V>, key: K)
    requires pos < |t| && t[pos] == None && Contains(t, key)
    ensures Contains(t[pos := Some(item)], key)
  {
    var i :| 0 <= i < |t| && t[i].Some? && t[i].value.key == key;
    assert t[pos := Some(item)][i] == t[i];
  }

  lemma SizeAfterInsert<K, V>(m: map<K, V>, key: K, value: V)
    requires key !in m
    ensures |m[key := value]| == |m| + 1
  {
    assert m[key := value].Keys == m.Keys + {key};
    assert |m.Keys + {key}| == |m.Keys| + 1;
  }

  lemma NotContained<K, V>(t: Table<K, V>, m: map<K, V>, key: K)
    requires Represents(t, m) && !Contains(t, key)
    ensures key !in m
  {
  }

  lemma FoundIsContained<K, V>(t: Table<K, V>, m: map<K, V>, pos: nat)
    requires Represents(t, m) && pos < |t| && t[pos].Some?
    ensures t[pos].value.key in m && m[t[pos].value.key] == t[pos].value.value
  {
  }

  lemma StartOfProbe<K, V>(t: Table<K, V>, needle: nat)
    requires |t| > 0
    ensures At(Home(needle, |t|), 0, |t|) == Home(needle, |t|) == needle % |t|
    ensures NoGap(t, needle, 0) && forall key :: Missed(t, needle, key, 0)
  {
  }

  // ---- Rehashing ----

  /** u holds exactly the items of the first i buckets of t. */
  ghost predicate Moved<K, V>(t: Table<K, V>, u: Table<K, V>, i: nat)
    requires i <= |t|
  {
    && (forall j :: 0 <= j < |u| && u[j].Some? ==> IsOneOf(t, i, u[j]))
    && (forall k :: 0 <= k < i && t[k].Some? ==> IsOneOf(u, |u|, t[k]))
  }

  ghost predicate IsOneOf<K, V>(t: Table<K, V>, n: nat, item: Option<Item<K, V>>)
    requires n <= |t|
  {
    exists k :: 0 <= k < n && t[k] == item
  }

  lemma MovedOne<K, V>(t: Table<K, V>, u: Table<K, V>, i: nat, pos: nat)
    requires i < |t| && t[i].Some? && pos < |u| && u[pos] == None
    requires Moved(t, u, i) && DistinctKeys(t) && DistinctKeys(u)
    ensures Moved(t, u[pos := t[i]], i + 1) && DistinctKeys(u[pos := t[i]])
  {
    var v := u[pos := t[i]];
    forall j | 0 <= j < |v| && v[j].Some? ensures IsOneOf(t, i + 1, v[j]) {
      if j == pos {
        assert t[i] == v[j];
      } else {
        var k :| 0 <= k < i && t[k] == u[j];
        assert t[k] == v[j];
      }
    }
    forall k | 0 <= k < i + 1 && t[k].Some? ensures IsOneOf(v, |v|, t[k]) {
      if k == i {
        assert v[pos] == t[k];
      } else {
        assert IsOneOf(u, |u|, t[k]);
        var j :| 0 <= j < |u| && u[j] == t[k];
        assert v[j] == t[k];
      }
    }
    forall j | 0 <= j < |u| && u[j].Some? ensures u[j].value.key != t[i].value.key {
      assert IsOneOf(t, i, u[j]);
    }
  }

  lemma MovedNone<K, V>(t: Table<K, V>, u: Table<K, V>, i: nat)
    requires i < |t| && t[i] == None && Moved(t, u, i)
    ensures Moved(t, u, i + 1)
  {
    forall j | 0 <= j < |u| && u[j].Some? ensures IsOneOf(t, i + 1, u[j]) {
      var k :| 0 <= k < i && t[k] == u[j];
      assert t[k] == u[j];
    }
  }

  lemma MovedAll<K, V>(t: Table<K, V>, u: Table<K, V>, m: map<K, V>)
    requires Moved(t, u, |t|) && Represents(t, m)
    ensures Represents(u, m)
  {
    forall j | 0 <= j < |u| && u[j].Some? ensures u[j].value.key in m && m[u[j].value.key] == u[j].value.value {
      assert IsOneOf(t, |t|, u[j]);
    }
    forall k | k in m ensures Contains(u, k) {
      var i :| 0 <= i < |t| && t[i].Some? && t[i].value.key == k;
      assert IsOneOf(u, |u|, t[i]);
      var j :| 0 <= j < |u| && u[j] == t[i];
      assert u[j].Some? && u[j].value.key == k;
    }
  }

  lemma {:induction false} CountOfPrefix<K, V>(t: Table<K, V>, i: nat)
    requires i < |t|
    ensures Count(t[..i + 1]) == Count(t[..i]) + (if t[i].Some? then 1 else 0)
    ensures Count(t[..i]) <= i
  {
    assert t[..i + 1][..i] == t[..i];
    CountIsSmall(t[..i]);
  }

  lemma {:induction false} CountIsSmall<K, V>(t: Table<K, V>)
    ensures Count(t) <= |t|
  {
    if t != [] {
      CountIsSmall(t[..|t| - 1]);
    }
  }

  lemma Emptied<K, V>(hashes: seq<nat>, t: Table<K, V>, hash: K -> nat)
    requires |hashes| == |t| && forall i :: 0 <= i < |t| ==> t[i] == None && hashes[i] == 0
    ensures Matches(hashes, t, hash)
    ensures Reachable(t, hash) && DistinctKeys(t) && Count(t) == 0 && Represents(t, map[])
  {
    CountOfEmpty(t);
  }

  lemma NoneMoved<K, V>(t: Table<K, V>, u: Table<K, V>)
    requires forall i :: 0 <= i < |u| ==> u[i] == None
    ensures Count(t[..0]) == 0 && Moved(t, u, 0)
  {
  }

  lemma MatchesAt<K, V>(hashes: seq<nat>, t: Table<K, V>, hash: K -> nat, i: nat)
    requires Matches(hashes, t, hash) && i < |t|
    ensures if t[i].Some? then hashes[i] == Needle(hash(t[i].value.key)) else hashes[i] < OCCUPIED_BIT
  {
  }

  lemma NoGapOneMore<K, V>(t: Table<K, V>, needle: nat, d: nat)
    requires d < |t| && NoGap(t, needle, d) && t[At(Home(needle, |t|), d, |t|)].Some?
    ensures NoGap(t, needle, d + 1)
  {
  }

  lemma MatchesAfterPlacing<K, V>(
      hashes: seq<nat>, t: Table<K, V>, hash: K -> nat, pos: nat, item: Item<K, V>)
    requires Matches(hashes, t, hash) && pos < |t|
    ensures Matches(hashes[pos := Needle(hash(item.key))], t[pos := Some(item)], hash)
  {
  }

  lemma Doubled(log2: nat)
    ensures Pow2(log2 + 1) == 2 * Pow2(log2)
  {
  }

  lemma KeyIsNew<K, V>(t: Table<K, V>, m: map<K, V>, key: K)
    requires Represents(t, m) && key !in m
    ensures !Contains(t, key)
  {
  }

  // ---- The code ----

  class HashMap<K(==), V> {
    const hash: K -> nat
    var nbuckets: nat
    var size: nat
    var hashes: array<nat>
    var items: array<Option<Item<K, V>>>
    ghost var contents: map<K, V>
    ghost var log2: nat

    constructor (hash: K -> nat)
      ensures Valid() && fresh(hashes) && fresh(items)
      ensures contents == map[] && this.hash == hash
    {
      this.hash := hash;
      nbuckets, size := INITIAL_BUCKETS, 0;
      hashes := new nat[INITIAL_BUCKETS](_ => 0);
      items := new Option<Item<K, V>>[INITIAL_BUCKETS](_ => None);
      contents, log2 := map[], 2;
      new;
      assert Pow2(1) == 2;
      Emptied(hashes[..], items[..], hash);
    }

    /** Never more than half full, so that every probe ends. */
    ghost predicate Valid()
      reads this, hashes, items
    {
      && nbuckets == Pow2(log2) >= INITIAL_BUCKETS
      && hashes.Length == items.Length == nbuckets
      && size == |contents| == Count(items[..]) && size <= nbuckets / 2
      && Matches(hashes[..], items[..], hash)
      && Reachable(items[..], hash) && DistinctKeys(items[..])
      && Represents(items[..], contents)
    }

    method Lookup(key: K, needle: nat) returns (found: bool, pos: nat)
      requires Valid() && needle == Needle(hash(key))
      ensures pos < items.Length
      ensures found ==> items[pos].Some? && items[pos].value.key == key
      ensures found ==> key in contents && items[pos].value.value == contents[key]
      ensures !found ==> items[pos] == None && key !in contents
      ensures !found ==> var d := Distance(Home(needle, items.Length), pos, items.Length); NoGap(items[..], needle, d)
    {
      ghost var t := items[..];
      ghost var home := Home(needle, |t|);
      ghost var d := 0;
      hide Reachable, DistinctKeys, Represents, Count, Missed, NoGap, At, Distance, Home, Pow2, Mask;
      MaskIsRemainder(needle, log2);
      pos := Mask(needle, nbuckets);
      StartOfProbe(t, needle);
      while true
        invariant d < |t| && pos == At(home, d, |t|)
        invariant NoGap(t, needle, d) && Missed(t, needle, key, d)
        decreases |t| - d
      {
        var h := hashes[pos];
        assert t[pos] == items[pos] && hashes[..][pos] == h;
        if h < OCCUPIED_BIT {
          NotFound(t, hash, key, d);
          NotContained(t, contents, key);
          AtDistance(home, d, |t|);
          return false, pos;
        }
        if h == needle && items[pos].value.key == key {
          FoundIsContained(t, contents, pos);
          return true, pos;
        }
        MissedOneMore(t, needle, key, d);
        ProbeEnds(t, needle, d + 1);
        NextAt(home, d, |t|);
        MaskIsRemainder(pos + 1, log2);
        pos := Mask(pos + 1, nbuckets);
        d := d + 1;
      }
    }

    /** The value of the key, if there is one. */
    method Find(key: K) returns (r: Option<nat>)
      requires Valid()
      ensures r.Some? <==> key in contents
      ensures r.Some? ==> r.value < items.Length && items[r.value] == Some(Item(key, contents[key]))
    {
      var found, pos := Lookup(key, Needle(hash(key)));
      assert items[..][pos] == items[pos];
      return if found then Some(pos) else None;
    }

    /** The first empty bucket for this needle in a new table. */
    method FindEmpty(newHashes: array<nat>, needle: nat, ghost u: Table<K, V>, ghost k: nat)
      returns (pos: nat, ghost d: nat)
      requires newHashes.Length == Pow2(k) && Matches(newHashes[..], u, hash) && Count(u) < |u|
      ensures d < |u| && pos == At(Home(needle, |u|), d, |u|) && NoGap(u, needle, d)
      ensures u[pos] == None
    {
      var n := newHashes.Length;
      hide Count, NoGap, At, Home, Mask, Pow2;
      MaskIsRemainder(needle, k);
      pos, d := Mask(needle, n), 0;
      StartOfProbe(u, needle);
      while newHashes[pos] >= OCCUPIED_BIT
        invariant pos < n && d < |u| && pos == At(Home(needle, |u|), d, |u|) && NoGap(u, needle, d)
        decreases |u| - d
      {
        assert newHashes[..][pos] == newHashes[pos];
        NoGapOneMore(u, needle, d);
        ProbeEnds(u, needle, d + 1);
        NextAt(Home(needle, |u|), d, |u|);
        MaskIsRemainder(pos + 1, k);
        pos := Mask(pos + 1, n);
        d := d + 1;
      }
      assert newHashes[..][pos] == newHashes[pos];
    }

    /** A new table that holds the items of the first i buckets of t. */
    ghost predicate Rehashed(newHashes: array<nat>, newItems: array<Option<Item<K, V>>>, t: Table<K, V>, i: nat)
      requires i <= |t|
      reads newHashes, newItems
    {
      && Matches(newHashes[..], newItems[..], hash)
      && Reachable(newItems[..], hash) && DistinctKeys(newItems[..])
      && Moved(t, newItems[..], i) && Count(newItems[..]) == Count(t[..i])
    }

    /** One item moves to the new table. */
    method MoveItem(
        newHashes: array<nat>, newItems: array<Option<Item<K, V>>>, needle: nat, item: Option<Item<K, V>>,
        ghost t: Table<K, V>, ghost i: nat, ghost k: nat)
      requires newHashes.Length == Pow2(k) && i < |t| && t[i] == item && item.Some? && needle == Needle(hash(item.value.key))
      requires DistinctKeys(t) && |t| < newItems.Length
      requires newHashes as object != newItems && Rehashed(newHashes, newItems, t, i)
      modifies newHashes, newItems
      ensures Rehashed(newHashes, newItems, t, i + 1)
    {
      ghost var u := newItems[..];
      CountOfPrefix(t, i);
      hide Reachable, DistinctKeys, Represents, Count, NoGap, At, Distance, Home, Moved, Pow2;
      var pos, d := FindEmpty(newHashes, needle, u, k);
      Placed(u, hash, item.value, d);
      MovedOne(t, u, i, pos);
      CountAfterPlacing(u, pos, item.value);
      MatchesAfterPlacing(newHashes[..], u, hash, pos, item.value);
      newItems[pos] := item;
      newHashes[pos] := needle;
      assert newItems[..] == u[pos := item];
    }

    /** Twice as many buckets for the same contents. The CHECK on their number is a precondition. */
    method Rehash()
      requires Valid() && nbuckets < SIZE_MAX / 2
      modifies this
      ensures Valid() && nbuckets == 2 * old(nbuckets) && size == old(size) && contents == old(contents)
      ensures fresh(hashes) && fresh(items) && hashes as object != items
    {
      hide Reachable, DistinctKeys, Represents, Count, Pow2, Moved, Matches;
      var oldNbuckets, oldHashes, oldItems := nbuckets, hashes, items;
      var newNbuckets := oldNbuckets * 2;
      var newHashes := new nat[newNbuckets](_ => 0);
      var newItems := new Option<Item<K, V>>[newNbuckets](_ => None);
      ghost var t := oldItems[..];
      Emptied(newHashes[..], newItems[..], hash);
      NoneMoved(t, newItems[..]);
      assert Rehashed(newHashes, newItems, t, 0);
      Doubled(log2);
      MoveItems(oldHashes, oldItems, newHashes, newItems, log2 + 1);
      assert t[..oldNbuckets] == t;
      MovedAll(t, newItems[..], contents);
      hashes := newHashes;
      items := newItems;
      nbuckets := newNbuckets;
      log2 := log2 + 1;
    }

    method MoveItems(
        oldHashes: array<nat>, oldItems: array<Option<Item<K, V>>>,
        newHashes: array<nat>, newItems: array<Option<Item<K, V>>>, ghost k: nat)
      requires newHashes.Length == Pow2(k) && Matches(oldHashes[..], oldItems[..], hash) && DistinctKeys(oldItems[..])
      requires oldItems.Length < newItems.Length && Rehashed(newHashes, newItems, oldItems[..], 0)
      requires newHashes as object != newItems && oldHashes != newHashes && oldHashes as object != newItems
      requires oldItems != newItems && oldItems as object != newHashes
      modifies newHashes, newItems
      ensures Rehashed(newHashes, newItems, oldItems[..], oldItems.Length)
    {
      ghost var t := oldItems[..];
      hide Matches, DistinctKeys, Count, Moved, Reachable, Pow2;
      for i := 0 to oldItems.Length
        invariant Rehashed(newHashes, newItems, t, i)
      {
        var h := oldHashes[i];
        assert t[i] == oldItems[i] && oldHashes[..][i] == h;
        MatchesAt(oldHashes[..], t, hash, i);
        if h >= OCCUPIED_BIT {
          MoveItem(newHashes, newItems, h, oldItems[i], t, i, k);
        } else {
          CountOfPrefix(t, i);
          MovedNone(t, newItems[..], i);
        }
      }
    }

    /** A new item is written to the empty bucket at the end of its probe. */
    method Place(key: K, value: V, needle: nat, pos: nat)
      requires Valid() && hashes as object != items && needle == Needle(hash(key)) && key !in contents
      requires pos < items.Length && items[pos] == None && size < nbuckets / 2
      requires NoGap(items[..], needle, Distance(Home(needle, items.Length), pos, items.Length))
      modifies this`size, this`contents, hashes, items
      ensures Valid() && contents == old(contents)[key := value] && items[pos] == Some(Item(key, value))
    {
      hide Reachable, DistinctKeys, Represents, Count, NoGap, Home, Distance, Pow2, Needle;
      ghost var t, m := items[..], contents;
      ghost var item := Item(key, value);
      ghost var d := Distance(Home(needle, |t|), pos, |t|);
      assert t[pos] == None;
      KeyIsNew(t, m, key);
      Placed(t, hash, item, d);
      PlacedRepresents(t, m, item, pos);
      CountAfterPlacing(t, pos, item);
      MatchesAfterPlacing(hashes[..], t, hash, pos, item);
      SizeAfterInsert(m, key, value);
      size := size + 1;
      hashes[pos] := needle;
      items[pos] := Some(Item(key, value));
      contents := contents[key := value];
      assert items[..] == t[pos := Some(item)];
    }

    /** The bucket of the key, which keeps the value that it has, if any. The precondition is that
        the CHECK of rehash does not fire. */
    method Insert(key: K, value: V) returns (pos: nat)
      requires Valid() && hashes as object != items
      requires key in contents || size < nbuckets / 2 || nbuckets < SIZE_MAX / 2
      modifies this, hashes, items
      ensures Valid() && hashes as object != items
      ensures (hashes == old(hashes) && items == old(items)) || (fresh(hashes) && fresh(items))
      ensures contents == if key in old(contents) then old(contents) else old(contents)[key := value]
      ensures pos < items.Length && items[pos] == Some(Item(key, contents[key]))
    {
      var needle := Needle(hash(key));
      hide Reachable, DistinctKeys, Represents, Count, NoGap, Home, Distance, Pow2, Matches;
      var found;
      found, pos := Lookup(key, needle);
      if found {
        return;
      }
      if size >= nbuckets / 2 {
        Rehash();
        var foundRehashed, posRehashed := Lookup(key, needle);
        assert !foundRehashed;
        pos := posRehashed;
      }
      Place(key, value, needle, pos);
    }
  }
}

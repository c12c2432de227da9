/** src/server/snapshot.js: what is written out, and what is rebuilt from it. */
module Snapshots {
  import opened Sorting
  import opened Wrappers
  import opened SortedSets

  /** OtherEntry stands for the types the serializer does not know (streams, time series, vector indexes ...). */
  datatype Entry<J> =
    | StringEntry(value: string)
    | ListEntry(items: seq<string>)
    | HashEntry(fields: map<string, string>)
    | SetEntry(members: set<string>)
    | ZSetEntry(memberToScore: map<string, real>, sorted: seq<Item>)
    | JsonEntry(json: J)
    | OtherEntry(typeName: string)

  datatype Saved<J> =
    | SavedString(value: string)
    | SavedList(items: seq<string>)
    | SavedHash(pairs: seq<(string, string)>)
    | SavedSet(members: seq<string>)
    | SavedZSet(scores: seq<(string, real)>)
    | SavedJson(json: J)

  datatype Store<J> = Store(kv: map<string, Entry<J>>, expires: map<string, int>)

  datatype SavedStore<J> = SavedStore(kv: map<string, Saved<J>>, expires: map<string, int>)

  // ---------- maps as lists of pairs, in any order ----------

  ghost predicate Enumerates<V>(pairs: seq<(string, V)>, m: map<string, V>) {
    && (forall i, j :: 0 <= i < j < |pairs| ==> pairs[i].0 != pairs[j].0)
    && (forall k :: k in m ==> (k, m[k]) in pairs)
    && (forall p :: p in pairs ==> p.0 in m && m[p.0] == p.1)
  }

  /** A map filled by setting each pair in turn. */
  function FromPairs<V>(pairs: seq<(string, V)>): map<string, V> {
    if pairs == [] then map[]
    else
      var last := pairs[|pairs| - 1];
      FromPairs(pairs[..|pairs| - 1])[last.0 := last.1]
  }

  lemma {:induction false} FromPairsAt<V>(pairs: seq<(string, V)>, m: map<string, V>)
    requires forall p :: p in pairs ==> p.0 in m && m[p.0] == p.1
    ensures forall k :: k in FromPairs(pairs) <==> exists i :: 0 <= i < |pairs| && pairs[i].0 == k
    ensures forall k :: k in FromPairs(pairs) ==> k in m && FromPairs(pairs)[k] == m[k]
  {
    if pairs != [] {
      var n := |pairs| - 1;
      var before := pairs[..n];
      FromPairsAt(before, m);
      assert pairs[n] in pairs;
      forall k ensures k in FromPairs(pairs) <==> exists i :: 0 <= i < |pairs| && pairs[i].0 == k {
        if k in FromPairs(before) {
          var i :| 0 <= i < n && before[i].0 == k;
          assert pairs[i].0 == k;
        }
        if exists i :: 0 <= i < |pairs| && pairs[i].0 == k {
          var i :| 0 <= i < |pairs| && pairs[i].0 == k;
          if i < n { assert before[i].0 == k; }
        }
      }
    }
  }

  lemma {:induction false} FromPairsRebuilds<V>(pairs: seq<(string, V)>, m: map<string, V>)
    requires Enumerates(pairs, m)
    ensures FromPairs(pairs) == m
  {
    FromPairsAt(pairs, m);
    forall k | k in m ensures k in FromPairs(pairs) {
      var i :| 0 <= i < |pairs| && pairs[i] == (k, m[k]);
      assert pairs[i].0 == k;
    }
  }

  method EntriesOf<V>(m: map<string, V>) returns (pairs: seq<(string, V)>)
    ensures Enumerates(pairs, m)
  {
    pairs := [];
    var todo := m.Keys;
    while todo != {}
      invariant todo <= m.Keys
      invariant forall i, j :: 0 <= i < j < |pairs| ==> pairs[i].0 != pairs[j].0
      invariant forall k :: k in m.Keys - todo ==> (k, m[k]) in pairs
      invariant forall p :: p in pairs ==> p.0 in m && m[p.0] == p.1 && p.0 !in todo
      decreases todo
    {
      var k :| k in todo;
      todo := todo - {k};
      assert forall i :: 0 <= i < |pairs| ==> pairs[i] in pairs;
      pairs := pairs + [(k, m[k])];
    }
  }

  // ---------- rebuilding a sorted set ----------

  predicate Precedes(a: Item, b: Item) { Compare(a, b) < 0 }

  /** The snapshot's comparator orders like _zsetCompare. */
  function SortItems(s: seq<Item>): seq<Item> { Sort(s, Precedes) }

  function ItemsOf(pairs: seq<(string, real)>): (r: seq<Item>)
    ensures |r| == |pairs|
    ensures forall i :: 0 <= i < |r| ==> r[i] == Item(pairs[i].0, pairs[i].1)
  {
    seq(|pairs|, i requires 0 <= i < |pairs| => Item(pairs[i].0, pairs[i].1))
  }

  lemma PrecedesOrders()
    ensures WeakOrder(Precedes)
  {
    hide Less, Compare;
    forall a, b, c ensures Precedes(a, b) ==> !Precedes(b, a) && (Precedes(a, c) || Precedes(c, b)) {
      LessLaws(a, b, a);
      LessLaws(b, a, b);
      LessLaws(a, c, b);
      LessLaws(c, b, c);
      LessLaws(b, c, a);
      LessLaws(c, a, b);
    }
  }

  lemma SortItemsSorted(s: seq<Item>)
    requires forall i, j :: 0 <= i < j < |s| ==> s[i].member != s[j].member
    ensures StrictlySorted(SortItems(s))
    ensures forall x :: x in SortItems(s) <==> x in s
  {
    hide Less, Compare, Sort, WeakOrder;
    PrecedesOrders();
    SortSorts(s, Precedes);
    var r := SortItems(s);
    SameMembers(r, s);
    forall i, j | 0 <= i < j < |s| ensures s[i] != s[j] {}
    forall i, j | 0 <= i < j < |r| ensures Less(r[i], r[j]) {
      StillOnce(s, r, i, j);
      LessLaws(r[j], r[i], r[j]);
      LessLaws(r[i], r[j], r[i]);
    }
  }

  /** From the score pairs alone, in whatever order they were saved, both halves come back unchanged. */
  lemma {:induction false} ZSetRebuilds(pairs: seq<(string, real)>, sorted: seq<Item>, scores: map<string, real>)
    requires Enumerates(pairs, scores) && ZSetOk(sorted, scores)
    ensures FromPairs(pairs) == scores && SortItems(ItemsOf(pairs)) == sorted
  {
    hide StrictlySorted;
    FromPairsRebuilds(pairs, scores);
    var items := ItemsOf(pairs);
    SortItemsSorted(items);
    forall it | it in items ensures it.member in scores && scores[it.member] == it.score {
      var i :| 0 <= i < |items| && items[i] == it;
      assert pairs[i] in pairs;
    }
    forall m | m in scores ensures Item(m, scores[m]) in items {
      var i :| 0 <= i < |pairs| && pairs[i] == (m, scores[m]);
      assert items[i] == Item(m, scores[m]);
    }
    ArrayIsDetermined(SortItems(items), sorted, scores);
  }

  // ---------- entries ----------

  ghost predicate EntryOk<J>(e: Entry<J>) {
    e.ZSetEntry? ==> ZSetOk(e.sorted, e.memberToScore)
  }

  ghost predicate Saves<J>(o: Saved<J>, e: Entry<J>) {
    match e
    case StringEntry(v) => o == SavedString(v)
    case ListEntry(items) => o == SavedList(items)
    case HashEntry(fields) => o.SavedHash? && Enumerates(o.pairs, fields)
    case SetEntry(members) => o.SavedSet? && forall m :: m in o.members <==> m in members
    case ZSetEntry(scores, _) => o.SavedZSet? && Enumerates(o.scores, scores)
    case JsonEntry(json) => o == SavedJson(json)
    case OtherEntry(_) => false
  }

  function DeserializeEntry<J>(o: Saved<J>): Entry<J> {
    match o
    case SavedString(v) => StringEntry(v)
    case SavedList(items) => ListEntry(items)
    case SavedHash(pairs) => HashEntry(FromPairs(pairs))
    case SavedSet(members) => SetEntry(set m | m in members)
    case SavedZSet(pairs) => ZSetEntry(FromPairs(pairs), SortItems(ItemsOf(pairs)))
    case SavedJson(json) => JsonEntry(json)
  }

  lemma {:induction false} EntryRoundTrip<J>(o: Saved<J>, e: Entry<J>)
    requires Saves(o, e) && EntryOk(e)
    ensures DeserializeEntry(o) == e
  {
    match e
    case HashEntry(fields) => FromPairsRebuilds(o.pairs, fields);
    case SetEntry(members) => assert (set m | m in o.members) == members;
    case ZSetEntry(scores, sorted) => ZSetRebuilds(o.scores, sorted, scores);
    case _ =>
  }

  /** None is the thrown "Unknown type" error. */
  method SerializeEntry<J>(e: Entry<J>) returns (o: Option<Saved<J>>)
    ensures o.Some? <==> !e.OtherEntry?
    ensures o.Some? ==> Saves(o.value, e)
  {
    match e
    case StringEntry(v) => return Some(SavedString(v));
    case ListEntry(items) => return Some(SavedList(items));
    case HashEntry(fields) =>
      var pairs := EntriesOf(fields);
      return Some(SavedHash(pairs));
    case SetEntry(members) =>
      var arr: seq<string> := [];
      var todo := members;
      while todo != {}
        invariant todo <= members && forall m :: m in arr <==> m in members - todo
        decreases todo
      {
        var m :| m in todo;
        todo := todo - {m};
        arr := arr + [m];
      }
      return Some(SavedSet(arr));
    case ZSetEntry(scores, _) =>
      var pairs := EntriesOf(scores);
      return Some(SavedZSet(pairs));
    case JsonEntry(json) => return Some(SavedJson(json));
    case OtherEntry(_) => return None;
  }

  // ---------- whole stores ----------

  ghost predicate StoreOk<J>(s: Store<J>) {
    forall k :: k in s.kv ==> EntryOk(s.kv[k])
  }

  /** A store can be saved exactly when it holds no entry of an unknown type. */
  ghost predicate Savable<J>(s: Store<J>) {
    forall k :: k in s.kv ==> !s.kv[k].OtherEntry?
  }

  function LoadFromObject<J>(d: SavedStore<J>): Store<J> {
    Store(map k | k in d.kv :: DeserializeEntry(d.kv[k]), d.expires)
  }

  ghost predicate SavesStore<J>(d: SavedStore<J>, s: Store<J>) {
    && d.kv.Keys == s.kv.Keys && d.expires == s.expires
    && forall k :: k in s.kv ==> Saves(d.kv[k], s.kv[k])
  }

  method SerializeStore<J>(s: Store<J>) returns (d: Option<SavedStore<J>>)
    ensures d.Some? <==> Savable(s)
    ensures d.Some? ==> SavesStore(d.value, s)
  {
    var kv: map<string, Saved<J>> := map[];
    var todo := s.kv.Keys;
    while todo != {}
      invariant todo <= s.kv.Keys && kv.Keys == s.kv.Keys - todo
      invariant forall k :: k in kv ==> Saves(kv[k], s.kv[k]) && !s.kv[k].OtherEntry?
      decreases todo
    {
      var k :| k in todo;
      todo := todo - {k};
      var o := SerializeEntry(s.kv[k]);
      if o.None? { return None; }
      kv := kv[k := o.value];
    }
    return Some(SavedStore(kv, s.expires));
  }

  /** Loading a saved store gives back the same keys, values, orders and deadlines. */
  lemma {:induction false} StoreRoundTrip<J>(d: SavedStore<J>, s: Store<J>)
    requires SavesStore(d, s) && StoreOk(s)
    ensures LoadFromObject(d) == s
  {
    var back := LoadFromObject(d);
    forall k | k in s.kv ensures back.kv[k] == s.kv[k] {
      EntryRoundTrip(d.kv[k], s.kv[k]);
    }
    assert back.kv == s.kv;
  }
}

/** Lazy and batch expiry in src/core/DataStore.js, against a store whose keys vanish when they expire. */
module Expiry {
  import opened Wrappers

  /** String entries, and entries of any other type. */
  datatype Value = Str(text: string) | Other(typeName: string)

  // ---------- the simple store ----------

  datatype Timed = Timed(value: Value, deadline: Option<int>)

  type View = map<string, Timed>

  predicate Dead(t: Timed, now: int) { t.deadline.Some? && now >= t.deadline.value }

  function Vanish(v: View, now: int): View {
    map k | k in v && !Dead(v[k], now) :: v[k]
  }

  datatype SetOption =
    | NX | XX | GET | KEEPTTL
    | EX(seconds: Option<int>) | PX(ms: Option<int>) | EXAT(ts: Option<int>) | PXAT(tsms: Option<int>)
    | Unknown

  /** None in place of a number is one that parseInt could not read; KEYS comes with what its pattern matches. */
  datatype Command =
    | Set(key: string, text: string, options: seq<SetOption>)
    | Get(key: string)
    | Del(keys: seq<string>)
    | Exists(keys: seq<string>)
    | SetNx(key: string, text: string)
    | MSetNx(pairs: seq<(string, string)>)
    | GetSet(key: string, text: string)
    | GetDel(key: string)
    | Expire(key: string, seconds: Option<int>)
    | PExpire(key: string, ms: Option<int>)
    | ExpireAt(key: string, ts: Option<int>)
    | PExpireAt(key: string, tsms: Option<int>)
    | Ttl(key: string)
    | PTtl(key: string)
    | Persist(key: string)
    | Keys(matches: string -> bool)
    | DbSize
    | Rename(src: string, dst: string)
    | RenameNx(src: string, dst: string)

  datatype Reply = Ok | Err | Int(n: int) | Bulk(text: Option<string>) | Names(names: set<string>)

  datatype SetPlan = SetPlan(nx: bool, xx: bool, get: bool, keepTtl: bool, at: Option<int>)

  /** One option of SET, None for the error replies. */
  function PlanStep(p: SetPlan, o: SetOption, now: int): Option<SetPlan> {
    match o
    case NX => Some(p.(nx := true))
    case XX => Some(p.(xx := true))
    case GET => Some(p.(get := true))
    case KEEPTTL => Some(p.(keepTtl := true))
    case EX(n) => if n.Some? && n.value > 0 then Some(p.(at := Some(now + n.value * 1000))) else None
    case PX(n) => if n.Some? && n.value > 0 then Some(p.(at := Some(now + n.value))) else None
    case EXAT(n) => if n.Some? then Some(p.(at := Some(n.value * 1000))) else None
    case PXAT(n) => if n.Some? then Some(p.(at := n)) else None
    case Unknown => None
  }

  function Plan(options: seq<SetOption>, now: int): Option<SetPlan> {
    if options == [] then Some(SetPlan(false, false, false, false, None))
    else
      match Plan(options[..|options| - 1], now)
      case None => None
      case Some(p) => PlanStep(p, options[|options| - 1], now)
  }

  function TextOf(v: View, k: string): Option<string> {
    if k in v && v[k].value.Str? then Some(v[k].value.text) else None
  }

  function Put(v: View, k: string, value: Value, deadline: Option<int>): View { v[k := Timed(value, deadline)] }

  function Matching(v: View, matches: string -> bool): set<string> { set k | k in v && matches(k) }

  function Without(v: View, keys: seq<string>): View {
    if keys == [] then v else Without(v, keys[..|keys| - 1]) - {keys[|keys| - 1]}
  }

  function CountIn(v: View, keys: seq<string>): nat {
    if keys == [] then 0 else CountIn(v, keys[..|keys| - 1]) + if keys[|keys| - 1] in v then 1 else 0
  }

  function PutAll(v: View, pairs: seq<(string, string)>): View {
    if pairs == [] then v
    else
      var n := |pairs| - 1;
      Put(PutAll(v, pairs[..n]), pairs[n].0, Str(pairs[n].1), None)
  }

  function SpecSet(v: View, now: int, key: string, text: string, options: seq<SetOption>): (View, Reply) {
    match Plan(options, now)
    case None => (v, Err)
    case Some(p) =>
      if p.nx && p.xx then (v, Err)
      else if (p.nx && key in v) || (p.xx && key !in v) then (v, Bulk(None))
      else
        var deadline := if p.at.Some? then p.at else if p.keepTtl && key in v then v[key].deadline else None;
        (Put(v, key, Str(text), deadline), if p.get then Bulk(TextOf(v, key)) else Ok)
  }

  /** EXPIRE and its relatives on a live key: a new deadline. */
  function SpecDeadline(v: View, key: string, at: Option<int>): (View, Reply) {
    if key !in v then (v, Int(0))
    else if at.None? then (v, Err)
    else (Put(v, key, v[key].value, at), Int(1))
  }

  function Times(n: Option<int>, scale: int, base: int): Option<int> {
    if n.None? then None else Some(base + n.value * scale)
  }

  function SpecRename(v: View, src: string, dst: string): View
    requires src in v
  {
    v[dst := v[src]] - {src}
  }

  /** The reply and effect of a command on a store that holds only live keys. */
  function SpecStep(v: View, now: int, c: Command): (View, Reply) {
    match c
    case Set(key, text, options) => SpecSet(v, now, key, text, options)
    case Get(key) => (v, if key in v && !v[key].value.Str? then Err else Bulk(TextOf(v, key)))
    case Del(keys) => if keys == [] then (v, Err) else (Without(v, keys), Int(|v| - |Without(v, keys)|))
    case Exists(keys) => (v, if keys == [] then Err else Int(CountIn(v, keys)))
    case SetNx(key, text) => if key in v then (v, Int(0)) else (Put(v, key, Str(text), None), Int(1))
    case MSetNx(pairs) =>
      if pairs == [] then (v, Err)
      else if exists i :: 0 <= i < |pairs| && pairs[i].0 in v then (v, Int(0))
      else (PutAll(v, pairs), Int(1))
    case GetSet(key, text) =>
      if key in v && !v[key].value.Str? then (v, Err) else (Put(v, key, Str(text), None), Bulk(TextOf(v, key)))
    case GetDel(key) =>
      if key in v && !v[key].value.Str? then (v, Err) else (v - {key}, Bulk(TextOf(v, key)))
    case Expire(key, n) => SpecDeadline(v, key, Times(n, 1000, now))
    case PExpire(key, n) => SpecDeadline(v, key, Times(n, 1, now))
    case ExpireAt(key, n) => SpecDeadline(v, key, Times(n, 1000, 0))
    case PExpireAt(key, n) => SpecDeadline(v, key, Times(n, 1, 0))
    case Ttl(key) =>
      (v, Int(if key !in v then -2
              else if v[key].deadline.None? then -1
              else (v[key].deadline.value - now + 999) / 1000))
    case PTtl(key) =>
      (v, Int(if key !in v then -2 else if v[key].deadline.None? then -1 else v[key].deadline.value - now))
    case Persist(key) =>
      if key in v && v[key].deadline.Some? then (Put(v, key, v[key].value, None), Int(1)) else (v, Int(0))
    case Keys(matches) => (v, Names(Matching(v, matches)))
    case DbSize => (v, Int(|v|))
    case Rename(src, dst) => if src !in v then (v, Err) else (SpecRename(v, src, dst), Ok)
    case RenameNx(src, dst) =>
      if src !in v then (v, Err) else if dst in v then (v, Int(0)) else (SpecRename(v, src, dst), Int(1))
  }

  /** A deadline that is already past takes the key away at once. */
  function Spec(v: View, now: int, c: Command): (View, Reply) {
    var r := SpecStep(v, now, c);
    (Vanish(r.0, now), r.1)
  }

  // ---------- what the two maps stand for ----------

  function DeadlineOf(expires: map<string, int>, k: string): Option<int> {
    if k in expires then Some(expires[k]) else None
  }

  function Live(kv: map<string, Value>, expires: map<string, int>, now: int): View {
    map k | k in kv && !Dead(Timed(kv[k], DeadlineOf(expires, k)), now) :: Timed(kv[k], DeadlineOf(expires, k))
  }

  function WithDeadline(expires: map<string, int>, k: string, at: Option<int>): map<string, int> {
    if at.Some? then expires[k := at.value] else expires - {k}
  }

  lemma LivePut(kv: map<string, Value>, expires: map<string, int>, now: int, k: string, value: Value, at: Option<int>)
    ensures Live(kv[k := value], WithDeadline(expires, k, at), now)
         == Vanish(Put(Live(kv, expires, now), k, value, at), now)
  {
  }

  lemma LiveRemove(kv: map<string, Value>, expires: map<string, int>, now: int, k: string)
    ensures Live(kv - {k}, expires - {k}, now) == Live(kv, expires, now) - {k}
  {
  }

  lemma LiveLater(kv: map<string, Value>, expires: map<string, int>, now: int, later: int)
    requires now <= later
    ensures Vanish(Live(kv, expires, now), later) == Live(kv, expires, later)
  {
  }

  lemma LiveIsLive(kv: map<string, Value>, expires: map<string, int>, now: int)
    ensures Vanish(Live(kv, expires, now), now) == Live(kv, expires, now)
  {
  }

  class DataStore {
    var kv: map<string, Value>
    var expires: map<string, int>

    ghost predicate Valid()
      reads this
    {
      expires.Keys <= kv.Keys
    }

    ghost function View(now: int): View
      reads this
    {
      Live(kv, expires, now)
    }

    constructor ()
      ensures Valid() && kv == map[] && expires == map[]
    {
      kv, expires := map[], map[];
    }

    method PurgeIfExpired(key: string, now: int)
      requires Valid()
      modifies this
      ensures Valid() && View(now) == old(View(now))
      ensures key in kv <==> key in View(now)
      ensures kv.Keys <= old(kv.Keys) && forall k :: k != key ==> (k in kv <==> k in old(kv))
    {
      if key in expires && now >= expires[key] {
        kv := kv - {key};
        expires := expires - {key};
      }
    }

    method GetEntry(key: string, now: int) returns (entry: Option<Value>)
      requires Valid()
      modifies this
      ensures Valid() && View(now) == old(View(now))
      ensures key in kv <==> key in View(now)
      ensures entry == if key in View(now) then Some(View(now)[key].value) else None
      ensures key in View(now) ==> View(now)[key] == Timed(kv[key], DeadlineOf(expires, key))
    {
      PurgeIfExpired(key, now);
      entry := if key in kv then Some(kv[key]) else None;
    }

    /** kv.set together with expires.set or expires.delete. */
    method Store(key: string, value: Value, at: Option<int>, now: int)
      requires Valid()
      modifies this
      ensures Valid() && View(now) == Vanish(Put(old(View(now)), key, value, at), now)
      ensures kv == old(kv)[key := value]
    {
      LivePut(kv, expires, now, key, value, at);
      kv := kv[key := value];
      if at.Some? { expires := expires[key := at.value]; } else { expires := expires - {key}; }
    }

    method Remove(key: string, now: int)
      requires Valid()
      modifies this
      ensures Valid() && View(now) == old(View(now)) - {key}
    {
      LiveRemove(kv, expires, now, key);
      kv := kv - {key};
      expires := expires - {key};
    }

    method PurgeExpiredBatch(now: int)
      requires Valid()
      modifies this
      ensures Valid() && View(now) == old(View(now)) && kv.Keys == View(now).Keys
    {
      var todo := expires.Keys;
      while todo != {}
        invariant Valid() && View(now) == old(View(now))
        invariant forall k :: k in kv && k !in View(now) ==> k in todo
        decreases todo
      {
        var key :| key in todo;
        todo := todo - {key};
        PurgeIfExpired(key, now);
      }
    }

    // ---------- commands ----------

    method DoSet(key: string, text: string, options: seq<SetOption>, now: int) returns (r: Reply)
      requires Valid()
      modifies this
      ensures Valid() && (View(now), r) == Spec(old(View(now)), now, Set(key, text, options))
    {
      LiveIsLive(kv, expires, now);
      var plan := Some(SetPlan(false, false, false, false, None));
      for i := 0 to |options|
        invariant plan == Plan(options[..i], now) && plan.Some?
        modifies {}
      {
        assert options[..i + 1][..i] == options[..i];
        plan := PlanStep(plan.value, options[i], now);
        if plan.None? {
          PlanFailsEarly(options, i + 1, now);
          return Err;
        }
      }
      assert options[..|options|] == options;
      var p := plan.value;
      if p.nx && p.xx { return Err; }
      var existing := GetEntry(key, now);
      if p.nx && existing.Some? { return Bulk(None); }
      if p.xx && existing.None? { return Bulk(None); }
      var oldVal := if existing.Some? && existing.value.Str? then Some(existing.value.text) else None;
      var at := if p.at.Some? then p.at else if p.keepTtl && key in expires then Some(expires[key]) else None;
      Store(key, Str(text), at, now);
      return if p.get then Bulk(oldVal) else Ok;
    }

    method DoGet(key: string, now: int) returns (r: Reply)
      requires Valid()
      modifies this
      ensures Valid() && (View(now), r) == Spec(old(View(now)), now, Get(key))
    {
      LiveIsLive(kv, expires, now);
      var entry := GetEntry(key, now);
      if entry.None? { return Bulk(None); }
      if !entry.value.Str? { return Err; }
      return Bulk(Some(entry.value.text));
    }

    method DoDel(keys: seq<string>, now: int) returns (r: Reply)
      requires Valid()
      modifies this
      ensures Valid() && (View(now), r) == Spec(old(View(now)), now, Del(keys))
    {
      hide Live, Vanish, Without;
      LiveIsLive(kv, expires, now);
      if keys == [] { return Err; }
      var removed := DelAll(keys, now);
      LiveIsLive(kv, expires, now);
      return Int(removed);
    }

    method DelAll(keys: seq<string>, now: int) returns (removed: int)
      requires Valid()
      modifies this
      ensures Valid() && View(now) == Without(old(View(now)), keys)
      ensures removed == |old(View(now))| - |View(now)|
    {
      hide Live, Without;
      removed := 0;
      ghost var v0 := View(now);
      WithoutNone(v0);
      for i := 0 to |keys|
        invariant Valid() && View(now) == Without(v0, keys[..i]) && removed == |v0| - |View(now)|
      {
        assert keys[..i + 1] == keys[..i] + [keys[i]];
        WithoutSnoc(v0, keys[..i], keys[i]);
        var one := DelOne(keys[i], now);
        removed := removed + one;
      }
      assert keys[..|keys|] == keys;
    }

    method DelOne(key: string, now: int) returns (removed: nat)
      requires Valid()
      modifies this
      ensures Valid() && View(now) == old(View(now)) - {key} && removed == |old(View(now))| - |View(now)|
    {
      hide Live;
      PurgeIfExpired(key, now);
      ghost var before := View(now);
      if key !in kv {
        assert before - {key} == before;
        return 0;
      }
      Remove(key, now);
      assert before.Keys == View(now).Keys + {key};
      return 1;
    }

    method DoExists(keys: seq<string>, now: int) returns (r: Reply)
      requires Valid()
      modifies this
      ensures Valid() && (View(now), r) == Spec(old(View(now)), now, Exists(keys))
    {
      LiveIsLive(kv, expires, now);
      if keys == [] { return Err; }
      var count := 0;
      for i := 0 to |keys|
        invariant Valid() && View(now) == old(View(now)) && count == CountIn(View(now), keys[..i])
      {
        assert keys[..i + 1][..i] == keys[..i];
        var entry := GetEntry(keys[i], now);
        if entry.Some? { count := count + 1; }
      }
      assert keys[..|keys|] == keys;
      return Int(count);
    }

    method DoSetNx(key: string, text: string, now: int) returns (r: Reply)
      requires Valid()
      modifies this
      ensures Valid() && (View(now), r) == Spec(old(View(now)), now, SetNx(key, text))
    {
      LiveIsLive(kv, expires, now);
      var entry := GetEntry(key, now);
      if entry.Some? { return Int(0); }
      Store(key, Str(text), None, now);
      return Int(1);
    }

    method DoMSetNx(pairs: seq<(string, string)>, now: int) returns (r: Reply)
      requires Valid()
      modifies this
      ensures Valid() && (View(now), r) == Spec(old(View(now)), now, MSetNx(pairs))
    {
      LiveIsLive(kv, expires, now);
      if pairs == [] { return Err; }
      for i := 0 to |pairs|
        invariant Valid() && View(now) == old(View(now))
        invariant forall j :: 0 <= j < i ==> pairs[j].0 !in View(now)
      {
        var entry := GetEntry(pairs[i].0, now);
        if entry.Some? { return Int(0); }
      }
      ghost var v0 := View(now);
      for i := 0 to |pairs|
        invariant Valid() && View(now) == PutAll(v0, pairs[..i])
      {
        assert pairs[..i + 1][..i] == pairs[..i];
        PutUntimed(View(now), pairs[i].0, Str(pairs[i].1), now);
        LiveIsLive(kv, expires, now);
        Store(pairs[i].0, Str(pairs[i].1), None, now);
      }
      assert pairs[..|pairs|] == pairs;
      LiveIsLive(kv, expires, now);
      return Int(1);
    }

    method DoGetSet(key: string, text: string, now: int) returns (r: Reply)
      requires Valid()
      modifies this
      ensures Valid() && (View(now), r) == Spec(old(View(now)), now, GetSet(key, text))
    {
      LiveIsLive(kv, expires, now);
      var entry := GetEntry(key, now);
      if entry.Some? && !entry.value.Str? { return Err; }
      var oldVal := if entry.Some? then Some(entry.value.text) else None;
      Store(key, Str(text), None, now);
      return Bulk(oldVal);
    }

    method DoGetDel(key: string, now: int) returns (r: Reply)
      requires Valid()
      modifies this
      ensures Valid() && (View(now), r) == Spec(old(View(now)), now, GetDel(key))
    {
      LiveIsLive(kv, expires, now);
      var entry := GetEntry(key, now);
      if entry.None? {
        assert View(now) - {key} == View(now);
        return Bulk(None);
      }
      if !entry.value.Str? { return Err; }
      Remove(key, now);
      LiveIsLive(kv, expires, now);
      return Bulk(Some(entry.value.text));
    }

    /** EXPIRE and PEXPIRE: `scale` is 1000 or 1; a duration that is not positive deletes the key. */
    method DoExpire(key: string, duration: Option<int>, scale: int, now: int) returns (r: Reply)
      requires Valid() && scale > 0
      modifies this
      ensures Valid()
      ensures var s := SpecDeadline(old(View(now)), key, Times(duration, scale, now));
              View(now) == Vanish(s.0, now) && r == s.1
    {
      LiveIsLive(kv, expires, now);
      hide Live, Vanish;
      var entry := GetEntry(key, now);
      if entry.None? { return Int(0); }
      if duration.None? { return Err; }
      if duration.value <= 0 {
        assert duration.value * scale <= 0;
        PutDead(View(now), key, entry.value, now + duration.value * scale, now);
        Remove(key, now);
        return Int(1);
      }
      Store(key, entry.value, Some(now + duration.value * scale), now);
      return Int(1);
    }

    /** EXPIREAT and PEXPIREAT: the deadline is stored even when it is past. */
    method DoExpireAt(key: string, at: Option<int>, scale: int, now: int) returns (r: Reply)
      requires Valid()
      modifies this
      ensures Valid()
      ensures var s := SpecDeadline(old(View(now)), key, Times(at, scale, 0));
              View(now) == Vanish(s.0, now) && r == s.1
    {
      LiveIsLive(kv, expires, now);
      var entry := GetEntry(key, now);
      if entry.None? { return Int(0); }
      if at.None? { return Err; }
      Store(key, entry.value, Some(at.value * scale), now);
      return Int(1);
    }

    method DoTtl(key: string, now: int) returns (r: Reply)
      requires Valid()
      modifies this
      ensures Valid() && (View(now), r) == Spec(old(View(now)), now, Ttl(key))
    {
      LiveIsLive(kv, expires, now);
      var entry := GetEntry(key, now);
      if entry.None? { return Int(-2); }
      if key !in expires { return Int(-1); }
      var rem := (expires[key] - now + 999) / 1000;
      return Int(if rem <= 0 then -2 else rem);
    }

    method DoPTtl(key: string, now: int) returns (r: Reply)
      requires Valid()
      modifies this
      ensures Valid() && (View(now), r) == Spec(old(View(now)), now, PTtl(key))
    {
      LiveIsLive(kv, expires, now);
      var entry := GetEntry(key, now);
      if entry.None? { return Int(-2); }
      if key !in expires { return Int(-1); }
      var remMs := expires[key] - now;
      return Int(if remMs <= 0 then -2 else remMs);
    }

    method DoPersist(key: string, now: int) returns (r: Reply)
      requires Valid()
      modifies this
      ensures Valid() && (View(now), r) == Spec(old(View(now)), now, Persist(key))
    {
      LiveIsLive(kv, expires, now);
      var entry := GetEntry(key, now);
      if entry.None? { return Int(0); }
      if key in expires {
        assert kv[key := entry.value] == kv;
        Store(key, entry.value, None, now);
        return Int(1);
      }
      return Int(0);
    }

    /** The scan behind KEYS and DBSIZE: each key is purged if expired, and listed if still there and matched. */
    method LiveKeys(matches: string -> bool, now: int) returns (out: set<string>)
      requires Valid()
      modifies this
      ensures Valid() && View(now) == old(View(now)) && out == Matching(View(now), matches)
    {
      out := {};
      var todo := kv.Keys;
      while todo != {}
        invariant Valid() && View(now) == old(View(now))
        invariant out <= Matching(View(now), matches) <= out + todo
        decreases todo
      {
        var k :| k in todo;
        todo := todo - {k};
        PurgeIfExpired(k, now);
        if k in kv && matches(k) { out := out + {k}; }
      }
    }

    method DoKeys(matches: string -> bool, now: int) returns (r: Reply)
      requires Valid()
      modifies this
      ensures Valid() && (View(now), r) == Spec(old(View(now)), now, Keys(matches))
    {
      LiveIsLive(kv, expires, now);
      var out := LiveKeys(matches, now);
      return Names(out);
    }

    method DoDbSize(now: int) returns (r: Reply)
      requires Valid()
      modifies this
      ensures Valid() && (View(now), r) == Spec(old(View(now)), now, DbSize)
    {
      LiveIsLive(kv, expires, now);
      var out := LiveKeys(_ => true, now);
      assert out == View(now).Keys;
      return Int(|out|);
    }

    method Move(src: string, dst: string, now: int)
      requires Valid() && src in View(now) && src in kv
      requires View(now)[src] == Timed(kv[src], DeadlineOf(expires, src))
      modifies this
      ensures Valid() && View(now) == SpecRename(old(View(now)), src, dst)
    {
      var ttl := DeadlineOf(expires, src);
      ghost var v0 := View(now);
      Store(dst, kv[src], ttl, now);
      PutAlive(v0, src, dst, now);
      Remove(src, now);
    }

    method DoRename(src: string, dst: string, now: int) returns (r: Reply)
      requires Valid()
      modifies this
      ensures Valid() && (View(now), r) == Spec(old(View(now)), now, Rename(src, dst))
    {
      LiveIsLive(kv, expires, now);
      var entry := GetEntry(src, now);
      if entry.None? { return Err; }
      Move(src, dst, now);
      LiveIsLive(kv, expires, now);
      return Ok;
    }

    method DoRenameNx(src: string, dst: string, now: int) returns (r: Reply)
      requires Valid()
      modifies this
      ensures Valid() && (View(now), r) == Spec(old(View(now)), now, RenameNx(src, dst))
    {
      LiveIsLive(kv, expires, now);
      var entry := GetEntry(src, now);
      if entry.None? { return Err; }
      var there := GetEntry(dst, now);
      if there.Some? { return Int(0); }
      Move(src, dst, now);
      LiveIsLive(kv, expires, now);
      return Int(1);
    }

    method Dispatch(c: Command, now: int) returns (r: Reply)
      requires Valid()
      modifies this
      ensures Valid() && (View(now), r) == Spec(old(View(now)), now, c)
    {
      hide Live, SpecSet, Vanish, SpecDeadline, Without, CountIn, PutAll, SpecRename;
      match c
      case Set(key, text, options) => r := DoSet(key, text, options, now);
      case Get(key) => r := DoGet(key, now);
      case Del(keys) => r := DoDel(keys, now);
      case Exists(keys) => r := DoExists(keys, now);
      case SetNx(key, text) => r := DoSetNx(key, text, now);
      case MSetNx(pairs) => r := DoMSetNx(pairs, now);
      case GetSet(key, text) => r := DoGetSet(key, text, now);
      case GetDel(key) => r := DoGetDel(key, now);
      case Expire(key, n) => r := DoExpire(key, n, 1000, now);
      case PExpire(key, n) => r := DoExpire(key, n, 1, now);
      case ExpireAt(key, n) => r := DoExpireAt(key, n, 1000, now);
      case PExpireAt(key, n) => r := DoExpireAt(key, n, 1, now);
      case Ttl(key) => r := DoTtl(key, now);
      case PTtl(key) => r := DoPTtl(key, now);
      case Persist(key) => r := DoPersist(key, now);
      case Keys(matches) => r := DoKeys(matches, now);
      case DbSize => r := DoDbSize(now);
      case Rename(src, dst) => r := DoRename(src, dst, now);
      case RenameNx(src, dst) => r := DoRenameNx(src, dst, now);
    }

    /** REFINEMENT. Over every run of commands, clock advances and purge ticks the replies are those of a
        store from which keys vanish the instant they expire, and it holds the same live keys throughout. */
    method Execute(events: seq<Event>, start: int) returns (replies: seq<Reply>, now: int)
      requires Valid()
      modifies this
      ensures Valid()
      ensures var s := SpecRun(old(View(start)), start, events);
              replies == s.replies && now == s.now && View(now) == s.view
    {
      hide Live, Spec, Vanish;
      replies, now := [], start;
      for i := 0 to |events|
        invariant Valid()
        invariant SpecRun(old(View(start)), start, events[..i]) == Outcome(View(now), now, replies)
      {
        assert events[..i + 1][..i] == events[..i];
        match events[i] {
          case Run(c) =>
            var r := Dispatch(c, now);
            replies := replies + [r];
          case Tick(ms) =>
            LiveLater(kv, expires, now, now + ms);
            now := now + ms;
          case Purge =>
            PurgeExpiredBatch(now);
        }
      }
      assert events[..|events|] == events;
    }
  }

  datatype Event = Run(c: Command) | Tick(ms: nat) | Purge

  datatype Outcome = Outcome(view: View, now: int, replies: seq<Reply>)

  /** The simple store's run: purging does nothing, time takes expired keys away. */
  function SpecRun(v: View, start: int, events: seq<Event>): Outcome {
    if events == [] then Outcome(v, start, [])
    else
      var before := SpecRun(v, start, events[..|events| - 1]);
      match events[|events| - 1]
      case Run(c) =>
        var r := Spec(before.view, before.now, c);
        Outcome(r.0, before.now, before.replies + [r.1])
      case Tick(ms) => Outcome(Vanish(before.view, before.now + ms), before.now + ms, before.replies)
      case Purge => before
  }

  lemma {:induction false} PlanFailsEarly(options: seq<SetOption>, i: nat, now: int)
    requires i <= |options| && Plan(options[..i], now).None?
    ensures Plan(options, now).None?
    decreases |options| - i
  {
    if i < |options| {
      assert options[..i + 1][..i] == options[..i];
      PlanFailsEarly(options, i + 1, now);
    } else {
      assert options[..i] == options;
    }
  }

  lemma WithoutNone(v: View)
    ensures Without(v, []) == v
  {
  }

  lemma WithoutSnoc(v: View, keys: seq<string>, k: string)
    ensures Without(v, keys + [k]) == Without(v, keys) - {k}
  {
  }

  lemma PutUntimed(v: View, k: string, value: Value, now: int)
    requires Vanish(v, now) == v
    ensures Vanish(Put(v, k, value, None), now) == Put(v, k, value, None)
  {
  }

  lemma PutAlive(v: View, src: string, dst: string, now: int)
    requires src in v && Vanish(v, now) == v
    ensures Vanish(Put(v, dst, v[src].value, v[src].deadline), now) == v[dst := v[src]]
  {
  }

  lemma PutDead(v: View, k: string, value: Value, at: int, now: int)
    requires Vanish(v, now) == v && at <= now
    ensures Vanish(Put(v, k, value, Some(at)), now) == v - {k}
  {
  }

  /** RENAME carries value and deadline over exactly when the names differ: a key renamed to itself is lost. */
  lemma RenameKeepsEntryIff(v: View, now: int, src: string, dst: string)
    requires src in v && Vanish(v, now) == v
    ensures var after := Spec(v, now, Rename(src, dst)).0;
            (dst in after && after[dst] == v[src]) <==> src != dst
    ensures src !in Spec(v, now, Rename(src, dst)).0
  {
  }

  // ---------- the options of SET against the other commands ----------

  predicate IsDeadline(o: SetOption) { o.EX? || o.PX? || o.EXAT? || o.PXAT? }

  /** An option that makes SET a syntax error or an error about a number. */
  predicate Refused(o: SetOption) {
    match o
    case Unknown => true
    case EX(n) => n.None? || n.value <= 0
    case PX(n) => n.None? || n.value <= 0
    case EXAT(n) => n.None?
    case PXAT(n) => n.None?
    case _ => false
  }

  /** The command that sets the deadline of such an option by itself */
  function Counterpart(o: SetOption, key: string): Command
    requires IsDeadline(o)
  {
    match o
    case EX(n) => Expire(key, n)
    case PX(n) => PExpire(key, n)
    case EXAT(n) => ExpireAt(key, n)
    case PXAT(n) => PExpireAt(key, n)
  }

  lemma PlanSnoc(front: seq<SetOption>, last: SetOption, now: int)
    ensures Plan(front + [last], now)
         == if Plan(front, now).None? then None else PlanStep(Plan(front, now).value, last, now)
    ensures Plan([], now) == Some(SetPlan(false, false, false, false, None))
  {
    assert (front + [last])[..|front|] == front;
  }

  lemma StepFlags(p: SetPlan, o: SetOption, now: int)
    ensures PlanStep(p, o, now).None? <==> Refused(o)
    ensures PlanStep(p, o, now).Some? ==>
              var q := PlanStep(p, o, now).value;
              && q.nx == (p.nx || o == NX) && q.xx == (p.xx || o == XX) && q.get == (p.get || o == GET)
              && q.keepTtl == (p.keepTtl || o == KEEPTTL) && (q.at.None? <==> p.at.None? && !IsDeadline(o))
              && (!IsDeadline(o) ==> q.at == p.at)
  {
  }

  lemma {:induction false} PlanFlags(options: seq<SetOption>, now: int)
    ensures Plan(options, now).None? <==> exists o :: o in options && Refused(o)
    ensures Plan(options, now).Some? ==>
              var p := Plan(options, now).value;
              && (p.nx <==> NX in options) && (p.xx <==> XX in options) && (p.get <==> GET in options)
              && (p.keepTtl <==> KEEPTTL in options) && (p.at.None? <==> forall o :: o in options ==> !IsDeadline(o))
  {
    hide Plan, PlanStep, Refused, IsDeadline;
    if options == [] {
      PlanSnoc([], NX, now);
    } else {
      var front, last := options[..|options| - 1], options[|options| - 1];
      assert options == front + [last];
      PlanFlags(front, now);
      PlanSnoc(front, last, now);
      if Plan(front, now).Some? { StepFlags(Plan(front, now).value, last, now); }
      assert forall o :: o in options <==> o in front || o == last;
    }
  }

  lemma StepAt(p: SetPlan, q: SetPlan, d: SetOption, now: int)
    requires IsDeadline(d) && PlanStep(p, d, now).Some?
    ensures PlanStep(q, d, now).Some? && PlanStep(p, d, now).value.at == PlanStep(q, d, now).value.at
  {
  }

  lemma {:induction false} LastDeadlineHolds(before: seq<SetOption>, d: SetOption, after: seq<SetOption>, now: int)
    requires IsDeadline(d) && Plan(before + [d] + after, now).Some? && forall o :: o in after ==> !IsDeadline(o)
    ensures Plan([d], now).Some? && Plan(before + [d] + after, now).value.at == Plan([d], now).value.at
    decreases |after|
  {
    hide Plan, PlanStep, IsDeadline;
    if after == [] {
      assert before + [d] + [] == before + [d] && [] + [d] == [d];
      PlanSnoc(before, d, now);
      PlanSnoc([], d, now);
      StepAt(Plan(before, now).value, Plan([], now).value, d, now);
    } else {
      var front, last := after[..|after| - 1], after[|after| - 1];
      assert after == front + [last] && last in after;
      assert before + [d] + after == (before + [d] + front) + [last];
      PlanSnoc(before + [d] + front, last, now);
      LastDeadlineHolds(before, d, front, now);
      StepFlags(Plan(before + [d] + front, now).value, last, now);
    }
  }

  /** Which conditions turn a SET without mistakes away: NX on a live key, XX on one that is not. */
  predicate Conditions(v: View, key: string, options: seq<SetOption>) {
    !(NX in options && key in v) && !(XX in options && key !in v)
  }

  /** SET REFUSED. An option that cannot be read or understood, or NX and XX together, is an error; a condition that
      does not hold is answered with null; neither changes anything. */
  lemma SetRefused(v: View, now: int, key: string, text: string, options: seq<SetOption>)
    requires Vanish(v, now) == v
    ensures (exists o :: o in options && Refused(o)) || (NX in options && XX in options) ==>
              Spec(v, now, Set(key, text, options)) == (v, Err)
    ensures !(exists o :: o in options && Refused(o)) && !(NX in options && XX in options)
            && !Conditions(v, key, options) ==>
              Spec(v, now, Set(key, text, options)) == (v, Bulk(None))
  {
    PlanFlags(options, now);
  }

  predicate Accepted(v: View, key: string, options: seq<SetOption>) {
    (forall o :: o in options ==> !Refused(o)) && !(NX in options && XX in options) && Conditions(v, key, options)
  }

  /** SET WITH A DEADLINE. Of several deadlines the last one holds, whatever other options stand before and behind it,
      and it leaves what plain SET followed by the command of that deadline leaves: EXPIRE for EX, PEXPIRE for PX,
      EXPIREAT for EXAT, PEXPIREAT for PXAT. The reply is OK, or with GET the text there was. */
  lemma SetWithDeadline(v: View, now: int, key: string, text: string, before: seq<SetOption>, d: SetOption,
                        after: seq<SetOption>)
    requires Vanish(v, now) == v && IsDeadline(d) && forall o :: o in after ==> !IsDeadline(o)
    requires Accepted(v, key, before + [d] + after)
    ensures var options := before + [d] + after;
            var (w, r) := Spec(v, now, Set(key, text, options));
            var plain := Spec(v, now, Set(key, text, [])).0;
            w == Spec(plain, now, Counterpart(d, key)).0 && Spec(plain, now, Counterpart(d, key)).1 == Int(1)
            && r == if GET in options then Bulk(TextOf(v, key)) else Ok
  {
    var options := before + [d] + after;
    PlanFlags(options, now);
    assert d in options;
    LastDeadlineHolds(before, d, after, now);
    assert [d][..0] == [];
    PutUntimed(v, key, Str(text), now);
    hide Vanish, Plan;
    PlainSet(v, now, key, text);
    PlanOfOne(d, now);
    PutTwice(v, key, Str(text), Plan([d], now).value.at);
  }

  lemma PlainSet(v: View, now: int, key: string, text: string)
    requires Vanish(Put(v, key, Str(text), None), now) == Put(v, key, Str(text), None)
    ensures Spec(v, now, Set(key, text, [])) == (Put(v, key, Str(text), None), Ok)
  {
    hide Vanish;
  }

  lemma PlanOfOne(d: SetOption, now: int)
    requires IsDeadline(d) && !Refused(d)
    ensures Plan([d], now).Some? && Plan([d], now).value.at.Some?
    ensures d.EX? ==> Plan([d], now).value.at == Times(d.seconds, 1000, now)
    ensures d.PX? ==> Plan([d], now).value.at == Times(d.ms, 1, now)
    ensures d.EXAT? ==> Plan([d], now).value.at == Times(d.ts, 1000, 0)
    ensures d.PXAT? ==> Plan([d], now).value.at == Times(d.tsms, 1, 0)
  {
    assert [d][..0] == [] && Plan([], now).Some?;
  }

  lemma PutTwice(v: View, key: string, value: Value, at: Option<int>)
    ensures Put(Put(v, key, value, None), key, value, at) == Put(v, key, value, at)
  {
  }

  /** SET WITHOUT ONE. KEEPTTL leaves the deadline there was, if any, in place of none; nothing else changes. */
  lemma SetWithoutDeadline(v: View, now: int, key: string, text: string, options: seq<SetOption>)
    requires Vanish(v, now) == v && Accepted(v, key, options) && forall o :: o in options ==> !IsDeadline(o)
    ensures var (w, r) := Spec(v, now, Set(key, text, options));
            w.Keys == v.Keys + {key} && (forall k :: k in v && k != key ==> w[k] == v[k])
            && w[key].value == Str(text)
            && w[key].deadline == (if KEEPTTL in options && key in v then v[key].deadline else None)
            && r == if GET in options then Bulk(TextOf(v, key)) else Ok
  {
    PlanFlags(options, now);
    hide Plan;
    assert key in v ==> v[key] == Vanish(v, now)[key];
  }

  /** SECONDS AND MILLISECONDS. Right after a duration of n seconds has been set, by SET or by EXPIRE, TTL replies n
      and PTTL 1000 n; after one of n milliseconds PTTL replies n, and TTL the seconds it takes to cover them. */
  lemma TtlAfterExpire(v: View, now: int, key: string, n: nat)
    requires Vanish(v, now) == v && key in v && n > 0
    ensures var w := Spec(v, now, Expire(key, Some(n))).0;
            Spec(w, now, Ttl(key)).1 == Int(n) && Spec(w, now, PTtl(key)).1 == Int(1000 * n)
    ensures var w := Spec(v, now, PExpire(key, Some(n))).0;
            var seconds := Spec(w, now, Ttl(key)).1.n;
            Spec(w, now, PTtl(key)).1 == Int(n) && 1000 * (seconds - 1) < n <= 1000 * seconds
  {
    hide Spec, Vanish;
    Left(v, now, key, Expire(key, Some(n)), 1000 * n);
    Left(v, now, key, PExpire(key, Some(n)), n);
  }

  lemma Left(v: View, now: int, key: string, c: Command, ms: nat)
    requires Vanish(v, now) == v && key in v && ms > 0
    requires SpecStep(v, now, c).0 == Put(v, key, v[key].value, Some(now + ms))
    ensures var w := Spec(v, now, c).0;
            Spec(w, now, Ttl(key)).1 == Int((ms + 999) / 1000) && Spec(w, now, PTtl(key)).1 == Int(ms)
  {
    var w := Spec(v, now, c).0;
    assert key in w && w[key].deadline == Some(now + ms);
  }

  lemma TtlAfterSet(v: View, now: int, key: string, text: string, n: nat)
    requires Vanish(v, now) == v && n > 0
    ensures var w := Spec(v, now, Set(key, text, [EX(Some(n))])).0;
            Spec(w, now, Ttl(key)).1 == Int(n) && Spec(w, now, PTtl(key)).1 == Int(1000 * n)
  {
    hide Spec, Vanish;
    var d := EX(Some(n));
    assert [] + [d] + [] == [d];
    SetWithDeadline(v, now, key, text, [], d, []);
    var plain := Spec(v, now, Set(key, text, [])).0;
    PlainSetLives(v, now, key, text);
    TtlAfterExpire(plain, now, key, n);
  }

  lemma PlainSetLives(v: View, now: int, key: string, text: string)
    requires Vanish(v, now) == v
    ensures var plain := Spec(v, now, Set(key, text, [])).0; Vanish(plain, now) == plain && key in plain
  {
    PutUntimed(v, key, Str(text), now);
    PlainSet(v, now, key, text);
  }

  /** HOW LONG A KEY LIVES. After SET with EX n it is read back as long as less than 1000 n milliseconds have passed,
      and not any more from then on. */
  lemma LivesUntil(v: View, now: int, key: string, text: string, n: nat, passed: nat)
    requires Vanish(v, now) == v && n > 0
    ensures var w := Vanish(Spec(v, now, Set(key, text, [EX(Some(n))])).0, now + passed);
            Spec(w, now + passed, Get(key)).1 == Bulk(if passed < 1000 * n then Some(text) else None)
  {
    var d := EX(Some(n));
    PlanOfOne(d, now);
    PlanFlags([d], now);
    assert Plan([d], now).value.at == Some(now + 1000 * n);
  }
}

/** Reading and writing at a JSON path without wildcards, src/core/DataStore.js. Documents are values here. */
module JsonPath {
  import opened Wrappers

  datatype Json =
    | Null
    | Bool(b: bool)
    | Num(n: real)
    | Str(s: string)
    | Arr(items: seq<Json>)
    | Obj(fields: map<string, Json>)

  datatype Seg = Index(i: nat) | Name(k: string)

  /** _jsonGetAtPath; None is undefined. */
  function Get(j: Json, segs: seq<Seg>): Option<Json>
    decreases |segs|
  {
    if segs == [] then Some(j)
    else
      match segs[0]
      case Index(i) => if j.Arr? && i < |j.items| then Get(j.items[i], segs[1..]) else None
      case Name(k) => if j.Obj? && k in j.fields then Get(j.fields[k], segs[1..]) else None
  }

  method GetAtPath(root: Json, segs: seq<Seg>) returns (cur: Option<Json>)
    ensures cur == Get(root, segs)
  {
    cur := Some(root);
    for n := 0 to |segs|
      invariant cur.Some? && Get(root, segs) == Get(cur.value, segs[n..])
    {
      assert segs[n..][0] == segs[n] && segs[n..][1..] == segs[n + 1..];
      var node := cur.value;
      match segs[n] {
        case Index(i) =>
          if !node.Arr? || i >= |node.items| { return None; }
          cur := Some(node.items[i]);
        case Name(k) =>
          if !node.Obj? || k !in node.fields { return None; }
          cur := Some(node.fields[k]);
      }
    }
  }

  /** while (cur.length < n) cur.push(null) */
  function Pad(items: seq<Json>, n: nat): (r: seq<Json>)
    ensures |r| == if |items| < n then n else |items|
    ensures forall i :: 0 <= i < |r| ==> r[i] == if i < |items| then items[i] else Null
  {
    if |items| < n then items + seq(n - |items|, _ => Null) else items
  }

  /** A child that is missing, null or a scalar gives way to an empty container of the kind the next
      segment needs. */
  function Container(child: Json, next: Seg): Json {
    if child.Arr? || child.Obj? then child else if next.Index? then Arr([]) else Obj(map[])
  }

  /** _jsonSetAtPath; the wrong kind of container on the way is replaced by an empty one of the right kind. */
  function Set(j: Json, segs: seq<Seg>, v: Json): Json
    decreases |segs|
  {
    if segs == [] then j
    else
      match segs[0]
      case Index(i) =>
        var items := Pad(if j.Arr? then j.items else [], i);
        var child := if i < |items| then items[i] else Null;
        var child' := if |segs| == 1 then v else Set(Container(child, segs[1]), segs[1..], v);
        Arr(if i < |items| then items[i := child'] else items + [child'])
      case Name(k) =>
        var fields := if j.Obj? then j.fields else map[];
        var child := if k in fields then fields[k] else Null;
        var child' := if |segs| == 1 then v else Set(Container(child, segs[1]), segs[1..], v);
        Obj(fields[k := child'])
  }

  /** What is written is read back, whatever had to be created, replaced or padded on the way. */
  lemma {:induction false} GetAfterSet(j: Json, segs: seq<Seg>, v: Json)
    requires segs != []
    ensures Get(Set(j, segs, v), segs) == Some(v)
    decreases |segs|
  {
    if |segs| > 1 {
      GetAfterSet(Container(ChildOf(j, segs[0]), segs[1]), segs[1..], v);
    } else {
      assert segs[1..] == [];
    }
  }

  /** The child the write loop looks at: the padded array's element or the object's field, null if absent. */
  function ChildOf(j: Json, seg: Seg): Json {
    match seg
    case Index(i) => if j.Arr? && i < |j.items| then j.items[i] else Null
    case Name(k) => if j.Obj? && k in j.fields then j.fields[k] else Null
  }

  /** Of two writes at one path only the last remains. */
  lemma {:induction false} SetAfterSet(j: Json, segs: seq<Seg>, v: Json, w: Json)
    ensures Set(Set(j, segs, v), segs, w) == Set(j, segs, w)
    decreases |segs|
  {
    if segs == [] {
      SetNowhere(j, v, w);
    } else {
      hide Set, PutChild, ChildOf;
      SetIsPutChild(j, segs, v);
      SetIsPutChild(j, segs, w);
      if |segs| > 1 {
        var inner := Container(ChildOf(j, segs[0]), segs[1]);
        SetAfterSet(inner, segs[1..], v, w);
        SetIsContainer(inner, segs[1..], v);
        LastWriteWins(j, segs, v, w, Set(inner, segs[1..], v), Set(inner, segs[1..], w));
      } else {
        LastWriteWins(j, segs, v, w, v, w);
      }
    }
  }

  lemma SetNowhere(j: Json, v: Json, w: Json)
    ensures Set(j, [], v) == j && Set(j, [], w) == j
  {
  }

  /** One level of a write: put `child` under `seg`. */
  function PutChild(j: Json, seg: Seg, child: Json): Json {
    match seg
    case Index(i) =>
      var items := Pad(if j.Arr? then j.items else [], i);
      Arr(if i < |items| then items[i := child] else items + [child])
    case Name(k) => Obj((if j.Obj? then j.fields else map[])[k := child])
  }

  lemma PutChildTwice(j: Json, seg: Seg, a: Json, b: Json)
    ensures PutChild(PutChild(j, seg, a), seg, b) == PutChild(j, seg, b)
    ensures ChildOf(PutChild(j, seg, a), seg) == a
  {
    match seg
    case Index(i) =>
      var items := Pad(if j.Arr? then j.items else [], i);
      var once := if i < |items| then items[i := a] else items + [a];
      assert Pad(once, i) == once;
      assert once[i := b] == if i < |items| then items[i := b] else items + [b];
    case Name(k) =>
  }

  lemma SetIsPutChild(j: Json, segs: seq<Seg>, v: Json)
    requires segs != []
    ensures Set(j, segs, v) == PutChild(j, segs[0],
              if |segs| == 1 then v else Set(Container(ChildOf(j, segs[0]), segs[1]), segs[1..], v))
  {
  }

  lemma SetIsContainer(j: Json, segs: seq<Seg>, v: Json)
    requires segs != []
    ensures Set(j, segs, v).Arr? || Set(j, segs, v).Obj?
  {
  }

  lemma SameChild(j: Json, segs: seq<Seg>, v: Json)
    requires |segs| > 1
    ensures ChildOf(Set(j, segs, v), segs[0]) == Set(Container(ChildOf(j, segs[0]), segs[1]), segs[1..], v)
  {
  }

  lemma LastWriteWins(j: Json, segs: seq<Seg>, v: Json, w: Json, a: Json, b: Json)
    requires segs != []
    requires Set(j, segs, v) == PutChild(j, segs[0], a) && Set(j, segs, w) == PutChild(j, segs[0], b)
    requires |segs| == 1 ==> b == w
    requires |segs| > 1 ==> Container(a, segs[1]) == a && Set(a, segs[1..], w) == b
    ensures Set(Set(j, segs, v), segs, w) == Set(j, segs, w)
  {
    hide Set, PutChild, ChildOf;
    SetIsPutChild(Set(j, segs, v), segs, w);
    PutChildTwice(j, segs[0], a, b);
  }

  /** Writing back what is already there changes nothing. */
  lemma {:induction false} SetWhatIsThere(j: Json, segs: seq<Seg>, v: Json)
    requires Get(j, segs) == Some(v)
    ensures Set(j, segs, v) == j
    decreases |segs|
  {
    if segs != [] {
      var child := ChildOf(j, segs[0]);
      if |segs| > 1 {
        assert child.Arr? || child.Obj?;
        SetWhatIsThere(child, segs[1..], v);
      } else {
        assert segs[1..] == [];
      }
    }
  }

  /** The paths part inside `j` at a container that a write at p keeps, because it is of the kind p needs. */
  ghost predicate PartInside(j: Json, p: seq<Seg>, q: seq<Seg>)
    decreases |p|
  {
    p != [] && q != []
    && (if p[0].Index? then j.Arr? else j.Obj?)
    && (p[0] != q[0] || (Get(j, [p[0]]).Some? && PartInside(ChildOf(j, p[0]), p[1..], q[1..])))
  }

  /** A write leaves what lies beside its path alone; the one thing it may add there is padding. */
  lemma {:induction false} SiblingsUnchanged(j: Json, p: seq<Seg>, q: seq<Seg>, v: Json)
    requires PartInside(j, p, q)
    ensures Get(Set(j, p, v), q) == Get(j, q)
         || (Get(j, q).None? && Get(Set(j, p, v), q) == Some(Null) && q[|q| - 1].Index?)
    decreases |p|
  {
    var after := Set(j, p, v);
    if p[0] == q[0] {
      var child := ChildOf(j, p[0]);
      assert Get(j, [p[0]]).Some?;
      assert |p| > 1 && (child.Arr? || child.Obj?);
      SiblingsUnchanged(child, p[1..], q[1..], v);
      SameChild(j, p, v);
    } else if p[0].Index? && q[0].Index? {
      var i, k := p[0].i, q[0].i;
      if |j.items| <= k < i {
        assert after.items[k] == Null;
        assert |q| > 1 ==> Get(Null, q[1..]) == None;
      }
    }
  }

  // ---------- everything a write does ----------

  predicate FitsSeg(j: Json, seg: Seg) { if seg.Index? then j.Arr? else j.Obj? }

  /** At depth k the write finds a container of the kind it needs there, which it keeps. */
  predicate KeepsAt(j: Json, p: seq<Seg>, k: nat)
    requires k < |p|
  {
    var c := Get(j, p[..k]);
    c.Some? && FitsSeg(c.value, p[k])
  }

  /** What is at q, which leaves the path p at depth k, after any write at p: what was there, if the container is
      kept; the nulls that fill up an array in front of the index written; and nothing else. */
  function BesideAfter(j: Json, p: seq<Seg>, q: seq<Seg>, k: nat): Option<Json>
    requires k < |p| && k < |q|
  {
    if KeepsAt(j, p, k) && Get(j, q).Some? then Get(j, q)
    else if p[k].Index? && q[k].Index? && q[k].i < p[k].i && |q| == k + 1 then Some(Null)
    else None
  }

  /** BESIDE THE PATH. So nothing beside the path is lost but what was in a container of the wrong kind, and a
      container that is created or replaced holds the path and padding only. */
  lemma {:induction false} ReadBeside(j: Json, p: seq<Seg>, q: seq<Seg>, k: nat, v: Json)
    requires k < |p| && k < |q| && p[..k] == q[..k] && p[k] != q[k]
    ensures Get(Set(j, p, v), q) == BesideAfter(j, p, q, k)
    decreases k
  {
    if k == 0 {
      assert p[..0] == [];
      BesideHere(j, p, q, v);
    } else {
      assert p[0] == p[..k][0] == q[..k][0] == q[0];
      var child := ChildOf(j, p[0]);
      var inner := Container(child, p[1]);
      assert p[1..][..k - 1] == p[..k][1..] == q[1..][..k - 1];
      ReadBeside(inner, p[1..], q[1..], k - 1, v);
      SameChild(j, p, v);
      GetChild(Set(j, p, v), q);
      SetIsFit(j, p, v);
      InnerBeside(j, p, q, k);
    }
  }

  lemma BesideHere(j: Json, p: seq<Seg>, q: seq<Seg>, v: Json)
    requires p != [] && q != [] && p[0] != q[0]
    ensures Get(Set(j, p, v), q) == BesideAfter(j, p, q, 0)
  {
    hide Set, Get, PutChild;
    SetIsPutChild(j, p, v);
    assert p[..0] == [];
    ItselfAt(j);
    GetChild(j, q);
    GetChild(Set(j, p, v), q);
    PutBeside(j, p[0], if |p| == 1 then v else Set(Container(ChildOf(j, p[0]), p[1]), p[1..], v), q[0]);
    if |q| > 1 {
      NullHasNone(q[1..]);
    } else {
      assert q[1..] == [] && q == [q[0]];
      ItselfAt(Null);
      ItselfAt(ChildOf(j, q[0]));
    }
  }

  /** One level: the other children stay if the container does, with padding in front of an index. */
  lemma PutBeside(j: Json, seg: Seg, child: Json, other: Seg)
    requires seg != other
    ensures var after := PutChild(j, seg, child);
            if FitsSeg(j, seg) && Get(j, [other]).Some?
            then Get(after, [other]).Some? && ChildOf(after, other) == ChildOf(j, other)
            else if seg.Index? && other.Index? && other.i < seg.i
            then Get(after, [other]).Some? && ChildOf(after, other) == Null
            else Get(after, [other]).None?
  {
    assert [other][1..] == [];
  }

  lemma NullHasNone(q: seq<Seg>)
    requires q != []
    ensures Get(Null, q) == None && Get(Arr([]), q) == None && Get(Obj(map[]), q) == None
  {
  }

  lemma SetIsFit(j: Json, p: seq<Seg>, v: Json)
    requires p != []
    ensures Get(Set(j, p, v), [p[0]]).Some? && FitsSeg(Set(j, p, v), p[0])
  {
    hide Set;
    SetIsPutChild(j, p, v);
    assert [p[0]][1..] == [];
  }

  lemma GetChild(j: Json, q: seq<Seg>)
    requires q != []
    ensures Get(j, q) == if Get(j, [q[0]]).Some? then Get(ChildOf(j, q[0]), q[1..]) else None
  {
    assert [q[0]][1..] == [];
  }

  lemma InnerBeside(j: Json, p: seq<Seg>, q: seq<Seg>, k: nat)
    requires 0 < k < |p| && k < |q| && p[..k] == q[..k] && p[0] == q[0]
    ensures BesideAfter(Container(ChildOf(j, p[0]), p[1]), p[1..], q[1..], k - 1) == BesideAfter(j, p, q, k)
  {
    hide Get;
    var child := ChildOf(j, p[0]);
    var inner := Container(child, p[1]);
    assert p[..k][0] == p[0] && p[..k][1..] == p[1..][..k - 1];
    GetChild(j, p[..k]);
    GetChild(j, q);
    NoChildIsNull(j, p[0]);
    NullHasNone(q[1..]);
    ItselfAt(child);
    ItselfAt(inner);
    assert p[1..][k - 1] == p[k] && q[1..][k - 1] == q[k];
    if k == 1 { assert p[1..][..k - 1] == []; }
    if child.Arr? || child.Obj? {
      assert Get(inner, p[1..][..k - 1]) == Get(j, p[..k]);
    } else {
      ScalarHasNone(child, q[1..]);
      if k > 1 {
        NullHasNone(p[1..][..k - 1]);
        ScalarHasNone(child, p[1..][..k - 1]);
      }
      assert !KeepsAt(j, p, k);
    }
  }

  lemma NoChildIsNull(j: Json, seg: Seg)
    ensures Get(j, [seg]).None? ==> ChildOf(j, seg) == Null
  {
    assert [seg][1..] == [];
    ItselfAt(ChildOf(j, seg));
  }

  lemma ScalarHasNone(j: Json, q: seq<Seg>)
    requires q != [] && !j.Arr? && !j.Obj?
    ensures Get(j, q) == None
  {
  }

  lemma ItselfAt(j: Json)
    ensures Get(j, []) == Some(j)
  {
  }

  /** AT THE PATH and below it is exactly the value written; above it are containers of the kind the path needs. */
  lemma {:induction false} ReadBelow(j: Json, p: seq<Seg>, below: seq<Seg>, v: Json)
    requires p != []
    ensures Get(Set(j, p, v), p + below) == Get(v, below)
    decreases |p|
  {
    var q := p + below;
    SetIsFit(j, p, v);
    hide Set, Get, PutChild, ChildOf;
    GetChild(Set(j, p, v), q);
    assert q[1..] == p[1..] + below;
    if |p| == 1 {
      assert p[1..] + below == below;
      SetIsPutChild(j, p, v);
      PutChildTwice(j, p[0], v, v);
    } else {
      ReadBelow(Container(ChildOf(j, p[0]), p[1]), p[1..], below, v);
      SameChild(j, p, v);
    }
  }

  lemma {:induction false} ReadAbove(j: Json, p: seq<Seg>, k: nat, v: Json)
    requires k < |p|
    ensures var c := Get(Set(j, p, v), p[..k]); c.Some? && FitsSeg(c.value, p[k])
    decreases k
  {
    SetIsFit(j, p, v);
    if k == 0 {
      assert p[..0] == [];
    } else {
      GetChild(Set(j, p, v), p[..k]);
      assert p[..k][1..] == p[1..][..k - 1];
      ReadAbove(Container(ChildOf(j, p[0]), p[1]), p[1..], k - 1, v);
      SameChild(j, p, v);
    }
  }

  // ---------- the loop of _jsonSetAtPath ----------

  /** `j` put back under the containers that were passed on the way down, innermost last. In the program they hold
      it already, because they are changed in place. */
  function Plug(way: seq<(Json, Seg)>, j: Json): Json {
    if way == [] then j
    else
      var n := |way| - 1;
      Plug(way[..n], PutChild(way[n].0, way[n].1, j))
  }

  /** The descent with its replaced, padded and created containers writes what Set writes. */
  method SetAtPath(root: Json, segs: seq<Seg>, v: Json) returns (after: Json)
    ensures after == Set(root, segs, v)
  {
    if segs == [] { return root; }
    hide Set, Container, ChildOf, PutChild, Plug;
    PlugNone();
    var cur := root;
    var way: seq<(Json, Seg)> := [];
    var i := 0;
    while i < |segs| - 1
      invariant 0 <= i < |segs|
      invariant Plug(way, Set(cur, segs[i..], v)) == Set(root, segs, v)
    {
      Descend(way, cur, segs, i, v);
      way := way + [(cur, segs[i])];
      cur := Container(ChildOf(cur, segs[i]), segs[i + 1]);
      i := i + 1;
    }
    LastStep(cur, segs[i], v);
    assert segs[i..] == [segs[i]];
    after := Assembled(way, PutChild(cur, segs[i], v));
  }

  method Assembled(way: seq<(Json, Seg)>, j: Json) returns (root: Json)
    ensures root == Plug(way, j)
  {
    hide PutChild;
    root := j;
    var n := |way|;
    assert way[..n] == way;
    while n > 0
      invariant 0 <= n <= |way| && Plug(way[..n], root) == Plug(way, j)
    {
      n := n - 1;
      assert way[..n + 1][..n] == way[..n];
      root := PutChild(way[n].0, way[n].1, root);
    }
  }

  lemma PlugNone()
    ensures forall j :: Plug([], j) == j
  {
  }

  lemma PlugOne(way: seq<(Json, Seg)>, container: Json, seg: Seg, j: Json)
    ensures Plug(way + [(container, seg)], j) == Plug(way, PutChild(container, seg, j))
  {
    assert (way + [(container, seg)])[..|way|] == way;
  }

  lemma Descend(way: seq<(Json, Seg)>, cur: Json, segs: seq<Seg>, i: nat, v: Json)
    requires i < |segs| - 1
    ensures Plug(way + [(cur, segs[i])], Set(Container(ChildOf(cur, segs[i]), segs[i + 1]), segs[i + 1..], v))
         == Plug(way, Set(cur, segs[i..], v))
  {
    hide Set, Container, ChildOf, PutChild, Plug;
    var tail := segs[i..];
    assert tail[0] == segs[i] && tail[1] == segs[i + 1] && tail[1..] == segs[i + 1..];
    SetIsPutChild(cur, tail, v);
    PlugOne(way, cur, segs[i], Set(Container(ChildOf(cur, segs[i]), segs[i + 1]), segs[i + 1..], v));
  }

  lemma LastStep(cur: Json, seg: Seg, v: Json)
    ensures Set(cur, [seg], v) == PutChild(cur, seg, v)
  {
    SetIsPutChild(cur, [seg], v);
  }
}

/**
 * The JSON-like values the document view and the UI store are made of, with
 * JavaScript's property read (`x[k]`, `x?.[k]`), property write (`x[k] = v`)
 * and truthiness (`!x`) on them.
 */
module Json {
  import opened Wrappers
  import opened Strings

  datatype Json =
    | Null
    | Bool(b: bool)
    | Num(n: int)
    | Str(s: string)
    | Arr(items: seq<Json>)
    | Obj(fields: map<string, Json>)

  /** Keys from the root of a tree down to a node. */
  type Path = seq<string>

  /** A document view or a store: the top-level regions by name. */
  type Tree = map<string, Json>

  /** JavaScript truthiness: `null`, `false`, `0` and `""` are falsy; arrays and objects are truthy. */
  predicate Truthy(j: Json)
  {
    match j
    case Null => false
    case Bool(b) => b
    case Num(n) => n != 0
    case Str(s) => s != ""
    case Arr(_) => true
    case Obj(_) => true
  }

  predicate IsContainer(j: Json)
  {
    j.Arr? || j.Obj?
  }

  lemma FalsyIsNoContainer(j: Json)
    requires !Truthy(j)
    ensures !IsContainer(j)
  {
  }

  /** The array index below `n` whose decimal rendering is the property key `k`, if any. */
  function IndexBelow(n: nat, k: string): (r: Option<nat>)
    ensures r.Some? ==> r.value < n && Decimal(r.value) == k
    ensures r.None? ==> forall i :: 0 <= i < n ==> Decimal(i) != k
  {
    if n == 0 then None
    else if Decimal(n - 1) == k then Some(n - 1)
    else IndexBelow(n - 1, k)
  }

  /** `j[k]`: the own property `k` of an object, the element an index key names in an array. */
  function Lookup(j: Json, k: string): (r: Option<Json>)
    ensures r.Some? ==> IsContainer(j)
  {
    match j
    case Obj(f) => if k in f then Some(f[k]) else None
    case Arr(a) =>
      (match IndexBelow(|a|, k)
       case Some(i) => Some(a[i])
       case None => None)
    case _ => None
  }

  /**
   * `j[k] = v` on a container; `None` when the write throws (a primitive
   * target) or is outside this model (a non-index key or a gap on an array).
   */
  function Put(j: Json, k: string, v: Json): (r: Option<Json>)
    ensures r.Some? ==> IsContainer(j) && IsContainer(r.value)
    ensures r.Some? ==> Lookup(r.value, k) == Some(v)
    ensures r.Some? ==> forall k' :: k' != k ==> Lookup(r.value, k') == Lookup(j, k')
    ensures j.Obj? || (j.Arr? && Lookup(j, k).Some?) ==> r.Some?
  {
    match j
    case Obj(f) => Some(Obj(f[k := v]))
    case Arr(a) =>
      (match IndexBelow(|a|, k)
       case Some(i) =>
         assert forall k' :: k' != k ==> IndexBelow(|a|, k') != Some(i);
         Some(Arr(a[i := v]))
       case None =>
         if k == Decimal(|a|) then
           assert forall k' :: k' != k ==> IndexBelow(|a| + 1, k') == IndexBelow(|a|, k');
           Some(Arr(a + [v]))
         else None)
    case _ => None
  }

  /** Writing back the value a key already holds changes nothing. */
  lemma PutSame(j: Json, k: string, v: Json)
    requires Lookup(j, k) == Some(v)
    ensures Put(j, k, v) == Some(j)
  {
    match j
    case Obj(f) =>
      assert f[k := v] == f;
    case Arr(a) =>
      var i := IndexBelow(|a|, k).value;
      assert a[i := v] == a;
  }

  /** `t?.[p[0]]?.[p[1]]...`: the node at path `p`, absent as soon as one step is. */
  function At(t: Json, p: Path): Option<Json>
    decreases |p|
  {
    if |p| == 0 then Some(t)
    else match Lookup(t, p[0])
      case None => None
      case Some(c) => At(c, p[1..])
  }

  /** One step of a walk. */
  lemma AtCons(t: Json, p: Path)
    requires |p| >= 1
    ensures At(t, p) == if Lookup(t, p[0]).None? then None else At(Lookup(t, p[0]).value, p[1..])
  {
  }

  /** After a write of `v` under `k`, a walk through `k` continues in `v`; any other walk is as before. */
  lemma AtPut(j: Json, k: string, v: Json, r: Path)
    requires Put(j, k, v).Some? && |r| >= 1
    ensures At(Put(j, k, v).value, r) == if r[0] == k then At(v, r[1..]) else At(j, r)
  {
    AtCons(Put(j, k, v).value, r);
    AtCons(j, r);
  }

  /** A path below a primitive leads nowhere. */
  lemma AtBelowPrimitive(t: Json, p: Path)
    requires !IsContainer(t) && |p| >= 1
    ensures At(t, p) == None
  {
  }

  /** Walking `p + q` is walking `p`, then `q` from where `p` ends. */
  lemma {:induction false} AtAppend(t: Json, p: Path, q: Path)
    ensures At(t, p + q) == if At(t, p).None? then None else At(At(t, p).value, q)
    decreases |p|
  {
    if |p| > 0 {
      assert (p + q)[0] == p[0] && (p + q)[1..] == p[1..] + q;
      match Lookup(t, p[0])
      case None =>
      case Some(c) => AtAppend(c, p[1..], q);
    } else {
      assert p + q == q;
    }
  }

  predicate Prefix(u: Path, p: Path)
  {
    |u| <= |p| && p[..|u|] == u
  }

  /** One path lies on the other: a write at either can change what is found at the other. */
  predicate Related(u: Path, p: Path)
  {
    Prefix(u, p) || Prefix(p, u)
  }

  lemma RelatedTail(u: Path, p: Path)
    requires |u| >= 1 && |p| >= 1 && u[0] == p[0]
    ensures Related(u, p) <==> Related(u[1..], p[1..])
  {
    if Prefix(u[1..], p[1..]) {
      assert p[..|u|] == [p[0]] + p[1..][..|u| - 1];
      assert u == [u[0]] + u[1..];
    }
    if Prefix(p[1..], u[1..]) {
      assert u[..|p|] == [u[0]] + u[1..][..|p| - 1];
      assert p == [p[0]] + p[1..];
    }
  }
}

/**
 * The patch reconciler of the client (`applyPatchesToStore`): a batch of
 * path-addressed patches copies the matching subtrees of the document view
 * into the UI store, at three levels of detail (a whole top-level region,
 * one item, one leaf), with a set of already-copied regions that stops a
 * region being copied twice in one batch.
 *
 * The writes go straight into the store (the store's `produce` recipe
 * mutates the live store), so a patch that throws leaves the writes of the
 * patches before it, and the empty objects it created on its way down, in
 * place.
 */
module Reconciler {
  import opened Wrappers
  import opened Strings
  import opened Json

  /**
   * The region a non-empty patch path makes the reconciler copy: the whole
   * top-level entry for paths of length 1 or 2, the item for length 3, the
   * addressed leaf itself for longer paths.
   */
  function Region(p: Path): (r: Path)
    requires |p| >= 1
    ensures 1 <= |r| <= |p| && r == p[..|r|]
  {
    if |p| <= 2 then p[..1] else if |p| == 3 then p[..2] else p
  }

  /**
   * The walk of a patch of length 4 or more below `store[top][path[1]]`:
   * every missing or falsy intermediate node on `keys` is replaced by `{}`,
   * then the last key receives `v`, the document's value there. The flag is
   * false when the walk throws: `v` absent (`JSON.parse(undefined)`), or a
   * write into a primitive. The tree returned holds what was written before
   * the throw.
   */
  function WriteLeaf(dst: Json, keys: Path, v: Option<Json>): (Json, bool)
    requires |keys| >= 1
    decreases |keys|
  {
    if !IsContainer(dst) then (dst, false)
    else if |keys| == 1 then
      if v.None? then (dst, false)
      else
        match Put(dst, keys[0], v.value)
        case None => (dst, false)
        case Some(d) => (d, true)
    else
      var child := Lookup(dst, keys[0]);
      if child.Some? && Truthy(child.value) then
        var (c, ok) := WriteLeaf(child.value, keys[1..], v);
        (Put(dst, keys[0], c).value, ok)
      else
        match Put(dst, keys[0], Obj(map[]))
        case None => (dst, false)
        case Some(d1) =>
          var (c, ok) := WriteLeaf(Obj(map[]), keys[1..], v);
          (Put(d1, keys[0], c).value, ok)
  }

  /** `if (!d[top]) d[top] = {}`: a missing or falsy top-level entry becomes an empty object. */
  function EnsureTop(store: Tree, top: string): (s: Tree)
    ensures top in s && Truthy(s[top])
    ensures top in store && Truthy(store[top]) ==> s == store
    ensures !(top in store && Truthy(store[top])) ==> s[top] == Obj(map[])
    ensures forall k :: k in store && k != top ==> k in s && s[k] == store[k]
    ensures forall k :: k in s ==> k in store || k == top
  {
    if top in store && Truthy(store[top]) then store else store[top := Obj(map[])]
  }

  /** Creating the top-level entry changes nothing at the paths other than the root and that entry. */
  lemma EnsureTopFrame(store: Tree, top: string, q: Path)
    requires q != [] && q != [top]
    ensures At(Obj(EnsureTop(store, top)), q) == At(Obj(store), q)
  {
    var s := EnsureTop(store, top);
    AtCons(Obj(s), q);
    AtCons(Obj(store), q);
    if q[0] == top && s != store {
      assert q == [top] + q[1..];
      AtCons(Obj(map[]), q[1..]);
      if top in store {
        FalsyIsNoContainer(store[top]);
        AtBelowPrimitive(store[top], q[1..]);
      }
    }
  }

  /**
   * The copy one patch that is not skipped performs: replace `store[top]`
   * (length 1 or 2); create `store[top]` when it is falsy, then replace
   * `store[top][path[1]]` (length 3); or create `store[top]` when falsy and
   * walk down to the leaf (length 4 or more). The flag is false when the
   * copy throws.
   */
  function Write(store: Tree, doc: Tree, p: Path): (Tree, bool)
    requires |p| >= 1
  {
    var top := p[0];
    if |p| <= 2 then
      if top in doc then (store[top := doc[top]], true) else (store, false)
    else
      var s1 := EnsureTop(store, top);
      var node := s1[top];
      if |p| == 3 then
        match At(Obj(doc), p[..2])
        case None => (s1, false)
        case Some(v) =>
          (match Put(node, p[1], v)
           case None => (s1, false)
           case Some(n) => (s1[top := n], true))
      else
        match Lookup(node, p[1])
        case None => (s1, false)
        case Some(dst) =>
          if !IsContainer(dst) then (s1, false)
          else
            var (d, ok) := WriteLeaf(dst, p[2..], At(Obj(doc), p));
            (s1[top := Put(node, p[1], d).value], ok)
  }

  /** The state of a batch: the store, the keys of the regions copied so far, and whether it has thrown. */
  datatype Batch<K> = Batch(store: Tree, updated: set<K>, ok: bool)

  /**
   * The key of the patch's top-level region, or of its item region (length
   * 3 or more), was recorded earlier in the batch; `key` turns a region into
   * the recorded key.
   */
  predicate SkipAbove<K(==)>(updated: set<K>, p: Path, key: Path -> K)
    requires |p| >= 1
  {
    key(p[..1]) in updated || (|p| >= 3 && key(p[..2]) in updated)
  }

  function Step<K(==)>(b: Batch<K>, doc: Tree, p: Path, key: Path -> K): Batch<K>
  {
    if |p| == 0 || SkipAbove(b.updated, p, key) then b
    else if |p| >= 4 && key(p) in b.updated then
      // the top-level entry is created before the leaf's key is looked up
      Batch(EnsureTop(b.store, p[0]), b.updated, b.ok)
    else
      var (s, ok) := Write(b.store, doc, p);
      Batch(s, if ok then b.updated + {key(Region(p))} else b.updated, ok)
  }

  /** The patches in order, stopping at the first that throws. */
  function Run<K(==)>(b: Batch<K>, doc: Tree, patches: seq<Path>, key: Path -> K): Batch<K>
    decreases |patches|
  {
    if |patches| == 0 || !b.ok then b
    else Run(Step(b, doc, patches[0], key), doc, patches[1..], key)
  }

  function Reconcile<K(==)>(store: Tree, doc: Tree, patches: seq<Path>, key: Path -> K): Batch<K>
  {
    Run(Batch(store, {}, true), doc, patches, key)
  }

  /** Region keys compared as paths: distinct regions never share a key. */
  function PathKey(c: Path): Path
  {
    c
  }

  /** Region keys as the source builds them (`top`, `${top}.${path[1]}`, and the whole path joined with "."). */
  function JoinedKey(c: Path): string
  {
    Join(c, ".")
  }

  /** The store holds what the document holds at `u` (both possibly nothing). */
  ghost predicate Agree(store: Tree, doc: Tree, u: Path)
  {
    At(Obj(store), u) == At(Obj(doc), u)
  }

  // ---------------------------------------------------------------------
  // One patch
  // ---------------------------------------------------------------------

  /** The walk changes nothing at a path that is neither above nor below the leaf. */
  lemma {:induction false} WriteLeafFrame(dst: Json, keys: Path, v: Option<Json>, r: Path)
    requires |keys| >= 1 && !Related(r, keys)
    ensures At(WriteLeaf(dst, keys, v).0, r) == At(dst, r)
    decreases |keys|
  {
    assert keys[..0] == [];
    assert |r| >= 1;
    assert r[..1] == [r[0]] && keys[..1] == [keys[0]];
    if !IsContainer(dst) {
    } else if |keys| == 1 {
      if v.Some? && Put(dst, keys[0], v.value).Some? {
        AtPut(dst, keys[0], v.value, r);
      }
    } else {
      var child := Lookup(dst, keys[0]);
      if r[0] == keys[0] {
        RelatedTail(r, keys);
      }
      if child.Some? && Truthy(child.value) {
        var c := WriteLeaf(child.value, keys[1..], v).0;
        AtPut(dst, keys[0], c, r);
        if r[0] == keys[0] {
          WriteLeafFrame(child.value, keys[1..], v, r[1..]);
          AtCons(dst, r);
        }
      } else if Put(dst, keys[0], Obj(map[])).Some? {
        var d1 := Put(dst, keys[0], Obj(map[])).value;
        var c := WriteLeaf(Obj(map[]), keys[1..], v).0;
        AtPut(d1, keys[0], c, r);
        AtPut(dst, keys[0], Obj(map[]), r);
        if r[0] == keys[0] {
          WriteLeafFrame(Obj(map[]), keys[1..], v, r[1..]);
          AtCons(dst, r);
          if child.Some? {
            FalsyIsNoContainer(child.value);
            AtBelowPrimitive(child.value, r[1..]);
          }
        }
      }
    }
  }

  /** A walk that does not throw leaves the document's value at the leaf. */
  lemma {:induction false} WriteLeafCovers(dst: Json, keys: Path, v: Option<Json>)
    requires |keys| >= 1 && WriteLeaf(dst, keys, v).1
    ensures v.Some? && At(WriteLeaf(dst, keys, v).0, keys) == v
    decreases |keys|
  {
    if |keys| > 1 {
      var child := Lookup(dst, keys[0]);
      if child.Some? && Truthy(child.value) {
        WriteLeafCovers(child.value, keys[1..], v);
      } else {
        WriteLeafCovers(Obj(map[]), keys[1..], v);
      }
    }
  }

  /** A walk towards a leaf that already holds the value changes nothing and succeeds. */
  lemma {:induction false} WriteLeafSame(dst: Json, keys: Path, x: Json)
    requires |keys| >= 1 && At(dst, keys) == Some(x)
    ensures WriteLeaf(dst, keys, Some(x)) == (dst, true)
    decreases |keys|
  {
    var child := Lookup(dst, keys[0]).value;
    if |keys| == 1 {
      PutSame(dst, keys[0], x);
    } else {
      assert Lookup(child, keys[1]).Some?;
      WriteLeafSame(child, keys[1..], x);
      PutSame(dst, keys[0], child);
    }
  }

  /** With no document value to copy, the walk always throws. */
  lemma {:induction false} WriteLeafAbsent(dst: Json, keys: Path)
    requires |keys| >= 1
    ensures !WriteLeaf(dst, keys, None).1
    decreases |keys|
  {
    if IsContainer(dst) && |keys| > 1 {
      var child := Lookup(dst, keys[0]);
      if child.Some? && Truthy(child.value) {
        WriteLeafAbsent(child.value, keys[1..]);
      } else {
        WriteLeafAbsent(Obj(map[]), keys[1..]);
      }
    }
  }

  /** Below the top-level entry, creating it changes nothing: an empty object holds what a missing or falsy entry did. */
  lemma EnsureTopBelow(store: Tree, top: string, q: Path)
    requires |q| >= 2 && q[0] == top
    ensures At(EnsureTop(store, top)[top], q[1..]) == At(Obj(store), q)
  {
    AtCons(Obj(store), q);
    if !(top in store && Truthy(store[top])) {
      AtCons(Obj(map[]), q[1..]);
      if top in store {
        FalsyIsNoContainer(store[top]);
        AtBelowPrimitive(store[top], q[1..]);
      }
    }
  }

  /** Replacing the top-level entry `top` by `n`: how a walk through it sees the new tree. */
  lemma AtReplaceTop(s1: Tree, top: string, n: Json, q: Path)
    requires |q| >= 1
    ensures At(Obj(s1[top := n]), q) == if q[0] == top then At(n, q[1..]) else At(Obj(s1), q)
  {
    assert Put(Obj(s1), top, n) == Some(Obj(s1[top := n]));
    AtPut(Obj(s1), top, n, q);
  }

  /** The frame of an item copy (a patch of length 3). */
  lemma WriteFrameItem(store: Tree, doc: Tree, p: Path, q: Path)
    requires |p| == 3 && !Related(q, p[..2])
    ensures At(Obj(Write(store, doc, p).0), q) == At(Obj(store), q)
  {
    var top := p[0];
    var s1 := EnsureTop(store, top);
    var node := s1[top];
    assert p[..0] == [] && q != [];
    assert q[..1] == [q[0]] && p[..2][..1] == [p[0]];
    if q[0] != top {
      EnsureTopFrame(store, top, q);
    } else {
      assert |q| >= 2 && q[..2] == [q[0], q[1]] && p[..2] == [p[0], p[1]];
      EnsureTopBelow(store, top, q);
      AtCons(Obj(s1), q);
    }
    match At(Obj(doc), p[..2])
    case None =>
    case Some(v) =>
      match Put(node, p[1], v)
      case None =>
      case Some(n) =>
        AtReplaceTop(s1, top, n, q);
        if q[0] == top {
          AtPut(node, p[1], v, q[1..]);
        }
  }

  /** The frame of a leaf copy (a patch of length 4 or more). */
  lemma WriteFrameLeaf(store: Tree, doc: Tree, p: Path, q: Path)
    requires |p| >= 4 && !Related(q, p)
    ensures At(Obj(Write(store, doc, p).0), q) == At(Obj(store), q)
  {
    var top := p[0];
    var s1 := EnsureTop(store, top);
    var node := s1[top];
    assert p[..0] == [] && q != [];
    assert q[..1] == [q[0]] && p[..1] == [p[0]];
    if q[0] != top {
      EnsureTopFrame(store, top, q);
    } else {
      assert |q| >= 2 && q[..2] == [q[0], q[1]] && p[..2] == [p[0], p[1]];
      EnsureTopBelow(store, top, q);
      AtCons(Obj(s1), q);
    }
    match Lookup(node, p[1])
    case None =>
    case Some(dst) =>
      if IsContainer(dst) {
        var d := WriteLeaf(dst, p[2..], At(Obj(doc), p)).0;
        var n := Put(node, p[1], d).value;
        AtReplaceTop(s1, top, n, q);
        if q[0] == top {
          AtPut(node, p[1], d, q[1..]);
          if q[1] == p[1] {
            RelatedTail(q, p);
            RelatedTail(q[1..], p[1..]);
            assert q[1..][1..] == q[2..] && p[1..][1..] == p[2..];
            WriteLeafFrame(dst, p[2..], At(Obj(doc), p), q[2..]);
            AtCons(node, q[1..]);
          }
        }
      }
  }

  /** A patch's copy leaves every path unrelated to its region as it was, whether or not it throws. */
  lemma WriteFrame(store: Tree, doc: Tree, p: Path, q: Path)
    requires |p| >= 1 && !Related(q, Region(p))
    ensures At(Obj(Write(store, doc, p).0), q) == At(Obj(store), q)
  {
    if |p| <= 2 {
      var top := p[0];
      assert p[..1] == [top] && q != [] && q[..1] == [q[0]];
      if top in doc {
        AtReplaceTop(store, top, doc[top], q);
      }
    } else if |p| == 3 {
      WriteFrameItem(store, doc, p, q);
    } else {
      WriteFrameLeaf(store, doc, p, q);
    }
  }

  /** A copy that does not throw leaves the store agreeing with the document on the patch's region. */
  lemma WriteCovers(store: Tree, doc: Tree, p: Path)
    requires |p| >= 1 && Write(store, doc, p).1
    ensures At(Obj(doc), Region(p)).Some?
    ensures Agree(Write(store, doc, p).0, doc, Region(p))
  {
    var s := Write(store, doc, p).0;
    var top := p[0];
    var r := Region(p);
    AtCons(Obj(s), r);
    AtCons(Obj(doc), r);
    if |p| >= 3 {
      var s1 := EnsureTop(store, top);
      var node := s1[top];
      assert r[1..][1..] == r[2..];
      AtCons(s[top], r[1..]);
      if top in doc {
        AtCons(doc[top], r[1..]);
      }
      if |p| >= 4 {
        var dst := Lookup(node, p[1]).value;
        WriteLeafCovers(dst, p[2..], At(Obj(doc), p));
      }
    }
  }

  /** Copying a region the store already agrees on changes nothing and does not throw. */
  lemma WriteSame(store: Tree, doc: Tree, p: Path)
    requires |p| >= 1 && At(Obj(doc), Region(p)).Some? && Agree(store, doc, Region(p))
    ensures Write(store, doc, p) == (store, true)
  {
    var top := p[0];
    var r := Region(p);
    AtCons(Obj(store), r);
    AtCons(Obj(doc), r);
    if |p| <= 2 {
      assert store[top := doc[top]] == store;
    } else {
      var node := store[top];
      assert r[1..][1..] == r[2..];
      AtCons(node, r[1..]);
      AtCons(doc[top], r[1..]);
      var item := Lookup(node, p[1]).value;
      if |p| == 3 {
        PutSame(node, p[1], item);
        assert store[top := node] == store;
      } else {
        AtCons(item, p[2..]);
        WriteLeafSame(item, p[2..], At(Obj(doc), p).value);
        PutSame(node, p[1], item);
        assert store[top := node] == store;
      }
    }
  }

  /** A patch whose region the document does not have throws (`JSON.parse(undefined)`). */
  lemma WriteAbsent(store: Tree, doc: Tree, p: Path)
    requires |p| >= 1 && At(Obj(doc), Region(p)).None?
    ensures !Write(store, doc, p).1
  {
    if |p| >= 4 {
      var top := p[0];
      var s1 := EnsureTop(store, top);
      match Lookup(s1[top], p[1])
      case None =>
      case Some(dst) => WriteLeafAbsent(dst, p[2..]);
    }
  }

  /** What the store agrees on with the document stays agreed after a successful copy. */
  lemma WritePreservesAgree(store: Tree, doc: Tree, p: Path, u: Path)
    requires |p| >= 1 && Write(store, doc, p).1 && Agree(store, doc, u)
    ensures Agree(Write(store, doc, p).0, doc, u)
  {
    var c := Region(p);
    var s := Write(store, doc, p).0;
    if !Related(u, c) {
      WriteFrame(store, doc, p, u);
    } else if Prefix(c, u) {
      WriteCovers(store, doc, p);
      assert u == c + u[|c|..];
      AtAppend(Obj(s), c, u[|c|..]);
      AtAppend(Obj(doc), c, u[|c|..]);
    } else {
      WriteCovers(store, doc, p);
      assert c == u + c[|u|..];
      AtAppend(Obj(store), u, c[|u|..]);
      AtAppend(Obj(doc), u, c[|u|..]);
      WriteSame(store, doc, p);
    }
  }

  // ---------------------------------------------------------------------
  // A batch
  // ---------------------------------------------------------------------

  /** Every recorded region holds the document's value. */
  ghost predicate AllAgree(b: Batch<Path>, doc: Tree)
  {
    forall u :: u in b.updated ==> u != [] && Agree(b.store, doc, u)
  }

  /** Some recorded region lies on or above `c`. */
  ghost predicate Covered(updated: set<Path>, c: Path)
  {
    exists u :: u in updated && Prefix(u, c)
  }

  lemma CoveredAgree(b: Batch<Path>, doc: Tree, c: Path)
    requires AllAgree(b, doc) && Covered(b.updated, c)
    ensures Agree(b.store, doc, c)
  {
    var u :| u in b.updated && Prefix(u, c);
    assert c == u + c[|u|..];
    AtAppend(Obj(b.store), u, c[|u|..]);
    AtAppend(Obj(doc), u, c[|u|..]);
  }

  lemma StepAgree(b: Batch<Path>, doc: Tree, p: Path)
    requires b.ok && AllAgree(b, doc) && Step(b, doc, p, PathKey).ok
    ensures AllAgree(Step(b, doc, p, PathKey), doc)
    ensures b.updated <= Step(b, doc, p, PathKey).updated
    ensures |p| >= 1 ==> Covered(Step(b, doc, p, PathKey).updated, Region(p))
  {
    if |p| >= 1 {
      var r := Region(p);
      if SkipAbove(b.updated, p, PathKey) {
        if p[..1] in b.updated {
          assert Prefix(p[..1], r);
        } else {
          assert Prefix(p[..2], r);
        }
      } else if |p| >= 4 && p in b.updated {
        var b' := Step(b, doc, p, PathKey);
        assert p[..1] == [p[0]];
        forall u | u in b'.updated
          ensures u != [] && Agree(b'.store, doc, u)
        {
          EnsureTopFrame(b.store, p[0], u);
        }
        assert Prefix(p, r);
      } else {
        var b' := Step(b, doc, p, PathKey);
        forall u | u in b'.updated
          ensures Agree(b'.store, doc, u)
        {
          if u in b.updated {
            WritePreservesAgree(b.store, doc, p, u);
          } else {
            WriteCovers(b.store, doc, p);
          }
        }
        assert Prefix(r, r);
      }
    }
  }

  lemma RunOkStepOk<K>(b: Batch<K>, doc: Tree, patches: seq<Path>, key: Path -> K)
    requires |patches| > 0 && Run(b, doc, patches, key).ok
    ensures b.ok && Step(b, doc, patches[0], key).ok
  {
    var b1 := Step(b, doc, patches[0], key);
    assert Run(b, doc, patches, key) == Run(b1, doc, patches[1..], key);
  }

  lemma {:induction false} RunAgree(b: Batch<Path>, doc: Tree, patches: seq<Path>)
    requires b.ok && AllAgree(b, doc) && Run(b, doc, patches, PathKey).ok
    ensures AllAgree(Run(b, doc, patches, PathKey), doc)
    ensures b.updated <= Run(b, doc, patches, PathKey).updated
    ensures forall i :: 0 <= i < |patches| && |patches[i]| >= 1 ==>
              Covered(Run(b, doc, patches, PathKey).updated, Region(patches[i]))
    decreases |patches|
  {
    if |patches| > 0 {
      var b1 := Step(b, doc, patches[0], PathKey);
      RunOkStepOk(b, doc, patches, PathKey);
      {
        StepAgree(b, doc, patches[0]);
        RunAgree(b1, doc, patches[1..]);
        var fin := Run(b, doc, patches, PathKey);
        forall i | 0 <= i < |patches| && |patches[i]| >= 1
          ensures Covered(fin.updated, Region(patches[i]))
        {
          if i == 0 {
            var u :| u in b1.updated && Prefix(u, Region(patches[0]));
            assert u in fin.updated;
          } else {
            assert patches[i] == patches[1..][i - 1];
          }
        }
      }
    }
  }

  /**
   * A batch that does not throw leaves every region it addressed equal to the
   * document's value there, and the document has a value at each of them: a
   * patch for a removed key cannot succeed.
   */
  lemma ReconcileCovers(store: Tree, doc: Tree, patches: seq<Path>)
    requires Reconcile(store, doc, patches, PathKey).ok
    ensures forall i :: 0 <= i < |patches| && |patches[i]| >= 1 ==>
              Agree(Reconcile(store, doc, patches, PathKey).store, doc, Region(patches[i]))
  {
    RunAgree(Batch(store, {}, true), doc, patches);
    var fin := Reconcile(store, doc, patches, PathKey);
    forall i | 0 <= i < |patches| && |patches[i]| >= 1
      ensures Agree(fin.store, doc, Region(patches[i]))
    {
      CoveredAgree(fin, doc, Region(patches[i]));
    }
  }

  lemma {:induction false} RunFrame<K>(b: Batch<K>, doc: Tree, patches: seq<Path>, key: Path -> K, q: Path)
    requires forall i :: 0 <= i < |patches| && |patches[i]| >= 1 ==> !Related(q, Region(patches[i]))
    ensures At(Obj(Run(b, doc, patches, key).store), q) == At(Obj(b.store), q)
    decreases |patches|
  {
    if |patches| > 0 && b.ok {
      var p := patches[0];
      if |p| >= 1 && !SkipAbove(b.updated, p, key) {
        if |p| >= 4 && key(p) in b.updated {
          assert p[..0] == [] && p[..1] == [p[0]];
          assert |q| >= 1 && (|q| == 1 ==> q[..1] == q);
          EnsureTopFrame(b.store, p[0], q);
        } else {
          WriteFrame(b.store, doc, p, q);
        }
      }
      forall i | 0 <= i < |patches[1..]| && |patches[1..][i]| >= 1
        ensures !Related(q, Region(patches[1..][i]))
      {
        assert patches[1..][i] == patches[i + 1];
      }
      RunFrame(Step(b, doc, p, key), doc, patches[1..], key, q);
    }
  }

  /**
   * Whatever the batch does, and whether or not it throws, it leaves the
   * store unchanged at every path that lies neither above nor below one of
   * the regions its patches address. This holds for any way of keying the
   * copied regions.
   */
  lemma ReconcileFrame<K>(store: Tree, doc: Tree, patches: seq<Path>, key: Path -> K, q: Path)
    requires forall i :: 0 <= i < |patches| && |patches[i]| >= 1 ==> !Related(q, Region(patches[i]))
    ensures At(Obj(Reconcile(store, doc, patches, key).store), q) == At(Obj(store), q)
  {
    RunFrame(Batch(store, {}, true), doc, patches, key, q);
  }

  /** An empty batch, or one of empty paths only, leaves the store as it was. */
  lemma {:induction false} EmptyPathsIgnored<K>(store: Tree, doc: Tree, patches: seq<Path>, key: Path -> K)
    requires forall i :: 0 <= i < |patches| ==> patches[i] == []
    ensures Reconcile(store, doc, patches, key) == Batch(store, {}, true)
  {
    var b := Batch(store, {}, true);
    var k := 0;
    while k < |patches|
      invariant 0 <= k <= |patches|
      invariant Run(b, doc, patches[k..], key) == Reconcile(store, doc, patches, key)
    {
      assert patches[k..][1..] == patches[k + 1..];
      k := k + 1;
    }
  }

  /** Running two lists of patches one after the other is running their concatenation. */
  lemma {:induction false} RunAppend<K>(b: Batch<K>, doc: Tree, xs: seq<Path>, ys: seq<Path>, key: Path -> K)
    ensures Run(b, doc, xs + ys, key) == Run(Run(b, doc, xs, key), doc, ys, key)
    decreases |xs|
  {
    if |xs| == 0 {
      assert xs + ys == ys;
    } else if b.ok {
      assert (xs + ys)[0] == xs[0] && (xs + ys)[1..] == xs[1..] + ys;
      RunAppend(Step(b, doc, xs[0], key), doc, xs[1..], ys, key);
    }
  }

  /**
   * A patch whose region the document lacks makes the batch throw, rather
   * than delete the store's entry, wherever in the batch it is reached
   * without being skipped.
   */
  lemma RemovedKeyThrows<K>(store: Tree, doc: Tree, xs: seq<Path>, p: Path, rest: seq<Path>, key: Path -> K)
    requires |p| >= 1 && At(Obj(doc), Region(p)).None?
    requires var b := Run(Batch(store, {}, true), doc, xs, key);
             !SkipAbove(b.updated, p, key) && !(|p| >= 4 && key(p) in b.updated)
    ensures !Reconcile(store, doc, xs + [p] + rest, key).ok
  {
    var b := Run(Batch(store, {}, true), doc, xs, key);
    RunAppend(Batch(store, {}, true), doc, xs, [p] + rest, key);
    assert xs + [p] + rest == xs + ([p] + rest);
    assert ([p] + rest)[0] == p && ([p] + rest)[1..] == rest;
    if b.ok {
      WriteAbsent(b.store, doc, p);
    }
  }

  // ---------------------------------------------------------------------
  // The keys as the source builds them
  // ---------------------------------------------------------------------

  /** The source's three key forms: `top`, `${top}.${path[1]}` and `${itemKey}.${path.slice(2).join(".")}`. */
  lemma JoinedKeyParts(p: Path)
    requires |p| >= 1
    ensures JoinedKey(p[..1]) == p[0]
    ensures |p| >= 2 ==> JoinedKey(p[..2]) == p[0] + "." + p[1]
    ensures |p| >= 3 ==> JoinedKey(p) == p[0] + "." + p[1] + "." + Join(p[2..], ".")
  {
    assert p[..1] == [p[0]];
    if |p| >= 2 {
      assert p[..2] == [p[0], p[1]] && [p[0], p[1]][1..] == [p[1]];
      assert Join([p[1]], ".") == p[1];
      assert JoinedKey(p[..2]) == p[0] + "." + Join([p[1]], ".");
    }
    if |p| >= 3 {
      assert p[1..][1..] == p[2..] && p[1..][0] == p[1];
      assert Join(p[1..], ".") == p[1] + "." + Join(p[2..], ".");
      assert JoinedKey(p) == p[0] + "." + Join(p[1..], ".");
    }
  }

  /** No part of the path contains ".". */
  ghost predicate Dotless(p: Path)
  {
    forall i :: 0 <= i < |p| ==> '.' !in p[i]
  }

  /** Distinct non-empty dotless regions have distinct joined keys. */
  lemma JoinedKeyInjective(u: Path, v: Path)
    requires u != [] && v != [] && Dotless(u) && Dotless(v) && JoinedKey(u) == JoinedKey(v)
    ensures u == v
  {
    assert "." == ['.'];
    JoinInjective(u, v, '.');
  }

  ghost function JoinedKeys(regions: set<Path>): set<string>
  {
    set u | u in regions :: JoinedKey(u)
  }

  /** A batch keyed by joined strings in step with one keyed by paths, all of whose regions are dotless. */
  ghost predicate Shadows(bj: Batch<string>, bp: Batch<Path>)
  {
    && bj.store == bp.store && bj.ok == bp.ok && bj.updated == JoinedKeys(bp.updated)
    && forall u :: u in bp.updated ==> u != [] && Dotless(u)
  }

  lemma ShadowsMember(bj: Batch<string>, bp: Batch<Path>, x: Path)
    requires Shadows(bj, bp) && x != [] && Dotless(x)
    ensures JoinedKey(x) in bj.updated <==> x in bp.updated
  {
    if JoinedKey(x) in bj.updated {
      var u :| u in bp.updated && JoinedKey(u) == JoinedKey(x);
      JoinedKeyInjective(u, x);
    }
  }

  /** Both batches skip the same patches. */
  lemma ShadowsSkip(bj: Batch<string>, bp: Batch<Path>, p: Path)
    requires Shadows(bj, bp) && Dotless(p) && |p| >= 1
    ensures SkipAbove(bj.updated, p, JoinedKey) == SkipAbove(bp.updated, p, PathKey)
    ensures (JoinedKey(p) in bj.updated) == (p in bp.updated)
  {
    ShadowsMember(bj, bp, p[..1]);
    if |p| >= 2 {
      ShadowsMember(bj, bp, p[..2]);
    }
    ShadowsMember(bj, bp, p);
  }

  /** Both batches record the same copied region. */
  lemma ShadowsRecord(bj: Batch<string>, bp: Batch<Path>, r: Path, s: Tree, ok: bool)
    requires Shadows(bj, bp) && r != [] && Dotless(r)
    ensures Shadows(Batch(s, if ok then bj.updated + {JoinedKey(r)} else bj.updated, ok),
                    Batch(s, if ok then bp.updated + {r} else bp.updated, ok))
  {
    assert JoinedKeys(bp.updated + {r}) == bj.updated + {JoinedKey(r)};
  }

  lemma StepShadows(bj: Batch<string>, bp: Batch<Path>, doc: Tree, p: Path)
    requires Shadows(bj, bp) && Dotless(p)
    ensures Shadows(Step(bj, doc, p, JoinedKey), Step(bp, doc, p, PathKey))
  {
    if |p| >= 1 {
      ShadowsSkip(bj, bp, p);
      if !SkipAbove(bp.updated, p, PathKey) && !(|p| >= 4 && p in bp.updated) {
        var (s, ok) := Write(bp.store, doc, p);
        ShadowsRecord(bj, bp, Region(p), s, ok);
      }
    }
  }

  lemma {:induction false} RunShadows(bj: Batch<string>, bp: Batch<Path>, doc: Tree, patches: seq<Path>)
    requires Shadows(bj, bp) && forall i :: 0 <= i < |patches| ==> Dotless(patches[i])
    ensures Shadows(Run(bj, doc, patches, JoinedKey), Run(bp, doc, patches, PathKey))
    decreases |patches|
  {
    if |patches| > 0 && bp.ok {
      StepShadows(bj, bp, doc, patches[0]);
      forall i | 0 <= i < |patches[1..]|
        ensures Dotless(patches[1..][i])
      {
        assert patches[1..][i] == patches[i + 1];
      }
      RunShadows(Step(bj, doc, patches[0], JoinedKey), Step(bp, doc, patches[0], PathKey), doc, patches[1..]);
    }
  }

  /**
   * The joined keys collide only through a "." inside a key: when no patch
   * path has one, the batch as the source keys it writes the same store and
   * throws in the same cases as the batch keyed by paths.
   */
  lemma ReconcileJoinedAsPaths(store: Tree, doc: Tree, patches: seq<Path>)
    requires forall i :: 0 <= i < |patches| ==> Dotless(patches[i])
    ensures Reconcile(store, doc, patches, JoinedKey).store == Reconcile(store, doc, patches, PathKey).store
    ensures Reconcile(store, doc, patches, JoinedKey).ok == Reconcile(store, doc, patches, PathKey).ok
  {
    assert JoinedKeys({}) == {};
    RunShadows(Batch(store, {}, true), Batch(store, {}, true), doc, patches);
  }

  /**
   * The batch as the source keys it, with no "." inside any path part: when
   * it does not throw, the store equals the document on every patch's region.
   */
  lemma ReconcileJoinedCovers(store: Tree, doc: Tree, patches: seq<Path>)
    requires forall i :: 0 <= i < |patches| ==> Dotless(patches[i])
    requires Reconcile(store, doc, patches, JoinedKey).ok
    ensures forall i :: 0 <= i < |patches| && |patches[i]| >= 1 ==>
              Agree(Reconcile(store, doc, patches, JoinedKey).store, doc, Region(patches[i]))
  {
    ReconcileJoinedAsPaths(store, doc, patches);
    ReconcileCovers(store, doc, patches);
  }

  /**
   * With keys joined by ".", a top-level key "a.b" and the item `a`/`b`
   * record the same key: after the patch ["a.b"], the patch ["a", "b", "c"]
   * is skipped and the store keeps a stale item, although the batch succeeds.
   */
  lemma JoinedKeySkipsDottedItem()
    ensures var store := map["a" := Obj(map["b" := Num(0)])];
            var doc := map["a.b" := Num(1), "a" := Obj(map["b" := Num(2)])];
            var r := Reconcile(store, doc, [["a.b"], ["a", "b", "c"]], JoinedKey);
            r.ok && At(Obj(r.store), ["a", "b"]) == Some(Num(0)) && At(Obj(doc), ["a", "b"]) == Some(Num(2))
  {
    var store := map["a" := Obj(map["b" := Num(0)])];
    var doc := map["a.b" := Num(1), "a" := Obj(map["b" := Num(2)])];
    var p1: Path := ["a.b"];
    var p2: Path := ["a", "b", "c"];
    var b0 := Batch(store, {}, true);
    var b1 := Step(b0, doc, p1, JoinedKey);
    assert p1[..1] == p1;
    assert b1 == Batch(store["a.b" := Num(1)], {"a.b"}, true);
    assert p2[..2] == ["a", "b"];
    assert p2[..2] == ["a", "b"] && ["a", "b"][1..] == ["b"];
    assert Join(["b"], ".") == "b";
    assert Join(["a", "b"], ".") == "a" + "." + "b" == "a.b";
    assert JoinedKey(p2[..2]) == "a.b";
    assert Step(b1, doc, p2, JoinedKey) == b1;
    assert [p1, p2][1..] == [p2];
    assert [p2][1..] == [];
    assert Run(b0, doc, [p1, p2], JoinedKey) == Run(b1, doc, [p2], JoinedKey);
    assert Run(b1, doc, [p2], JoinedKey) == Run(b1, doc, [], JoinedKey) == b1;
    var r := Reconcile(store, doc, [p1, p2], JoinedKey);
    assert Obj(r.store).fields["a"] == Obj(map["b" := Num(0)]);
  }
}

/** Path addressing. A path is the list of string steps the renderer builds
    (`[...path, key]` for object properties, `[...path, index.toString()]`
    for array elements). `Lookup` is the `path.reduce((acc, key) => acc[key], obj)`
    of the rename helper; `Navigate` is the loop every edit helper runs on
    its deep copy; `Replace` says what writing through the reached target
    does to the copied root. */
module Paths {
  import opened Outcomes
  import opened JsonValue
  import opened JsDecimal

  type Path = seq<string>

  /** `target[k]` for a JSON container: an own key of an object, or the
      canonical index of an existing array element. */
  function Step(v: Value, k: string): Option<Value> {
    match v
    case Obj(es) => Get(es, k)
    case Arr(items) =>
      (match ArrayIndex(k)
       case Some(i) => if i < |items| then Some(items[i]) else None
       case None => None)
    case _ => None
  }

  /** `v` with the child that `k` names replaced by `c` (unchanged when no child has that name). */
  function StepReplace(v: Value, k: string, c: Value): Value {
    match v
    case Obj(es) =>
      (match FindKey(es, k)
       case Some(i) => Obj(es[i := (k, c)])
       case None => v)
    case Arr(items) =>
      (match ArrayIndex(k)
       case Some(i) => if i < |items| then Arr(items[i := c]) else v
       case None => v)
    case _ => v
  }

  function Lookup(v: Value, p: Path): Option<Value> {
    if p == [] then Some(v)
    else match Step(v, p[0])
      case Some(c) => Lookup(c, p[1..])
      case None => None
  }

  /** `v` with the node at `p` replaced by `n`; `v` itself when `p` leads nowhere. */
  function Replace(v: Value, p: Path, n: Value): Value {
    if p == [] then n
    else match Step(v, p[0])
      case Some(c) => StepReplace(v, p[0], Replace(c, p[1..], n))
      case None => v
  }

  predicate IsPrefix(p: Path, q: Path) {
    |p| <= |q| && q[..|p|] == p
  }

  // ---------------------------------------------------------------------
  // One step

  lemma StepReplaceFacts(v: Value, k: string, c: Value)
    requires Step(v, k).Some?
    ensures Step(StepReplace(v, k, c), k) == Some(c)
    ensures forall k' :: k' != k ==> Step(StepReplace(v, k, c), k') == Step(v, k')
    ensures StepReplace(v, k, Step(v, k).value) == v
    ensures forall c' :: StepReplace(StepReplace(v, k, c), k, c') == StepReplace(v, k, c')
  {
    if v.Obj? {
      ObjectStepReplace(v.entries, k, c);
    } else {
      ArrayIndexInjective(k);
    }
  }

  lemma ObjectStepReplace(es: seq<Entry>, k: string, c: Value)
    requires FindKey(es, k).Some?
    ensures var i := FindKey(es, k).value;
      FindKey(es[i := (k, c)], k) == Some(i) &&
      (forall k' :: FindKey(es[i := (k, c)], k') == FindKey(es, k')) &&
      es[i := (k, es[i].1)] == es
  {
    var i := FindKey(es, k).value;
    var es' := es[i := (k, c)];
    forall k' ensures FindKey(es', k') == FindKey(es, k') {
      FindKeySameKeys(es, es', k');
    }
  }

  lemma StepWellFormed(v: Value, k: string, c: Value)
    requires WellFormed(v)
    ensures Step(v, k).Some? ==> WellFormed(Step(v, k).value)
    ensures Step(v, k).Some? && WellFormed(c) ==> WellFormed(StepReplace(v, k, c))
  {
    match v
    case Obj(es) =>
      if FindKey(es, k).Some? {
        var i := FindKey(es, k).value;
        assert es[i] in es;
        var es' := es[i := (k, c)];
        assert UniqueKeys(es');
        if WellFormed(c) {
          forall e | e in es' ensures WellFormed(e.1) {
            var j :| 0 <= j < |es'| && es'[j] == e;
            if j != i { assert es[j] in es; }
          }
        }
      }
    case Arr(items) =>
      if ArrayIndex(k).Some? && ArrayIndex(k).value < |items| {
        var i := ArrayIndex(k).value;
        assert items[i] in items;
        var items' := items[i := c];
        if WellFormed(c) {
          forall x | x in items' ensures WellFormed(x) {
            var j :| 0 <= j < |items'| && items'[j] == x;
            if j != i { assert items[j] in items; }
          }
        }
      }
    case _ =>
  }

  // ---------------------------------------------------------------------
  // Walking one step further

  lemma {:induction false} LookupSnoc(v: Value, p: Path, k: string)
    ensures Lookup(v, p + [k]) ==
      (match Lookup(v, p) case Some(t) => Step(t, k) case None => None)
  {
    if p == [] {
      assert [] + [k] == [k];
      assert [k][1..] == [];
    } else {
      assert (p + [k])[0] == p[0];
      assert (p + [k])[1..] == p[1..] + [k];
      match Step(v, p[0])
      case Some(c) => LookupSnoc(c, p[1..], k);
      case None =>
    }
  }

  lemma {:induction false} ReplaceSnoc(v: Value, p: Path, k: string, n: Value)
    requires Lookup(v, p).Some? && Step(Lookup(v, p).value, k).Some?
    ensures Replace(v, p + [k], n) == Replace(v, p, StepReplace(Lookup(v, p).value, k, n))
  {
    if p == [] {
      assert [] + [k] == [k];
      assert [k][1..] == [];
    } else {
      assert (p + [k])[0] == p[0];
      assert (p + [k])[1..] == p[1..] + [k];
      var c := Step(v, p[0]).value;
      ReplaceSnoc(c, p[1..], k, n);
    }
  }

  // ---------------------------------------------------------------------
  // Reading back a replacement

  /** After the replacement the path reaches the new node. */
  lemma {:induction false} LookupReplaceSame(v: Value, p: Path, n: Value)
    requires Lookup(v, p).Some?
    ensures Lookup(Replace(v, p, n), p) == Some(n)
  {
    if p != [] {
      var c := Step(v, p[0]).value;
      LookupReplaceSame(c, p[1..], n);
      StepReplaceFacts(v, p[0], Replace(c, p[1..], n));
    }
  }

  /** Below the target, the new node's own structure is what one reads. */
  lemma {:induction false} LookupReplaceBelow(v: Value, p: Path, n: Value, s: Path)
    requires Lookup(v, p).Some?
    ensures Lookup(Replace(v, p, n), p + s) == Lookup(n, s)
  {
    if p == [] {
      assert [] + s == s;
    } else {
      var c := Step(v, p[0]).value;
      assert (p + s)[0] == p[0];
      assert (p + s)[1..] == p[1..] + s;
      LookupReplaceBelow(c, p[1..], n, s);
      StepReplaceFacts(v, p[0], Replace(c, p[1..], n));
    }
  }

  /** Writing back the node that is already there changes nothing. */
  lemma {:induction false} ReplaceWithSelf(v: Value, p: Path)
    requires Lookup(v, p).Some?
    ensures Replace(v, p, Lookup(v, p).value) == v
  {
    if p != [] {
      var c := Step(v, p[0]).value;
      ReplaceWithSelf(c, p[1..]);
      StepReplaceFacts(v, p[0], c);
    }
  }

  /** A second replacement at the same path overrides the first. */
  lemma {:induction false} ReplaceTwice(v: Value, p: Path, n1: Value, n2: Value)
    requires Lookup(v, p).Some?
    ensures Replace(Replace(v, p, n1), p, n2) == Replace(v, p, n2)
  {
    if p != [] {
      var c := Step(v, p[0]).value;
      var c1 := Replace(c, p[1..], n1);
      StepReplaceFacts(v, p[0], c1);
      ReplaceTwice(c, p[1..], n1, n2);
    }
  }

  /** Locality: a node whose path neither lies on the path to the target nor
      below it reads the same before and after the replacement. */
  lemma {:induction false} ReplaceIsLocal(v: Value, p: Path, q: Path, n: Value)
    requires !IsPrefix(p, q) && !IsPrefix(q, p)
    ensures Lookup(Replace(v, p, n), q) == Lookup(v, q)
  {
    assert p != [] && q != [];
    match Step(v, p[0])
    case None =>
    case Some(c) =>
      var c' := Replace(c, p[1..], n);
      StepReplaceFacts(v, p[0], c');
      if p[0] == q[0] {
        ReplaceIsLocal(c, p[1..], q[1..], n);
      }
  }

  lemma {:induction false} LookupWellFormed(v: Value, p: Path)
    requires WellFormed(v) && Lookup(v, p).Some?
    ensures WellFormed(Lookup(v, p).value)
  {
    if p != [] {
      StepWellFormed(v, p[0], v);
      LookupWellFormed(Step(v, p[0]).value, p[1..]);
    }
  }

  /** Putting a well-formed node into a well-formed tree keeps it well formed. */
  lemma {:induction false} ReplaceWellFormed(v: Value, p: Path, n: Value)
    requires WellFormed(v) && WellFormed(n)
    ensures WellFormed(Replace(v, p, n))
  {
    if p != [] {
      match Step(v, p[0])
      case None =>
      case Some(c) =>
        StepWellFormed(v, p[0], v);
        ReplaceWellFormed(c, p[1..], n);
        StepWellFormed(v, p[0], Replace(c, p[1..], n));
    }
  }

  // ---------------------------------------------------------------------
  // The walk of the edit helpers

  /** A container passed on the way down and the step taken out of it. */
  datatype Frame = Frame(container: Value, step: string)

  /** Where the walk stopped: the frames from the root down, and the target. */
  datatype Cursor = Cursor(frames: seq<Frame>, target: Value)

  /** Writing `n` in place of the target and letting the change show
      through every container passed on the way down. */
  function Plug(frames: seq<Frame>, n: Value): Value
    decreases |frames|
  {
    if frames == [] then n
    else
      var f := frames[|frames| - 1];
      Plug(frames[..|frames| - 1], StepReplace(f.container, f.step, n))
  }

  /** `let target = newObj; for (const key of path) target = target[key]`.
      None where the component's property access fails. */
  method Navigate(root: Value, path: Path) returns (r: Option<Cursor>)
    ensures r.Some? <==> Lookup(root, path).Some?
    ensures r.Some? ==> r.value.target == Lookup(root, path).value
    ensures r.Some? ==> forall n :: Plug(r.value.frames, n) == Replace(root, path, n)
  {
    var target := root;
    var frames: seq<Frame> := [];
    var i := 0;
    while i < |path|
      invariant 0 <= i <= |path|
      invariant Lookup(root, path[..i]) == Some(target)
      invariant forall n :: Plug(frames, n) == Replace(root, path[..i], n)
    {
      var key := path[i];
      LookupSnoc(root, path[..i], key);
      assert path[..i + 1] == path[..i] + [key];
      var child := Step(target, key);
      if child.None? {
        LookupPrefixFails(root, path, i + 1);
        return None;
      }
      forall n ensures Plug(frames + [Frame(target, key)], n) == Replace(root, path[..i + 1], n) {
        assert (frames + [Frame(target, key)])[..|frames|] == frames;
        ReplaceSnoc(root, path[..i], key, n);
      }
      frames := frames + [Frame(target, key)];
      target := child.value;
      i := i + 1;
    }
    assert path[..i] == path;
    return Some(Cursor(frames, target));
  }

  /** A walk that fails part-way fails for the whole path. */
  lemma {:induction false} LookupPrefixFails(v: Value, p: Path, i: nat)
    requires i <= |p| && Lookup(v, p[..i]).None?
    ensures Lookup(v, p).None?
  {
    if i > 0 && p != [] {
      assert p[..i][0] == p[0] && p[..i][1..] == p[1..][..i - 1];
      match Step(v, p[0])
      case None =>
      case Some(c) => LookupPrefixFails(c, p[1..], i - 1);
    }
  }
}

/**
 * `encryptFields` / `decryptFields`: the per-field encryption walk.  Both
 * functions are the same walk over a value and differ only in what they do
 * to a string held directly under an object key other than `id`: one
 * enciphers it, the other deciphers it.  Arrays are mapped element by
 * element, objects key by key; the value under an `id` key passes through;
 * everything else (numbers, booleans, null, strings that are array elements
 * or the top-level value) is returned as it is.  A leaf that throws makes the
 * whole walk throw (`None`).
 */
module FieldCodec {
  import opened Wrappers
  import opened Json
  import opened Cipher

  /**
   * The random source: the IV drawn for the string at a position in the tree
   * (the array indices and entry positions leading to it).
   */
  type Entropy = seq<nat> -> IV

  /** What the walk does to a ciphered string, given its position. */
  type Leaf = (seq<nat>, string) -> Option<string>

  // ---------------------------------------------------------------- the walk

  function Walk(v: Value, leaf: Leaf, path: seq<nat>): Option<Value>
    decreases v, 1
  {
    match v
    case Arr(_) =>
      (match WalkItems(v, 0, leaf, path)
       case None => None
       case Some(ys) => Some(Arr(ys)))
    case Obj(_) =>
      (match WalkEntries(v, 0, leaf, path)
       case None => None
       case Some(gs) => Some(Obj(gs)))
    case _ => Some(v)
  }

  /** `data.map(item => walk(item))`, from element `i` on. */
  function WalkItems(v: Value, i: nat, leaf: Leaf, path: seq<nat>): Option<seq<Value>>
    requires v.Arr? && i <= |v.items|
    decreases v, 0, |v.items| - i
  {
    if i == |v.items| then Some([])
    else
      match (Walk(v.items[i], leaf, path + [i]), WalkItems(v, i + 1, leaf, path))
      case (Some(y), Some(ys)) => Some([y] + ys)
      case _ => None
  }

  /** The `for (const [key, value] of Object.entries(data))` loop, from entry `i` on. */
  function WalkEntries(v: Value, i: nat, leaf: Leaf, path: seq<nat>): Option<Fields>
    requires v.Obj? && i <= |v.fields|
    decreases v, 0, |v.fields| - i
  {
    if i == |v.fields| then Some([])
    else
      var (k, x) := v.fields[i];
      var y :=
        if k == "id" then Some(x)
        else if x.Str? then
          (match leaf(path + [i], x.s)
           case None => None
           case Some(c) => Some(Str(c)))
        else Walk(x, leaf, path + [i]);
      match (y, WalkEntries(v, i + 1, leaf, path))
      case (Some(y'), Some(gs)) => Some([(k, y')] + gs)
      case _ => None
  }

  // ---------------------------------------------------------------- the two codecs

  function EncryptLeaf(key: string, aes: Aes, ivs: Entropy): (f: Leaf)
    ensures forall p, s :: f(p, s) == EncryptData(s, key, aes, ivs(p))
  {
    (p: seq<nat>, s: string) => EncryptData(s, key, aes, ivs(p))
  }

  function DecryptLeaf(key: string, aes: Aes): (g: Leaf)
    ensures forall p, s :: g(p, s) == DecryptData(s, key, aes)
  {
    (p: seq<nat>, s: string) => DecryptData(s, key, aes)
  }

  /**
   * `encryptFields(data, key)`.  It throws exactly when the key is unusable and
   * there is a string to encipher; otherwise the result has the input's shape.
   */
  function EncryptFields(v: Value, key: string, aes: Aes, ivs: Entropy): (r: Option<Value>)
    ensures r.Some? <==> ValidKey(key) || !HasCipherLeaf(v)
    ensures r.Some? ==> SameShape(v, r.value)
  {
    var leaf := EncryptLeaf(key, aes, ivs);
    assert forall p, s :: leaf(p, s).Some? == ValidKey(key);
    WalkDefined(v, leaf, [], ValidKey(key));
    WalkShape(v, leaf, []);
    Walk(v, leaf, [])
  }

  /** `decryptFields(data, key)`: the same walk, deciphering; the result has the input's shape. */
  function DecryptFields(v: Value, key: string, aes: Aes): (r: Option<Value>)
    ensures !ValidKey(key) ==> (r.Some? <==> !HasCipherLeaf(v))
    ensures r.Some? ==> SameShape(v, r.value)
  {
    var leaf := DecryptLeaf(key, aes);
    assert !ValidKey(key) ==> (Walk(v, leaf, []).Some? <==> !HasCipherLeaf(v)) by {
      if !ValidKey(key) {
        assert forall p, s :: leaf(p, s).Some? == false;
        WalkDefined(v, leaf, [], false);
      }
    }
    WalkShape(v, leaf, []);
    Walk(v, leaf, [])
  }

  // ---------------------------------------------------------------- specification

  /** Some string sits directly under an object key other than `id`, at some depth. */
  predicate HasCipherLeaf(v: Value)
    decreases v
  {
    match v
    case Arr(xs) => exists i :: 0 <= i < |xs| && HasCipherLeaf(xs[i])
    case Obj(fs) => exists i :: 0 <= i < |fs| && fs[i].0 != "id" && (fs[i].1.Str? || HasCipherLeaf(fs[i].1))
    case _ => false
  }

  /**
   * `w` has `v`'s shape: arrays of the same length, objects with the same keys in
   * the same order, the value under every `id` key identical, a string directly
   * under any other key replaced by some string, and every other leaf identical.
   */
  predicate SameShape(v: Value, w: Value)
    decreases v
  {
    match v
    case Arr(xs) =>
      w.Arr? && |w.items| == |xs| && forall i :: 0 <= i < |xs| ==> SameShape(xs[i], w.items[i])
    case Obj(fs) =>
      w.Obj? && |w.fields| == |fs| &&
      forall i :: 0 <= i < |fs| ==>
        w.fields[i].0 == fs[i].0 &&
        if fs[i].0 == "id" then w.fields[i].1 == fs[i].1
        else if fs[i].1.Str? then w.fields[i].1.Str?
        else SameShape(fs[i].1, w.fields[i].1)
    case _ => w == v
  }

  // ---------------------------------------------------------------- lemmas

  /** With a leaf that either always or never succeeds, the walk fails exactly when some ciphered string's leaf fails. */
  lemma {:induction false} WalkDefined(v: Value, leaf: Leaf, path: seq<nat>, ok: bool)
    requires forall p, s :: leaf(p, s).Some? == ok
    ensures Walk(v, leaf, path).Some? <==> ok || !HasCipherLeaf(v)
    decreases v, 1
  {
    match v
    case Arr(xs) => WalkItemsDefined(v, 0, leaf, path, ok);
    case Obj(fs) => WalkEntriesDefined(v, 0, leaf, path, ok);
    case _ =>
  }

  lemma {:induction false} WalkItemsDefined(v: Value, i: nat, leaf: Leaf, path: seq<nat>, ok: bool)
    requires v.Arr? && i <= |v.items|
    requires forall p, s :: leaf(p, s).Some? == ok
    ensures WalkItems(v, i, leaf, path).Some? <==>
            ok || forall j :: i <= j < |v.items| ==> !HasCipherLeaf(v.items[j])
    decreases v, 0, |v.items| - i
  {
    if i < |v.items| {
      WalkDefined(v.items[i], leaf, path + [i], ok);
      WalkItemsDefined(v, i + 1, leaf, path, ok);
    }
  }

  lemma {:induction false} WalkEntriesDefined(v: Value, i: nat, leaf: Leaf, path: seq<nat>, ok: bool)
    requires v.Obj? && i <= |v.fields|
    requires forall p, s :: leaf(p, s).Some? == ok
    ensures WalkEntries(v, i, leaf, path).Some? <==>
            ok || forall j :: i <= j < |v.fields| ==>
                    !(v.fields[j].0 != "id" && (v.fields[j].1.Str? || HasCipherLeaf(v.fields[j].1)))
    decreases v, 0, |v.fields| - i
  {
    if i < |v.fields| {
      var x := v.fields[i].1;
      if !x.Str? {
        WalkDefined(x, leaf, path + [i], ok);
      }
      WalkEntriesDefined(v, i + 1, leaf, path, ok);
    }
  }

  /** Whatever the leaf does, a successful walk keeps the shape of its input. */
  lemma {:induction false} WalkShape(v: Value, leaf: Leaf, path: seq<nat>)
    ensures Walk(v, leaf, path).Some? ==> SameShape(v, Walk(v, leaf, path).value)
    decreases v, 1
  {
    match v
    case Arr(xs) => WalkItemsShape(v, 0, leaf, path);
    case Obj(fs) => WalkEntriesShape(v, 0, leaf, path);
    case _ =>
  }

  lemma {:induction false} WalkItemsShape(v: Value, i: nat, leaf: Leaf, path: seq<nat>)
    requires v.Arr? && i <= |v.items|
    ensures WalkItems(v, i, leaf, path).Some? ==>
            var ys := WalkItems(v, i, leaf, path).value;
            |ys| == |v.items| - i && forall j :: 0 <= j < |ys| ==> SameShape(v.items[i + j], ys[j])
    decreases v, 0, |v.items| - i
  {
    if i < |v.items| {
      WalkShape(v.items[i], leaf, path + [i]);
      WalkItemsShape(v, i + 1, leaf, path);
    }
  }

  lemma {:induction false} WalkEntriesShape(v: Value, i: nat, leaf: Leaf, path: seq<nat>)
    requires v.Obj? && i <= |v.fields|
    ensures WalkEntries(v, i, leaf, path).Some? ==>
            var gs := WalkEntries(v, i, leaf, path).value;
            |gs| == |v.fields| - i &&
            forall j :: 0 <= j < |gs| ==>
              var (k, x) := v.fields[i + j];
              gs[j].0 == k &&
              if k == "id" then gs[j].1 == x
              else if x.Str? then gs[j].1.Str?
              else SameShape(x, gs[j].1)
    decreases v, 0, |v.fields| - i
  {
    if i < |v.fields| {
      WalkShape(v.fields[i].1, leaf, path + [i]);
      WalkEntriesShape(v, i + 1, leaf, path);
    }
  }

  /** `g` undoes `f` on every string `f` accepts, position by position. */
  ghost predicate Inverse(f: Leaf, g: Leaf) {
    forall p, s :: f(p, s).Some? ==> g(p, f(p, s).value) == Some(s)
  }

  /** A walk never turns a non-string into a string. */
  lemma WalkKeepsKind(v: Value, leaf: Leaf, path: seq<nat>)
    requires !v.Str? && Walk(v, leaf, path).Some?
    ensures !Walk(v, leaf, path).value.Str?
  {
  }

  /** Walking with `g` after walking with `f` gives the input back when `g` inverts `f`. */
  lemma {:induction false} WalkInverse(v: Value, f: Leaf, g: Leaf, path: seq<nat>)
    requires Inverse(f, g)
    requires Walk(v, f, path).Some?
    ensures Walk(Walk(v, f, path).value, g, path) == Some(v)
    decreases v, 1
  {
    var w := Walk(v, f, path).value;
    match v
    case Arr(xs) =>
      WalkItemsShape(v, 0, f, path);
      WalkItemsInverse(v, w, 0, f, g, path);
      assert xs[0..] == xs;
    case Obj(fs) =>
      WalkEntriesShape(v, 0, f, path);
      WalkEntriesInverse(v, w, 0, f, g, path);
      assert fs[0..] == fs;
    case _ =>
  }

  lemma {:induction false} WalkItemsInverse(v: Value, w: Value, i: nat, f: Leaf, g: Leaf, path: seq<nat>)
    requires Inverse(f, g)
    requires v.Arr? && w.Arr? && i <= |v.items| == |w.items|
    requires WalkItems(v, i, f, path) == Some(w.items[i..])
    ensures WalkItems(w, i, g, path) == Some(v.items[i..])
    decreases v, 0, |v.items| - i
  {
    if i < |v.items| {
      var y := Walk(v.items[i], f, path + [i]);
      var ys := WalkItems(v, i + 1, f, path);
      assert w.items[i..] == [w.items[i]] + w.items[i + 1..];
      assert y.Some? && ys.Some? && [y.value] + ys.value == w.items[i..];
      assert y.value == w.items[i] && ys.value == w.items[i + 1..];
      WalkInverse(v.items[i], f, g, path + [i]);
      WalkItemsInverse(v, w, i + 1, f, g, path);
      assert Walk(w.items[i], g, path + [i]) == Some(v.items[i]);
      assert v.items[i..] == [v.items[i]] + v.items[i + 1..];
    } else {
      assert v.items[i..] == [];
    }
  }

  lemma {:induction false} WalkEntriesInverse(v: Value, w: Value, i: nat, f: Leaf, g: Leaf, path: seq<nat>)
    requires Inverse(f, g)
    requires v.Obj? && w.Obj? && i <= |v.fields| == |w.fields|
    requires WalkEntries(v, i, f, path) == Some(w.fields[i..])
    ensures WalkEntries(w, i, g, path) == Some(v.fields[i..])
    decreases v, 0, |v.fields| - i
  {
    if i < |v.fields| {
      var (k, x) := v.fields[i];
      var y :=
        if k == "id" then Some(x)
        else if x.Str? then
          (match f(path + [i], x.s)
           case None => None
           case Some(c) => Some(Str(c)))
        else Walk(x, f, path + [i]);
      var gs := WalkEntries(v, i + 1, f, path);
      assert w.fields[i..] == [w.fields[i]] + w.fields[i + 1..];
      assert y.Some? && gs.Some? && [(k, y.value)] + gs.value == w.fields[i..];
      assert w.fields[i] == (k, y.value) && gs.value == w.fields[i + 1..];
      if k != "id" && !x.Str? {
        WalkKeepsKind(x, f, path + [i]);
        WalkInverse(x, f, g, path + [i]);
      }
      WalkEntriesInverse(v, w, i + 1, f, g, path);
      assert v.fields[i..] == [v.fields[i]] + v.fields[i + 1..];
    } else {
      assert v.fields[i..] == [];
    }
  }

  /** Per-field decryption undoes per-field encryption with the same key, for every value. */
  lemma FieldsRoundTrip(v: Value, key: string, aes: Aes, ivs: Entropy)
    requires Cipher.Lawful(aes)
    requires EncryptFields(v, key, aes, ivs).Some?
    ensures DecryptFields(EncryptFields(v, key, aes, ivs).value, key, aes) == Some(v)
  {
    var f, g := EncryptLeaf(key, aes, ivs), DecryptLeaf(key, aes);
    forall p, s | f(p, s).Some? ensures g(p, f(p, s).value) == Some(s) {
      RoundTrip(s, key, aes, ivs(p));
    }
    WalkInverse(v, f, g, []);
  }
}

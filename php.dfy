/**
 * The pieces of the PHP runtime that the chat module's configuration code
 * relies on: arrays with string keys (which keep insertion order),
 * assignment into such an array, `array_merge`, `strrpos` and `substr`.
 */
module Php {

  datatype Option<+T> = None | Some(value: T)

  datatype Result<+T, +E> = Ok(value: T) | Err(error: E)

  /** One `key => value` pair of a PHP array whose keys are strings. */
  datatype Entry<V> = Entry(key: string, value: V)

  /** A PHP array with string keys, in insertion order. */
  type Assoc<V> = seq<Entry<V>>

  /** The keys of an array, in order (`array_keys`). */
  function Keys<V>(a: Assoc<V>): (ks: seq<string>)
    ensures |ks| == |a|
    ensures forall i :: 0 <= i < |a| ==> ks[i] == a[i].key
  {
    if a == [] then [] else [a[0].key] + Keys(a[1..])
  }

  /** A PHP array never holds the same key twice. */
  ghost predicate DistinctKeys<V>(a: Assoc<V>)
  {
    forall i, j :: 0 <= i < j < |a| ==> a[i].key != a[j].key
  }

  /** `$a[$k]`, or None when the key is absent. */
  function Get<V>(a: Assoc<V>, k: string): (r: Option<V>)
    ensures r.None? <==> k !in Keys(a)
    ensures r.Some? ==> exists i :: 0 <= i < |a| && a[i] == Entry(k, r.value)
  {
    if a == [] then None
    else if a[0].key == k then Some(a[0].value)
    else Get(a[1..], k)
  }

  /** In an array without repeated keys, looking up a key finds its entry. */
  lemma {:induction false} GetAt<V>(a: Assoc<V>, i: nat)
    requires DistinctKeys(a) && i < |a|
    ensures Get(a, a[i].key) == Some(a[i].value)
  {
    if i > 0 {
      assert a[0].key != a[i].key;
      assert a[1..][i - 1] == a[i];
      GetAt(a[1..], i - 1);
    }
  }

  /** The position of key `k` in `a`, or None when `a` lacks it. */
  function IndexOf<V>(a: Assoc<V>, k: string): (r: Option<nat>)
    ensures r.Some? ==> r.value < |a| && a[r.value].key == k
    ensures r.None? <==> k !in Keys(a)
  {
    if a == [] then None
    else if a[0].key == k then Some(0)
    else
      match IndexOf(a[1..], k)
      case Some(i) => Some(i + 1)
      case None => None
  }

  /**
   * `$a[$k] = $v`: an existing key keeps its position and gets the new
   * value; a new key is appended at the end.
   */
  function Put<V>(a: Assoc<V>, k: string, v: V): (r: Assoc<V>)
    requires DistinctKeys(a)
    ensures k in Keys(a) ==> (|r| == |a| &&
      forall i :: 0 <= i < |a| ==> r[i] == if a[i].key == k then Entry(k, v) else a[i])
    ensures k !in Keys(a) ==> r == a + [Entry(k, v)]
    ensures DistinctKeys(r)
  {
    match IndexOf(a, k)
    case Some(i) => a[i := Entry(k, v)]
    case None => a + [Entry(k, v)]
  }

  /**
   * `array_merge($a, $b)` for arrays with string keys: the entries of `a`
   * in their order, a later value from `b` overwriting the earlier one in
   * place, then the entries of `b` whose keys `a` does not have.
   */
  function Merge<V>(a: Assoc<V>, b: Assoc<V>): (r: Assoc<V>)
    requires DistinctKeys(a) && DistinctKeys(b)
    ensures DistinctKeys(r)
    decreases |b|
  {
    if b == [] then a
    else
      var n := |b| - 1;
      Put(Merge(a, b[..n]), b[n].key, b[n].value)
  }

  /** The value of `k` in `b` if `b` has it, otherwise `fallback`. */
  function GetOr<V>(b: Assoc<V>, k: string, fallback: V): V
  {
    match Get(b, k)
    case Some(v) => v
    case None => fallback
  }

  /**
   * The first part of a merge: `a`'s keys in `a`'s order, each with the
   * value `b` gives it, if any.
   */
  function Overwrite<V>(a: Assoc<V>, b: Assoc<V>): Assoc<V>
  {
    seq(|a|, i requires 0 <= i < |a| => Entry(a[i].key, GetOr(b, a[i].key, a[i].value)))
  }

  /** The second part of a merge: the entries of `b` whose keys `a` lacks, in `b`'s order. */
  function Extras<V>(a: Assoc<V>, b: Assoc<V>): Assoc<V>
  {
    if b == [] then []
    else
      var n := |b| - 1;
      Extras(a, b[..n]) + (if b[n].key in Keys(a) then [] else [b[n]])
  }

  /** The extras hold exactly the keys of `b` that `a` lacks. */
  lemma {:induction false} ExtrasKeys<V>(a: Assoc<V>, b: Assoc<V>)
    ensures forall k :: k in Keys(Extras(a, b)) <==> k in Keys(b) && k !in Keys(a)
  {
    if b != [] {
      var n := |b| - 1;
      var front := Extras(a, b[..n]);
      ExtrasKeys(a, b[..n]);
      assert Keys(b) == Keys(b[..n]) + [b[n].key];
      KeysAppend(front, if b[n].key in Keys(a) then [] else [b[n]]);
    }
  }

  lemma KeysAppend<V>(x: Assoc<V>, y: Assoc<V>)
    ensures Keys(x + y) == Keys(x) + Keys(y)
  {
    assert |Keys(x + y)| == |Keys(x) + Keys(y)|;
    forall i | 0 <= i < |x + y| ensures Keys(x + y)[i] == (Keys(x) + Keys(y))[i] {
      if i < |x| { assert (x + y)[i] == x[i]; } else { assert (x + y)[i] == y[i - |x|]; }
    }
  }

  /** Looking a key up after appending one entry. */
  lemma GetSnoc<V>(b: Assoc<V>, e: Entry<V>, k: string)
    ensures Get(b + [e], k) == if k in Keys(b) then Get(b, k) else if k == e.key then Some(e.value) else None
  {
    if b != [] {
      assert (b + [e])[1..] == b[1..] + [e];
      assert Keys(b[1..]) == Keys(b)[1..];
      GetSnoc(b[1..], e, k);
    }
  }

  /** Looking a key up in `b` plus one more entry whose key `b` lacks. */
  lemma GetOrSnoc<V>(b: Assoc<V>, e: Entry<V>, k: string, fallback: V)
    requires e.key !in Keys(b)
    ensures GetOr(b + [e], k, fallback) == if k == e.key then e.value else GetOr(b, k, fallback)
  {
    GetSnoc(b, e, k);
  }

  /** Assigning a key of the first part of an array changes only that part. */
  lemma PutInFront<V>(o: Assoc<V>, x: Assoc<V>, k: string, v: V)
    requires DistinctKeys(o + x) && k in Keys(o)
    ensures DistinctKeys(o)
    ensures Put(o + x, k, v) == Put(o, k, v) + x
  {
    var ox := o + x;
    assert forall i :: 0 <= i < |o| ==> ox[i] == o[i];
    KeysAppend(o, x);
    var p := IndexOf(o, k).value;
    var r1, r2 := Put(ox, k, v), Put(o, k, v) + x;
    forall i | 0 <= i < |ox| ensures r1[i] == r2[i] {
      if |o| <= i {
        assert ox[i] == x[i - |o|] == r2[i];
        assert ox[p] == o[p];
        assert ox[i].key != ox[p].key;
      }
    }
  }

  /** Assigning a key of `a` into the overwritten part is the overwrite by one more entry. */
  lemma OverwriteSnocKnown<V>(a: Assoc<V>, front: Assoc<V>, e: Entry<V>)
    requires DistinctKeys(Overwrite(a, front))
    requires e.key in Keys(a) && e.key !in Keys(front)
    ensures Put(Overwrite(a, front), e.key, e.value) == Overwrite(a, front + [e])
  {
    var o := Overwrite(a, front);
    assert Keys(o) == Keys(a);
    forall i | 0 <= i < |a| ensures Put(o, e.key, e.value)[i] == Overwrite(a, front + [e])[i] {
      GetOrSnoc(front, e, a[i].key, a[i].value);
    }
  }

  /** One merge step for an entry whose key the first array already has. */
  lemma MergeStepKnown<V>(a: Assoc<V>, front: Assoc<V>, e: Entry<V>)
    requires DistinctKeys(Overwrite(a, front) + Extras(a, front))
    requires e.key in Keys(a) && e.key !in Keys(front)
    ensures Put(Overwrite(a, front) + Extras(a, front), e.key, e.value)
         == Overwrite(a, front + [e]) + Extras(a, front + [e])
  {
    var b := front + [e];
    var o, x := Overwrite(a, front), Extras(a, front);
    assert Extras(a, b) == x by {
      assert b[..|b| - 1] == front;
    }
    assert e.key in Keys(o) by {
      assert Keys(o) == Keys(a);
    }
    PutInFront(o, x, e.key, e.value);
    OverwriteSnocKnown(a, front, e);
  }

  /** An entry with a key `a` lacks extends the extras. */
  lemma ExtrasSnocNew<V>(a: Assoc<V>, front: Assoc<V>, e: Entry<V>)
    requires e.key !in Keys(a)
    ensures Extras(a, front + [e]) == Extras(a, front) + [e]
  {
    var b := front + [e];
    assert b[..|b| - 1] == front;
    assert b[|b| - 1] == e;
  }

  /** An entry with a key `a` lacks leaves the overwritten part alone. */
  lemma OverwriteSnocOther<V>(a: Assoc<V>, front: Assoc<V>, e: Entry<V>)
    requires e.key !in Keys(a) && e.key !in Keys(front)
    ensures Overwrite(a, front + [e]) == Overwrite(a, front)
  {
    forall i | 0 <= i < |a| ensures Overwrite(a, front + [e])[i] == Overwrite(a, front)[i] {
      assert a[i].key in Keys(a);
      GetOrSnoc(front, e, a[i].key, a[i].value);
    }
  }

  /** Assigning a key that neither part of an array has appends it. */
  lemma PutAppendsNew<V>(o: Assoc<V>, x: Assoc<V>, e: Entry<V>)
    requires DistinctKeys(o + x)
    requires e.key !in Keys(o) && e.key !in Keys(x)
    ensures Put(o + x, e.key, e.value) == o + (x + [e])
  {
    KeysAppend(o, x);
    assert (o + x) + [e] == o + (x + [e]);
  }

  /** One merge step for an entry whose key the first array lacks. */
  lemma MergeStepNew<V>(a: Assoc<V>, front: Assoc<V>, e: Entry<V>)
    requires DistinctKeys(Overwrite(a, front) + Extras(a, front))
    requires e.key !in Keys(a) && e.key !in Keys(front)
    ensures Put(Overwrite(a, front) + Extras(a, front), e.key, e.value)
         == Overwrite(a, front + [e]) + Extras(a, front + [e])
  {
    ExtrasSnocNew(a, front, e);
    OverwriteSnocOther(a, front, e);
    ExtrasKeys(a, front);
    assert Keys(Overwrite(a, front)) == Keys(a);
    PutAppendsNew(Overwrite(a, front), Extras(a, front), e);
  }

  /**
   * `array_merge` keeps `a`'s entries first, in order, with `b`'s values
   * for the keys both have, and then appends `b`'s other entries in order.
   */
  lemma {:induction false} MergeShape<V>(a: Assoc<V>, b: Assoc<V>)
    requires DistinctKeys(a) && DistinctKeys(b)
    ensures Merge(a, b) == Overwrite(a, b) + Extras(a, b)
    decreases |b|
  {
    if b == [] {
      assert Overwrite(a, b) == a;
    } else {
      var n := |b| - 1;
      var e := b[n];
      var front := b[..n];
      assert b == front + [e];
      assert e.key !in Keys(front) by {
        forall i | 0 <= i < n ensures Keys(front)[i] != e.key { assert front[i] == b[i]; }
      }
      MergeShape(a, front);
      if e.key in Keys(a) {
        MergeStepKnown(a, front, e);
      } else {
        MergeStepNew(a, front, e);
      }
    }
  }

  /** The position of the first entry of `b` whose key is not among `ks`, if any. */
  function FirstKeyNotIn<V>(b: Assoc<V>, ks: seq<string>): (r: Option<nat>)
    ensures r.Some? ==> (r.value < |b| && b[r.value].key !in ks &&
      forall j :: 0 <= j < r.value ==> b[j].key in ks)
    ensures r.None? ==> forall j :: 0 <= j < |b| ==> b[j].key in ks
  {
    if b == [] then None
    else if b[0].key !in ks then Some(0)
    else
      match FirstKeyNotIn(b[1..], ks)
      case Some(i) => Some(i + 1)
      case None => None
  }

  /** The first unknown key is determined by the entries before it being known. */
  lemma FirstKeyNotInAt<V>(b: Assoc<V>, ks: seq<string>, i: nat)
    requires i < |b| && b[i].key !in ks
    requires forall j :: 0 <= j < i ==> b[j].key in ks
    ensures FirstKeyNotIn(b, ks) == Some(i)
  {
  }

  /** The extras of a merge start with the first entry of `b` whose key `a` lacks. */
  lemma {:induction false} ExtrasHead<V>(a: Assoc<V>, b: Assoc<V>)
    ensures FirstKeyNotIn(b, Keys(a)).None? ==> Extras(a, b) == []
    ensures FirstKeyNotIn(b, Keys(a)).Some? ==>
      Extras(a, b) != [] && Extras(a, b)[0] == b[FirstKeyNotIn(b, Keys(a)).value]
    decreases |b|
  {
    if b != [] {
      var n := |b| - 1;
      var front := b[..n];
      ExtrasHead(a, front);
      assert forall j :: 0 <= j < n ==> front[j] == b[j];
      var tail: Assoc<V> := if b[n].key in Keys(a) then [] else [b[n]];
      assert Extras(a, b) == Extras(a, front) + tail;
      match FirstKeyNotIn(front, Keys(a))
      case Some(i) =>
        FirstKeyNotInAt(b, Keys(a), i);
      case None =>
        if b[n].key !in Keys(a) {
          FirstKeyNotInAt(b, Keys(a), n);
        }
    }
  }

  /**
   * The layout of `array_merge($a, $b)` position by position: `a`'s keys
   * first, with `b`'s values where `b` has them, then keys `a` lacks, the
   * first of which is the first such key of `b`.
   */
  lemma MergeLayout<V>(a: Assoc<V>, b: Assoc<V>)
    requires DistinctKeys(a) && DistinctKeys(b)
    ensures var m := Merge(a, b);
      && |m| >= |a|
      && (forall j :: 0 <= j < |a| ==> m[j] == Entry(a[j].key, GetOr(b, a[j].key, a[j].value)))
      && (forall j :: |a| <= j < |m| ==> m[j].key !in Keys(a))
      && (FirstKeyNotIn(b, Keys(a)).None? <==> |m| == |a|)
      && (FirstKeyNotIn(b, Keys(a)).Some? ==> m[|a|] == b[FirstKeyNotIn(b, Keys(a)).value])
  {
    var m := Merge(a, b);
    var extras := Extras(a, b);
    MergeShape(a, b);
    ExtrasHead(a, b);
    ExtrasKeys(a, b);
    forall j | |a| <= j < |m| ensures m[j].key !in Keys(a) {
      assert m[j] == extras[j - |a|];
      assert Keys(extras)[j - |a|] == m[j].key;
    }
  }

  /**
   * `strrpos($s, $c)`: the position of the last occurrence of `c` in `s`,
   * or None (PHP's `false`) when `c` does not occur.
   */
  function LastIndexOf(s: string, c: char): Option<nat>
  {
    if s == [] then None
    else if s[|s| - 1] == c then Some(|s| - 1)
    else LastIndexOf(s[..|s| - 1], c)
  }

  /** `strrpos` finds an occurrence of `c` with none after it, and reports false only when there is none. */
  lemma {:induction false} LastIndexOfIsLast(s: string, c: char)
    ensures var r := LastIndexOf(s, c);
      && (r.Some? ==> r.value < |s| && s[r.value] == c && forall j :: r.value < j < |s| ==> s[j] != c)
      && (r.None? ==> forall j :: 0 <= j < |s| ==> s[j] != c)
  {
    if s != [] && s[|s| - 1] != c {
      LastIndexOfIsLast(s[..|s| - 1], c);
    }
  }

  /**
   * `substr($s, $start)` for a non-negative start: the suffix from
   * `start`, or the empty string when `start` is past the end.
   */
  function Substr(s: string, start: nat): string
  {
    if start <= |s| then s[start..] else ""
  }
}

/**
 * What a tree holds, as the transaction API sees it: keys and values are byte
 * strings, keys are kept in ascending byte-wise (lexicographic) order, each
 * key at most once. The B-Tree that stores them on disk is not part of this
 * module; `Find` is the lookup the tree answers, and `Upsert`, `Delete` and
 * `Apply` are the modifications it performs.
 */
module OrderedContents {
  import opened Errors
  import opened Bytes

  type Key = seq<Byte>
  type Value = seq<Byte>
  type Contents = seq<(Key, Value)>

  /** Byte-wise lexicographic order, as `Ord` orders byte slices: a proper prefix comes first. */
  predicate Less(a: Key, b: Key)
  {
    if |a| == 0 then |b| > 0
    else if |b| == 0 then false
    else if a[0] != b[0] then a[0] < b[0]
    else Less(a[1..], b[1..])
  }

  lemma {:induction false} LessIrreflexive(a: Key)
    ensures !Less(a, a)
  {
    if |a| > 0 {
      LessIrreflexive(a[1..]);
    }
  }

  lemma {:induction false} LessTransitive(a: Key, b: Key, c: Key)
    requires Less(a, b) && Less(b, c)
    ensures Less(a, c)
  {
    if |a| > 0 && |b| > 0 && |c| > 0 && a[0] == b[0] && b[0] == c[0] {
      LessTransitive(a[1..], b[1..], c[1..]);
    }
  }

  lemma {:induction false} LessTotal(a: Key, b: Key)
    requires a != b
    ensures Less(a, b) || Less(b, a)
  {
    if |a| > 0 && |b| > 0 && a[0] == b[0] {
      assert a == [a[0]] + a[1..] && b == [b[0]] + b[1..];
      LessTotal(a[1..], b[1..]);
    }
  }

  lemma {:induction false} LessAsymmetric(a: Key, b: Key)
    requires Less(a, b)
    ensures !Less(b, a)
  {
    if |a| > 0 && |b| > 0 && a[0] == b[0] {
      LessAsymmetric(a[1..], b[1..]);
    }
  }

  /** Keys strictly ascending: the order the tree keeps them in, and no key twice. */
  ghost predicate Sorted(c: Contents) {
    forall i, j :: 0 <= i < j < |c| ==> Less(c[i].0, c[j].0)
  }

  function Keys(c: Contents): set<Key> {
    set i | 0 <= i < |c| :: c[i].0
  }

  lemma KeysCons(x: (Key, Value), s: Contents)
    ensures Keys([x] + s) == {x.0} + Keys(s)
  {
    assert ([x] + s)[0] == x;
    forall key | key in Keys(s)
      ensures key in Keys([x] + s)
    {
      var j :| 0 <= j < |s| && s[j].0 == key;
      assert ([x] + s)[j + 1] == s[j];
    }
    forall key | key in Keys([x] + s)
      ensures key in {x.0} + Keys(s)
    {
      var j :| 0 <= j < |[x] + s| && ([x] + s)[j].0 == key;
      if j > 0 {
        assert ([x] + s)[j] == s[j - 1];
      }
    }
  }

  lemma KeysOfFirst(c: Contents)
    requires c != []
    ensures Keys(c) == {c[0].0} + Keys(c[1..])
  {
    assert c == [c[0]] + c[1..];
    KeysCons(c[0], c[1..]);
  }

  /** The value stored for `k`, if any. */
  function Find(c: Contents, k: Key): (r: Option<Value>)
    ensures r.Some? <==> k in Keys(c)
  {
    if c == [] then None
    else if c[0].0 == k then Some(c[0].1)
    else
      KeysOfFirst(c);
      Find(c[1..], k)
  }

  /** `c` with `k` mapped to `v`: an existing pair is replaced in place, a new one goes where the order puts it. */
  function Upsert(c: Contents, k: Key, v: Value): (r: Contents)
    ensures Keys(r) == Keys(c) + {k}
  {
    if c == [] then
      assert [(k, v)][0] == (k, v);
      [(k, v)]
    else if c[0].0 == k then
      KeysOfFirst(c);
      KeysCons((k, v), c[1..]);
      [(k, v)] + c[1..]
    else if Less(k, c[0].0) then
      KeysCons((k, v), c);
      [(k, v)] + c
    else
      var tail := Upsert(c[1..], k, v);
      KeysOfFirst(c);
      KeysCons(c[0], tail);
      [c[0]] + tail
  }

  /** `c` without `k`. */
  function Delete(c: Contents, k: Key): (r: Contents)
    ensures Keys(r) == Keys(c) - {k}
    ensures |r| <= |c|
  {
    if c == [] then []
    else
      var tail := Delete(c[1..], k);
      KeysOfFirst(c);
      if c[0].0 == k then
        assert Sorted(c) ==> k !in Keys(c[1..]) by {
          if Sorted(c) && k in Keys(c[1..]) {
            var j :| 0 <= j < |c[1..]| && c[1..][j].0 == k;
            assert Less(c[0].0, c[j + 1].0);
            LessIrreflexive(k);
          }
        }
        tail
      else
        KeysCons(c[0], tail);
        [c[0]] + tail
  }

  /** What a modification callback decides to do with one key. */
  datatype KeyOperation = Set(value: Value) | Remove | Skip

  /** Carries out one key's operation. */
  function Apply(c: Contents, k: Key, op: KeyOperation): Contents
  {
    match op
    case Set(v) => Upsert(c, k, v)
    case Remove => Delete(c, k)
    case Skip => c
  }

  /** A sorted list with `x` put in front stays sorted when `x`'s key is below every key in it. */
  lemma SortedCons(x: (Key, Value), s: Contents)
    requires Sorted(s)
    requires forall key :: key in Keys(s) ==> Less(x.0, key)
    ensures Sorted([x] + s)
  {
    forall i, j | 0 <= i < j < |[x] + s|
      ensures Less(([x] + s)[i].0, ([x] + s)[j].0)
    {
      if i == 0 {
        assert ([x] + s)[j].0 == s[j - 1].0 && s[j - 1].0 in Keys(s);
      } else {
        assert ([x] + s)[i] == s[i - 1] && ([x] + s)[j] == s[j - 1];
      }
    }
  }

  lemma SortedTail(c: Contents)
    requires Sorted(c) && c != []
    ensures Sorted(c[1..])
    ensures forall key :: key in Keys(c[1..]) ==> Less(c[0].0, key)
  {
    forall key | key in Keys(c[1..])
      ensures Less(c[0].0, key)
    {
      var j :| 0 <= j < |c[1..]| && c[1..][j].0 == key;
      assert c[1..][j] == c[j + 1];
    }
  }

  lemma {:induction false} UpsertSorted(c: Contents, k: Key, v: Value)
    requires Sorted(c)
    ensures Sorted(Upsert(c, k, v))
  {
    if c == [] {
    } else if c[0].0 == k {
      SortedTail(c);
      SortedCons((k, v), c[1..]);
    } else if Less(k, c[0].0) {
      forall key | key in Keys(c)
        ensures Less(k, key)
      {
        var j :| 0 <= j < |c| && c[j].0 == key;
        if j > 0 {
          LessTransitive(k, c[0].0, key);
        }
      }
      SortedCons((k, v), c);
    } else {
      LessTotal(k, c[0].0);
      SortedTail(c);
      UpsertSorted(c[1..], k, v);
      SortedCons(c[0], Upsert(c[1..], k, v));
    }
  }

  lemma {:induction false} DeleteSorted(c: Contents, k: Key)
    requires Sorted(c)
    ensures Sorted(Delete(c, k))
  {
    if c != [] {
      SortedTail(c);
      DeleteSorted(c[1..], k);
      if c[0].0 != k {
        SortedCons(c[0], Delete(c[1..], k));
      }
    }
  }

  lemma ApplySorted(c: Contents, k: Key, op: KeyOperation)
    requires Sorted(c)
    ensures Sorted(Apply(c, k, op))
  {
    match op
    case Set(v) => UpsertSorted(c, k, v);
    case Remove => DeleteSorted(c, k);
    case Skip =>
  }

  /** After `Upsert`, `k` finds the new value and every other key what it found before. */
  lemma {:induction false} FindUpsert(c: Contents, k: Key, v: Value, other: Key)
    ensures Find(Upsert(c, k, v), other) == if other == k then Some(v) else Find(c, other)
  {
    if c != [] && c[0].0 != k && !Less(k, c[0].0) {
      FindUpsert(c[1..], k, v, other);
    }
  }

  /** After `Delete`, `k` finds nothing and every other key what it found before. */
  lemma {:induction false} FindDelete(c: Contents, k: Key, other: Key)
    requires Sorted(c)
    ensures Find(Delete(c, k), other) == if other == k then None else Find(c, other)
  {
    if c != [] {
      SortedTail(c);
      FindDelete(c[1..], k, other);
    }
  }

  /** The effect of one key operation on every key's lookup. */
  lemma FindApply(c: Contents, k: Key, op: KeyOperation, other: Key)
    requires Sorted(c)
    ensures Find(Apply(c, k, op), other)
         == if other != k then Find(c, other)
            else match op
              case Set(v) => Some(v)
              case Remove => None
              case Skip => Find(c, k)
  {
    match op
    case Set(v) => FindUpsert(c, k, v, other);
    case Remove => FindDelete(c, k, other);
    case Skip =>
  }

  /** In sorted contents every pair is what its key finds. */
  lemma {:induction false} FindEach(c: Contents, i: nat)
    requires Sorted(c) && i < |c|
    ensures Find(c, c[i].0) == Some(c[i].1)
  {
    if i > 0 {
      assert Less(c[0].0, c[i].0);
      LessIrreflexive(c[i].0);
      SortedTail(c);
      assert c[1..][i - 1] == c[i];
      FindEach(c[1..], i - 1);
    }
  }

  /**
   * The decision the `compare_and_swap` callback makes: when the stored value
   * equals the expected one, set the replacement value, or remove the key when there
   * is none; otherwise leave the key alone.
   */
  function CompareSwapDecision(stored: Option<Value>, expected: Option<Value>, replacement: Option<Value>): KeyOperation
  {
    if stored == expected then
      if replacement.Some? then Set(replacement.value) else Remove
    else Skip
  }

  /** The key ends up holding `replacement` exactly when it held `expected`; otherwise it keeps what it held. */
  lemma CompareSwapEffect(c: Contents, k: Key, expected: Option<Value>, replacement: Option<Value>, other: Key)
    requires Sorted(c)
    ensures var after := Apply(c, k, CompareSwapDecision(Find(c, k), expected, replacement));
      && Find(after, k) == (if Find(c, k) == expected then replacement else Find(c, k))
      && (other != k ==> Find(after, other) == Find(c, other))
  {
    FindApply(c, k, CompareSwapDecision(Find(c, k), expected, replacement), k);
    FindApply(c, k, CompareSwapDecision(Find(c, k), expected, replacement), other);
  }

  /** The last pair in key order: what a reverse scan that stops at its first key reports. */
  function Last(c: Contents): (r: Option<(Key, Value)>)
    ensures r.None? <==> c == []
  {
    if c == [] then None else Some(c[|c| - 1])
  }

  /** `Last` holds the greatest key and the value stored for it; it is absent only for an empty tree. */
  lemma LastIsGreatest(c: Contents)
    requires Sorted(c)
    ensures Last(c).None? <==> forall k :: Find(c, k).None?
    ensures Last(c).Some? ==>
      && Find(c, Last(c).value.0) == Some(Last(c).value.1)
      && forall k :: Find(c, k).Some? && k != Last(c).value.0 ==> Less(k, Last(c).value.0)
  {
    if c != [] {
      var n := |c| - 1;
      FindEach(c, n);
      assert Find(c, c[0].0).Some?;
      forall k | Find(c, k).Some? && k != c[n].0
        ensures Less(k, c[n].0)
      {
        var j :| 0 <= j < |c| && c[j].0 == k;
      }
    }
  }

  /** The pairs found for `keys`, in the order asked; keys that are not stored are left out. */
  function FindAll(c: Contents, keys: seq<Key>): (r: Contents)
    ensures forall p :: p in r <==> p.0 in keys && Find(c, p.0) == Some(p.1)
    ensures |r| <= |keys|
  {
    if keys == [] then []
    else
      var rest := FindAll(c, keys[1..]);
      assert forall k :: k in keys <==> k == keys[0] || k in keys[1..];
      match Find(c, keys[0])
      case None => rest
      case Some(v) => [(keys[0], v)] + rest
  }
}

/**
 * Queries over an in-memory table (a sequence of rows in table order):
 * the LINQ `Where`/`Any`/`FirstOrDefault` shapes the controllers use,
 * and the uniqueness and reference predicates the controllers' checks maintain.
 */
module Tables {
  import opened Wrappers

  /** `Any(p)`: some row satisfies `p`. */
  predicate Exists<T>(s: seq<T>, p: T -> bool)
  {
    exists i :: 0 <= i < |s| && p(s[i])
  }

  /** `FirstOrDefault(p)`: the index of the first row satisfying `p`. */
  function FindIndex<T>(s: seq<T>, p: T -> bool): (r: Option<nat>)
    ensures r.Some? ==> r.value < |s| && p(s[r.value])
    ensures r.Some? ==> forall j :: 0 <= j < r.value ==> !p(s[j])
    ensures r.None? <==> !Exists(s, p)
  {
    if |s| == 0 then None
    else if p(s[0]) then Some(0)
    else
      var r := FindIndex(s[1..], p);
      assert forall j :: 1 <= j < |s| ==> s[j] == s[1..][j - 1];
      if r.None? then None else Some(r.value + 1)
  }

  /** `Where(p)`: the rows satisfying `p`, in table order. */
  function Filter<T>(s: seq<T>, p: T -> bool): (r: seq<T>)
    ensures |r| <= |s|
    ensures forall i :: 0 <= i < |r| ==> r[i] in s && p(r[i])
    ensures forall i :: 0 <= i < |s| && p(s[i]) ==> s[i] in r
  {
    if |s| == 0 then []
    else if p(s[0]) then [s[0]] + Filter(s[1..], p)
    else Filter(s[1..], p)
  }

  /** The first row kept by `Filter` is the row `FindIndex` finds. */
  lemma {:induction false} FilterHeadIsFirst<T>(s: seq<T>, p: T -> bool)
    ensures Filter(s, p) == [] <==> FindIndex(s, p).None?
    ensures FindIndex(s, p).Some? ==> Filter(s, p)[0] == s[FindIndex(s, p).value]
  {
    if |s| > 0 && !p(s[0]) {
      FilterHeadIsFirst(s[1..], p);
    }
  }

  /** Filtering keeps the table order: the rows kept from a prefix come before those kept from the rest. */
  lemma {:induction false} FilterAppend<T>(s: seq<T>, t: seq<T>, p: T -> bool)
    ensures Filter(s + t, p) == Filter(s, p) + Filter(t, p)
  {
    if |s| > 0 {
      assert (s + t)[1..] == s[1..] + t;
      FilterAppend(s[1..], t, p);
    } else {
      assert s + t == t;
    }
  }

  /** The indices of the rows satisfying `p`, each once and in increasing order. */
  function Positions<T>(s: seq<T>, p: T -> bool): (r: seq<nat>)
    ensures forall k :: 0 <= k < |r| ==> r[k] < |s| && p(s[r[k]])
    ensures forall k, l :: 0 <= k < l < |r| ==> r[k] < r[l]
    ensures forall i :: 0 <= i < |s| && p(s[i]) ==> i in r
  {
    if |s| == 0 then []
    else
      var init := s[..|s| - 1];
      assert forall j :: 0 <= j < |init| ==> init[j] == s[j];
      Positions(init, p) + (if p(s[|s| - 1]) then [|s| - 1] else [])
  }

  /** `Filter` keeps exactly the rows at `Positions`, one entry per kept row, in table order. */
  lemma {:induction false} FilterIsAtPositions<T>(s: seq<T>, p: T -> bool)
    ensures |Filter(s, p)| == |Positions(s, p)|
    ensures forall k :: 0 <= k < |Positions(s, p)| ==> Filter(s, p)[k] == s[Positions(s, p)[k]]
  {
    if |s| > 0 {
      var init, last := s[..|s| - 1], s[|s| - 1];
      assert s == init + [last];
      FilterIsAtPositions(init, p);
      FilterAppend(init, [last], p);
      assert Filter([last], p) == if p(last) then [last] else [] by {
        assert [last][1..] == [];
      }
      assert forall j :: 0 <= j < |init| ==> init[j] == s[j];
    }
  }

  /** The table with the row at index `i` taken out, the others in order. */
  function RemoveAt<T>(s: seq<T>, i: nat): (r: seq<T>)
    requires i < |s|
    ensures |r| == |s| - 1
    ensures forall j :: 0 <= j < i ==> r[j] == s[j]
    ensures forall j :: i <= j < |r| ==> r[j] == s[j + 1]
  {
    s[..i] + s[i + 1..]
  }

  /** No two distinct rows share a key. */
  predicate UniqueBy<T, K(==)>(s: seq<T>, key: T -> K)
  {
    forall i, j :: 0 <= i < j < |s| ==> key(s[i]) != key(s[j])
  }

  /** Some row has the key `k`. */
  predicate HasKey<T, K(==)>(s: seq<T>, key: T -> K, k: K)
  {
    exists i :: 0 <= i < |s| && key(s[i]) == k
  }

  /** Every key lies in `[lo, hi)` (auto-increment identities below the counter). */
  predicate KeysInRange<T>(s: seq<T>, key: T -> int, lo: int, hi: int)
  {
    forall i :: 0 <= i < |s| ==> lo <= key(s[i]) < hi
  }

  /** Appending a row whose key is new keeps the keys unique. */
  lemma AppendKeepsUnique<T, K>(s: seq<T>, key: T -> K, x: T)
    requires UniqueBy(s, key)
    requires !HasKey(s, key, key(x))
    ensures UniqueBy(s + [x], key)
  {
    var t := s + [x];
    forall i, j | 0 <= i < j < |t| ensures key(t[i]) != key(t[j]) {
      if j == |s| {
        assert t[i] == s[i];
      } else {
        assert t[i] == s[i] && t[j] == s[j];
      }
    }
  }

  /** Removing a row keeps the keys unique. */
  lemma RemoveKeepsUnique<T, K>(s: seq<T>, key: T -> K, i: nat)
    requires i < |s|
    requires UniqueBy(s, key)
    ensures UniqueBy(RemoveAt(s, i), key)
  {
    var t := RemoveAt(s, i);
    forall a, b | 0 <= a < b < |t| ensures key(t[a]) != key(t[b]) {
      var a' := if a < i then a else a + 1;
      var b' := if b < i then b else b + 1;
      assert t[a] == s[a'] && t[b] == s[b'];
    }
  }

  /** When keys are unique, the row `FindIndex` finds is the only one with that key. */
  lemma FoundIsOnly<T, K>(s: seq<T>, key: T -> K, k: K, i: nat)
    requires UniqueBy(s, key)
    requires i < |s| && key(s[i]) == k
    ensures !HasKey(RemoveAt(s, i), key, k)
  {
    var t := RemoveAt(s, i);
    forall j | 0 <= j < |t| ensures key(t[j]) != k {
      if j < i { assert t[j] == s[j]; } else { assert t[j] == s[j + 1]; }
    }
  }

  /** Every row of `refs` points, through `ref`, at some row of `s`. */
  predicate AllReferTo<U, T>(refs: seq<U>, ref: U -> int, s: seq<T>, key: T -> int)
  {
    forall j :: 0 <= j < |refs| ==> HasKey(s, key, ref(refs[j]))
  }

  /** Removing a row that nothing points at keeps every reference resolvable. */
  lemma RemoveUnreferenced<U, T>(refs: seq<U>, ref: U -> int, s: seq<T>, key: T -> int, i: nat)
    requires i < |s|
    requires AllReferTo(refs, ref, s, key)
    requires forall j :: 0 <= j < |refs| ==> ref(refs[j]) != key(s[i])
    ensures AllReferTo(refs, ref, RemoveAt(s, i), key)
  {
    var t := RemoveAt(s, i);
    forall j | 0 <= j < |refs| ensures HasKey(t, key, ref(refs[j])) {
      var k :| 0 <= k < |s| && key(s[k]) == ref(refs[j]);
      if k < i { assert t[k] == s[k]; } else { assert k > i; assert t[k - 1] == s[k]; }
    }
  }

  /** `SelectMany(f)`: the images of the rows under `f`, concatenated in table order. */
  function FlatMap<T, U>(s: seq<T>, f: T -> seq<U>): seq<U>
  {
    if |s| == 0 then [] else FlatMap(s[..|s| - 1], f) + f(s[|s| - 1])
  }

  /** Every element of a `SelectMany` comes from the image of some row. */
  lemma {:induction false} FlatMapSound<T, U>(s: seq<T>, f: T -> seq<U>, k: nat)
    requires k < |FlatMap(s, f)|
    ensures exists i, j :: 0 <= i < |s| && 0 <= j < |f(s[i])| && FlatMap(s, f)[k] == f(s[i])[j]
  {
    var n := |s| - 1;
    var prefix := FlatMap(s[..n], f);
    if k < |prefix| {
      FlatMapSound(s[..n], f, k);
      var i, j :| 0 <= i < n && 0 <= j < |f(s[..n][i])| && prefix[k] == f(s[..n][i])[j];
      assert s[..n][i] == s[i];
      assert FlatMap(s, f)[k] == prefix[k];
    } else {
      assert FlatMap(s, f)[k] == f(s[n])[k - |prefix|];
    }
  }

  /** Every element of the image of every row appears in a `SelectMany`. */
  lemma {:induction false} FlatMapComplete<T, U>(s: seq<T>, f: T -> seq<U>, i: nat, j: nat)
    requires i < |s| && j < |f(s[i])|
    ensures exists k :: 0 <= k < |FlatMap(s, f)| && FlatMap(s, f)[k] == f(s[i])[j]
  {
    var n := |s| - 1;
    var prefix := FlatMap(s[..n], f);
    if i < n {
      assert s[..n][i] == s[i];
      FlatMapComplete(s[..n], f, i, j);
      var k :| 0 <= k < |prefix| && prefix[k] == f(s[i])[j];
      assert FlatMap(s, f)[k] == prefix[k];
    } else {
      assert FlatMap(s, f)[|prefix| + j] == f(s[n])[j];
    }
  }
}

/**
 * `sort_dictionary(d, by)`: the items of a dictionary re-ordered by key (`by == 'k'`)
 * or by value (`by == 'v'` or `'V'`), through Python's stable `sorted`.
 */
module Dictionaries {
  import opened Wrappers

  /** The keys and values the dictionary holds: ints, bools (which Python orders as 0 and 1)
      and strings. */
  datatype Scalar = Int(i: int) | Bool(b: bool) | Str(s: string)

  /** One `(key, value)` pair of `d.items()`. */
  type Item = (Scalar, Scalar)

  /** `sorted` met a pair it cannot compare: `'<' not supported between instances of ...`. */
  datatype SortError = TypeError

  predicate IsNumber(x: Scalar)
  {
    !x.Str?
  }

  function Num(x: Scalar): int
    requires IsNumber(x)
  {
    if x.Int? then x.i else if x.b then 1 else 0
  }

  /** Python's `a < b` on strings: code point by code point, a proper prefix first. */
  predicate StrLess(a: string, b: string)
  {
    if a == [] then b != []
    else if b == [] then false
    else if a[0] != b[0] then a[0] < b[0]
    else StrLess(a[1..], b[1..])
  }

  /** `a < b` can be evaluated: two numbers or two strings. */
  predicate Orderable(a: Scalar, b: Scalar)
  {
    IsNumber(a) == IsNumber(b)
  }

  /** `a < b` evaluates to `True`. */
  predicate Less(a: Scalar, b: Scalar)
  {
    || (IsNumber(a) && IsNumber(b) && Num(a) < Num(b))
    || (a.Str? && b.Str? && StrLess(a.s, b.s))
  }

  /** `not (b < a)` for an orderable pair. */
  predicate Leq(a: Scalar, b: Scalar)
  {
    || (IsNumber(a) && IsNumber(b) && Num(a) <= Num(b))
    || (a.Str? && b.Str? && !StrLess(b.s, a.s))
  }

  /** `a == b`, which for Python keys also makes `1` and `True` the same key. */
  predicate Equiv(a: Scalar, b: Scalar)
  {
    || (IsNumber(a) && IsNumber(b) && Num(a) == Num(b))
    || (a.Str? && b.Str? && a.s == b.s)
  }

  /** The sort key of an item: its key, or its value when sorting by value. */
  function SortKey(x: Item, byValue: bool): Scalar
  {
    if byValue then x.1 else x.0
  }

  /** No two items of a dictionary have the same key. */
  predicate DistinctKeys(d: seq<Item>)
  {
    forall i, j :: 0 <= i < j < |d| ==> !Equiv(d[i].0, d[j].0)
  }

  /** Every two sort keys can be compared. */
  predicate Uniform(s: seq<Item>, byValue: bool)
  {
    forall y, z :: y in s && z in s ==> Orderable(SortKey(y, byValue), SortKey(z, byValue))
  }

  /** In ascending order of sort key. */
  predicate Sorted(s: seq<Item>, byValue: bool)
  {
    forall i, j :: 0 <= i < j < |s| ==> Leq(SortKey(s[i], byValue), SortKey(s[j], byValue))
  }

  /** The items whose sort key equals `k`, in their order. */
  function Filter(s: seq<Item>, k: Scalar, byValue: bool): (r: seq<Item>)
    ensures |r| <= |s|
  {
    if s == [] then []
    else (if Equiv(SortKey(s[0], byValue), k) then [s[0]] else []) + Filter(s[1..], k, byValue)
  }

  /** `x` placed before the first item whose sort key is not below its own. */
  function Insert(x: Item, t: seq<Item>, byValue: bool): seq<Item>
  {
    if t == [] then [x]
    else if Leq(SortKey(x, byValue), SortKey(t[0], byValue)) then [x] + t
    else [t[0]] + Insert(x, t[1..], byValue)
  }

  /** `sorted(items, key=...)`, as a stable insertion sort. */
  function Sort(s: seq<Item>, byValue: bool): seq<Item>
  {
    if s == [] then [] else Insert(s[0], Sort(s[1..], byValue), byValue)
  }

  /** `sort_dictionary(d, by)`: `None` unless `by` is `'k'`, `'v'` or `'V'`; otherwise the items
      sorted by key or by value, or the `TypeError` of a key that mixes numbers and strings. */
  function SortDictionary(d: seq<Item>, selector: Scalar): (r: Result<Option<seq<Item>>, SortError>)
    requires DistinctKeys(d)
    ensures selector != Str("k") && selector != Str("v") && selector != Str("V") ==> r == Ok(None)
    ensures selector == Str("k") || selector == Str("v") || selector == Str("V") ==>
      var byValue := selector != Str("k");
      && (r.Err? <==> !Uniform(d, byValue))
      && (r.Ok? ==> r.value.Some?)
    ensures r.Ok? && r.value.Some? ==>
      var byValue := selector != Str("k");
      var s := r.value.value;
      && multiset(s) == multiset(d)
      && DistinctKeys(s)
      && Sorted(s, byValue)
      && (forall k :: Filter(s, k, byValue) == Filter(d, k, byValue))
      && (!byValue ==> forall i, j :: 0 <= i < j < |s| ==> Less(s[i].0, s[j].0))
  {
    if selector == Str("k") then SortedItems(d, false)
    else if selector == Str("v") || selector == Str("V") then SortedItems(d, true)
    else Ok(None)
  }

  function SortedItems(d: seq<Item>, byValue: bool): (r: Result<Option<seq<Item>>, SortError>)
    requires DistinctKeys(d)
    ensures r.Err? <==> !Uniform(d, byValue)
    ensures r.Ok? ==> r.value.Some?
    ensures r.Ok? && r.value.Some? ==>
      var s := r.value.value;
      && multiset(s) == multiset(d)
      && DistinctKeys(s)
      && Sorted(s, byValue)
      && (forall k :: Filter(s, k, byValue) == Filter(d, k, byValue))
      && (!byValue ==> forall i, j :: 0 <= i < j < |s| ==> Less(s[i].0, s[j].0))
  {
    if !Uniform(d, byValue) then Err(TypeError)
    else
      SortPermutation(d, byValue);
      SortSorted(d, byValue);
      SortDistinct(d, byValue);
      SortStable(d, byValue);
      if !byValue then
        ByKeyStrictlyAscending(Sort(d, false));
        Ok(Some(Sort(d, byValue)))
      else
        Ok(Some(Sort(d, byValue)))
  }

  // ---------------------------------------------------------------- lemmas

  lemma {:induction false} StrLessIsStrictTotalOrder(a: string, b: string, c: string)
    ensures !StrLess(a, a)
    ensures StrLess(a, b) ==> !StrLess(b, a)
    ensures StrLess(a, b) && StrLess(b, c) ==> StrLess(a, c)
    ensures a != b ==> StrLess(a, b) || StrLess(b, a)
    decreases |a|
  {
    if a != [] && b != [] && c != [] {
      StrLessIsStrictTotalOrder(a[1..], b[1..], c[1..]);
      if a != b && a[0] == b[0] {
        assert a == [a[0]] + a[1..] && b == [b[0]] + b[1..];
      }
    } else if a != [] && b != [] {
      StrLessIsStrictTotalOrder(a[1..], b[1..], b[1..]);
      if a != b && a[0] == b[0] {
        assert a == [a[0]] + a[1..] && b == [b[0]] + b[1..];
      }
    } else if a != [] {
      StrLessIsStrictTotalOrder(a[1..], a[1..], a[1..]);
    }
  }

  /** On an orderable triple, `Leq` is a total preorder whose strict part is `Less` and whose
      symmetric part is `Equiv`. */
  lemma LeqIsTotalPreorder(a: Scalar, b: Scalar, c: Scalar)
    requires Orderable(a, b) && Orderable(b, c)
    ensures Leq(a, b) || Leq(b, a)
    ensures Leq(a, b) && Leq(b, c) ==> Leq(a, c)
    ensures Less(a, b) <==> !Leq(b, a)
    ensures Equiv(a, b) <==> Leq(a, b) && Leq(b, a)
  {
    if a.Str? {
      StrLessIsStrictTotalOrder(a.s, b.s, c.s);
      StrLessIsStrictTotalOrder(c.s, a.s, b.s);
      StrLessIsStrictTotalOrder(b.s, a.s, c.s);
    }
  }

  lemma {:induction false} InsertPermutation(x: Item, t: seq<Item>, byValue: bool)
    ensures multiset(Insert(x, t, byValue)) == multiset([x] + t)
    decreases |t|
  {
    if t != [] && !Leq(SortKey(x, byValue), SortKey(t[0], byValue)) {
      InsertPermutation(x, t[1..], byValue);
      assert t == [t[0]] + t[1..];
    }
  }

  /** `sorted` returns a rearrangement of its input: nothing added, nothing dropped. */
  lemma {:induction false} SortPermutation(s: seq<Item>, byValue: bool)
    ensures multiset(Sort(s, byValue)) == multiset(s)
    decreases |s|
  {
    if s != [] {
      SortPermutation(s[1..], byValue);
      InsertPermutation(s[0], Sort(s[1..], byValue), byValue);
      assert s == [s[0]] + s[1..];
    }
  }

  /** The items of `Insert(x, t)` are `x` and those of `t`. */
  lemma InsertElements(x: Item, t: seq<Item>, byValue: bool)
    ensures forall z :: z in Insert(x, t, byValue) <==> z == x || z in t
  {
    InsertPermutation(x, t, byValue);
    forall z ensures z in Insert(x, t, byValue) <==> z == x || z in t {
      assert z in Insert(x, t, byValue) <==> z in multiset(Insert(x, t, byValue));
      assert z in [x] + t <==> z in multiset([x] + t);
    }
  }

  lemma SortedCons(y: Item, s: seq<Item>, byValue: bool)
    requires Sorted(s, byValue)
    requires forall z :: z in s ==> Leq(SortKey(y, byValue), SortKey(z, byValue))
    ensures Sorted([y] + s, byValue)
  {
    var r := [y] + s;
    forall i, j | 0 <= i < j < |r| ensures Leq(SortKey(r[i], byValue), SortKey(r[j], byValue)) {
      if i == 0 {
        assert r[j] == s[j - 1] && s[j - 1] in s;
      } else {
        assert r[i] == s[i - 1] && r[j] == s[j - 1];
      }
    }
  }

  lemma SortedTail(s: seq<Item>, byValue: bool)
    requires Sorted(s, byValue) && s != []
    ensures Sorted(s[1..], byValue)
    ensures forall z :: z in s[1..] ==> Leq(SortKey(s[0], byValue), SortKey(z, byValue))
  {
    var t := s[1..];
    forall z | z in t ensures Leq(SortKey(s[0], byValue), SortKey(z, byValue)) {
      var j :| 0 <= j < |t| && t[j] == z;
      assert s[j + 1] == z;
    }
    forall i, j | 0 <= i < j < |t| ensures Leq(SortKey(t[i], byValue), SortKey(t[j], byValue)) {
      assert t[i] == s[i + 1] && t[j] == s[j + 1];
    }
  }

  lemma {:induction false} InsertSorted(x: Item, t: seq<Item>, byValue: bool)
    requires Sorted(t, byValue) && Uniform([x] + t, byValue)
    ensures Sorted(Insert(x, t, byValue), byValue)
    decreases |t|
  {
    if t == [] {
    } else {
      var kx, k0 := SortKey(x, byValue), SortKey(t[0], byValue);
      SortedTail(t, byValue);
      assert x in [x] + t && t[0] in [x] + t;
      if Leq(kx, k0) {
        forall z | z in t ensures Leq(kx, SortKey(z, byValue)) {
          if z != t[0] {
            assert z in [x] + t;
            LeqIsTotalPreorder(kx, k0, SortKey(z, byValue));
          }
        }
        SortedCons(x, t, byValue);
      } else {
        var rest := t[1..];
        assert Uniform([x] + rest, byValue) by {
          assert forall y :: y in [x] + rest ==> y in [x] + t;
        }
        InsertSorted(x, rest, byValue);
        InsertElements(x, rest, byValue);
        LeqIsTotalPreorder(kx, k0, k0);
        SortedCons(t[0], Insert(x, rest, byValue), byValue);
      }
    }
  }

  /** `sorted` returns its items in ascending order of sort key. */
  lemma {:induction false} SortSorted(s: seq<Item>, byValue: bool)
    requires Uniform(s, byValue)
    ensures Sorted(Sort(s, byValue), byValue)
    decreases |s|
  {
    if s != [] {
      assert forall y :: y in s[1..] ==> y in s;
      SortSorted(s[1..], byValue);
      SortPermutation(s[1..], byValue);
      var t := Sort(s[1..], byValue);
      forall y | y in [s[0]] + t ensures y in s {
        if y != s[0] {
          assert y in multiset(t);
        }
      }
      InsertSorted(s[0], t, byValue);
    }
  }

  /** An item whose sort key `k` equals is not passed over by `Insert(x, _)` when `x`'s key also equals `k`. */
  lemma EquivNotPassed(x: Item, y: Item, k: Scalar, byValue: bool)
    requires Equiv(SortKey(x, byValue), k) && Equiv(SortKey(y, byValue), k)
    ensures Leq(SortKey(x, byValue), SortKey(y, byValue))
  {
    var kx := SortKey(x, byValue);
    if kx.Str? {
      StrLessIsStrictTotalOrder(kx.s, kx.s, kx.s);
    }
  }

  lemma {:induction false} InsertFilter(x: Item, t: seq<Item>, k: Scalar, byValue: bool)
    ensures Filter(Insert(x, t, byValue), k, byValue)
         == (if Equiv(SortKey(x, byValue), k) then [x] else []) + Filter(t, k, byValue)
    decreases |t|
  {
    if t == [] {
    } else if Leq(SortKey(x, byValue), SortKey(t[0], byValue)) {
      FilterCons(x, t, k, byValue);
    } else {
      var ins := Insert(x, t[1..], byValue);
      var rest := Filter(t[1..], k, byValue);
      var hx := if Equiv(SortKey(x, byValue), k) then [x] else [];
      var h0 := if Equiv(SortKey(t[0], byValue), k) then [t[0]] else [];
      InsertFilter(x, t[1..], k, byValue);
      FilterCons(t[0], ins, k, byValue);
      FilterCons(t[0], t[1..], k, byValue);
      assert [t[0]] + t[1..] == t;
      assert Filter(Insert(x, t, byValue), k, byValue) == h0 + (hx + rest);
      assert Filter(t, k, byValue) == h0 + rest;
      if hx != [] && h0 != [] {
        EquivNotPassed(x, t[0], k, byValue);
        assert false;
      }
      SwapEmpty(h0, hx, rest);
    }
  }

  lemma SwapEmpty<T>(a: seq<T>, b: seq<T>, r: seq<T>)
    requires a == [] || b == []
    ensures a + (b + r) == b + (a + r)
  {
    if a == [] {
      assert a + (b + r) == b + r;
      assert a + r == r;
    } else {
      assert b + (a + r) == a + r;
      assert b + r == r;
    }
  }

  lemma FilterCons(y: Item, s: seq<Item>, k: Scalar, byValue: bool)
    ensures Filter([y] + s, k, byValue) == (if Equiv(SortKey(y, byValue), k) then [y] else []) + Filter(s, k, byValue)
  {
    assert ([y] + s)[1..] == s;
  }

  /** `sorted` is stable: the items sharing a sort key keep their input order. */
  lemma {:induction false} SortStable(s: seq<Item>, byValue: bool)
    ensures forall k :: Filter(Sort(s, byValue), k, byValue) == Filter(s, k, byValue)
    decreases |s|
  {
    if s != [] {
      SortStable(s[1..], byValue);
      forall k ensures Filter(Sort(s, byValue), k, byValue) == Filter(s, k, byValue) {
        InsertFilter(s[0], Sort(s[1..], byValue), k, byValue);
      }
    }
  }

  lemma DistinctCons(y: Item, s: seq<Item>)
    requires DistinctKeys(s)
    requires forall z :: z in s ==> !Equiv(y.0, z.0)
    ensures DistinctKeys([y] + s)
  {
    var r := [y] + s;
    forall i, j | 0 <= i < j < |r| ensures !Equiv(r[i].0, r[j].0) {
      if i == 0 {
        assert r[j] == s[j - 1] && s[j - 1] in s;
      } else {
        assert r[i] == s[i - 1] && r[j] == s[j - 1];
      }
    }
  }

  lemma DistinctTail(s: seq<Item>)
    requires DistinctKeys(s) && s != []
    ensures DistinctKeys(s[1..])
    ensures forall z :: z in s[1..] ==> !Equiv(s[0].0, z.0)
  {
    var t := s[1..];
    forall z | z in t ensures !Equiv(s[0].0, z.0) {
      var j :| 0 <= j < |t| && t[j] == z;
      assert s[j + 1] == z;
    }
    forall i, j | 0 <= i < j < |t| ensures !Equiv(t[i].0, t[j].0) {
      assert t[i] == s[i + 1] && t[j] == s[j + 1];
    }
  }

  lemma {:induction false} InsertDistinct(x: Item, t: seq<Item>, byValue: bool)
    requires DistinctKeys(t)
    requires forall y :: y in t ==> !Equiv(x.0, y.0)
    ensures DistinctKeys(Insert(x, t, byValue))
    decreases |t|
  {
    if t == [] {
    } else if Leq(SortKey(x, byValue), SortKey(t[0], byValue)) {
      DistinctCons(x, t);
    } else {
      var rest := t[1..];
      DistinctTail(t);
      assert forall y :: y in rest ==> y in t;
      InsertDistinct(x, rest, byValue);
      InsertElements(x, rest, byValue);
      assert t[0] in t;
      DistinctCons(t[0], Insert(x, rest, byValue));
    }
  }

  /** Sorting keeps a dictionary's keys distinct. */
  lemma {:induction false} SortDistinct(s: seq<Item>, byValue: bool)
    requires DistinctKeys(s)
    ensures DistinctKeys(Sort(s, byValue))
    decreases |s|
  {
    if s != [] {
      var rest := s[1..];
      assert DistinctKeys(rest) by {
        forall i, j | 0 <= i < j < |rest| ensures !Equiv(rest[i].0, rest[j].0) {
          assert rest[i] == s[i + 1] && rest[j] == s[j + 1];
        }
      }
      SortDistinct(rest, byValue);
      SortPermutation(rest, byValue);
      var t := Sort(rest, byValue);
      forall y | y in t ensures !Equiv(s[0].0, y.0) {
        assert y in multiset(t);
        var j :| 0 <= j < |rest| && rest[j] == y;
        assert s[j + 1] == y;
      }
      InsertDistinct(s[0], t, byValue);
    }
  }

  /** Sorted by key with distinct keys: strictly ascending keys. */
  lemma ByKeyStrictlyAscending(s: seq<Item>)
    requires Sorted(s, false) && DistinctKeys(s)
    ensures forall i, j :: 0 <= i < j < |s| ==> Less(s[i].0, s[j].0)
  {
    forall i, j | 0 <= i < j < |s| ensures Less(s[i].0, s[j].0) {
      var a, b := s[i].0, s[j].0;
      assert Leq(a, b) && !Equiv(a, b);
      if a.Str? {
        StrLessIsStrictTotalOrder(a.s, b.s, b.s);
      }
    }
  }

  /** The source's demonstration dictionary. */
  const John: seq<Item> := [(Str("name"), Str("John Lennon")), (Str("birth_year"), Int(1940)), (Str("alive"), Bool(false))]

  lemma JohnHasDistinctKeys()
    ensures DistinctKeys(John)
  {
    assert StrLess("alive", "birth_year");
    assert StrLess("birth_year", "name");
    assert StrLess("alive", "name");
  }

  /** Sorting it by key gives `alive`, `birth_year`, `name`. */
  lemma JohnByKey()
    ensures SortDictionary(John, Str("k"))
         == Ok(Some([(Str("alive"), Bool(false)), (Str("birth_year"), Int(1940)), (Str("name"), Str("John Lennon"))]))
  {
    JohnHasDistinctKeys();
    var name, born, alive := John[0], John[1], John[2];
    assert Uniform(John, false) by {
      forall y, z | y in John && z in John ensures Orderable(SortKey(y, false), SortKey(z, false)) {
        assert y.0.Str? && z.0.Str?;
      }
    }
    assert StrLess("alive", "birth_year");
    assert StrLess("birth_year", "name");
    assert StrLess("alive", "name");
    assert Sort([alive], false) == [alive];
    assert Insert(born, [alive], false) == [alive, born];
    assert Sort(John[1..], false) == [alive, born];
    assert !Leq(Str("name"), Str("birth_year"));
    assert !Leq(Str("name"), Str("alive"));
    assert Insert(name, [], false) == [name];
    assert Insert(name, [born], false) == [born, name];
    assert Insert(name, [alive, born], false) == [alive, born, name];
  }

  /** Sorting it by value raises, because the string value `'John Lennon'` meets the number 1940. */
  lemma JohnByValueRaises()
    ensures SortDictionary(John, Str("V")) == Err(TypeError)
  {
    JohnHasDistinctKeys();
    assert !Uniform(John, true) by {
      assert John[0] in John && John[1] in John;
      assert !Orderable(SortKey(John[0], true), SortKey(John[1], true));
    }
  }

  /** `sort_dictionary(john, 23)` is `None`. */
  lemma JohnUnknownSelector()
    ensures SortDictionary(John, Int(23)) == Ok(None)
  {
    JohnHasDistinctKeys();
  }
}

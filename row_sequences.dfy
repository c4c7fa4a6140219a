/** Operations on result sets: `ORDER BY` (a stable insertion sort, which
    gives one of the orders the database may return when keys tie),
    `Iterator::map`, and `collect::<Result<Vec<_>, _>>()`, which stops at the
    first failed conversion. */
module RowSequences {
  import opened Wrappers

  /** The rows are in non-decreasing order of `key`. */
  predicate SortedBy<T>(s: seq<T>, key: T -> int)
  {
    forall i, j :: 0 <= i < j < |s| ==> key(s[i]) <= key(s[j])
  }

  /** One step of the sort: `x` placed before the first row whose key is
      not smaller. */
  function Insert<T>(x: T, s: seq<T>, key: T -> int): (r: seq<T>)
    ensures multiset(r) == multiset(s) + multiset{x}
    ensures r[0] == x || (s != [] && r[0] == s[0])
  {
    if s == [] then [x]
    else if key(x) <= key(s[0]) then [x] + s
    else
      assert s == [s[0]] + s[1..];
      [s[0]] + Insert(x, s[1..], key)
  }

  /** The insert step keeps sorted rows sorted. */
  lemma {:induction false} InsertSorted<T>(x: T, s: seq<T>, key: T -> int)
    requires SortedBy(s, key)
    ensures SortedBy(Insert(x, s, key), key)
  {
    if s != [] && key(s[0]) < key(x) {
      var rest := Insert(x, s[1..], key);
      InsertSorted(x, s[1..], key);
      assert key(s[0]) <= key(rest[0]);
      var r := [s[0]] + rest;
      forall i, j | 0 <= i < j < |r| ensures key(r[i]) <= key(r[j]) {
        if i == 0 && j > 1 {
          assert key(rest[0]) <= key(rest[j - 1]);
        }
      }
    }
  }

  /** `ORDER BY key ASC`: a permutation of the rows, sorted by `key`. */
  function SortBy<T>(s: seq<T>, key: T -> int): (r: seq<T>)
    ensures SortedBy(r, key)
    ensures multiset(r) == multiset(s)
    ensures |r| == |s|
  {
    if s == [] then []
    else
      assert s == [s[0]] + s[1..];
      InsertSorted(s[0], SortBy(s[1..], key), key);
      Insert(s[0], SortBy(s[1..], key), key)
  }

  /** Two lists with the same rows, counted with multiplicity, have the same members. */
  lemma SameMembers<T>(a: seq<T>, b: seq<T>)
    requires multiset(a) == multiset(b)
    ensures forall y :: y in a <==> y in b
  {
    forall y ensures y in a <==> y in b {
      assert y in a <==> y in multiset(a);
      assert y in b <==> y in multiset(b);
    }
  }

  /** `Iterator::map`. */
  function Map<T, U>(s: seq<T>, f: T -> U): (r: seq<U>)
    ensures |r| == |s|
    ensures forall i :: 0 <= i < |s| ==> r[i] == f(s[i])
  {
    if s == [] then [] else [f(s[0])] + Map(s[1..], f)
  }

  /** `collect::<Result<Vec<_>, _>>()` over `map(convert)`: every converted
      value in order, or the error of the first conversion that fails. */
  function Collect<T, U, E>(s: seq<T>, convert: T -> Result<U, E>): (r: Result<seq<U>, E>)
    ensures r.Success? <==> forall i :: 0 <= i < |s| ==> convert(s[i]).Success?
    ensures r.Success? ==> |r.value| == |s| && forall i :: 0 <= i < |s| ==> r.value[i] == convert(s[i]).value
    ensures r.Failure? ==>
              exists i :: 0 <= i < |s| && convert(s[i]) == Failure(r.error) &&
                forall j :: 0 <= j < i ==> convert(s[j]).Success?
  {
    if s == [] then Success([])
    else
      match convert(s[0])
      case Failure(e) => Failure(e)
      case Success(u) =>
        match Collect(s[1..], convert)
        case Failure(e) => Failure(e)
        case Success(us) => Success([u] + us)
  }

  lemma MapCons<T, U>(x: T, s: seq<T>, f: T -> U)
    ensures Map([x] + s, f) == [f(x)] + Map(s, f)
  {
    assert ([x] + s)[1..] == s;
  }

  /** Mapping a key-preserving conversion commutes with the insert step. */
  lemma {:induction false} MapInsert<T, U>(x: T, s: seq<T>, key: T -> int, f: T -> U, fkey: U -> int)
    requires forall y :: fkey(f(y)) == key(y)
    ensures Map(Insert(x, s, key), f) == Insert(f(x), Map(s, f), fkey)
  {
    var ms := Map(s, f);
    if s == [] || key(x) <= key(s[0]) {
      MapCons(x, s, f);
      if s != [] {
        assert ms[0] == f(s[0]);
      }
    } else {
      var rest := Insert(x, s[1..], key);
      assert Insert(x, s, key) == [s[0]] + rest;
      MapCons(s[0], rest, f);
      MapInsert(x, s[1..], key, f, fkey);
      assert ms[0] == f(s[0]) && ms[1..] == Map(s[1..], f);
      assert Insert(f(x), ms, fkey) == [ms[0]] + Insert(f(x), ms[1..], fkey);
    }
  }

  /** Sorting and then converting gives the same rows as converting and then
      sorting by the converted key. */
  lemma {:induction false} MapSortBy<T, U>(s: seq<T>, key: T -> int, f: T -> U, fkey: U -> int)
    requires forall y :: fkey(f(y)) == key(y)
    ensures Map(SortBy(s, key), f) == SortBy(Map(s, f), fkey)
  {
    if s != [] {
      MapSortBy(s[1..], key, f, fkey);
      MapInsert(s[0], SortBy(s[1..], key), key, f, fkey);
      assert Map(s, f)[1..] == Map(s[1..], f);
    }
  }
}

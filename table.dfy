/**
  Tables held as sequences of rows in scan order, and the statements the
  data-access layer issues against them: SELECT ... WHERE (Select),
  DELETE ... WHERE (Delete), UPDATE ... SET ... WHERE (Update), and the
  one-or-none fetch of a query result (OneOrNone).
*/
module Table {

  datatype Option<T> = None | Some(value: T)

  /** What `scalar_one_or_none` makes of the rows a query matched. */
  datatype Lookup<T> = NoRow | OneRow(row: T) | ManyRows

  function OneOrNone<T>(rows: seq<T>): (r: Lookup<T>)
    ensures r.NoRow? <==> rows == []
    ensures r.OneRow? <==> |rows| == 1
    ensures r.OneRow? ==> rows == [r.row]
  {
    if |rows| == 0 then NoRow
    else if |rows| == 1 then OneRow(rows[0])
    else ManyRows
  }

  /** SELECT * WHERE p: the rows satisfying p, in table order, each as often as in s. */
  function Select<T(!new)>(s: seq<T>, p: T -> bool): (r: seq<T>)
    ensures |r| <= |s|
    ensures forall x {:trigger x in r} :: x in r <==> x in s && p(x)
  {
    if s == [] then []
    else
      assert s == [s[0]] + s[1..];
      (if p(s[0]) then [s[0]] else []) + Select(s[1..], p)
  }

  /** Each row occurs in the selection as often as in the table if it passes the filter, else never. */
  lemma {:induction false} SelectCount<T(!new)>(s: seq<T>, p: T -> bool)
    ensures forall x :: multiset(Select(s, p))[x] == if p(x) then multiset(s)[x] else 0
  {
    if s != [] {
      SelectCount(s[1..], p);
      assert s == [s[0]] + s[1..];
    }
  }

  /** A selection by key holds exactly the rows with that key. */
  lemma SelectHasKey<T(!new), K>(s: seq<T>, key: T -> K, k: K)
    ensures forall x :: x in Select(s, HasKey(key, k)) <==> x in s && key(x) == k
  {
    forall x
      ensures x in Select(s, HasKey(key, k)) <==> x in s && key(x) == k
    {
      assert HasKey(key, k)(x) <==> key(x) == k;
    }
  }

  /** The negation of a filter. */
  function Not<T>(p: T -> bool): T -> bool
  {
    x => !p(x)
  }

  /** DELETE WHERE p: the rows that survive. */
  function Delete<T(!new)>(s: seq<T>, p: T -> bool): seq<T>
  {
    Select(s, Not(p))
  }

  /** UPDATE SET f WHERE p: every matching row is rewritten in place, the others kept. */
  function Update<T>(s: seq<T>, p: T -> bool, f: T -> T): seq<T>
  {
    seq(|s|, i requires 0 <= i < |s| => if p(s[i]) then f(s[i]) else s[i])
  }

  /** The rewrite that stores row in place of whatever matched. */
  function Put<T>(row: T): T -> T
  {
    _ => row
  }

  /** The filter "key(x) == k". */
  function HasKey<T, K(==)>(key: T -> K, k: K): T -> bool
  {
    x => key(x) == k
  }

  /** No two rows of s satisfy p. */
  ghost predicate AtMostOneMatch<T>(s: seq<T>, p: T -> bool)
  {
    forall i, j :: 0 <= i < j < |s| && p(s[i]) ==> !p(s[j])
  }

  /** key is a key of s: no two rows share it (a PRIMARY KEY or UNIQUE column). */
  ghost predicate UniqueKeys<T, K>(s: seq<T>, key: T -> K)
  {
    forall i, j :: 0 <= i < j < |s| ==> key(s[i]) != key(s[j])
  }

  /** Every key of s is below bound (the next value of an autoincrement sequence). */
  ghost predicate KeysBelow<T>(s: seq<T>, key: T -> int, bound: int)
  {
    forall i :: 0 <= i < |s| ==> key(s[i]) < bound
  }

  lemma {:induction false} SelectAppend<T(!new)>(a: seq<T>, b: seq<T>, p: T -> bool)
    ensures Select(a + b, p) == Select(a, p) + Select(b, p)
  {
    if a == [] {
      assert a + b == b;
    } else {
      var ab := a + b;
      assert ab[0] == a[0] && ab[1..] == a[1..] + b;
      SelectCons(ab, p);
      SelectCons(a, p);
      SelectAppend(a[1..], b, p);
      var h := if p(a[0]) then [a[0]] else [];
      assert Select(ab, p) == h + (Select(a[1..], p) + Select(b, p));
      assert Select(a, p) == h + Select(a[1..], p);
    }
  }

  /** A filter every row passes selects the whole table. */
  lemma {:induction false} SelectAll<T(!new)>(s: seq<T>, p: T -> bool)
    requires forall x :: x in s ==> p(x)
    ensures Select(s, p) == s
  {
    if s != [] {
      assert forall x :: x in s[1..] ==> x in s;
      SelectAll(s[1..], p);
    }
  }

  /** A filter no row passes selects nothing. */
  lemma SelectNone<T(!new)>(s: seq<T>, p: T -> bool)
    requires forall x :: x in s ==> !p(x)
    ensures Select(s, p) == []
  {
  }

  /** A table holding at most one match keeps that property in its tail. */
  lemma AtMostOneMatchTail<T>(s: seq<T>, p: T -> bool)
    requires s != [] && AtMostOneMatch(s, p)
    ensures AtMostOneMatch(s[1..], p)
  {
    forall i, j | 0 <= i < j < |s| - 1 && p(s[1..][i])
      ensures !p(s[1..][j])
    {
      assert s[1..][i] == s[i + 1] && s[1..][j] == s[j + 1];
    }
  }

  /** With at most one match, the selection is that one row. */
  lemma {:induction false} SelectOnly<T(!new)>(s: seq<T>, p: T -> bool, k: int)
    requires AtMostOneMatch(s, p)
    requires 0 <= k < |s| && p(s[k])
    ensures Select(s, p) == [s[k]]
  {
    if k == 0 {
      NoMatchInTail(s, p);
      SelectNone(s[1..], p);
    } else {
      assert !p(s[0]);
      AtMostOneMatchTail(s, p);
      SelectOnly(s[1..], p, k - 1);
    }
  }

  /** With at most one match, at most one row is selected. */
  lemma SelectAtMostOne<T(!new)>(s: seq<T>, p: T -> bool)
    requires AtMostOneMatch(s, p)
    ensures |Select(s, p)| <= 1
  {
    var r := Select(s, p);
    if r != [] {
      assert r[0] in r;
      var k :| 0 <= k < |s| && s[k] == r[0];
      SelectOnly(s, p, k);
    }
  }

  /** Every row of the table passes the filter of a DELETE that matches nothing. */
  lemma DeleteNothing<T(!new)>(s: seq<T>, p: T -> bool)
    requires forall x :: x in s ==> !p(x)
    ensures Delete(s, p) == s
  {
    SelectAll(s, Not(p));
  }

  /** The first row of a table is kept by a selection exactly when it passes the filter. */
  lemma SelectCons<T(!new)>(s: seq<T>, p: T -> bool)
    requires s != []
    ensures Select(s, p) == (if p(s[0]) then [s[0]] else []) + Select(s[1..], p)
  {
  }

  /** No row of the tail of s matches when the head is the one match. */
  lemma NoMatchInTail<T>(s: seq<T>, p: T -> bool)
    requires s != [] && AtMostOneMatch(s, p) && p(s[0])
    ensures forall x :: x in s[1..] ==> !p(x)
  {
    forall x | x in s[1..]
      ensures !p(x)
    {
      var i :| 0 <= i < |s| - 1 && s[1..][i] == x;
      assert s[i + 1] == x;
    }
  }

  /** Deleting the one matching row removes exactly that position. */
  lemma {:induction false} DeleteOnly<T(!new)>(s: seq<T>, p: T -> bool, k: int)
    requires AtMostOneMatch(s, p)
    requires 0 <= k < |s| && p(s[k])
    ensures Delete(s, p) == s[..k] + s[k + 1..]
  {
    SelectCons(s, Not(p));
    if k == 0 {
      NoMatchInTail(s, p);
      DeleteNothing(s[1..], p);
      assert s[..k] + s[k + 1..] == s[1..];
    } else {
      assert !p(s[0]);
      AtMostOneMatchTail(s, p);
      DeleteOnly(s[1..], p, k - 1);
      ConsSplice(s, k);
    }
  }

  /** Removing position k of s is keeping its head and removing position k - 1 of its tail. */
  lemma ConsSplice<T>(s: seq<T>, k: int)
    requires 0 < k < |s|
    ensures [s[0]] + (s[1..][..k - 1] + s[1..][k..]) == s[..k] + s[k + 1..]
  {
    var t := s[1..];
    assert s[..k] == [s[0]] + t[..k - 1];
    assert s[k + 1..] == t[k..];
  }

  /** Updating the one matching row changes exactly that position. */
  lemma UpdateOnly<T>(s: seq<T>, p: T -> bool, f: T -> T, k: int)
    requires AtMostOneMatch(s, p)
    requires 0 <= k < |s| && p(s[k])
    ensures Update(s, p, f) == s[k := f(s[k])]
  {
  }

  /** A key of a table admits at most one row per key value. */
  lemma UniqueKeysAtMostOne<T, K>(s: seq<T>, key: T -> K, k: K)
    requires UniqueKeys(s, key)
    ensures AtMostOneMatch(s, HasKey(key, k))
  {
  }

  /** A selection keeps the keys of its table unique. */
  lemma {:induction false} SelectKeepsUniqueKeys<T(!new), K>(s: seq<T>, p: T -> bool, key: T -> K)
    requires UniqueKeys(s, key)
    ensures UniqueKeys(Select(s, p), key)
  {
    if s != [] {
      var rest := Select(s[1..], p);
      SelectKeepsUniqueKeys(s[1..], p, key);
      forall x | x in rest
        ensures key(x) != key(s[0])
      {
        var i :| 0 <= i < |s[1..]| && s[1..][i] == x;
        assert s[i + 1] == x;
      }
      if p(s[0]) {
        var r := [s[0]] + rest;
        forall i, j | 0 <= i < j < |r|
          ensures key(r[i]) != key(r[j])
        {
          assert r[j] == rest[j - 1];
          if i > 0 {
            assert r[i] == rest[i - 1];
          }
        }
      }
    }
  }

  /** A selection keeps every key below the bound. */
  lemma SelectKeepsKeysBelow<T(!new)>(s: seq<T>, p: T -> bool, key: T -> int, bound: int)
    requires KeysBelow(s, key, bound)
    ensures KeysBelow(Select(s, p), key, bound)
  {
    var r := Select(s, p);
    forall i | 0 <= i < |r|
      ensures key(r[i]) < bound
    {
      assert r[i] in r;
    }
  }

  /** An update that never rewrites a key of a matching row leaves every key in place. */
  lemma UpdateKeepsKeys<T, K>(s: seq<T>, p: T -> bool, f: T -> T, key: T -> K)
    requires forall i :: 0 <= i < |s| && p(s[i]) ==> key(f(s[i])) == key(s[i])
    ensures |Update(s, p, f)| == |s|
    ensures forall i :: 0 <= i < |s| ==> key(Update(s, p, f)[i]) == key(s[i])
    ensures UniqueKeys(s, key) ==> UniqueKeys(Update(s, p, f), key)
  {
  }

  /** Appending a row whose key is at the bound keeps the keys unique and below the bound plus one. */
  lemma AppendFreshKey<T>(s: seq<T>, x: T, key: T -> int, bound: int)
    requires UniqueKeys(s, key) && KeysBelow(s, key, bound)
    requires key(x) == bound
    ensures UniqueKeys(s + [x], key) && KeysBelow(s + [x], key, bound + 1)
  {
  }

  /** Appending a row whose key no row of s has keeps the keys unique. */
  lemma AppendNewKey<T, K>(s: seq<T>, x: T, key: T -> K)
    requires UniqueKeys(s, key)
    requires forall y :: y in s ==> key(y) != key(x)
    ensures UniqueKeys(s + [x], key)
  {
    var r := s + [x];
    forall i, j | 0 <= i < j < |r|
      ensures key(r[i]) != key(r[j])
    {
      if j == |s| {
        assert r[i] == s[i];
        assert s[i] in s;
      }
    }
  }

  /** An empty selection means no row passes the filter. */
  lemma SelectEmpty<T(!new)>(s: seq<T>, p: T -> bool)
    requires Select(s, p) == []
    ensures forall x :: x in s ==> !p(x)
  {
    forall x | x in s
      ensures !p(x)
    {
      assert x in Select(s, p) <==> p(x);
    }
  }

  /** Overwriting one row with a row of the same key keeps the keys unique. */
  lemma SetKeepsUniqueKeys<T, K>(s: seq<T>, k: int, x: T, key: T -> K)
    requires 0 <= k < |s| && key(x) == key(s[k])
    requires UniqueKeys(s, key)
    ensures UniqueKeys(s[k := x], key)
  {
    var r := s[k := x];
    assert forall i :: 0 <= i < |s| ==> key(r[i]) == key(s[i]);
  }

  /** At most one selected row means at most one matching row (the converse of SelectAtMostOne). */
  lemma {:induction false} AtMostOneSelected<T(!new)>(s: seq<T>, p: T -> bool)
    requires |Select(s, p)| <= 1
    ensures AtMostOneMatch(s, p)
  {
    if s != [] {
      SelectCons(s, p);
      if p(s[0]) {
        forall j | 0 < j < |s|
          ensures !p(s[j])
        {
          var t, x := s[1..], s[j];
          assert x == t[j - 1];
          assert x in t;
          assert p(x) ==> x in Select(t, p);
        }
      } else {
        AtMostOneSelected(s[1..], p);
        forall i, j | 0 < i < j < |s| && p(s[i])
          ensures !p(s[j])
        {
          assert s[i] == s[1..][i - 1] && s[j] == s[1..][j - 1];
        }
      }
    }
  }
}

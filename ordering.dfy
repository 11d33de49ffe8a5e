/**
 * sort_values(by=['symbol', 'timestamp']): symbols compare as strings,
 * character by character, ties broken by timestamp.
 */
module Ordering {
  import opened Frame

  /** Lexicographic order on strings (a prefix comes first). */
  predicate StrLe(a: string, b: string)
    decreases |a|
  {
    if a == [] then true
    else if b == [] then false
    else if a[0] != b[0] then a[0] < b[0]
    else StrLe(a[1..], b[1..])
  }

  lemma {:induction false} StrLeTotal(a: string, b: string)
    ensures StrLe(a, b) || StrLe(b, a)
    decreases |a|
  {
    if a != [] && b != [] && a[0] == b[0] {
      StrLeTotal(a[1..], b[1..]);
    }
  }

  lemma {:induction false} StrLeAntisymmetric(a: string, b: string)
    requires StrLe(a, b) && StrLe(b, a)
    ensures a == b
    decreases |a|
  {
    if a != [] {
      StrLeAntisymmetric(a[1..], b[1..]);
      assert a == [a[0]] + a[1..] && b == [b[0]] + b[1..];
    }
  }

  lemma {:induction false} StrLeTransitive(a: string, b: string, c: string)
    requires StrLe(a, b) && StrLe(b, c)
    ensures StrLe(a, c)
    decreases |a|
  {
    if a != [] && a[0] == b[0] && b[0] == c[0] {
      StrLeTransitive(a[1..], b[1..], c[1..]);
    }
  }

  predicate KeyLe(x: Bar, y: Bar) {
    if x.symbol == y.symbol then x.timestamp <= y.timestamp else StrLe(x.symbol, y.symbol)
  }

  lemma KeyLeTotal(x: Bar, y: Bar)
    ensures KeyLe(x, y) || KeyLe(y, x)
  {
    StrLeTotal(x.symbol, y.symbol);
  }

  lemma KeyLeTransitive(x: Bar, y: Bar, z: Bar)
    requires KeyLe(x, y) && KeyLe(y, z)
    ensures KeyLe(x, z)
  {
    if x.symbol != y.symbol && y.symbol != z.symbol {
      if x.symbol == z.symbol {
        StrLeAntisymmetric(x.symbol, y.symbol);
      } else {
        StrLeTransitive(x.symbol, y.symbol, z.symbol);
      }
    }
  }

  predicate SortedByKey(s: seq<Bar>) {
    forall i, j :: 0 <= i < j < |s| ==> KeyLe(s[i], s[j])
  }

  /** Place x before the first row not below it. */
  function InsertByKey(x: Bar, s: seq<Bar>): seq<Bar> {
    if s == [] then [x]
    else if KeyLe(x, s[0]) then [x] + s
    else [s[0]] + InsertByKey(x, s[1..])
  }

  /** Inserting into a sorted sequence adds x and keeps it sorted. */
  lemma {:induction false} InsertByKeySpec(x: Bar, s: seq<Bar>)
    requires SortedByKey(s)
    ensures multiset(InsertByKey(x, s)) == multiset(s) + multiset{x}
    ensures SortedByKey(InsertByKey(x, s))
    decreases |s|
  {
    if s == [] {
    } else if KeyLe(x, s[0]) {
      forall j | 0 < j < |s| ensures KeyLe(x, s[j]) {
        KeyLeTransitive(x, s[0], s[j]);
      }
    } else {
      var rest := InsertByKey(x, s[1..]);
      InsertByKeySpec(x, s[1..]);
      assert KeyLe(s[0], x) by { KeyLeTotal(x, s[0]); }
      forall j | 0 <= j < |rest| ensures KeyLe(s[0], rest[j]) {
        assert rest[j] in multiset(rest);
        if rest[j] != x {
          assert rest[j] in multiset(s[1..]);
          var m :| 0 <= m < |s[1..]| && s[1..][m] == rest[j];
          assert s[1..][m] == s[m + 1];
        }
      }
      assert s == [s[0]] + s[1..];
    }
  }

  /** Insertion sort by (symbol, timestamp). */
  function SortByKey(rows: seq<Bar>): (r: seq<Bar>)
    ensures multiset(r) == multiset(rows)
    ensures SortedByKey(r)
  {
    if rows == [] then []
    else
      assert rows == [rows[0]] + rows[1..];
      InsertByKeySpec(rows[0], SortByKey(rows[1..]));
      InsertByKey(rows[0], SortByKey(rows[1..]))
  }

  predicate SameKey(x: Bar, y: Bar) {
    x.symbol == y.symbol && x.timestamp == y.timestamp
  }

  /** The rows of s whose key is that of k, in their order in s. */
  function WithKeyOf(s: seq<Bar>, k: Bar): seq<Bar> {
    if s == [] then []
    else (if SameKey(s[0], k) then [s[0]] else []) + WithKeyOf(s[1..], k)
  }

  /** Inserting x puts it before every row with the same key already in s. */
  lemma {:induction false} InsertByKeyStable(x: Bar, s: seq<Bar>, k: Bar)
    ensures WithKeyOf(InsertByKey(x, s), k) == (if SameKey(x, k) then [x] else []) + WithKeyOf(s, k)
    decreases |s|
  {
    if s == [] {
      WithKeyOfCons(x, [], k);
    } else if KeyLe(x, s[0]) {
      assert InsertByKey(x, s) == [x] + s;
      WithKeyOfCons(x, s, k);
    } else {
      InsertByKeyStable(x, s[1..], k);
      InsertBehindStable(x, s, k);
    }
  }

  /** The step of InsertByKeyStable where x goes after the first row of s. */
  lemma InsertBehindStable(x: Bar, s: seq<Bar>, k: Bar)
    requires s != [] && !KeyLe(x, s[0])
    requires WithKeyOf(InsertByKey(x, s[1..]), k) == (if SameKey(x, k) then [x] else []) + WithKeyOf(s[1..], k)
    ensures WithKeyOf(InsertByKey(x, s), k) == (if SameKey(x, k) then [x] else []) + WithKeyOf(s, k)
  {
    var rest := InsertByKey(x, s[1..]);
    assert InsertByKey(x, s) == [s[0]] + rest;
    WithKeyOfCons(s[0], rest, k);
    WithKeyOfCons(s[0], s[1..], k);
    assert s == [s[0]] + s[1..];
    var tail := WithKeyOf(s[1..], k);
    var mine: seq<Bar> := if SameKey(x, k) then [x] else [];
    var first: seq<Bar> := if SameKey(s[0], k) then [s[0]] else [];
    assert WithKeyOf(InsertByKey(x, s), k) == first + (mine + tail);
    assert WithKeyOf(s, k) == first + tail;
    if SameKey(s[0], k) {
      assert mine == [];
      assert mine + tail == tail && mine + (first + tail) == first + tail;
    } else {
      assert first == [];
      assert first + (mine + tail) == mine + tail && first + tail == tail;
    }
  }

  lemma WithKeyOfCons(a: Bar, s: seq<Bar>, k: Bar)
    ensures WithKeyOf([a] + s, k) == (if SameKey(a, k) then [a] else []) + WithKeyOf(s, k)
  {
    assert ([a] + s)[1..] == s;
  }

  /** The sort is stable: rows sharing a (symbol, timestamp) keep their input order. */
  lemma {:induction false} SortByKeyStable(rows: seq<Bar>, k: Bar)
    ensures WithKeyOf(SortByKey(rows), k) == WithKeyOf(rows, k)
    decreases |rows|
  {
    if rows != [] {
      SortByKeyStable(rows[1..], k);
      InsertByKeyStable(rows[0], SortByKey(rows[1..]), k);
    }
  }

  lemma SortKeepsLength(rows: seq<Bar>)
    ensures |SortByKey(rows)| == |rows|
  {
    assert |multiset(SortByKey(rows))| == |multiset(rows)|;
  }
}

/** The table scans, the `date > minDate` filter and the `ORDER BY column
    ASC` of the list query, as functions on sequences of rows. */
module Query {
  import opened Records

  /** The values of `m` whose keys lie below `bound`, in ascending key
      order: the row order of a scan of a table keyed by its id. */
  function Rows<T>(m: map<nat, T>, bound: nat): seq<T>
  {
    if bound == 0 then []
    else Rows(m, bound - 1) + (if bound - 1 in m then [m[bound - 1]] else [])
  }

  /** No row occurs twice. */
  predicate Distinct<T(==)>(s: seq<T>) {
    forall i, j :: 0 <= i < j < |s| ==> s[i] != s[j]
  }

  /** A scan yields exactly the values stored under keys below the bound. */
  lemma {:induction false} RowsMember<T>(m: map<nat, T>, bound: nat, x: T)
    ensures x in Rows(m, bound) <==> exists k :: k in m && k < bound && m[k] == x
  {
    if bound > 0 {
      RowsMember(m, bound - 1, x);
      if x in Rows(m, bound) && x !in Rows(m, bound - 1) {
        assert bound - 1 in m && m[bound - 1] == x;
      }
    }
  }

  /** A scan of a map whose values are pairwise different repeats no row. */
  lemma {:induction false} RowsDistinct<T>(m: map<nat, T>, bound: nat)
    requires forall k, k' :: k in m && k' in m && k != k' ==> m[k] != m[k']
    ensures Distinct(Rows(m, bound))
  {
    if bound > 0 {
      RowsDistinct(m, bound - 1);
      if bound - 1 in m {
        var x := m[bound - 1];
        RowsMember(m, bound - 1, x);
        var s := Rows(m, bound - 1);
        assert Rows(m, bound) == s + [x];
        forall i, j | 0 <= i < j < |s + [x]| ensures (s + [x])[i] != (s + [x])[j] {
          if j == |s| {
            assert (s + [x])[i] == s[i] && s[i] in s;
          }
        }
      }
    }
  }

  /** The rows kept by `WHERE date > minDate`, in their original order. */
  function After(ls: seq<FavoriteList>, minDate: int): seq<FavoriteList>
  {
    if |ls| == 0 then []
    else (if ls[0].date > minDate then [ls[0]] else []) + After(ls[1..], minDate)
  }

  lemma {:induction false} AfterMember(ls: seq<FavoriteList>, minDate: int, l: FavoriteList)
    ensures l in After(ls, minDate) <==> l in ls && l.date > minDate
  {
    if |ls| > 0 {
      AfterMember(ls[1..], minDate, l);
      assert ls == [ls[0]] + ls[1..];
    }
  }

  lemma {:induction false} AfterDistinct(ls: seq<FavoriteList>, minDate: int)
    requires Distinct(ls)
    ensures Distinct(After(ls, minDate))
  {
    if |ls| > 0 {
      var rest := ls[1..];
      assert Distinct(rest) by {
        forall i, j | 0 <= i < j < |rest| ensures rest[i] != rest[j] {
          assert rest[i] == ls[i + 1] && rest[j] == ls[j + 1];
        }
      }
      AfterDistinct(rest, minDate);
      if ls[0].date > minDate {
        var t := After(rest, minDate);
        AfterMember(rest, minDate, ls[0]);
        assert ls[0] !in rest;
        forall i, j | 0 <= i < j < |[ls[0]] + t| ensures ([ls[0]] + t)[i] != ([ls[0]] + t)[j] {
          if i == 0 {
            assert ([ls[0]] + t)[j] == t[j - 1] && t[j - 1] in t;
          } else {
            assert ([ls[0]] + t)[i] == t[i - 1] && ([ls[0]] + t)[j] == t[j - 1];
          }
        }
      }
    }
  }

  /** The columns a list can be ordered by. */
  datatype Column = IdColumn | DescriptionColumn | DateColumn

  /** An ASCII letter in lower case; other characters as they are. */
  function LowerChar(ch: char): char {
    if 'A' <= ch <= 'Z' then (ch as int + 32) as char else ch
  }

  /** A name with its ASCII letters in lower case: identifiers match
      without regard to ASCII case in the engine. */
  function FoldCase(name: string): string {
    seq(|name|, i requires 0 <= i < |name| => LowerChar(name[i]))
  }

  /** The names under which the engine finds the INTEGER PRIMARY KEY `id`:
      the column itself and the three aliases of the rowid. */
  const ID_NAMES: set<string> := {"id", "rowid", "oid", "_rowid_"}

  /** Resolves a `sortBy` name, taken as a quoted identifier of the lists
      table; any other name is not a column. */
  function ParseColumn(name: string): (c: Option<Column>)
    ensures c == Some(IdColumn) <==> FoldCase(name) in ID_NAMES
    ensures c == Some(DescriptionColumn) <==> FoldCase(name) == "description"
    ensures c == Some(DateColumn) <==> FoldCase(name) == "date"
    ensures c.None? <==> FoldCase(name) !in ID_NAMES + {"description", "date"}
  {
    var n := FoldCase(name);
    if n in ID_NAMES then Some(IdColumn)
    else if n == "description" then Some(DescriptionColumn)
    else if n == "date" then Some(DateColumn)
    else None
  }

  /** Column names resolve whatever their ASCII case, the rowid aliases
      resolve to `id`, and a name the table does not have resolves to none. */
  lemma ParseColumnExamples()
    ensures ParseColumn("ID") == Some(IdColumn) && ParseColumn("rowid") == Some(IdColumn)
    ensures ParseColumn("Date") == Some(DateColumn)
    ensures ParseColumn("DESCRIPTION") == Some(DescriptionColumn)
    ensures ParseColumn("title") == None
  {
    assert FoldCase("ID") == "id";
    assert FoldCase("rowid") == "rowid";
    assert FoldCase("Date") == "date";
    assert FoldCase("DESCRIPTION") == "description";
    assert FoldCase("title") == "title";
  }

  /** Text comparison under the engine's binary collation: code point by
      code point, a proper prefix first. */
  predicate TextLeq(a: string, b: string)
  {
    |a| == 0 || (|b| != 0 && (a[0] < b[0] || (a[0] == b[0] && TextLeq(a[1..], b[1..]))))
  }

  lemma {:induction false} TextLeqTotal(a: string, b: string)
    ensures TextLeq(a, b) || TextLeq(b, a)
  {
    if |a| != 0 && |b| != 0 && a[0] == b[0] {
      TextLeqTotal(a[1..], b[1..]);
    }
  }

  lemma {:induction false} TextLeqTransitive(a: string, b: string, c: string)
    requires TextLeq(a, b) && TextLeq(b, c)
    ensures TextLeq(a, c)
  {
    if |a| != 0 && a[0] == b[0] && b[0] == c[0] {
      TextLeqTransitive(a[1..], b[1..], c[1..]);
    }
  }

  /** `x` may precede `y` when ordering ascending on `c`. */
  predicate Leq(c: Column, x: FavoriteList, y: FavoriteList) {
    match c
    case IdColumn => x.id <= y.id
    case DescriptionColumn => TextLeq(x.description, y.description)
    case DateColumn => x.date <= y.date
  }

  lemma LeqTotal(c: Column, x: FavoriteList, y: FavoriteList)
    ensures Leq(c, x, y) || Leq(c, y, x)
  {
    if c == DescriptionColumn {
      TextLeqTotal(x.description, y.description);
    }
  }

  lemma LeqTransitive(c: Column, x: FavoriteList, y: FavoriteList, z: FavoriteList)
    requires Leq(c, x, y) && Leq(c, y, z)
    ensures Leq(c, x, z)
  {
    if c == DescriptionColumn {
      TextLeqTransitive(x.description, y.description, z.description);
    }
  }

  /** Ascending on column `c`. */
  predicate Sorted(c: Column, s: seq<FavoriteList>) {
    forall i, j :: 0 <= i < j < |s| ==> Leq(c, s[i], s[j])
  }

  /** Places `x` before the first row it may precede. */
  function Insert(c: Column, x: FavoriteList, s: seq<FavoriteList>): seq<FavoriteList>
  {
    if |s| == 0 then [x]
    else if Leq(c, x, s[0]) then [x] + s
    else [s[0]] + Insert(c, x, s[1..])
  }

  /** A stable insertion sort, standing for `ORDER BY c ASC`; rows that tie
      on `c` keep their scan order. */
  function SortBy(c: Column, s: seq<FavoriteList>): seq<FavoriteList>
  {
    if |s| == 0 then [] else Insert(c, s[0], SortBy(c, s[1..]))
  }

  lemma {:induction false} InsertCorrect(c: Column, x: FavoriteList, s: seq<FavoriteList>)
    requires Sorted(c, s)
    ensures Sorted(c, Insert(c, x, s))
    ensures multiset(Insert(c, x, s)) == multiset(s) + multiset{x}
  {
    InsertMultiset(c, x, s);
    if |s| == 0 {
    } else if Leq(c, x, s[0]) {
      var r := [x] + s;
      forall i, j | 0 <= i < j < |r| ensures Leq(c, r[i], r[j]) {
        if i == 0 && j > 1 {
          LeqTransitive(c, x, s[0], s[j - 1]);
        }
      }
    } else {
      var rest := s[1..];
      assert Sorted(c, rest) by {
        forall i, j | 0 <= i < j < |rest| ensures Leq(c, rest[i], rest[j]) {
          assert rest[i] == s[i + 1] && rest[j] == s[j + 1];
        }
      }
      InsertCorrect(c, x, rest);
      var t := Insert(c, x, rest);
      forall j | 0 <= j < |t| ensures Leq(c, s[0], t[j]) {
        InsertMember(c, x, rest, t[j]);
        if t[j] == x {
          LeqTotal(c, x, s[0]);
        } else {
          var k :| 0 <= k < |rest| && rest[k] == t[j];
          assert s[k + 1] == t[j];
        }
      }
      SortedCons(c, s[0], t);
    }
  }

  lemma InsertMember(c: Column, x: FavoriteList, s: seq<FavoriteList>, y: FavoriteList)
    requires y in Insert(c, x, s)
    ensures y == x || y in s
  {
    InsertMultiset(c, x, s);
    assert y in multiset(Insert(c, x, s));
  }

  /** A row that may precede every row of a sorted sequence extends it. */
  lemma SortedCons(c: Column, y: FavoriteList, t: seq<FavoriteList>)
    requires Sorted(c, t)
    requires forall j :: 0 <= j < |t| ==> Leq(c, y, t[j])
    ensures Sorted(c, [y] + t)
  {
    var r := [y] + t;
    forall i, j | 0 <= i < j < |r| ensures Leq(c, r[i], r[j]) {
      assert r[j] == t[j - 1];
      if i > 0 {
        assert r[i] == t[i - 1];
      }
    }
  }

  /** The sorted rows are ascending on `c` and are the input rows, each as many times. */
  lemma {:induction false} SortByCorrect(c: Column, s: seq<FavoriteList>)
    ensures Sorted(c, SortBy(c, s))
    ensures multiset(SortBy(c, s)) == multiset(s)
  {
    if |s| > 0 {
      SortByCorrect(c, s[1..]);
      InsertCorrect(c, s[0], SortBy(c, s[1..]));
      assert s == [s[0]] + s[1..];
    }
  }

  lemma {:induction false} InsertDistinct(c: Column, x: FavoriteList, s: seq<FavoriteList>)
    requires Distinct(s) && x !in s
    ensures Distinct(Insert(c, x, s))
  {
    if |s| > 0 && !Leq(c, x, s[0]) {
      var rest := s[1..];
      assert Distinct(rest) by {
        forall i, j | 0 <= i < j < |rest| ensures rest[i] != rest[j] {
          assert rest[i] == s[i + 1] && rest[j] == s[j + 1];
        }
      }
      assert x !in rest;
      InsertDistinct(c, x, rest);
      var t := Insert(c, x, rest);
      InsertMultiset(c, x, rest);
      assert s[0] !in rest;
      assert s[0] !in multiset(t);
      var r := [s[0]] + t;
      forall i, j | 0 <= i < j < |r| ensures r[i] != r[j] {
        if i == 0 {
          assert r[j] == t[j - 1] && t[j - 1] in multiset(t);
        } else {
          assert r[i] == t[i - 1] && r[j] == t[j - 1];
        }
      }
    } else if |s| > 0 {
      var r := [x] + s;
      forall i, j | 0 <= i < j < |r| ensures r[i] != r[j] {
        if i == 0 {
          assert r[j] == s[j - 1] && s[j - 1] in s;
        } else {
          assert r[i] == s[i - 1] && r[j] == s[j - 1];
        }
      }
    }
  }

  lemma {:induction false} InsertMultiset(c: Column, x: FavoriteList, s: seq<FavoriteList>)
    ensures multiset(Insert(c, x, s)) == multiset(s) + multiset{x}
  {
    if |s| > 0 && !Leq(c, x, s[0]) {
      var rest := s[1..];
      var t := Insert(c, x, rest);
      InsertMultiset(c, x, rest);
      assert Insert(c, x, s) == [s[0]] + t;
      assert s == [s[0]] + rest;
      calc {
        multiset(Insert(c, x, s));
        multiset([s[0]]) + multiset(t);
        multiset([s[0]]) + multiset(rest) + multiset{x};
        multiset(s) + multiset{x};
      }
    } else {
      assert Insert(c, x, s) == [x] + s;
      assert multiset([x] + s) == multiset{x} + multiset(s);
    }
  }

  /** Sorting distinct rows repeats none of them. */
  lemma {:induction false} SortByDistinct(c: Column, s: seq<FavoriteList>)
    requires Distinct(s)
    ensures Distinct(SortBy(c, s))
  {
    if |s| > 0 {
      var rest := s[1..];
      assert Distinct(rest) by {
        forall i, j | 0 <= i < j < |rest| ensures rest[i] != rest[j] {
          assert rest[i] == s[i + 1] && rest[j] == s[j + 1];
        }
      }
      SortByDistinct(c, rest);
      SortByCorrect(c, rest);
      assert s[0] !in rest;
      assert s[0] !in multiset(SortBy(c, rest));
      InsertDistinct(c, s[0], SortBy(c, rest));
    }
  }
}

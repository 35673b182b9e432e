/** The weather record store: inserting a reading, and the readings of one city
    on one day, newest first. */
module Db {
  import opened Clock
  import opened WeatherModel

  // ---------------------------------------------------------------------------
  // The query, over the table's contents
  // ---------------------------------------------------------------------------

  /** The query's WHERE clause: the city is equal (case-sensitive, exact) and the
      time point lies BETWEEN the first and the last moment of the day, both ends
      included. */
  predicate Matches<Temp(!new)>(w: Weather<Temp>, city: string, day: Date)
    ensures Matches(w, city, day) <==> w.city == city && DateOf(w.timePoint) == day
  {
    WindowIsDay(w.timePoint, day);
    w.city == city && Combine(day, TimeMin) <= w.timePoint <= Combine(day, TimeMax)
  }

  /** The ORDER BY clause: time points never increase along the sequence. */
  predicate SortedDesc<Temp(!new)>(s: seq<Weather<Temp>>) {
    forall i, j :: 0 <= i < j < |s| ==> s[i].timePoint >= s[j].timePoint
  }

  /** No two rows of the sequence share an id. */
  predicate UniqueIds<Temp(!new)>(s: seq<Weather<Temp>>) {
    forall i, j :: 0 <= i < |s| && 0 <= j < |s| && s[i].id == s[j].id ==> i == j
  }

  /** The rows of `table` that satisfy the WHERE clause, in table order. */
  function Select<Temp(!new)>(table: seq<Weather<Temp>>, city: string, day: Date): (r: seq<Weather<Temp>>)
    ensures forall i :: 0 <= i < |r| ==> Matches(r[i], city, day)
    ensures forall w :: multiset(r)[w] == if Matches(w, city, day) then multiset(table)[w] else 0
  {
    if table == [] then []
    else
      assert table == [table[0]] + table[1..];
      (if Matches(table[0], city, day) then [table[0]] else []) + Select(table[1..], city, day)
  }

  /** Puts `w` into a sequence sorted newest first, ahead of the rows with the
      same time point. */
  function Insert<Temp(!new)>(w: Weather<Temp>, s: seq<Weather<Temp>>): (r: seq<Weather<Temp>>)
    requires SortedDesc(s)
    ensures SortedDesc(r)
    ensures multiset(r) == multiset(s) + multiset{w}
  {
    if s == [] || s[0].timePoint <= w.timePoint then [w] + s
    else
      assert s == [s[0]] + s[1..];
      var t := Insert(w, s[1..]);
      InsertBelow(s[0], w, s[1..], t);
      [s[0]] + t
  }

  /** The rows of `Insert(w, s)` after a head `h` that is no older than `w` and
      than the rest `s` keep the sequence sorted. */
  lemma InsertBelow<Temp(!new)>(h: Weather<Temp>, w: Weather<Temp>, s: seq<Weather<Temp>>, t: seq<Weather<Temp>>)
    requires SortedDesc([h] + s) && w.timePoint < h.timePoint
    requires SortedDesc(t) && multiset(t) == multiset(s) + multiset{w}
    ensures SortedDesc([h] + t)
  {
    var c := [h] + t;
    forall i, j | 0 <= i < j < |c|
      ensures c[i].timePoint >= c[j].timePoint
    {
      if i == 0 {
        var x := c[j];
        assert x == t[j - 1];
        assert x in multiset(t);
        if x != w {
          assert x in multiset(s);
          var k :| 0 <= k < |s| && s[k] == x;
          assert ([h] + s)[0] == h && ([h] + s)[k + 1] == x;
        }
      } else {
        assert c[i] == t[i - 1] && c[j] == t[j - 1];
      }
    }
  }

  /** `s` ordered by time point, newest first; rows with equal time points keep
      their relative order. */
  function SortDesc<Temp(!new)>(s: seq<Weather<Temp>>): (r: seq<Weather<Temp>>)
    ensures SortedDesc(r)
    ensures multiset(r) == multiset(s)
  {
    if s == [] then []
    else
      assert s == [s[0]] + s[1..];
      Insert(s[0], SortDesc(s[1..]))
  }

  /** `get_weather` over the table's contents: the rows of `city` whose time point
      falls on `day`, newest first. */
  function Query<Temp(!new)>(table: seq<Weather<Temp>>, city: string, day: Date): (r: seq<Weather<Temp>>)
    ensures forall i :: 0 <= i < |r| ==> r[i] in table
    ensures forall i :: 0 <= i < |r| ==>
      r[i].city == city && Combine(day, TimeMin) <= r[i].timePoint <= Combine(day, TimeMax)
    ensures forall i :: 0 <= i < |r| ==> DateOf(r[i].timePoint) == day
    ensures forall w :: multiset(r)[w] == if Matches(w, city, day) then multiset(table)[w] else 0
    ensures SortedDesc(r)
  {
    var r := SortDesc(Select(table, city, day));
    assert forall i :: 0 <= i < |r| ==> Matches(r[i], city, day) && r[i] in table by {
      forall i | 0 <= i < |r|
        ensures Matches(r[i], city, day) && r[i] in table
      {
        assert r[i] in multiset(r);
        WindowIsDay(r[i].timePoint, day);
      }
    }
    assert forall i :: 0 <= i < |r| ==> DateOf(r[i].timePoint) == day by {
      forall i | 0 <= i < |r|
        ensures DateOf(r[i].timePoint) == day
      {
        WindowIsDay(r[i].timePoint, day);
      }
    }
    r
  }

  // ---------------------------------------------------------------------------
  // Properties of the query
  // ---------------------------------------------------------------------------

  /** The query returns the empty list exactly when no row of the table matches. */
  lemma QueryEmptyIff<Temp(!new)>(table: seq<Weather<Temp>>, city: string, day: Date)
    ensures Query(table, city, day) == [] <==> forall w :: w in table ==> !Matches(w, city, day)
  {
    var r := Query(table, city, day);
    if r != [] {
      assert r[0] in table && Matches(r[0], city, day);
    } else {
      forall w | w in table
        ensures !Matches(w, city, day)
      {
        assert multiset(r)[w] == 0;
      }
    }
  }

  /** A row of the table that lies in the window is in the result, and a row
      of any other city or day is not. */
  lemma QueryMembership<Temp(!new)>(table: seq<Weather<Temp>>, city: string, day: Date, w: Weather<Temp>)
    ensures w in Query(table, city, day) <==> w in table && w.city == city && DateOf(w.timePoint) == day
  {
    WindowIsDay(w.timePoint, day);
    assert w in multiset(Query(table, city, day)) <==> w in multiset(table) && Matches(w, city, day);
  }

  /** Inserting one row changes the query's result by that row, once, if it
      matches, and by nothing otherwise. */
  lemma QueryAfterAppend<Temp(!new)>(table: seq<Weather<Temp>>, w: Weather<Temp>, city: string, day: Date)
    ensures forall x ::
      multiset(Query(table + [w], city, day))[x]
      == multiset(Query(table, city, day))[x] + (if x == w && Matches(w, city, day) then 1 else 0)
  {
    assert multiset(table + [w]) == multiset(table) + multiset{w};
  }

  /** A row that is alone on its day in a one-row table comes back as the whole result. */
  lemma QuerySingleRow<Temp(!new)>(w: Weather<Temp>)
    ensures Query([w], w.city, DateOf(w.timePoint)) == [w]
  {
    var r := Query([w], w.city, DateOf(w.timePoint));
    WindowIsDay(w.timePoint, DateOf(w.timePoint));
    assert multiset(r) == multiset{w};
    assert |r| == 1;
    assert r[0] in multiset(r);
  }

  /** Two matching rows with different time points come back newer first,
      whichever was stored first. */
  lemma QueryTwoRows<Temp(!new)>(older: Weather<Temp>, newer: Weather<Temp>, city: string, day: Date, olderFirst: bool)
    requires Matches(older, city, day) && Matches(newer, city, day)
    requires older.timePoint < newer.timePoint
    ensures Query(if olderFirst then [older, newer] else [newer, older], city, day) == [newer, older]
  {
    var table := if olderFirst then [older, newer] else [newer, older];
    SelectTwo(table[0], table[1], city, day);
    SortTwo(table[0], table[1]);
  }

  lemma SelectTwo<Temp(!new)>(a: Weather<Temp>, b: Weather<Temp>, city: string, day: Date)
    requires Matches(a, city, day) && Matches(b, city, day)
    ensures Select([a, b], city, day) == [a, b]
  {
    assert [b][1..] == [] && [a, b][1..] == [b];
    assert Select([b], city, day) == [b];
  }

  lemma SortTwo<Temp(!new)>(a: Weather<Temp>, b: Weather<Temp>)
    ensures SortDesc([a, b]) == if b.timePoint <= a.timePoint then [a, b] else [b, a]
  {
    assert [b][1..] == [] && [a, b][1..] == [b];
    assert SortDesc([b]) == [b];
    assert Insert(a, [b]) == if b.timePoint <= a.timePoint then [a, b] else [b] + Insert(a, []);
  }

  lemma {:induction false} SelectKeepsIdsUnique<Temp(!new)>(table: seq<Weather<Temp>>, city: string, day: Date)
    requires UniqueIds(table)
    ensures UniqueIds(Select(table, city, day))
  {
    if table != [] {
      var rest := table[1..];
      assert UniqueIds(rest) by {
        forall i, j | 0 <= i < |rest| && 0 <= j < |rest| && rest[i].id == rest[j].id
          ensures i == j
        {
          assert table[i + 1] == rest[i] && table[j + 1] == rest[j];
        }
      }
      SelectKeepsIdsUnique(rest, city, day);
      var tail := Select(rest, city, day);
      forall x | x in tail
        ensures x.id != table[0].id
      {
        assert x in multiset(tail);
        var k :| 0 <= k < |rest| && rest[k] == x;
        assert table[k + 1] == x;
      }
      ConsKeepsIdsUnique(table[0], tail);
    }
  }

  lemma {:induction false} InsertKeepsIdsUnique<Temp(!new)>(w: Weather<Temp>, s: seq<Weather<Temp>>)
    requires SortedDesc(s) && UniqueIds(s)
    requires forall x :: x in s ==> x.id != w.id
    ensures UniqueIds(Insert(w, s))
  {
    if s == [] || s[0].timePoint <= w.timePoint {
      ConsKeepsIdsUnique(w, s);
    } else {
      var rest := s[1..];
      assert UniqueIds(rest) by {
        forall i, j | 0 <= i < |rest| && 0 <= j < |rest| && rest[i].id == rest[j].id
          ensures i == j
        {
          assert s[i + 1] == rest[i] && s[j + 1] == rest[j];
        }
      }
      InsertKeepsIdsUnique(w, rest);
      var tail := Insert(w, rest);
      forall x | x in tail
        ensures x.id != s[0].id
      {
        assert x in multiset(tail);
        if x != w {
          var k :| 0 <= k < |rest| && rest[k] == x;
          assert s[k + 1] == x;
        }
      }
      ConsKeepsIdsUnique(s[0], tail);
    }
  }

  lemma {:induction false} SortKeepsIdsUnique<Temp(!new)>(s: seq<Weather<Temp>>)
    requires UniqueIds(s)
    ensures UniqueIds(SortDesc(s))
  {
    if s != [] {
      var rest := s[1..];
      assert UniqueIds(rest) by {
        forall i, j | 0 <= i < |rest| && 0 <= j < |rest| && rest[i].id == rest[j].id
          ensures i == j
        {
          assert s[i + 1] == rest[i] && s[j + 1] == rest[j];
        }
      }
      SortKeepsIdsUnique(rest);
      var sorted := SortDesc(rest);
      forall x | x in sorted
        ensures x.id != s[0].id
      {
        assert x in multiset(sorted);
        var k :| 0 <= k < |rest| && rest[k] == x;
        assert s[k + 1] == x;
      }
      InsertKeepsIdsUnique(s[0], sorted);
    }
  }

  /** The ORDER BY and WHERE clauses never duplicate a row: when the table's ids
      are unique, so are the result's. */
  lemma QueryKeepsIdsUnique<Temp(!new)>(table: seq<Weather<Temp>>, city: string, day: Date)
    requires UniqueIds(table)
    ensures UniqueIds(Query(table, city, day))
  {
    SelectKeepsIdsUnique(table, city, day);
    SortKeepsIdsUnique(Select(table, city, day));
  }

  lemma ConsKeepsIdsUnique<Temp(!new)>(x: Weather<Temp>, s: seq<Weather<Temp>>)
    requires UniqueIds(s)
    requires forall y :: y in s ==> y.id != x.id
    ensures UniqueIds([x] + s)
  {
    var c := [x] + s;
    assert c[0] == x;
    assert forall k :: 1 <= k < |c| ==> c[k] == s[k - 1];
  }

  // ---------------------------------------------------------------------------
  // The store
  // ---------------------------------------------------------------------------

  /** The data-access object over the `weather` table. `rows` is the table in
      insertion order; `nextId` is the id the store assigns to the next row. */
  class DB<Temp(!new)> {
    var rows: seq<Weather<Temp>>
    var nextId: int

    /** Ids are positive, below `nextId`, and increase along the table, so no
        two rows share one. */
    ghost predicate Valid()
      reads this
      ensures Valid() ==> UniqueIds(rows)
    {
      1 <= nextId &&
      (forall i :: 0 <= i < |rows| ==> 1 <= rows[i].id < nextId) &&
      (forall i, j :: 0 <= i < j < |rows| ==> rows[i].id < rows[j].id)
    }

    /** A store over a freshly created, empty table. */
    constructor ()
      ensures Valid() && rows == [] && nextId == 1
    {
      rows := [];
      nextId := 1;
    }

    /** `set_weather`: adds one row with the given columns and returns the id
        the store gave it; the rows already there stay as they were. */
    method SetWeather(city: string, temperature: Temp, timePoint: DateTime) returns (id: int)
      requires Valid()
      modifies this
      ensures Valid()
      ensures id == old(nextId) && 1 <= id && nextId == id + 1
      ensures forall w :: w in old(rows) ==> w.id != id
      ensures rows == old(rows) + [Weather(id, city, timePoint, temperature)]
    {
      id := nextId;
      rows := rows + [Weather(id, city, timePoint, temperature)];
      nextId := nextId + 1;
    }

    /** `get_weather`: every stored row of `city` on `day` comes back exactly
        once, nothing else does, and the newest comes first. */
    function GetWeather(city: string, day: Date): (r: seq<Weather<Temp>>)
      reads this
      requires Valid()
      ensures forall i :: 0 <= i < |r| ==> r[i] in rows && r[i].city == city && DateOf(r[i].timePoint) == day
      ensures forall w :: w in rows && w.city == city && DateOf(w.timePoint) == day ==> multiset(r)[w] == 1
      ensures UniqueIds(r)
      ensures SortedDesc(r)
    {
      var r := Query(rows, city, day);
      QueryKeepsIdsUnique(rows, city, day);
      assert forall w :: w in rows && w.city == city && DateOf(w.timePoint) == day ==> multiset(r)[w] == 1 by {
        forall w | w in rows && w.city == city && DateOf(w.timePoint) == day
          ensures multiset(r)[w] == 1
        {
          WindowIsDay(w.timePoint, day);
          OccursOnce(rows, w);
        }
      }
      r
    }

    /** A row of a table with unique ids occurs in it once. */
    static lemma OccursOnce(s: seq<Weather<Temp>>, w: Weather<Temp>)
      requires UniqueIds(s) && w in s
      ensures multiset(s)[w] == 1
    {
      var k :| 0 <= k < |s| && s[k] == w;
      assert s == s[..k] + [w] + s[k + 1..];
      assert w !in s[..k] && w !in s[k + 1..];
      assert multiset(s) == multiset(s[..k]) + multiset{w} + multiset(s[k + 1..]);
    }
  }
}

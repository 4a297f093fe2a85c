/**
  The game collection as an abstract table from identifier to document, and
  the queries the repository issues against it: find with a date filter and an
  ascending date sort, and findOne by exact date.

  The store's sort has no tie-break of its own; this model lists records with
  equal dates in identifier order, and the contracts promise only what the
  store does: ascending dates, every matching record exactly once.
 */
module GameStore {
  import opened Calendar
  import opened GameTypes

  type Table = map<Id, Game>

  /** Every document is filed under its own identifier. */
  predicate WellKeyed(m: Table) {
    forall k | k in m :: m[k].id == k
  }

  /** The domain invariant addGame maintains: no two documents share a date. */
  predicate DatesUnique(m: Table) {
    forall a, b | a in m && b in m && a != b :: m[a].data.date != m[b].data.date
  }

  /** The derived field agrees with the word in every document. */
  predicate LengthsMatch(m: Table) {
    forall k | k in m :: m[k].length == |m[k].data.word|
  }

  /** Every stored date is a UTC midnight, as addGame stores them. */
  predicate DatesNormalised(m: Table) {
    forall k | k in m :: IsUtcMidnight(m[k].data.date)
  }

  /** Non-decreasing by date: what `.sort({ date: 1 })` promises. */
  predicate DateOrdered(r: seq<Game>) {
    forall i, j | 0 <= i < j < |r| :: r[i].data.date <= r[j].data.date
  }

  /** The identifiers of a listing, in its order. */
  function Ids(r: seq<Game>): seq<Id> {
    seq(|r|, i requires 0 <= i < |r| => r[i].id)
  }

  /** `r` lists the documents of `m`, each exactly once, as stored. */
  predicate Lists(r: seq<Game>, m: Table) {
    && multiset(Ids(r)) == multiset(m.Keys)
    && forall i | 0 <= i < |r| :: r[i].id in m && m[r[i].id] == r[i]
  }

  /** Key `a` comes no later than key `b` in (date, identifier) order. */
  predicate NoLater(m: Table, a: Id, b: Id)
    requires a in m && b in m
  {
    m[a].data.date < m[b].data.date || (m[a].data.date == m[b].data.date && a <= b)
  }

  lemma {:induction false} FirstKeyExists(m: Table)
    requires |m| > 0
    ensures exists k | k in m :: forall j | j in m :: NoLater(m, k, j)
  {
    var x :| x in m;
    var rest := m - {x};
    if |rest| == 0 {
      assert forall j | j in m :: j == x;
      assert forall j | j in m :: NoLater(m, x, j);
    } else {
      assert |rest| < |m| by {
        assert rest.Keys == m.Keys - {x};
      }
      FirstKeyExists(rest);
      var y :| y in rest && forall j | j in rest :: NoLater(rest, y, j);
      if NoLater(m, y, x) {
        assert forall j | j in m :: NoLater(m, y, j) by {
          forall j | j in m ensures NoLater(m, y, j) {
            if j != x {
              assert NoLater(rest, y, j);
            }
          }
        }
      } else {
        assert forall j | j in m :: NoLater(m, x, j) by {
          forall j | j in m ensures NoLater(m, x, j) {
            if j != x {
              assert NoLater(rest, y, j);
            }
          }
        }
      }
    }
  }

  /** The earliest key in (date, identifier) order; it is unique. */
  function FirstKey(m: Table): (k: Id)
    requires |m| > 0
    ensures k in m && forall j | j in m :: NoLater(m, k, j)
  {
    FirstKeyExists(m);
    var k :| k in m && forall j | j in m :: NoLater(m, k, j);
    k
  }

  /** Putting the earliest document in front of a listing of the others lists the whole table. */
  lemma ConsLists(m: Table, k: Id, tail: seq<Game>)
    requires WellKeyed(m) && k in m
    requires Lists(tail, m - {k})
    ensures Lists([m[k]] + tail, m)
  {
    var rest := m - {k};
    assert rest.Keys == m.Keys - {k};
    assert Ids([m[k]] + tail) == [k] + Ids(tail);
    assert m.Keys == rest.Keys + {k};
  }

  /** ... and keeps the listing ordered when that document is no later than any other. */
  lemma ConsOrdered(m: Table, k: Id, tail: seq<Game>)
    requires k in m && forall j | j in m :: NoLater(m, k, j)
    requires DateOrdered(tail) && Lists(tail, m - {k})
    ensures DateOrdered([m[k]] + tail)
  {
    forall i | 0 <= i < |tail| ensures m[k].data.date <= tail[i].data.date {
      assert tail[i].id in m && NoLater(m, k, tail[i].id);
    }
  }

  /** The documents of `m` sorted ascending by date (`find().sort({ date: 1 })`). */
  function DateOrder(m: Table): (r: seq<Game>)
    requires WellKeyed(m)
    ensures DateOrdered(r) && Lists(r, m) && |r| == |m|
    decreases |m|
  {
    if |m| == 0 then
      assert m.Keys == {};
      []
    else
      var k := FirstKey(m);
      var rest := m - {k};
      assert rest.Keys == m.Keys - {k};
      var tail := DateOrder(rest);
      ConsLists(m, k, tail);
      ConsOrdered(m, k, tail);
      [m[k]] + tail
  }

  /** The sub-table of documents dated at or after `cutoff` (the `$gte` filter). */
  function AtOrAfter(m: Table, cutoff: int): Table {
    map k | k in m && m[k].data.date >= cutoff :: m[k]
  }

  /** The sub-table of documents dated exactly `d` (an equality filter). */
  function DatedOn(m: Table, d: int): Table {
    map k | k in m && m[k].data.date == d :: m[k]
  }

  /** `findOne({ date: d })`: some document with exactly that date, if there is one. */
  function FindOneByDate(m: Table, d: int): (r: Option<Game>)
    requires WellKeyed(m)
    ensures r.Some? <==> exists k | k in m :: m[k].data.date == d
    ensures r.Some? ==> r.value.id in m && m[r.value.id] == r.value && r.value.data.date == d
  {
    var hits := DateOrder(DatedOn(m, d));
    assert forall k | k in m && m[k].data.date == d :: k in DatedOn(m, d);
    if |hits| == 0 then
      assert DatedOn(m, d).Keys == {};
      None
    else
      assert hits[0].id in DatedOn(m, d);
      Some(hits[0])
  }

  /**
    While every stored date is a UTC midnight, today's game (the one
    getCurrentGame finds) is the first of the upcoming games getGames lists.
   */
  lemma CurrentGameLeadsUpcoming(m: Table, now: int)
    requires WellKeyed(m) && DatesNormalised(m)
    requires FindOneByDate(m, CurrentGameDate(now)).Some?
    ensures var upcoming := DateOrder(AtOrAfter(m, UpcomingCutoff(now)));
      |upcoming| > 0 && upcoming[0].data.date == CurrentGameDate(now)
  {
    var key, cutoff := CurrentGameDate(now), UpcomingCutoff(now);
    var current := FindOneByDate(m, key).value;
    var later := AtOrAfter(m, cutoff);
    var upcoming := DateOrder(later);
    assert current.id in later;
    assert current.id in multiset(Ids(upcoming));
    var i :| 0 <= i < |upcoming| && Ids(upcoming)[i] == current.id;
    assert upcoming[0].data.date <= upcoming[i].data.date == key;
    var first := upcoming[0].id;
    assert first in later && IsUtcMidnight(later[first].data.date);
    CutoffAgreesOnMidnights(upcoming[0].data.date, now);
  }

  /** updateGame does not re-check uniqueness: it can give a second document an existing date. */
  lemma UpdateCanDuplicateDate(m: Table, input: GameStructure, other: Id)
    requires DatesUnique(m) && input.id in m && other in m && other != input.id
    requires input.data.date == m[other].data.date
    ensures !DatesUnique(m[input.id := Updated(m[input.id], input)])
  {
    var after := m[input.id := Updated(m[input.id], input)];
    assert after[input.id].data.date == after[other].data.date;
  }

  /** updateGame does not re-derive `length`: a new word of another length leaves it stale. */
  lemma UpdateCanStaleLength(m: Table, input: GameStructure)
    requires LengthsMatch(m) && input.id in m
    requires |input.data.word| != |m[input.id].data.word|
    ensures !LengthsMatch(m[input.id := Updated(m[input.id], input)])
  {
    var after := m[input.id := Updated(m[input.id], input)];
    assert after[input.id].length != |after[input.id].data.word|;
  }

  /** updateGame does not normalise the date: a date off midnight is stored as given. */
  lemma UpdateCanDenormaliseDate(m: Table, input: GameStructure)
    requires DatesNormalised(m) && input.id in m
    requires !IsUtcMidnight(input.data.date)
    ensures !DatesNormalised(m[input.id := Updated(m[input.id], input)])
  {
    var after := m[input.id := Updated(m[input.id], input)];
    assert !IsUtcMidnight(after[input.id].data.date);
  }

  /** Exactly when an update keeps the dates unique: no other document already has the supplied date. */
  lemma UpdateKeepsDatesUniqueIff(m: Table, input: GameStructure)
    requires DatesUnique(m) && input.id in m
    ensures DatesUnique(m[input.id := Updated(m[input.id], input)])
      <==> forall k | k in m && k != input.id :: m[k].data.date != input.data.date
  {
    var after := m[input.id := Updated(m[input.id], input)];
    if forall k | k in m && k != input.id :: m[k].data.date != input.data.date {
      forall a, b | a in after && b in after && a != b
        ensures after[a].data.date != after[b].data.date
      {
        if a != input.id && b != input.id {
          assert after[a] == m[a] && after[b] == m[b];
        }
      }
    } else {
      var other :| other in m && other != input.id && m[other].data.date == input.data.date;
      UpdateCanDuplicateDate(m, input, other);
    }
  }

  /** Exactly when an update keeps `length` in step: the new word is as long as the stored `length`. */
  lemma UpdateKeepsLengthsIff(m: Table, input: GameStructure)
    requires LengthsMatch(m) && input.id in m
    ensures LengthsMatch(m[input.id := Updated(m[input.id], input)])
      <==> |input.data.word| == m[input.id].length
  {
    var after := m[input.id := Updated(m[input.id], input)];
    assert after[input.id].length == m[input.id].length && after[input.id].data == input.data;
    if |input.data.word| == m[input.id].length {
      forall k | k in after ensures after[k].length == |after[k].data.word| {
        if k != input.id {
          assert after[k] == m[k];
        }
      }
    }
  }
}

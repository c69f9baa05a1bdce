/**
 Filtering and ordering of consultation lists: the `Where` and the stable
 `OrderByDescending` on the consult date that both list queries of the
 service are built from.
 */
module Queries {
  import opened Consultations

  /**
   What a filter selects on: the two service queries filter by physician and
   by patient; `DateIs` is no service query, it only states what a stable
   sort keeps (`SameTies`).
   */
  datatype Criterion =
    | PhysicianIs(physicianId: string)
    | PatientIs(patientId: string)
    | DateIs(date: int)

  /** The record satisfies the criterion (exact string or timestamp equality). */
  predicate Matches(c: Consultation, k: Criterion) {
    match k
    case PhysicianIs(x) => c.physicianId == x
    case PatientIs(x) => c.patientId == x
    case DateIs(d) => c.consultDate == d
  }

  /** The records of `s` that satisfy `k`, in their order in `s`. */
  function Where(s: seq<Consultation>, k: Criterion): (r: seq<Consultation>)
    ensures |r| <= |s|
    ensures forall i :: 0 <= i < |r| ==> Matches(r[i], k)
  {
    if |s| == 0 then []
    else (if Matches(s[0], k) then [s[0]] else []) + Where(s[1..], k)
  }

  /** Most recent first: consult dates never increase along the sequence. */
  predicate SortedDesc(s: seq<Consultation>) {
    forall i, j :: 0 <= i < j < |s| ==> s[i].consultDate >= s[j].consultDate
  }

  /**
   `a` and `b` hold the same records of each consult date in the same
   relative order: what a stable sort by date keeps of its input.
   */
  ghost predicate SameTies(a: seq<Consultation>, b: seq<Consultation>) {
    forall d :: Where(a, DateIs(d)) == Where(b, DateIs(d))
  }

  /**
   Inserts `c` after every record of `s` that is at least as recent, so a
   record never overtakes one of the same date that came before it.
   */
  function InsertDesc(c: Consultation, s: seq<Consultation>): (r: seq<Consultation>)
    ensures multiset(r) == multiset(s) + multiset{c}
  {
    if |s| == 0 then [c]
    else if s[0].consultDate >= c.consultDate then
      assert s == [s[0]] + s[1..];
      [s[0]] + InsertDesc(c, s[1..])
    else [c] + s
  }

  /** Stable sort by consult date, most recent first (insertion sort, left to right). */
  function SortByDateDesc(s: seq<Consultation>): (r: seq<Consultation>)
    ensures multiset(r) == multiset(s)
  {
    if |s| == 0 then []
    else
      assert s == s[..|s| - 1] + [s[|s| - 1]];
      InsertDesc(s[|s| - 1], SortByDateDesc(s[..|s| - 1]))
  }

  /**
   LINQ `Where(k).OrderByDescending(c => c.ConsultDate)`: most recent first,
   with the matching records of each date in store order (which fixes the
   result, see OrderedWhereUnique), only matching records, and empty
   precisely when nothing matches.
   */
  function OrderedWhere(s: seq<Consultation>, k: Criterion): (r: seq<Consultation>)
    ensures SortedDesc(r)
    ensures SameTies(r, Where(s, k))
    ensures forall i :: 0 <= i < |r| ==> Matches(r[i], k)
    ensures |r| == 0 <==> forall i :: 0 <= i < |s| ==> !Matches(s[i], k)
  {
    var m := Where(s, k);
    SortByDateDescSorted(m);
    SortByDateDescTies(m);
    SortByDateDescMembers(m);
    WhereEmpty(s, k);
    SortByDateDesc(m)
  }

  /** The sort neither adds nor drops records. */
  lemma SortByDateDescMembers(s: seq<Consultation>)
    ensures |SortByDateDesc(s)| == |s|
    ensures forall i :: 0 <= i < |SortByDateDesc(s)| ==> SortByDateDesc(s)[i] in s
  {
    var r := SortByDateDesc(s);
    assert |r| == |multiset(r)| == |multiset(s)| == |s|;
    forall i | 0 <= i < |r|
      ensures r[i] in s
    {
      assert r[i] in multiset(r);
    }
  }

  /** Where is empty exactly when nothing matches. */
  lemma WhereEmpty(s: seq<Consultation>, k: Criterion)
    ensures |Where(s, k)| == 0 <==> forall i :: 0 <= i < |s| ==> !Matches(s[i], k)
  {
    WhereMembers(s, k);
    var m := Where(s, k);
    if |m| > 0 {
      assert m[0] in s;
    } else {
      forall i | 0 <= i < |s|
        ensures !Matches(s[i], k)
      {
        assert s[i] in s;
        assert s[i] !in m;
      }
    }
  }

  /** Same ties means the same records with the same multiplicities. */
  lemma SameTiesPermutation(a: seq<Consultation>, b: seq<Consultation>)
    requires SameTies(a, b)
    ensures multiset(a) == multiset(b)
  {
    forall c
      ensures multiset(a)[c] == multiset(b)[c]
    {
      var k := DateIs(c.consultDate);
      WhereMultiset(a, k, c);
      WhereMultiset(b, k, c);
      assert Where(a, k) == Where(b, k);
    }
  }

  /** The ordered query holds each matching record as often as the input, and nothing else. */
  lemma OrderedWherePermutation(s: seq<Consultation>, k: Criterion)
    ensures forall c :: multiset(OrderedWhere(s, k))[c] == if Matches(c, k) then multiset(s)[c] else 0
  {
    SameTiesPermutation(OrderedWhere(s, k), Where(s, k));
    forall c
      ensures multiset(Where(s, k))[c] == if Matches(c, k) then multiset(s)[c] else 0
    {
      WhereMultiset(s, k, c);
    }
  }

  lemma {:induction false} WhereConcat(a: seq<Consultation>, b: seq<Consultation>, k: Criterion)
    ensures Where(a + b, k) == Where(a, k) + Where(b, k)
    decreases |a|
  {
    if |a| == 0 {
      assert a + b == b;
    } else {
      assert (a + b)[0] == a[0];
      assert (a + b)[1..] == a[1..] + b;
      WhereConcat(a[1..], b, k);
    }
  }

  /** A record is in the result of Where exactly when it is in the input and matches. */
  lemma {:induction false} WhereMembers(s: seq<Consultation>, k: Criterion)
    ensures forall c :: c in Where(s, k) <==> c in s && Matches(c, k)
    decreases |s|
  {
    if |s| > 0 {
      WhereMembers(s[1..], k);
      assert s == [s[0]] + s[1..];
    }
  }

  /** Where of a sequence that has no matching record is empty. */
  lemma WhereNone(s: seq<Consultation>, k: Criterion)
    requires forall i :: 0 <= i < |s| ==> !Matches(s[i], k)
    ensures Where(s, k) == []
  {
  }

  /** Where keeps every matching record with its multiplicity and drops the rest. */
  lemma {:induction false} WhereMultiset(s: seq<Consultation>, k: Criterion, c: Consultation)
    ensures multiset(Where(s, k))[c] == if Matches(c, k) then multiset(s)[c] else 0
    decreases |s|
  {
    if |s| > 0 {
      assert s == [s[0]] + s[1..];
      WhereMultiset(s[1..], k, c);
    }
  }

  lemma {:induction false} InsertDescSorted(c: Consultation, s: seq<Consultation>)
    requires SortedDesc(s)
    ensures SortedDesc(InsertDesc(c, s))
    decreases |s|
  {
    if |s| > 0 && s[0].consultDate >= c.consultDate {
      var t := InsertDesc(c, s[1..]);
      InsertDescSorted(c, s[1..]);
      forall j | 0 <= j < |t|
        ensures t[j].consultDate <= s[0].consultDate
      {
        assert t[j] in multiset(t);
        if t[j] != c {
          assert t[j] in multiset(s[1..]);
          var q :| 0 <= q < |s[1..]| && s[1..][q] == t[j];
          assert s[q + 1] == t[j];
        }
      }
      assert InsertDesc(c, s) == [s[0]] + t;
    }
  }

  /** Where on a sequence with a known first record. */
  lemma WhereCons(x: Consultation, s: seq<Consultation>, k: Criterion)
    ensures Where([x] + s, k) == (if Matches(x, k) then [x] else []) + Where(s, k)
  {
    assert ([x] + s)[0] == x;
    assert ([x] + s)[1..] == s;
  }

  /** Inserting `c` into a sorted list adds `c` at the end of its own date's records. */
  lemma {:induction false} InsertDescTies(c: Consultation, s: seq<Consultation>, d: int)
    requires SortedDesc(s)
    ensures Where(InsertDesc(c, s), DateIs(d)) == Where(s, DateIs(d)) + Where([c], DateIs(d))
    decreases |s|
  {
    if |s| == 0 {
      assert InsertDesc(c, s) == [c];
    } else if s[0].consultDate >= c.consultDate {
      InsertDescTies(c, s[1..], d);
      InsertBehindTies(c, s, d);
    } else {
      InsertInFrontTies(c, s, d);
    }
  }

  /** One step of the insertion passing the first record `s[0]`. */
  lemma InsertBehindTies(c: Consultation, s: seq<Consultation>, d: int)
    requires |s| > 0 && s[0].consultDate >= c.consultDate
    requires Where(InsertDesc(c, s[1..]), DateIs(d)) == Where(s[1..], DateIs(d)) + Where([c], DateIs(d))
    ensures Where(InsertDesc(c, s), DateIs(d)) == Where(s, DateIs(d)) + Where([c], DateIs(d))
  {
    WhereConsAppend(s[0], InsertDesc(c, s[1..]), s[1..], Where([c], DateIs(d)), DateIs(d));
  }

  /** Putting the same record in front of `t` and `u` keeps a trailing difference of Where. */
  lemma WhereConsAppend(x: Consultation, t: seq<Consultation>, u: seq<Consultation>,
                        tail: seq<Consultation>, k: Criterion)
    requires Where(t, k) == Where(u, k) + tail
    ensures Where([x] + t, k) == Where([x] + u, k) + tail
  {
    WhereCons(x, t, k);
    WhereCons(x, u, k);
    var h := if Matches(x, k) then [x] else [];
    assert h + (Where(u, k) + tail) == (h + Where(u, k)) + tail;
  }

  /** `c` more recent than every record of sorted `s`: no record of `s` shares its date. */
  lemma InsertInFrontTies(c: Consultation, s: seq<Consultation>, d: int)
    requires SortedDesc(s)
    requires |s| > 0 && s[0].consultDate < c.consultDate
    ensures Where([c] + s, DateIs(d)) == Where(s, DateIs(d)) + Where([c], DateIs(d))
  {
    WhereCons(c, s, DateIs(d));
    WhereCons(c, [], DateIs(d));
    if c.consultDate == d {
      WhereNone(s, DateIs(d));
    }
  }

  lemma {:induction false} SortByDateDescSorted(s: seq<Consultation>)
    ensures SortedDesc(SortByDateDesc(s))
    decreases |s|
  {
    if |s| > 0 {
      SortByDateDescSorted(s[..|s| - 1]);
      InsertDescSorted(s[|s| - 1], SortByDateDesc(s[..|s| - 1]));
    }
  }

  /** The sort is stable: each date's records keep their input order. */
  lemma {:induction false} SortByDateDescTies(s: seq<Consultation>)
    ensures SameTies(SortByDateDesc(s), s)
    decreases |s|
  {
    if |s| > 0 {
      var init, x := s[..|s| - 1], s[|s| - 1];
      assert s == init + [x];
      SortByDateDescSorted(init);
      SortByDateDescTies(init);
      forall d
        ensures Where(SortByDateDesc(s), DateIs(d)) == Where(s, DateIs(d))
      {
        InsertDescTies(x, SortByDateDesc(init), d);
        WhereConcat(init, [x], DateIs(d));
      }
    }
  }

  /**
   A sorted sequence is determined by its per-date subsequences: two sorted
   sequences with the same ties are equal.
   */
  lemma {:induction false} SortedTiesUnique(a: seq<Consultation>, b: seq<Consultation>)
    requires SortedDesc(a) && SortedDesc(b)
    requires SameTies(a, b)
    ensures a == b
    decreases |a| + |b|
  {
    if |a| == 0 || |b| == 0 {
      assert |a| == |b| == 0 by {
        assert |a| > 0 ==> a[0] in Where(a, DateIs(a[0].consultDate));
        assert |b| > 0 ==> b[0] in Where(b, DateIs(b[0].consultDate));
      }
    } else {
      var da, db := a[0].consultDate, b[0].consultDate;
      if da > db {
        WhereNone(b, DateIs(da));
        assert false;
      } else if da < db {
        WhereNone(a, DateIs(db));
        assert false;
      }
      HeadTies(a, b);
      assert a == [a[0]] + a[1..];
      assert b == [b[0]] + b[1..];
      SortedTiesUnique(a[1..], b[1..]);
    }
  }

  /** Two sequences with the same ties whose first records share a date start alike. */
  lemma HeadTies(a: seq<Consultation>, b: seq<Consultation>)
    requires |a| > 0 && |b| > 0 && a[0].consultDate == b[0].consultDate
    requires SameTies(a, b)
    ensures a[0] == b[0]
    ensures SameTies(a[1..], b[1..])
  {
    assert a == [a[0]] + a[1..];
    assert b == [b[0]] + b[1..];
    var da := a[0].consultDate;
    forall d
      ensures Where(a[1..], DateIs(d)) == Where(b[1..], DateIs(d))
    {
      var wa, wb := Where(a[1..], DateIs(d)), Where(b[1..], DateIs(d));
      assert Where(a, DateIs(d)) == Where(b, DateIs(d));
      WhereCons(a[0], a[1..], DateIs(d));
      WhereCons(b[0], b[1..], DateIs(d));
      if d == da {
        assert ([a[0]] + wa)[1..] == wa;
        assert ([b[0]] + wb)[1..] == wb;
      } else {
        assert !Matches(a[0], DateIs(d));
        assert !Matches(b[0], DateIs(d));
        assert Where(a, DateIs(d)) == wa;
        assert Where(b, DateIs(d)) == wb;
      }
    }
    var wa, wb := Where(a[1..], DateIs(da)), Where(b[1..], DateIs(da));
    WhereCons(a[0], a[1..], DateIs(da));
    WhereCons(b[0], b[1..], DateIs(da));
    assert ([a[0]] + wa)[0] == a[0];
    assert ([b[0]] + wb)[0] == b[0];
  }

  /**
   The reference characterisation of the query: any most-recent-first
   arrangement of the matching records that keeps store order among equal
   dates is exactly the result.
   */
  lemma OrderedWhereUnique(s: seq<Consultation>, k: Criterion, r: seq<Consultation>)
    requires SortedDesc(r)
    requires SameTies(r, Where(s, k))
    ensures r == OrderedWhere(s, k)
  {
    var q := OrderedWhere(s, k);
    forall d
      ensures Where(r, DateIs(d)) == Where(q, DateIs(d))
    {
      assert Where(r, DateIs(d)) == Where(Where(s, k), DateIs(d));
      assert Where(q, DateIs(d)) == Where(Where(s, k), DateIs(d));
    }
    SortedTiesUnique(r, q);
  }
}

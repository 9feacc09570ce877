/** What a pruned depth-first search may report, compared with testing every candidate.

    `must` are the candidates an answer may not miss, `may` those it is allowed to contain;
    when the two agree the answer is the brute-force one. */
module Search {

  /** `r` is a possible report for the candidates `ps`, visited in order: every reported one
      is in `may`, every skipped one is outside `must`, and in first-contact mode the search
      stops at the first report. */
  ghost predicate Reports<T>(must: set<T>, may: set<T>, first: bool, ps: seq<T>, r: seq<T>) {
    if ps == [] then r == []
    else
      || (ps[0] in may && r != [] && r[0] == ps[0] && (if first then r == [ps[0]] else Reports(must, may, first, ps[1..], r[1..])))
      || (ps[0] !in must && Reports(must, may, first, ps[1..], r))
  }

  /** Two consecutive searches, the second one skipped after a first contact. */
  lemma {:induction false} ReportsJoin<T>(must: set<T>, may: set<T>, first: bool, ps: seq<T>, r: seq<T>, qs: seq<T>, s: seq<T>)
    requires Reports(must, may, first, ps, r)
    requires if first && r != [] then s == [] else Reports(must, may, first, qs, s)
    ensures Reports(must, may, first, ps + qs, r + s)
  {
    if ps == [] {
      assert ps + qs == qs && r + s == s;
    } else {
      assert (ps + qs)[1..] == ps[1..] + qs;
      if ps[0] in may && r != [] && r[0] == ps[0] && (if first then r == [ps[0]] else Reports(must, may, first, ps[1..], r[1..])) {
        if first {
          assert r + s == [ps[0]];
        } else {
          ReportsJoin(must, may, first, ps[1..], r[1..], qs, s);
          assert (r + s)[1..] == r[1..] + s;
        }
      } else {
        ReportsJoin(must, may, first, ps[1..], r, qs, s);
      }
    }
  }

  /** Pruning: nothing has to be reported, so nothing is. */
  lemma {:induction false} ReportNothing<T>(must: set<T>, may: set<T>, first: bool, ps: seq<T>)
    requires forall p :: p in ps ==> p !in must
    ensures Reports(must, may, first, ps, [])
  {
    if ps != [] {
      ReportNothing(must, may, first, ps[1..]);
    }
  }

  /** Dumping: everything may be reported, so all of it is (one of it in first-contact mode). */
  lemma {:induction false} ReportAll<T>(must: set<T>, may: set<T>, first: bool, ps: seq<T>)
    requires forall p :: p in ps ==> p in may
    ensures Reports(must, may, first, ps, UpToFirst(first, ps))
  {
    if ps != [] && !first {
      ReportAll(must, may, first, ps[1..]);
    }
  }

  /** A report stays possible when less must and more may be reported; only the criterion's
      verdicts on the candidates matter. */
  lemma {:induction false} SameVerdicts<T>(must: set<T>, may: set<T>, must': set<T>, may': set<T>, first: bool, ps: seq<T>, r: seq<T>)
    requires Reports(must, may, first, ps, r)
    requires forall p :: p in ps ==> (p in must' ==> p in must) && (p in may ==> p in may')
    ensures Reports(must', may', first, ps, r)
  {
    if ps != [] {
      if ps[0] in may && r != [] && r[0] == ps[0] && (if first then r == [ps[0]] else Reports(must, may, first, ps[1..], r[1..])) {
        if !first { SameVerdicts(must, may, must', may', first, ps[1..], r[1..]); }
      } else {
        SameVerdicts(must, may, must', may', first, ps[1..], r);
      }
    }
  }

  // ------------------------------------------------------- what a report means

  /** Brute force: the candidates in `hits`, in order. */
  function Filter<T(==)>(hits: set<T>, ps: seq<T>): seq<T> {
    if ps == [] then [] else (if ps[0] in hits then [ps[0]] else []) + Filter(hits, ps[1..])
  }

  /** A list, or its head if the search stops at the first report. */
  function UpToFirst<T>(first: bool, all: seq<T>): seq<T> {
    if first && all != [] then [all[0]] else all
  }

  /** An exact criterion leaves one possible report: the brute-force list, or its head. */
  lemma {:induction false} ExactReport<T>(hits: set<T>, first: bool, ps: seq<T>, r: seq<T>)
    requires Reports(hits, hits, first, ps, r)
    ensures r == UpToFirst(first, Filter(hits, ps))
  {
    if ps != [] {
      if ps[0] in hits {
        if !first { ExactReport(hits, first, ps[1..], r[1..]); }
      } else {
        ExactReport(hits, first, ps[1..], r);
      }
    }
  }

  lemma {:induction false} FilterJoin<T>(hits: set<T>, ps: seq<T>, qs: seq<T>)
    ensures Filter(hits, ps + qs) == Filter(hits, ps) + Filter(hits, qs)
  {
    if ps == [] {
      assert ps + qs == qs;
    } else {
      var front := if ps[0] in hits then [ps[0]] else [];
      var rest, back := Filter(hits, ps[1..]), Filter(hits, qs);
      FilterJoin(hits, ps[1..], qs);
      assert (ps + qs)[0] == ps[0] && (ps + qs)[1..] == ps[1..] + qs;
      assert Filter(hits, ps + qs) == front + (rest + back) == front + rest + back;
    }
  }

  lemma {:induction false} FilterIsReport<T>(hits: set<T>, ps: seq<T>)
    ensures Reports(hits, hits, false, ps, Filter(hits, ps))
  {
    if ps != [] {
      FilterIsReport(hits, ps[1..]);
      var rest := Filter(hits, ps[1..]);
      if ps[0] in hits {
        assert Filter(hits, ps) == [ps[0]] + rest && ([ps[0]] + rest)[1..] == rest;
      } else {
        assert Filter(hits, ps) == [] + rest == rest;
      }
    }
  }

  lemma {:induction false} FilterMembers<T>(hits: set<T>, ps: seq<T>, p: T)
    ensures p in Filter(hits, ps) <==> p in hits && p in ps
  {
    if ps != [] {
      FilterMembers(hits, ps[1..], p);
      assert p in ps <==> p == ps[0] || p in ps[1..];
    }
  }

  function Occurrences<T(==)>(ps: seq<T>, p: T): nat { multiset(ps)[p] }

  lemma OccurrencesJoin<T>(a: seq<T>, b: seq<T>, p: T)
    ensures Occurrences(a + b, p) == Occurrences(a, p) + Occurrences(b, p)
  {}

  lemma OccurrencesMember<T>(a: seq<T>, p: T)
    ensures p in a <==> 0 < Occurrences(a, p)
  {}

  lemma SameLength<T>(a: seq<T>, b: seq<T>)
    requires forall x :: Occurrences(a, x) == Occurrences(b, x)
    ensures |a| == |b|
  {
    assert multiset(a) == multiset(b) by {
      forall x | true ensures multiset(a)[x] == multiset(b)[x] { assert Occurrences(a, x) == Occurrences(b, x); }
    }
    assert |multiset(a)| == |a| && |multiset(b)| == |b|;
  }

  /** All-contacts mode: no candidate of `must` is missed, nothing outside `may` is reported,
      and nothing is reported more often than it was a candidate. */
  lemma {:induction false} AllContacts<T>(must: set<T>, may: set<T>, ps: seq<T>, r: seq<T>, p: T)
    requires Reports(must, may, false, ps, r)
    ensures p in must ==> Occurrences(r, p) == Occurrences(ps, p)
    ensures Occurrences(r, p) <= Occurrences(ps, p) && (p !in may ==> p !in r)
  {
    if ps != [] {
      assert ps == [ps[0]] + ps[1..];
      if ps[0] in may && r != [] && r[0] == ps[0] && Reports(must, may, false, ps[1..], r[1..]) {
        assert r == [r[0]] + r[1..];
        AllContacts(must, may, ps[1..], r[1..], p);
      } else {
        AllContacts(must, may, ps[1..], r, p);
      }
    }
  }

  /** First-contact mode: at most one report, an allowed candidate, and one as soon as some
      candidate is in `must`. */
  lemma {:induction false} FirstContact<T>(must: set<T>, may: set<T>, ps: seq<T>, r: seq<T>)
    requires Reports(must, may, true, ps, r)
    ensures |r| <= 1 && (r != [] ==> r[0] in ps && r[0] in may)
    ensures (exists p :: p in ps && p in must) ==> |r| == 1
  {
    if ps != [] {
      if !(ps[0] in may && r == [ps[0]]) {
        FirstContact(must, may, ps[1..], r);
        assert forall p :: p in ps && p in must ==> p in ps[1..];
      }
    }
  }

  /** Without repeated candidates the list has as many entries as there are hits. */
  lemma {:induction false} FilterSize<T>(hits: set<T>, ps: seq<T>)
    requires (forall i, j :: 0 <= i < j < |ps| ==> ps[i] != ps[j]) && (forall h :: h in hits ==> h in ps)
    ensures |Filter(hits, ps)| == |hits|
  {
    if ps == [] {
      assert hits == {};
    } else {
      var rest := hits - {ps[0]};
      FilterSize(rest, ps[1..]);
      SameFilter(hits, rest, ps[1..]);
      if ps[0] in hits { assert hits == rest + {ps[0]}; } else { assert hits == rest; }
    }
  }

  lemma {:induction false} SameFilter<T>(a: set<T>, b: set<T>, ps: seq<T>)
    requires forall p :: p in ps ==> (p in a <==> p in b)
    ensures Filter(a, ps) == Filter(b, ps)
  {
    if ps != [] { SameFilter(a, b, ps[1..]); }
  }

  // ------------------------------------------------------------ whole queries

  /** The answer of a whole query. In first-contact mode it may come from the cache, so only
      its status and validity are determined. */
  ghost predicate Answered<T(!new)>(must: set<T>, may: set<T>, first: bool, ps: seq<T>, touched: seq<T>, contact: bool) {
    && (contact <==> touched != [])
    && if first then
         && |touched| <= 1 && (touched != [] ==> touched[0] in ps && touched[0] in may)
         && ((exists p :: p in ps && p in must) ==> contact)
       else Reports(must, may, false, ps, touched)
  }

  /** An exact criterion makes the status of a first-contact query, cached or not, the
      existence of a brute-force hit, and an all-contacts answer the brute-force list. */
  lemma ExactAnswer<T(!new)>(hits: set<T>, first: bool, ps: seq<T>, touched: seq<T>, contact: bool)
    requires Answered(hits, hits, first, ps, touched, contact)
    ensures contact <==> exists p :: p in ps && p in hits
    ensures !first ==> touched == Filter(hits, ps)
  {
    if !first {
      ExactReport(hits, false, ps, touched);
      if touched != [] { FilterMembers(hits, ps, touched[0]); }
      forall p | p in ps && p in hits ensures touched != [] { FilterMembers(hits, ps, p); }
    }
  }
}

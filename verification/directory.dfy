/**
 The provider search (`_find_doctors_in_db`): optional specialization and
 location filters, each a case-insensitive substring match, ranked by
 experience from most to least, at most five answers.
 */
module Directory {
  import opened Text
  import opened Sorting
  import opened Schema

  const RESULT_LIMIT: nat := 5
  const PHYSICIAN: string := "physician"
  const GENERAL_PHYSICIAN: string := "General Physician"

  /** Any specialization mentioning "physician" is searched as "General Physician". */
  function SearchTerm(specialization: string): string
  {
    if Contains(Lower(specialization), PHYSICIAN) then GENERAL_PHYSICIAN else specialization
  }

  /** `field LIKE '%term%'`: a substring match that ignores letter case. */
  predicate Like(field: string, term: string)
  {
    Contains(Lower(field), Lower(term))
  }

  /** The `WHERE` clause: an empty filter imposes nothing. */
  predicate Admits(d: Doctor, specialization: string, location: string)
  {
    && (specialization == "" || Like(d.specialization, SearchTerm(specialization)))
    && (location == "" || Like(d.location, location))
  }

  /** The rows the `WHERE` clause keeps, in table order. */
  function Matching(doctors: seq<Doctor>, specialization: string, location: string): (r: seq<Doctor>)
    ensures forall d :: multiset(r)[d] == if Admits(d, specialization, location) then multiset(doctors)[d] else 0
    decreases |doctors|
  {
    if |doctors| == 0 then []
    else
      assert doctors == [doctors[0]] + doctors[1..];
      (if Admits(doctors[0], specialization, location) then [doctors[0]] else [])
      + Matching(doctors[1..], specialization, location)
  }

  /** `ORDER BY experience_years DESC`: `a` may be listed before `b`. */
  predicate MoreExperienced(a: Doctor, b: Doctor)
  {
    a.experience >= b.experience
  }

  lemma MoreExperiencedIsPreorder()
    ensures TotalPreorder(MoreExperienced)
  {
  }

  datatype SearchReply =
    | Found(doctors: seq<Doctor>)
    | NoDoctors

  function Min(a: int, b: int): int
  {
    if a <= b then a else b
  }

  /**
   The search: either the "no doctors" answer, exactly when no doctor passes
   the filters, or one to five doctors, each from the table and passing the
   filters, listed from most to least experienced.
   */
  function Search(s: Store, specialization: string, location: string): (r: SearchReply)
    ensures r.NoDoctors? <==> forall d :: d in s.doctors ==> !Admits(d, specialization, location)
    ensures r.Found? ==> 1 <= |r.doctors| <= RESULT_LIMIT
    ensures r.Found? ==> forall d :: d in r.doctors ==> d in s.doctors && Admits(d, specialization, location)
    ensures r.Found? ==> Sorted(r.doctors, MoreExperienced)
  {
    var ranked := Ranked(s.doctors, specialization, location);
    RankedMatches(s.doctors, specialization, location);
    if |ranked| == 0 then NoDoctors
    else
      var top := ranked[..Min(RESULT_LIMIT, |ranked|)];
      SortedPrefix(ranked, |top|, MoreExperienced);
      Found(top)
  }

  /** The matching rows in `ORDER BY experience_years DESC` order. */
  function Ranked(doctors: seq<Doctor>, specialization: string, location: string): seq<Doctor>
  {
    SortBy(Matching(doctors, specialization, location), MoreExperienced)
  }

  lemma RankedMatches(doctors: seq<Doctor>, specialization: string, location: string)
    ensures var ranked := Ranked(doctors, specialization, location);
      && (forall d :: d in ranked <==> d in doctors && Admits(d, specialization, location))
      && Sorted(ranked, MoreExperienced)
  {
    var m := Matching(doctors, specialization, location);
    var ranked := Ranked(doctors, specialization, location);
    MoreExperiencedIsPreorder();
    forall d
      ensures d in ranked <==> d in doctors && Admits(d, specialization, location)
    {
      assert d in ranked <==> d in multiset(m);
      assert d in doctors <==> d in multiset(doctors);
    }
  }

  /**
   The answer is exactly a top five: as many doctors as match, up to five,
   none listed more often than it matches, and no matching doctor left out is
   more experienced than any doctor listed.
   */
  lemma SearchIsTopFive(s: Store, specialization: string, location: string)
    requires Search(s, specialization, location).Found?
    ensures var r := Search(s, specialization, location).doctors;
      var m := Matching(s.doctors, specialization, location);
      && |r| == Min(RESULT_LIMIT, |m|)
      && multiset(r) <= multiset(m)
      && forall x, y :: x in multiset(m) - multiset(r) && y in r ==> x.experience <= y.experience
  {
    var m := Matching(s.doctors, specialization, location);
    var ranked := Ranked(s.doctors, specialization, location);
    MoreExperiencedIsPreorder();
    var k := Min(RESULT_LIMIT, |ranked|);
    SortedSplit(ranked, k, MoreExperienced);
    assert multiset(ranked) == multiset(m);
    assert |m| == |multiset(m)| == |ranked|;
    forall x, y | x in multiset(m) - multiset(ranked[..k]) && y in ranked[..k]
      ensures x.experience <= y.experience
    {
      assert x in multiset(ranked[k..]);
      assert MoreExperienced(y, x);
    }
  }

  /** Any specialization mentioning "physician", in any case, selects only General Physicians. */
  lemma PhysicianMeansGeneralPhysician(specialization: string, d: Doctor, location: string)
    requires Contains(Lower(specialization), PHYSICIAN)
    requires Admits(d, specialization, location)
    ensures Contains(Lower(d.specialization), "general physician")
  {
    assert Lower(GENERAL_PHYSICIAN) == "general physician";
  }

  /** When every doctor passes the filters, all are candidates, in table order. */
  lemma {:induction false} AllAdmittedMatchAll(doctors: seq<Doctor>, specialization: string, location: string)
    requires forall d :: d in doctors ==> Admits(d, specialization, location)
    ensures Matching(doctors, specialization, location) == doctors
    decreases |doctors|
  {
    if |doctors| > 0 {
      var rest := doctors[1..];
      assert doctors[0] in doctors;
      forall d | d in rest
        ensures Admits(d, specialization, location)
      {
        assert d in doctors;
      }
      AllAdmittedMatchAll(rest, specialization, location);
      assert Matching(doctors, specialization, location) == [doctors[0]] + Matching(rest, specialization, location);
      assert doctors == [doctors[0]] + rest;
    }
  }

  /** With both filters empty every doctor is a candidate, in table order. */
  lemma {:induction false} UnfilteredMatchesAll(doctors: seq<Doctor>)
    ensures Matching(doctors, "", "") == doctors
    decreases |doctors|
  {
    if |doctors| > 0 {
      UnfilteredMatchesAll(doctors[1..]);
    }
  }
}

/** Which student the attendance handler recognises for a query encoding.

    The handler walks the student collection in store order and stops at the FIRST student
    whose encoding is within the threshold of the query; it does not look for the nearest
    one. `FirstMatch` is that decision as a function of the store and the query; the lemmas
    below state what it promises and how it responds to a registration. */
module Recognition {
  import opened Wrappers
  import opened Distance
  import opened Records

  /** The stored student at index `i` is recognised for the query `q`. */
  predicate MatchesAt(students: seq<Student>, q: seq<real>, i: int)
    requires 0 <= i < |students|
  {
    IsMatch(q, students[i].faceEncoding)
  }

  /** The index of the first student at or after `from` that is recognised for `q`, if any. */
  function FirstMatchFrom(students: seq<Student>, q: seq<real>, from: nat): (r: Option<nat>)
    requires from <= |students|
    ensures r.Some? ==>
      && from <= r.value < |students|
      && MatchesAt(students, q, r.value)
      && (forall j :: from <= j < r.value ==> !MatchesAt(students, q, j))
    ensures r.None? ==> forall j :: from <= j < |students| ==> !MatchesAt(students, q, j)
    decreases |students| - from
  {
    if from == |students| then None
    else if MatchesAt(students, q, from) then Some(from)
    else FirstMatchFrom(students, q, from + 1)
  }

  /** The index of the student the scan recognises for `q`: the first one in store order
      within the threshold. No earlier student is a match (its distance is 0.5 or more, or
      its encoding is shorter than the query); `None` when no student matches. */
  function FirstMatch(students: seq<Student>, q: seq<real>): (r: Option<nat>)
    ensures r.Some? ==>
      && r.value < |students|
      && MatchesAt(students, q, r.value)
      && (forall j :: 0 <= j < r.value ==> !MatchesAt(students, q, j))
    ensures r.None? <==> forall j :: 0 <= j < |students| ==> !MatchesAt(students, q, j)
  {
    FirstMatchFrom(students, q, 0)
  }

  /** The first-match property determines the result: `k` is what `FirstMatch` returns
      exactly when student `k` matches and no earlier one does. */
  lemma FirstMatchIsUnique(students: seq<Student>, q: seq<real>, k: nat)
    ensures FirstMatch(students, q) == Some(k) <==>
      && k < |students|
      && MatchesAt(students, q, k)
      && (forall j :: 0 <= j < k ==> !MatchesAt(students, q, j))
  {
  }

  /** An empty store recognises nobody. */
  lemma EmptyStoreRecognisesNobody(q: seq<real>)
    ensures FirstMatch([], q) == None
  {
  }

  /** Registering one more student never changes a recognition that already succeeded; the
      new student can only be recognised when nobody earlier is. */
  lemma FirstMatchAfterAppend(students: seq<Student>, s: Student, q: seq<real>)
    ensures FirstMatch(students + [s], q) ==
      if FirstMatch(students, q).Some? then FirstMatch(students, q)
      else if IsMatch(q, s.faceEncoding) then Some(|students|)
      else None
  {
    var all := students + [s];
    forall j | 0 <= j < |students|
      ensures MatchesAt(all, q, j) == MatchesAt(students, q, j)
    {
      assert all[j] == students[j];
    }
    assert all[|students|] == s;
    var r := FirstMatch(students, q);
    if r.Some? {
      FirstMatchIsUnique(all, q, r.value);
    } else if IsMatch(q, s.faceEncoding) {
      FirstMatchIsUnique(all, q, |students|);
    } else {
      assert forall j :: 0 <= j < |all| ==> !MatchesAt(all, q, j);
    }
  }

  /** A query equal to a stored student's encoding (up to the query's length) is recognised,
      as that student or as an earlier one. */
  lemma StoredEncodingIsRecognised(students: seq<Student>, q: seq<real>, k: nat)
    requires k < |students|
    requires |q| <= |students[k].faceEncoding| && students[k].faceEncoding[..|q|] == q
    ensures FirstMatch(students, q).Some? && FirstMatch(students, q).value <= k
  {
    ExactEncodingMatches(q, students[k].faceEncoding);
    assert MatchesAt(students, q, k);
  }

  /** The empty query encoding is at distance zero from every stored encoding, so it is
      recognised as the first stored student whenever there is one. */
  lemma EmptyQueryRecognisesFirst(students: seq<Student>)
    ensures FirstMatch(students, []) == if students == [] then None else Some(0)
  {
    if students != [] {
      assert MatchesAt(students, [], 0);
    }
  }
}

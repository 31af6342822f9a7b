/** Choosing among the answers of several upstreams by the order they arrive in (src/dns_client.rs). */
module Upstream {
  import opened Common
  import opened Messages
  import opened Lookups

  predicate NonEmpty(r: LookupResult) { r.Answer? && r.response.message.answers != [] }

  predicate Empty(r: LookupResult) { r.Answer? && r.response.message.answers == [] }

  /** The kinds of result `select_response` tells apart, the best first. */
  datatype Grade = Best | EmptyAnswer | NegativeError | Failure

  function GradeOf(r: LookupResult, preferNonEmpty: bool): Grade {
    if NonEmpty(r) then Best
    else if Empty(r) then (if preferNonEmpty then EmptyAnswer else Best)
    else if IsNegativeError(r) then (if preferNonEmpty then NegativeError else Best)
    else Failure
  }

  /** The first result of a grade. */
  function First(rs: seq<LookupResult>, g: Grade, prefer: bool): (r: Option<nat>)
    ensures r.Some? ==> r.value < |rs|
  {
    if rs == [] then None
    else
      var last := |rs| - 1;
      match First(rs[..last], g, prefer)
      case Some(i) => Some(i)
      case None => if GradeOf(rs[last], prefer) == g then Some(last) else None
  }

  lemma {:induction false} FirstIsFirst(rs: seq<LookupResult>, g: Grade, prefer: bool)
    ensures var r := First(rs, g, prefer);
            && (r.None? <==> forall i :: 0 <= i < |rs| ==> GradeOf(rs[i], prefer) != g)
            && (r.Some? ==>
                  GradeOf(rs[r.value], prefer) == g && forall i :: 0 <= i < r.value ==> GradeOf(rs[i], prefer) != g)
  {
    hide GradeOf;
    if rs != [] {
      var last := |rs| - 1;
      FirstIsFirst(rs[..last], g, prefer);
      assert forall i :: 0 <= i < last ==> rs[..last][i] == rs[i];
    }
  }

  lemma FirstOfNext(rs: seq<LookupResult>, k: nat, g: Grade, prefer: bool)
    requires k < |rs|
    ensures First(rs[..k + 1], g, prefer) ==
            match First(rs[..k], g, prefer)
            case Some(i) => Some(i)
            case None => if GradeOf(rs[k], prefer) == g then Some(k) else None
  {
    hide GradeOf;
    assert rs[..k + 1][..k] == rs[..k];
  }

  /** The ranking: the first of the best grade any result has; among failures, the last. */
  function Ranked(rs: seq<LookupResult>, prefer: bool): LookupResult
    requires rs != []
  {
    match First(rs, Best, prefer)
    case Some(i) => rs[i]
    case None =>
      match First(rs, EmptyAnswer, prefer)
      case Some(i) => rs[i]
      case None =>
        match First(rs, NegativeError, prefer)
        case Some(i) => rs[i]
        case None => rs[|rs| - 1]
  }

  /** How good a result is, the best first: an answer with records; an answer without, when those are preferred; a
      negative reply that came as an error; any other error. */
  function Rank(r: LookupResult, preferNonEmpty: bool): nat {
    if r.Answer? && r.response.message.answers != [] then 0
    else if r.Answer? then (if preferNonEmpty then 1 else 0)
    else if IsNegativeError(r) then (if preferNonEmpty then 2 else 0)
    else 3
  }

  /** No result ranks before the ranked one, and none of its rank came earlier, or among failures later. */
  lemma RankedIsBest(rs: seq<LookupResult>, prefer: bool)
    requires rs != []
    ensures exists i :: 0 <= i < |rs| && IsBest(rs, prefer, i) && Ranked(rs, prefer) == rs[i]
  {
    FirstIsFirst(rs, Best, prefer);
    FirstIsFirst(rs, EmptyAnswer, prefer);
    FirstIsFirst(rs, NegativeError, prefer);
    hide First;
    forall i | 0 <= i < |rs| ensures GradeOf(rs[i], prefer) == RankGrade(Rank(rs[i], prefer)) {
    }
    var best, empty, negative := First(rs, Best, prefer), First(rs, EmptyAnswer, prefer),
        First(rs, NegativeError, prefer);
    var i := if best.Some? then best.value else if empty.Some? then empty.value
             else if negative.Some? then negative.value else |rs| - 1;
    assert IsBest(rs, prefer, i);
  }

  function RankGrade(n: nat): Grade {
    if n == 0 then Best else if n == 1 then EmptyAnswer else if n == 2 then NegativeError else Failure
  }

  ghost predicate IsBest(rs: seq<LookupResult>, prefer: bool, i: nat)
    requires i < |rs|
  {
    var rank := Rank(rs[i], prefer);
    && (forall j :: 0 <= j < |rs| ==> rank <= Rank(rs[j], prefer))
    && (rank < 3 ==> forall j :: 0 <= j < i ==> Rank(rs[j], prefer) != rank)
    && (rank == 3 ==> i == |rs| - 1)
  }

  /** `select_response` over the results in the order they arrive: the ranked one, and never without a last error to
      give. */
  method SelectResponse(arrivals: seq<LookupResult>, preferNonEmpty: bool) returns (r: LookupResult)
    requires arrivals != []
    ensures r == Ranked(arrivals, preferNonEmpty)
  {
    hide First;
    NoneOfNothing(arrivals, preferNonEmpty);
    var empty: Option<LookupResult>, noRecords: Option<LookupResult> := None, None;
    var lastError: Option<LookupResult> := None;
    var k := 0;
    while true
      invariant 0 <= k < |arrivals|
      invariant First(arrivals[..k], Best, preferNonEmpty) == None
      invariant empty == match First(arrivals[..k], EmptyAnswer, preferNonEmpty)
                case None => None
                case Some(i) => Some(arrivals[i])
      invariant noRecords == match First(arrivals[..k], NegativeError, preferNonEmpty)
                case None => None
                case Some(i) => Some(arrivals[i])
      invariant k > 0 && GradeOf(arrivals[k - 1], preferNonEmpty) == Failure ==> lastError == Some(arrivals[k - 1])
      decreases |arrivals| - k
    {
      var res := arrivals[k];
      FirstOfNext(arrivals, k, Best, preferNonEmpty);
      FirstOfNext(arrivals, k, EmptyAnswer, preferNonEmpty);
      FirstOfNext(arrivals, k, NegativeError, preferNonEmpty);
      if NonEmpty(res) || (Empty(res) && !preferNonEmpty) || (IsNegativeError(res) && !preferNonEmpty) {
        FirstOfPrefix(arrivals, k, preferNonEmpty);
        return res;
      }
      if Empty(res) {
        if empty.None? { empty := Some(res); }
      } else if IsNegativeError(res) {
        if noRecords.None? { noRecords := Some(res); }
      } else {
        lastError := Some(res);
      }
      if k + 1 == |arrivals| {
        assert arrivals[..k + 1] == arrivals;
        if empty.Some? { return empty.value; }
        if noRecords.Some? { return noRecords.value; }
        return lastError.value;
      }
      k := k + 1;
    }
  }

  lemma NoneOfNothing(rs: seq<LookupResult>, prefer: bool)
    ensures forall g :: First(rs[..0], g, prefer) == None
  {
  }

  lemma FirstOfPrefix(rs: seq<LookupResult>, k: nat, prefer: bool)
    requires k < |rs| && First(rs[..k], Best, prefer) == None && GradeOf(rs[k], prefer) == Best
    ensures First(rs, Best, prefer) == Some(k)
  {
    FirstIsFirst(rs[..k], Best, prefer);
    FirstIsFirst(rs, Best, prefer);
    assert forall i :: 0 <= i < k ==> rs[..k][i] == rs[i];
  }
}

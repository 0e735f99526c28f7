/** The three lifecycle states of a matching and their stored spelling. */
module MatchingStatus {
  import opened Wrappers
  import opened Errors

  datatype Status = Waiting | Established | Completed

  /** The string stored in the matching's status column. */
  function Value(s: Status): string
  {
    match s
    case Waiting => "waiting"
    case Established => "established"
    case Completed => "completed"
  }

  /** The enum's values() in declaration order. */
  const AllStatuses: seq<Status> := [Waiting, Established, Completed]

  /** The linear search of fromValue over a suffix of the values, returning at the first match. */
  function Search(v: string, candidates: seq<Status>): (r: Result<Status, Error>)
    ensures r.Success? ==> r.value in candidates && Value(r.value) == v
    ensures r.Failure? <==> forall c :: c in candidates ==> Value(c) != v
    ensures r.Failure? ==> r.error == IllegalArgument
  {
    if candidates == [] then Failure(IllegalArgument)
    else if Value(candidates[0]) == v then Success(candidates[0])
    else Search(v, candidates[1..])
  }

  /** fromValue: exact, case-sensitive match against the stored spellings. */
  function FromValue(v: string): (r: Result<Status, Error>)
    ensures r.Success? ==> Value(r.value) == v
    ensures r.Failure? <==> v != Value(Waiting) && v != Value(Established) && v != Value(Completed)
    ensures r.Failure? ==> r.error == IllegalArgument
  {
    Search(v, AllStatuses)
  }

  /** No two statuses share a spelling, so fromValue is well defined. */
  lemma ValueInjective(a: Status, b: Status)
    ensures Value(a) == Value(b) ==> a == b
  {
  }

  /** fromValue inverts getValue. */
  lemma FromValueRoundTrip(s: Status)
    ensures FromValue(Value(s)) == Success(s)
  {
    var r := FromValue(Value(s));
    assert s in AllStatuses;
    ValueInjective(r.value, s);
  }

  /** fromValue accepts exactly the three spellings; anything else is an IllegalArgumentException. */
  lemma FromValueAccepts(v: string)
    ensures FromValue(v).Success? <==> v == "waiting" || v == "established" || v == "completed"
    ensures FromValue(v).Failure? ==> FromValue(v).error == IllegalArgument
    ensures FromValue(v).Success? ==> Value(FromValue(v).value) == v
  {
    if v == "waiting" { FromValueRoundTrip(Waiting); }
    else if v == "established" { FromValueRoundTrip(Established); }
    else if v == "completed" { FromValueRoundTrip(Completed); }
  }

  /** The match is case-sensitive: the upper-case spelling is rejected. */
  lemma FromValueCaseSensitive()
    ensures FromValue("WAITING") == Failure(IllegalArgument)
  {
    FromValueAccepts("WAITING");
  }
}

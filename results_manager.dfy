/** `IpDataBaseOnPremise.ResultsManager`: the holder of the native result
    sets of one data instance. Results are appended until the list is first
    read; reading it closes the holder for appends; disposing it disposes each
    non-null result once and drops the list. */
module ResultsManagement {
  import opened Common

  /** The non-null entries of a results list, in list order. */
  function NonNull<R>(s: seq<Option<R>>): seq<R> {
    if s == [] then []
    else NonNull(s[..|s| - 1]) + (if s[|s| - 1].Some? then [s[|s| - 1].value] else [])
  }

  /** Number of non-null entries. */
  function NonNullCount<R>(s: seq<Option<R>>): nat {
    if s == [] then 0 else (if s[0].Some? then 1 else 0) + NonNullCount(s[1..])
  }

  /** What Dispose disposes is exactly the non-null entries: one call per
      non-null entry, each a result the list holds, and every non-null entry
      among them. */
  lemma {:induction false} NonNullIsTheNonNullEntries<R>(s: seq<Option<R>>)
    ensures |NonNull(s)| == NonNullCount(s)
    ensures forall x :: x in NonNull(s) <==> Some(x) in s
  {
    if s != [] {
      var init := s[..|s| - 1];
      NonNullIsTheNonNullEntries(init);
      NonNullCountSnoc(init, s[|s| - 1]);
      assert s == init + [s[|s| - 1]];
    }
  }

  lemma {:induction false} NonNullCountSnoc<R>(s: seq<Option<R>>, x: Option<R>)
    ensures NonNullCount(s + [x]) == NonNullCount(s) + (if x.Some? then 1 else 0)
  {
    if s == [] {
      assert s + [x] == [x];
    } else {
      assert (s + [x])[1..] == s[1..] + [x];
      NonNullCountSnoc(s[1..], x);
    }
  }

  /** `HasResults()` of a list that Dispose may have set to null: reading the
      count of a null list throws. */
  function HasResultsOf<R>(list: Option<seq<Option<R>>>): Result<bool, Error> {
    match list
    case None => Failure(NullReferenceException)
    case Some(l) => Success(|l| > 0)
  }

  const CannotUpdateResults := "Messages.ExceptionCannotUpdateResults"

  class ResultsManager<R> {
    /** `_resultsList`; None once Dispose has set it to null. */
    var resultsList: Option<seq<Option<R>>>
    /** `ResultsAccessed`. */
    var resultsAccessed: bool
    /** `_disposed`. */
    var disposed: bool
    /** The results whose Dispose() has been called, in call order. */
    ghost var disposedResults: seq<R>

    ghost predicate Valid()
      reads this
    {
      disposed <==> resultsList.None?
    }

    constructor ()
      ensures Valid()
      ensures resultsList == Some([]) && !resultsAccessed && !disposed
      ensures disposedResults == []
    {
      resultsList := Some([]);
      resultsAccessed := false;
      disposed := false;
      disposedResults := [];
    }

    /** The `ResultsList` getter: marks the list as accessed and returns it
        (null after Dispose). */
    method GetResultsList() returns (r: Option<seq<Option<R>>>)
      modifies this`resultsAccessed
      ensures resultsAccessed
      ensures r == resultsList
    {
      resultsAccessed := true;
      r := resultsList;
    }

    /** `HasResults()`. */
    function HasResults(): Result<bool, Error>
      reads this
    {
      HasResultsOf(resultsList)
    }

    /** `AddResult(result)`: appends before the first read, throws after it;
        a disposed (null) list throws on the append. */
    method AddResult(result: Option<R>) returns (o: Outcome<Error>)
      requires Valid()
      modifies this`resultsList
      ensures Valid()
      ensures old(resultsAccessed) ==>
        o == Fail(PipelineException(CannotUpdateResults)) && resultsList == old(resultsList)
      ensures !old(resultsAccessed) && old(resultsList).None? ==>
        o == Fail(NullReferenceException) && resultsList == old(resultsList)
      ensures !old(resultsAccessed) && old(resultsList).Some? ==>
        o == Pass && resultsList == Some(old(resultsList).value + [result])
      ensures o == Pass ==> HasResults() == Success(true)
    {
      if resultsAccessed {
        return Fail(PipelineException(CannotUpdateResults));
      }
      if resultsList.None? {
        return Fail(NullReferenceException);
      }
      resultsList := Some(resultsList.value + [result]);
      o := Pass;
    }

    /** `Dispose(bool)`: the first call disposes every non-null result in list
        order and drops the list; later calls do nothing. */
    method Dispose()
      requires Valid()
      modifies this`disposed, this`resultsList, this`disposedResults
      ensures Valid() && disposed && resultsList.None?
      ensures old(disposed) ==>
        resultsList == old(resultsList) && disposedResults == old(disposedResults)
      ensures !old(disposed) ==>
        disposedResults == old(disposedResults) + NonNull(old(resultsList).value)
      ensures HasResults() == Failure(NullReferenceException)
    {
      if !disposed {
        disposed := true;
        var list := resultsList.value;
        ghost var log := disposedResults;
        var i := 0;
        while i < |list|
          invariant 0 <= i <= |list|
          invariant log == disposedResults + NonNull(list[..i])
        {
          assert list[..i + 1][..i] == list[..i];
          if list[i].Some? {
            log := log + [list[i].value];
          }
          i := i + 1;
        }
        assert list[..|list|] == list;
        disposedResults := log;
        resultsList := None;
      }
    }
  }
}

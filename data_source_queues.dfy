// The read of the queue-list data source: parse the name filter, ask the
// queue service for the project's queues, keep the matching names and form
// the text whose digest identifies the result.

module QueuesDataSource {
  import Strings
  import opened QueueFilter

  /** The part of a queue's description that the lister reads. */
  datatype Queue = Queue(name: string)

  /** What the queue service answered when asked for the project's queues. */
  datatype Listing = Listed(queues: seq<Queue>) | ListError(message: string)

  /** The data source's outputs: the kept names and the text fed to the digest. */
  datatype QueueList = QueueList(names: seq<string>, digestInput: string)

  /** The names of `queues`, in order. */
  function NamesOf(queues: seq<Queue>): (r: seq<string>)
    ensures |r| == |queues| && forall k :: 0 <= k < |queues| ==> r[k] == queues[k].name
  {
    if queues == [] then [] else NamesOf(queues[..|queues| - 1]) + [queues[|queues| - 1].name]
  }

  /**
   * The loop over the service's queues: the names of those that the filter
   * with this mode and pattern matches, in the service's order.
   */
  method KeepMatching(mode: Mode, pattern: string, queues: seq<Queue>) returns (names: seq<string>)
    ensures names == Filter(NameFilter(mode, pattern), NamesOf(queues))
  {
    ghost var filter := NameFilter(mode, pattern);
    names := [];
    for i := 0 to |queues|
      invariant names == Filter(filter, NamesOf(queues[..i]))
    {
      var name := queues[i].name;
      assert queues[..i + 1][..i] == queues[..i];
      FilterAppend(filter, NamesOf(queues[..i]), name);
      if mode == Contains && !Strings.Contains(name, pattern) {
        continue;
      } else if mode == Suffix && !Strings.HasSuffix(name, pattern) {
        continue;
      } else if mode == Prefix && !Strings.HasPrefix(name, pattern) {
        continue;
      } else if mode == Exact && name != pattern {
        continue;
      }

      names := names + [name];
    }
    assert queues[..|queues|] == queues;
  }

  /**
   * One read of the data source. `listing` is what the queue service would
   * answer; `listRequested` says whether the service is asked at all. An
   * empty wildcard is refused before the service is asked and before any
   * output exists; a service error is passed on; otherwise the outputs are
   * the filtered names and their comma join.
   */
  method ReadQueues(rawFilter: string, listing: Listing)
    returns (listRequested: bool, outcome: Result<QueueList>)
    ensures listRequested <==> ParseFilter(rawFilter).Success?
    ensures ParseFilter(rawFilter).Failure? ==>
              outcome == Failure(EmptyWildcard) && ErrorText(outcome.error) == EmptyWildcardMessage
    ensures ParseFilter(rawFilter).Success? && listing.ListError? ==>
              outcome == Failure(Upstream(listing.message)) && ErrorText(outcome.error) == listing.message
    ensures ParseFilter(rawFilter).Success? && listing.Listed? ==>
              && outcome.Success?
              && outcome.value.names == Filter(ParseFilter(rawFilter).value, NamesOf(listing.queues))
              && outcome.value.digestInput == Strings.Join(outcome.value.names, ",")
  {
    var filterName := rawFilter;
    var mode := NoFilter;

    if filterName != "" {
      if |filterName| >= 2 && Strings.HasPrefix(filterName, "*") && Strings.HasSuffix(filterName, "*") {
        filterName := filterName[1..|filterName| - 1];
        mode := Contains;
      } else if Strings.HasPrefix(filterName, "*") {
        filterName := filterName[1..];
        mode := Suffix;
      } else if Strings.HasSuffix(filterName, "*") {
        filterName := filterName[..|filterName| - 1];
        mode := Prefix;
      } else {
        mode := Exact;
      }

      if mode != NoFilter && filterName == "" {
        return false, Failure(EmptyWildcard);
      }
    }

    assert ParseFilter(rawFilter) == Success(NameFilter(mode, filterName));

    listRequested := true;
    if listing.ListError? {
      return listRequested, Failure(Upstream(listing.message));
    }
    var names := KeepMatching(mode, filterName, listing.queues);
    outcome := Success(QueueList(names, Strings.Join(names, ",")));
  }
}

// The queue-name filter of the queue lister: how a raw `filter_name`
// wildcard pattern is read, and which queue names a filter keeps.

module QueueFilter {
  import Strings

  /**
   * How names are compared with the pattern. The lister numbers these
   * 0 (no filter), 1 (contains), 2 (suffix), 3 (prefix) and 4 (exact).
   */
  datatype Mode = NoFilter | Contains | Suffix | Prefix | Exact

  /** A parsed filter: the mode and the pattern left once the wildcards are stripped. */
  datatype NameFilter = NameFilter(mode: Mode, pattern: string)

  /** Why a read of the queue list fails. */
  datatype Error =
    | EmptyWildcard          // the filter is a wildcard with no text
    | Upstream(message: string)  // the queue service's error, passed on unchanged

  datatype Result<T> = Success(value: T) | Failure(error: Error)

  /** The message the lister returns for an empty wildcard filter. */
  const EmptyWildcardMessage := "The name filter cannot be an empty wildcard filter"

  /** The text of the error the read returns. */
  function ErrorText(e: Error): string {
    match e
    case EmptyWildcard => EmptyWildcardMessage
    case Upstream(message) => message
  }

  /**
   * The filters that parsing produces: a non-empty pattern for every mode but
   * NoFilter, and no wildcard left at an end that the mode's shape strips.
   */
  predicate WellFormed(f: NameFilter) {
    match f.mode
    case NoFilter => f.pattern == ""
    case Contains => f.pattern != ""
    case Suffix => f.pattern != "" && f.pattern[|f.pattern| - 1] != '*'
    case Prefix => f.pattern != "" && f.pattern[0] != '*'
    case Exact => f.pattern != "" && f.pattern[0] != '*' && f.pattern[|f.pattern| - 1] != '*'
  }

  /** The raw filter text that denotes `f`: its pattern with the mode's wildcards around it. */
  function Render(f: NameFilter): string {
    match f.mode
    case NoFilter => ""
    case Contains => "*" + f.pattern + "*"
    case Suffix => "*" + f.pattern
    case Prefix => f.pattern + "*"
    case Exact => f.pattern
  }

  /**
   * Reads a raw `filter_name`. Only "*" and "**", which strip to nothing,
   * are refused; every accepted text gives a well-formed filter.
   */
  function ParseFilter(raw: string): (r: Result<NameFilter>)
    ensures r.Failure? <==> raw == "*" || raw == "**"
    ensures r.Failure? ==> r.error == EmptyWildcard
    ensures r.Success? ==> WellFormed(r.value)
  {
    if raw == "" then Success(NameFilter(NoFilter, ""))
    else
      var f :=
        if |raw| >= 2 && Strings.HasPrefix(raw, "*") && Strings.HasSuffix(raw, "*") then
          NameFilter(Contains, raw[1..|raw| - 1])
        else if Strings.HasPrefix(raw, "*") then
          NameFilter(Suffix, raw[1..])
        else if Strings.HasSuffix(raw, "*") then
          NameFilter(Prefix, raw[..|raw| - 1])
        else
          NameFilter(Exact, raw);
      if f.mode != NoFilter && f.pattern == "" then Failure(EmptyWildcard) else Success(f)
  }

  /** Every well-formed filter is read back from its rendering. */
  lemma ParseRender(f: NameFilter)
    requires WellFormed(f)
    ensures ParseFilter(Render(f)) == Success(f)
  {
  }

  /**
   * Every accepted raw text is the rendering of its filter: the mode records
   * which wildcards were stripped and the pattern is the text between them.
   */
  lemma RenderParse(raw: string)
    requires ParseFilter(raw).Success?
    ensures Render(ParseFilter(raw).value) == raw
  {
    var f := ParseFilter(raw).value;
    match f.mode
    case NoFilter =>
    case Contains =>
      assert raw == [raw[0]] + raw[1..|raw| - 1] + [raw[|raw| - 1]];
    case Suffix =>
      assert raw == [raw[0]] + raw[1..];
    case Prefix =>
      assert raw == raw[..|raw| - 1] + [raw[|raw| - 1]];
    case Exact =>
  }

  /**
   * Whether the filter keeps a queue called `name`: every name with no
   * filter, and otherwise the mode's test of the name against the pattern.
   * Under a wildcard or exact filter a kept name holds the pattern, and the
   * pattern itself is kept in every mode.
   */
  predicate Matches(f: NameFilter, name: string)
    ensures f.mode != NoFilter && Matches(f, name) ==>
              |f.pattern| <= |name| && Strings.Contains(name, f.pattern)
    ensures name == f.pattern ==> Matches(f, name)
  {
    Strings.AffixIsSubstring(name, f.pattern);
    match f.mode
    case NoFilter => true
    case Contains => Strings.Contains(name, f.pattern)
    case Suffix => Strings.HasSuffix(name, f.pattern)
    case Prefix => Strings.HasPrefix(name, f.pattern)
    case Exact => name == f.pattern
  }

  /** An exact match is a prefix and a suffix match, and each of those a contains match. */
  lemma MatchStrength(p: string, name: string)
    ensures Matches(NameFilter(Exact, p), name) ==>
              Matches(NameFilter(Prefix, p), name) && Matches(NameFilter(Suffix, p), name)
    ensures Matches(NameFilter(Prefix, p), name) ==> Matches(NameFilter(Contains, p), name)
    ensures Matches(NameFilter(Suffix, p), name) ==> Matches(NameFilter(Contains, p), name)
  {
    Strings.AffixIsSubstring(name, p);
  }

  /** The names the filter keeps, in their original order. */
  function Filter(f: NameFilter, names: seq<string>): (r: seq<string>)
    ensures |r| <= |names|
    ensures forall x :: x in r ==> x in names && Matches(f, x)
  {
    if names == [] then []
    else
      var init, last := Filter(f, names[..|names| - 1]), names[|names| - 1];
      if Matches(f, last) then init + [last] else init
  }

  /** Filtering one more name appends it exactly when it matches. */
  lemma FilterAppend(f: NameFilter, names: seq<string>, name: string)
    ensures Filter(f, names + [name]) == Filter(f, names) + (if Matches(f, name) then [name] else [])
  {
  }

  /** A name is kept exactly when it is one of the names and the filter matches it. */
  lemma {:induction false} FilterMembership(f: NameFilter, names: seq<string>, x: string)
    ensures x in Filter(f, names) <==> x in names && Matches(f, x)
  {
    if names != [] {
      var n := |names| - 1;
      FilterMembership(f, names[..n], x);
      assert names == names[..n] + [names[n]];
    }
  }

  /** The positions of the names the filter keeps, in increasing order. */
  function KeptIndices(f: NameFilter, names: seq<string>): seq<nat> {
    if names == [] then []
    else
      var n := |names| - 1;
      KeptIndices(f, names[..n]) + (if Matches(f, names[n]) then [n] else [])
  }

  /** `sub` is `s` read at the strictly increasing positions `idx`. */
  predicate Embeds(idx: seq<nat>, sub: seq<string>, s: seq<string>) {
    && |idx| == |sub|
    && (forall k :: 0 <= k < |idx| ==> idx[k] < |s| && sub[k] == s[idx[k]])
    && (forall k, l :: 0 <= k < l < |idx| ==> idx[k] < idx[l])
  }

  /**
   * The kept positions are increasing, and a position is among them exactly
   * when the name there matches.
   */
  lemma {:induction false} KeptIndicesAreMatches(f: NameFilter, names: seq<string>)
    ensures forall k :: 0 <= k < |KeptIndices(f, names)| ==> KeptIndices(f, names)[k] < |names|
    ensures forall k, l :: 0 <= k < l < |KeptIndices(f, names)| ==>
              KeptIndices(f, names)[k] < KeptIndices(f, names)[l]
    ensures forall i :: 0 <= i < |names| ==> (i in KeptIndices(f, names) <==> Matches(f, names[i]))
  {
    if names != [] {
      var n := |names| - 1;
      var init := names[..n];
      KeptIndicesAreMatches(f, init);
      var idx0 := KeptIndices(f, init);
      assert forall i :: 0 <= i < n ==> names[i] == init[i];
      assert n !in idx0;
    }
  }

  /** The k-th kept name is the name at the k-th kept position. */
  lemma {:induction false} FilterReadsKeptIndices(f: NameFilter, names: seq<string>)
    ensures |KeptIndices(f, names)| == |Filter(f, names)|
    ensures forall k :: 0 <= k < |Filter(f, names)| ==>
              KeptIndices(f, names)[k] < |names| && Filter(f, names)[k] == names[KeptIndices(f, names)[k]]
  {
    if names != [] {
      var n := |names| - 1;
      var init := names[..n];
      FilterReadsKeptIndices(f, init);
      KeptIndicesAreMatches(f, init);
      var idx0, r0 := KeptIndices(f, init), Filter(f, init);
      var idx, r := KeptIndices(f, names), Filter(f, names);
      if Matches(f, names[n]) {
        assert idx == idx0 + [n] && r == r0 + [names[n]];
      } else {
        assert idx == idx0 && r == r0;
      }
      forall k | 0 <= k < |r|
        ensures idx[k] < |names| && r[k] == names[idx[k]]
      {
        if k < |r0| {
          assert idx[k] == idx0[k] && r[k] == r0[k] && init[idx0[k]] == names[idx0[k]];
        }
      }
    }
  }

  /**
   * The filtered list is the subsequence of the input at exactly the
   * positions whose names match, in their original order.
   */
  lemma FilterIsMatchingSubsequence(f: NameFilter, names: seq<string>)
    ensures Embeds(KeptIndices(f, names), Filter(f, names), names)
    ensures forall i :: 0 <= i < |names| ==> (i in KeptIndices(f, names) <==> Matches(f, names[i]))
  {
    KeptIndicesAreMatches(f, names);
    FilterReadsKeptIndices(f, names);
  }

  /** With no filter every name is kept, unchanged and in order. */
  lemma {:induction false} FilterKeepsAll(f: NameFilter, names: seq<string>)
    requires f.mode == NoFilter
    ensures Filter(f, names) == names
  {
    if names != [] {
      var n := |names| - 1;
      FilterKeepsAll(f, names[..n]);
      assert names == names[..n] + [names[n]];
    }
  }

  /**
   * In exact mode every kept name is the pattern, once for each time it
   * occurs among the names.
   */
  lemma {:induction false} FilterExact(f: NameFilter, names: seq<string>)
    requires f.mode == Exact
    ensures forall k :: 0 <= k < |Filter(f, names)| ==> Filter(f, names)[k] == f.pattern
    ensures |Filter(f, names)| == multiset(names)[f.pattern]
  {
    if names != [] {
      var n := |names| - 1;
      FilterExact(f, names[..n]);
      assert names == names[..n] + [names[n]];
      assert multiset(names) == multiset(names[..n]) + multiset{names[n]};
    }
  }
}

# Queue-list name filter of the IronMQ Terraform provider

This project models the logic of the `queues` data source of a Terraform
provider for IronMQ. The data source takes an optional wildcard filter
(`filter_name`) and reads it as one of five modes: no filter, contains
(`*text*`), suffix (`*text`), prefix (`text*`) or exact (`text`). It refuses
a wildcard with no text. It then asks the queue service for the project's
queues and keeps the names that match, in the service's order. Its identity
is a digest of those names joined with commas.

Modules:

- `Strings` (strings.dfy): the Go `strings` functions the data source uses
  (`HasPrefix`, `HasSuffix`, `Contains`, `Join`), and what the comma join
  can and cannot tell apart.
- `QueueFilter` (queue_filter.dfy): the filter as values. `ParseFilter` is
  the reading of the raw text, `Render` is its inverse, `Matches` is the
  per-mode test and `Filter` is the order-preserving selection, with lemmas
  about each.
- `QueuesDataSource` (data_source_queues.dfy): the read itself, written as
  the source writes it. Locals are reassigned through the if/else chain, and
  a loop uses `continue` and appends to the result. `ReadQueues` and
  `KeepMatching` are proved equal to `ParseFilter` and `Filter`.

The queue service's answer is an input (`Listing`). `ReadQueues` also
returns `listRequested`, which is true exactly when the service is asked.
So the model shows that an empty wildcard is refused before any request and
before any output is produced.

## Model

| member | source | states |
|---|---|---|
| `QueueFilter.ParseFilter` | data_source_queues.go:50-71 | Parsing fails exactly for "*" and "**", and then with the empty-wildcard error. Every other text, the empty one included, gives a well-formed filter: mode NoFilter with no pattern, or a non-empty pattern with no wildcard left at an end that the mode strips. |
| `QueueFilter.ParseRender` | data_source_queues.go:55-66 | Every well-formed filter (mode and pattern) is what parsing returns for its rendering "*p*", "*p", "p*" or "p". |
| `QueueFilter.RenderParse` | data_source_queues.go:55-66 | Every accepted raw text is the rendering of its parsed filter. So contains mode strips both stars, suffix mode only the leading one and prefix mode only the trailing one, and exact mode leaves the text unchanged. |
| `QueueFilter.Matches` | data_source_queues.go:84-91 | Mode 0 keeps every name. Contains mode uses `strings.Contains`, suffix mode `strings.HasSuffix`, prefix mode `strings.HasPrefix`, and exact mode string equality (`strings.Compare(...) != 0` read as `!=`). In every mode other than 0, a kept name is at least as long as the pattern and holds the pattern as a substring. In every mode, the pattern itself is kept. |
| `QueueFilter.MatchStrength` | data_source_queues.go:84-90 | An exact match is also a prefix match and a suffix match with the same pattern, and each of those is also a contains match. |
| `QueueFilter.Filter` | data_source_queues.go:83-95 | The kept names are no more than the input names. Each kept name is one of the inputs and matches the filter. |
| `QueueFilter.FilterMembership` | data_source_queues.go:83-94 | A name is in the output if and only if it is among the input names and satisfies the mode's predicate. |
| `QueueFilter.FilterIsMatchingSubsequence` | data_source_queues.go:81-95 | The output is the input read at strictly increasing positions. A position is among them exactly when its name matches, so the output is a subsequence in the original order. |
| `QueueFilter.FilterKeepsAll` | data_source_queues.go:83-94 | With no filter (mode 0), the output is the input list, unchanged and in order. |
| `QueueFilter.FilterExact` | data_source_queues.go:90-94 | In exact mode, every kept name equals the pattern. The output length is the number of times the pattern occurs among the input names. |
| `QueuesDataSource.KeepMatching` | data_source_queues.go:80-95 | The loop with `continue` and append returns exactly `Filter` of the filter given by the mode and pattern, applied to the queues' names in order. |
| `QueuesDataSource.ReadQueues` | data_source_queues.go:50-98 | The service is asked if and only if the filter parses. An empty wildcard gives the empty-wildcard error, whose text is "The name filter cannot be an empty wildcard filter", with no outputs. A service error is returned with its message unchanged. Otherwise the names are the filtered queue names and the digest input is their comma join. |
| `Strings.Join` | data_source_queues.go:98 | For a non-empty list, the join's length is the total length of the names plus one separator between each pair of neighbours, and the join begins with the first name. |
| `Strings.JoinOfFewNames` | data_source_queues.go:98 | The join of no names is the empty string. The join of one name is that name. |
| `Strings.JoinEmptyOnlyForNoNames` | data_source_queues.go:97-98 | When every name is non-empty and comma-free, the join is empty exactly when no name is kept. So a filter that matched nothing gives a different digest input from one that matched something. |
| `Strings.JoinInjective` | data_source_queues.go:97-98 | For lists of non-empty, comma-free names, the empty list included, equal joins mean equal lists. Any change of membership or order changes the digest input. Names that are empty or hold a comma can collide, as `Strings.JoinCollisions` shows. |
| `Strings.JoinCollisions` | data_source_queues.go:98 | Names are not escaped, so ["a,b"] and ["a", "b"] join alike. The empty list and [""] also join alike. |

## Left out

- The SHA-256 digest and its hexadecimal id (data_source_queues.go:97-100) are a foreign cryptographic call. The model stops at the digest's input, the comma join.
- `mq.ListQueues` (data_source_queues.go:74) is a network call. Its answer is the `Listing` parameter, either the queues or an error message. The 1000-queue cap is the service's concern: any list passed in is filtered.
- The Terraform schema, `d.Get`, `d.Set`, `d.SetId`, and the client settings built from the provider configuration (data_source_queues.go:16-48, 100-101) are framework plumbing. The outputs are the returned `QueueList`.
- ironiotf/data_source_pull_queue.go is a thin wrapper around the queue service's `Info` call. It has no logic of its own worth proving: a "404" substring test on the library's error and a queue-type test. Its `queueNameToID` is not part of this model.
- Strings are sequences of characters, while Go compares bytes. The wildcard `*` is a single ASCII byte, so stripping it from either end agrees in both readings. For names and filters that are valid UTF-8, the prefix, suffix, substring and equality tests also agree, because UTF-8 is self-synchronizing. Byte strings that are not valid UTF-8 are not modelled.
- `strings.Compare(a, b) != 0` is modelled as `a != b`.
- The read is written as two methods. `ReadQueues` holds the filter parsing. It calls `KeepMatching`, which holds the loop of data_source_queues.go:80-95. The Go source has both in one function.

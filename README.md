# Outlook inbox analyzer, modelled in Dafny

The add-in scans the messages of one mail folder and summarises them:
- how many messages there are;
- for each sender address, the number of messages, the sender's name and the earliest and latest dates;
- for each mail domain, the number of messages;
- the overall date range.

The senders and the domains are each listed by descending message count. The domain list keeps the ten most frequent domains. The sender list can be exported as CSV.

This project models that core of `src/taskpane.js`:

- `Aggregator.AnalyzeEmails` is the single pass of `analyzeEmails`, written as a loop.
  - Its two accumulators are `OrderedMaps.OrderedMap` objects, a class modelling a JavaScript `Map`, whose `Set` method updates it in place.
  - It also keeps two running date bounds.
  - It is proved equal to `Aggregator.Summary`, a specification stated without the pass: each address's entry is a function of the messages from it.
- `AnalysisFacts` proves what the summary means:
  - the counts and the date bounds are correct;
  - every message is counted exactly once in each table;
  - both lists are sorted, stable and permutations of the map contents;
  - only the top ten domains are kept;
  - the totals are distinct counts.
- `Domains` models `split('@')[1] || 'unknown'`, including JavaScript's `split`.
- `Sorting` is a stable descending sort. ECMAScript 2019 and later require `Array.prototype.sort` to be stable.
- `Csv` models `exportToCSV`: the header, one line per sender, and the quote escaping. It also has a reader for the format written, so round trips can be stated.
- `MessageSource` models the default values the REST path applies to a message (lines 188-193).

Dates are integers, namely milliseconds since the epoch, which is what `<` and `>` compare on `Date` objects. `new Date()` in `analyzeEmails` becomes the parameter `now`, and `new Date(0)` becomes `0`.

The domain is what the code computes, not just "the text after the first `@`": it is the text between the first `@` and the next `@` (or the end of the address). When there is no `@`, or that text is empty, the domain is `unknown`.

## Model

| member | source | states |
|---|---|---|
| Aggregator.Summary | src/taskpane.js:249-256 | The returned analysis, stated without the pass; no contract of its own. AnalysisFacts.SummaryTotals, AnalysisFacts.TopDomainsKept and the sorting lemmas state what it holds, and Aggregator.AnalyzeEmails is proved equal to it. |
| Aggregator.AnalyzeEmails | src/taskpane.js:208-257 | The single pass over the messages, with the two maps and the running date bounds, returns exactly `Summary(emails, now)`. |
| Aggregator.TrackSender | src/taskpane.js:216-229 | After one more message, the sender map's keys are the distinct addresses in first-occurrence order. Each address's entry is its statistics over the messages seen so far. |
| Aggregator.TrackDomain | src/taskpane.js:233-234 | After one more message, the domain map's keys are the distinct domains in first-occurrence order. Each domain's count is its number of occurrences so far. |
| Aggregator.KnownSenderStep | src/taskpane.js:217-221 | For an address already seen, the new entry is the old one with the count plus one. The first date is lowered when the new date is earlier, and the last date is raised when it is later. The key order does not change. |
| Aggregator.NewSenderStep | src/taskpane.js:222-229 | For a new address, the entry has the message's address and name, count 1 and the message's date as both first and last. The address is appended to the key order. |
| Aggregator.SenderStatAppend | src/taskpane.js:216-229 | An address's entry after one more message: unchanged for other addresses, and otherwise the known-sender or new-sender update. |
| Aggregator.OtherSenderUnchanged | src/taskpane.js:216-223 | A message from another address leaves an address's entry as it was. |
| Aggregator.StatsStep | src/taskpane.js:216-229 | Storing the updated entry of the message's address keeps every entry equal to its statistics over the messages seen. |
| Aggregator.CountsStep | src/taskpane.js:233-234 | Storing the domain's new count keeps every domain count equal to its number of occurrences. |
| Aggregator.DateRangeStep | src/taskpane.js:236-238 | The running oldest and newest dates after one more message are the seeded minimum and maximum over one more date. |
| Aggregator.DateRangeBounds | src/taskpane.js:211-238 | Every message date lies within the range, and each bound is either a message date or its seed. Empty input gives `(now, 0)`; non-empty input gives oldest ≤ newest. |
| Aggregator.SeededMin | src/taskpane.js:211-237 | The oldest date is at most the seed and every date, and it is the seed or one of the dates. |
| Aggregator.SeededMax | src/taskpane.js:212-238 | The newest date is at least the seed and every date, and it is the seed or one of the dates. |
| Aggregator.MinOf | src/taskpane.js:237 | The least value is one of the values and is at most each of them. |
| Aggregator.MaxOf | src/taskpane.js:238 | The greatest value is one of the values and is at least each of them. |
| Aggregator.MapsHoldTables | src/taskpane.js:242-246 | After the pass, the sender map's values and the domain map's entries, in key order, are the two specification tables. |
| Aggregator.ToDomainStats | src/taskpane.js:245-246 | Each `[domain, count]` pair becomes a record with the same domain and count, in the same order. |
| Aggregator.AnalyzeInbox | src/taskpane.js:27-39 | An empty folder gives no analysis (the early return). Otherwise the result is the summary, with oldest ≤ newest. |
| AnalysisFacts.SenderStatMeaning | src/taskpane.js:216-229 | An address's entry has that address. Its count is the number of messages from the address, at least 1. Its first and last dates bound every date of those messages and are both attained. Its name is that of the address's first message. |
| AnalysisFacts.SenderCountMeaning | src/taskpane.js:219 | An address's count is the number of positions holding a message from it. |
| AnalysisFacts.SenderDatesMeaning | src/taskpane.js:220-221 | The first and last dates bound the dates of an address's messages, and both are attained. |
| AnalysisFacts.SenderNameMeaning | src/taskpane.js:223-228 | The name is the one on the address's first message; no earlier message is from that address. |
| AnalysisFacts.DatesFromListed | src/taskpane.js:220-221 | Every date of a message from the address is among the dates collected for it. |
| AnalysisFacts.DatesFromOccur | src/taskpane.js:220-221 | Every date collected for an address is the date of a message from it. |
| AnalysisFacts.SumMatchesCounts | src/taskpane.js:219-234 | Summing keys that equal the occurrence counts of some keys gives the sum of those counts. |
| AnalysisFacts.SenderTableEntries | src/taskpane.js:242 | Entry i of the sender map's values is the statistics of the i-th distinct address. |
| AnalysisFacts.SendersCountEveryMessage | src/taskpane.js:216-243 | The counts in the sender list add up to the number of messages. |
| AnalysisFacts.TableMember | src/taskpane.js:242 | Every value of the sender map is the statistics of an address that occurs. |
| AnalysisFacts.SendersAreAddressStats | src/taskpane.js:242-243 | Every entry of the sorted sender list is the statistics of an address that occurs. |
| AnalysisFacts.ListedAddressesOccur | src/taskpane.js:242-243 | Every listed address is the address of some message. |
| AnalysisFacts.OccurringAddressesListed | src/taskpane.js:242-243 | Every message's address is listed. |
| AnalysisFacts.SenderAddressesListed | src/taskpane.js:242-243 | The set of listed addresses equals the set of message addresses. |
| AnalysisFacts.SendersDistinct | src/taskpane.js:242-243 | No address appears twice in the sender list. |
| AnalysisFacts.SendersAreTheAddresses | src/taskpane.js:242-251 | The listed addresses are exactly the messages' addresses, each once. The list has as many entries as there are distinct addresses. |
| AnalysisFacts.SenderTableInFirstOrder | src/taskpane.js:214-242 | For every pair of entries, the one whose address first occurs earlier comes first: this is the Map's insertion order. Entries with equal counts are therefore in that order too, the form the stability proof uses. |
| AnalysisFacts.SendersSortedStable | src/taskpane.js:242-243 | The sender list is sorted by descending count and is a permutation of the map's values. Addresses with equal counts keep the order of their first messages. |
| AnalysisFacts.DomainTableEntries | src/taskpane.js:245-246 | Entry i of the domain map is the i-th distinct domain with its number of occurrences. |
| AnalysisFacts.DomainsCountEveryMessage | src/taskpane.js:233-247 | The counts in the full domain list add up to the number of messages. |
| AnalysisFacts.DomainTableMember | src/taskpane.js:245-246 | Every domain map entry is a domain that occurs, with its number of occurrences. |
| AnalysisFacts.DomainOccurrences | src/taskpane.js:233-234 | A domain's number of occurrences is the number of messages whose address has that domain. |
| AnalysisFacts.DomainsAreDomainCounts | src/taskpane.js:233-247 | Every entry of the full domain list is a domain that occurs. Its count is the number of messages whose address has that domain, at least 1. |
| AnalysisFacts.ListedDomainsOccur | src/taskpane.js:245-247 | Every listed domain is the domain of some message. |
| AnalysisFacts.OccurringDomainsListed | src/taskpane.js:245-247 | Every message's domain is listed. |
| AnalysisFacts.DomainNamesListed | src/taskpane.js:245-247 | The set of listed domains equals the set of message domains. |
| AnalysisFacts.DomainsDistinct | src/taskpane.js:245-247 | No domain appears twice in the full domain list. |
| AnalysisFacts.DomainsAreTheMailDomains | src/taskpane.js:245-252 | The listed domains are exactly the messages' domains, each once. The list has as many entries as there are distinct domains. |
| AnalysisFacts.DomainTableInFirstOrder | src/taskpane.js:214-245 | For every pair of entries, the one whose domain first occurs earlier comes first: this is the Map's insertion order. Entries with equal counts are therefore in that order too, the form the stability proof uses. |
| AnalysisFacts.DomainsSortedStable | src/taskpane.js:245-247 | The full domain list is sorted by descending count and is a permutation of the map's entries. Equal counts keep first-occurrence order. |
| AnalysisFacts.TopDomainsKept | src/taskpane.js:255 | The returned domains are the first min(10, n) of the sorted list. No omitted domain has more messages than a kept one. |
| AnalysisFacts.SummaryTotals | src/taskpane.js:249-255 | `totalEmails` is the number of messages. `uniqueSenders` is the number of distinct addresses, which is the length of the sender list. `uniqueDomains` is the number of distinct domains, counted before the cut to ten. |
| AnalysisFacts.ColumnValues | src/taskpane.js:216-233 | The distinct addresses and the distinct domains, counted as sets of message fields. |
| Domains.DomainOf | src/taskpane.js:233 | A domain is never empty and never contains `@`. |
| Domains.Split | src/taskpane.js:233 | `split` gives at least one piece, and no piece contains the separator. |
| Domains.JoinSplit | src/taskpane.js:233 | Joining the pieces of a split with the separator gives back the string. |
| Domains.SplitJoin | src/taskpane.js:233 | Splitting a join of separator-free pieces gives back the pieces. |
| Domains.SplitPrefix | src/taskpane.js:233 | A separator-free prefix becomes part of the first piece. |
| Domains.NoAtIsUnknown | src/taskpane.js:233 | An address without `@` has domain `unknown`. |
| Domains.DomainBetweenAts | src/taskpane.js:233 | The domain is the text between the first `@` and the next `@` or the end, or `unknown` when that text is empty. |
| Grouping.CountIn | src/taskpane.js:217-234 | A key's occurrence count is positive exactly when the key occurs. |
| Grouping.FirstIndex | src/taskpane.js:223 | The first index holds the key, and no earlier index does. |
| Grouping.Distinct | src/taskpane.js:209-234 | The key order of a `Map` filled from a sequence holds exactly the keys that occur, each once. |
| Grouping.DistinctMembers | src/taskpane.js:217 | A key is among the distinct keys exactly when it occurs. |
| Grouping.DistinctAppend | src/taskpane.js:223-234 | Setting a key appends it to the key order only when it is new. |
| Grouping.CountInAppend | src/taskpane.js:219-234 | One more occurrence adds one to that key's count and nothing to the others. |
| Grouping.FirstIndexAppend | src/taskpane.js:223 | One more element leaves the first index of a key that already occurs unchanged. |
| Grouping.CountInNoDuplicates | src/taskpane.js:217-234 | In a sequence without repetition, a key occurs once or not at all. |
| Grouping.CardinalityNoDuplicates | src/taskpane.js:251-252 | A sequence without repetition is as long as the set of its elements. |
| Grouping.DistinctCardinality | src/taskpane.js:251-252 | There are as many distinct keys as the set of keys has elements. |
| Grouping.DistinctFollowsFirstOccurrence | src/taskpane.js:223-234 | Of two distinct keys, the one that first occurs earlier in the input comes first. |
| Grouping.SumCountsAppendKey | src/taskpane.js:219-234 | One more input element adds the element's count among the keys to the sum. |
| Grouping.DistinctCountsSumToLength | src/taskpane.js:219-234 | The counts of the distinct keys add up to the length of the input. |
| Grouping.CountInIsOccurrences | src/taskpane.js:219-234 | A key's count is the number of positions holding it. |
| Sorting.InsertBefore | src/taskpane.js:242-247 | Inserting adds exactly the inserted element (as a multiset). |
| Sorting.SortByKeyDesc | src/taskpane.js:242-247 | The sort result is a permutation of its input. |
| Sorting.SortIsSorted | src/taskpane.js:242-247 | The sort result is sorted by descending key. |
| Sorting.SortKeepsTies | src/taskpane.js:242-247 | The sort is stable: elements with equal keys keep their relative order. |
| Sorting.SortKeepsSum | src/taskpane.js:242-247 | Sorting keeps the sum of the keys. |
| Sorting.InsertBeforeSorted | src/taskpane.js:242-247 | Inserting into a sorted sequence keeps it sorted. |
| Sorting.InsertBeforeKeepsTies | src/taskpane.js:242-247 | Inserting before the first element that is not larger keeps ties in order. |
| Sorting.InsertBeforeSum | src/taskpane.js:242-247 | Inserting adds the element's key to the sum. |
| Sorting.SumAppend | src/taskpane.js:242-247 | The sum of a concatenation is the sum of the sums. |
| Sorting.Take | src/taskpane.js:255 | `slice(0, n)` keeps the first min(n, length) elements. |
| Sorting.PermutationKeepsNamesDistinct | src/taskpane.js:242-247 | Reordering keeps distinct names distinct. |
| Sorting.PermutedMembers | src/taskpane.js:242-247 | Every element of a reordering comes from the original. |
| Sorting.OnceInMultiset | src/taskpane.js:242-247 | In a sequence without repetition, each element has multiplicity at most one. |
| Sorting.TwiceInMultiset | src/taskpane.js:242-247 | An element at two positions has multiplicity at least two. |
| OrderedMaps.OrderedMap.constructor | src/taskpane.js:209-210 | `new Map()` is empty. |
| OrderedMaps.OrderedMap.Has | src/taskpane.js:217 | `has` is true exactly for the keys present. |
| OrderedMaps.OrderedMap.Get | src/taskpane.js:218 | `get` for a key that is present; no contract of its own. Set's contract says which value is stored under each key, and Aggregator.KnownSenderStep and Aggregator.TrackDomain use what it reads. |
| OrderedMaps.OrderedMap.Set | src/taskpane.js:223-234 | `set` replaces the value of a key and appends the key to the iteration order only when it is new. Nothing else changes. |
| OrderedMaps.OrderedMap.Values | src/taskpane.js:242 | `values()` lists the values in key order. |
| OrderedMaps.OrderedMap.Entries | src/taskpane.js:245 | `entries()` lists the key-value pairs in key order. |
| OrderedMaps.ValuesOf | src/taskpane.js:242 | Entry i is the value of key i. |
| OrderedMaps.EntriesOf | src/taskpane.js:245 | Entry i is key i with its value. |
| Csv.EscapeQuotes | src/taskpane.js:324 | `replace(/"/g, '""')`; it has no contract of its own. Csv.EscapedLength, Csv.EscapeQuotesIdentity, Csv.EscapedQuotesPaired and Csv.ReadQuotedEscaped state what it does. |
| Csv.Wrap | src/taskpane.js:324 | A text between two quotes, as the address and the dates are written; no contract of its own. Csv.QuotedAddressBreaksRow shows what it does to an address with a quote. |
| Csv.Quote | src/taskpane.js:324 | The name's cell: the escaped text between quotes; no contract of its own. Csv.ReadQuotedEscaped and Csv.ReadCell show that it reads back as the name. |
| Csv.Line | src/taskpane.js:324 | The cells joined by commas and ended by a newline; no contract of its own. Csv.ReadLineOfCells shows that it reads back as its cells' values. |
| Csv.SenderRow | src/taskpane.js:324 | The line the source writes for a sender, with the address unescaped; no contract of its own. Csv.SenderRowAgrees and Csv.QuotedAddressBreaksRow state what it does. |
| Csv.SenderRowAgrees | src/taskpane.js:324 | When the address holds no quote, the line as written equals the escaped line. |
| Csv.SenderRowEscaped | src/taskpane.js:324 | The corrected line, with the address escaped like the name; no contract of its own. Csv.SenderRowRoundTrip shows that it reads back as the sender's five fields. |
| Csv.RowsAsWritten | src/taskpane.js:323-325 | The lines the source appends, one per sender in list order; no contract of its own. Csv.RowsAgree relates it to the corrected lines. |
| Csv.Rows | src/taskpane.js:323-325 | The corrected lines, one per sender in list order; no contract of its own. Csv.RowsAppend, Csv.RowsRoundTrip and Csv.ExportCsv state what it does. |
| Csv.ExportCsv | src/taskpane.js:317-325 | With no current analysis, there is no output. Otherwise the output is the header followed by one escaped line per sender, in list order. When no address contains a quote, it equals the text the source writes. |
| Csv.RowsPrefixStep | src/taskpane.js:323-325 | Appending one sender's line extends the text by exactly the next line. |
| Csv.RowsAppend | src/taskpane.js:323-325 | The lines for one more sender are the earlier lines plus that sender's line. |
| Csv.Decimal | src/taskpane.js:324 | `${count}` is a non-empty string of digits, with no leading zero unless it is the single digit `0`. |
| Csv.DecimalRoundTrip | src/taskpane.js:324 | The digits read back as the count. |
| Csv.EscapedLength | src/taskpane.js:324 | Escaping adds one character per quote. |
| Csv.EscapeQuotesIdentity | src/taskpane.js:324 | Escaping leaves a text unchanged exactly when it has no quote. |
| Csv.UnquotedUnchanged | src/taskpane.js:324 | A text without a quote is unchanged by escaping. |
| Csv.RowsAgree | src/taskpane.js:323-325 | The escaped lines and the lines as written coincide when no address contains a quote. |
| Csv.EscapedQuotesPaired | src/taskpane.js:324 | In an escaped name, every quote is one of an adjacent pair. |
| Csv.ReadQuotedEscaped | src/taskpane.js:324 | The inside of a quoted field reads back as the text that was escaped, and the reader stops after the closing quote. |
| Csv.ReadBare | src/taskpane.js:324 | Not in the source; a rule of the CSV reader used to read line 324 back (the source has no reader): an unquoted field runs up to the first comma, newline or quote. |
| Csv.ReadBareExact | src/taskpane.js:324 | A text without comma, newline or quote (such as the count's digits), followed by a delimiter, reads back as itself. |
| Csv.ReadCell | src/taskpane.js:324 | Each cell the export writes reads back as its value. |
| Csv.ReadLineNewline | src/taskpane.js:324 | Not in the source; a rule of the CSV reader used to read line 324 back (the source has no reader): a field followed by a newline ends its line. |
| Csv.ReadLineComma | src/taskpane.js:324 | Not in the source; a rule of the CSV reader used to read line 324 back (the source has no reader): a field followed by a comma continues with the rest of its line. |
| Csv.ReadLineOfCells | src/taskpane.js:324 | A line of such cells reads back as the list of their values. |
| Csv.SenderRowRoundTrip | src/taskpane.js:324 | A sender's escaped line reads back as its name, address, count and two formatted dates. |
| Csv.RowsRoundTrip | src/taskpane.js:323-325 | The sender lines read back as every sender's fields, in order. |
| Csv.CsvRoundTrip | src/taskpane.js:321-325 | An export reads back as its header followed by every sender's fields, in order. |
| Csv.ReadQuotedCloses | src/taskpane.js:324 | Not in the source; a rule of the CSV reader used to read line 324 back (the source has no reader): a lone quote closes a quoted field. |
| Csv.ReadQuotedPlain | src/taskpane.js:324 | Not in the source; a rule of the CSV reader used to read line 324 back (the source has no reader): a character other than a quote belongs to the quoted field. |
| Csv.QuotedAddressBreaksRow | src/taskpane.js:324 | The line the source writes for address `a"b@x` cannot be read back. |
| Csv.BrokenLine | src/taskpane.js:324 | In that line the first field reads as `A` and leaves the rest after its comma, and the line as a whole cannot be read. |
| Csv.SecondFieldEndsEarly | src/taskpane.js:324 | A field written as `"a"` followed directly by `b` reads as `a`, with the rest starting at `b`. A line starting with it therefore cannot be read. |
| MessageSource.OrDefault | src/taskpane.js:189-191 | A present, non-empty value is never replaced, and with a non-empty fallback the result is never empty. |
| MessageSource.FromRest | src/taskpane.js:188-193 | The name and the subject are never empty. A missing or empty value becomes `Unknown`, `unknown@unknown.com` (then lowercased) or `(No subject)`, and a present value is kept. The date is the message's own. |
| MessageSource.FromRestAll | src/taskpane.js:188-193 | One record per REST message, in order. Each record has a non-empty name and subject, and the date of its own message. |
| MessageSource.MissingAddressesDomain | src/taskpane.js:188-190 | In the list handed to the analysis, every message without a sender address is counted under domain `unknown.com`. |
| MessageSource.DefaultAddressDomain | src/taskpane.js:190 | The default address has domain `unknown.com`. |
| MessageSource.MissingAddressDomain | src/taskpane.js:190 | A message without a sender address is counted under domain `unknown.com`. |

## Left out

- The Office and DOM plumbing is not modelled: `Office.onReady`, the button, the status element and the HTML shown for an empty folder or an error (lines 4-50). Only the decision to stop on an empty folder is kept, in `Aggregator.AnalyzeInbox`.
- The `try`/`catch` around the fetch and the analysis is not modelled, because nothing in the modelled core throws.
- Fetching is network I/O and the asynchronous host API, so the messages are a parameter. This covers `fetchEmails` (EWS SOAP), `fetchEmailsREST` (the token, `fetch` and promises) and the `limit` field.
- `parseEwsResponse` is not modelled: it depends on the browser's `DOMParser`, and its `new Date()` fallback reads the clock.
- `displayResults` and `escapeHtml` are presentation: HTML templates, the floating-point day span, and a DOM-based escape. Storing `window.currentAnalysis` is modelled as the `Option<Analysis>` argument of `Csv.ExportCsv`.
- The `Blob`/`URL`/anchor download and the `toISOString` file name are file I/O and are not modelled. `toLocaleDateString` is locale-dependent, so it is the parameter `formatDate`.
- `toLowerCase` is Unicode case mapping, so it is the parameter `lowerCase` of `MessageSource.FromRest`. The aggregation takes addresses as they come.
- Dates are integers. Parsing `receivedDateTime` into a `Date`, and the `Invalid Date` (NaN) comparisons that a bad date string would produce, are not modelled.
- Counts are unbounded integers. JavaScript numbers are exact up to 2^53, far beyond any mailbox.
- Aggregator.TrackSender: the source increments a sender object in place through the map, and the model reads the value, updates it and stores it back with `Set`. Nothing else holds a reference to that object during the pass, so the effect is the same, but aliasing is not modelled.
- Sorting.SortByKeyDesc: the sort is modelled as a stable insertion sort. Any stable sort gives the same result, and ECMAScript 2019 requires `sort` to be stable. An engine with an unstable sort could order ties differently.
- Csv.EscapeQuotes has no contract of its own. Its properties are stated by `Csv.EscapedLength`, `Csv.EscapeQuotesIdentity`, `Csv.EscapedQuotesPaired` and `Csv.ReadQuotedEscaped`.
- Csv.CsvRoundTrip requires formatted dates free of quotes, because the export wraps them in quotes without escaping. Real locale date formats contain no quote.
- Csv.ExportCsv writes the address escaped like the name (see Findings). It is proved equal to the text the source writes whenever no address contains a quote.

## Findings

| source | as written | input that shows it | evidently intended | confidence | as-written member | corrected member |
|---|---|---|---|---|---|---|
| src/taskpane.js:324 | The address is wrapped in quotes but its quotes are not doubled, unlike the name's. | A sender with address `a"b@x`: the quote inside the address closes the field after `a`, and the line cannot be read as CSV. | Escape the address the way the name is escaped: `"${sender.email.replace(/"/g, '""')}"`. | low, not executed: a real address rarely contains a quote, though quoted local parts are legal | Csv.QuotedAddressBreaksRow | Csv.CsvRoundTrip |

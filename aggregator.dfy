/**
  The aggregation pass over a list of messages: a sender table keyed by
  exact address, a domain-count table, the overall date range, the two
  tables sorted by descending count, and the domain list cut to its top ten.

  `AnalyzeEmails` is the single pass itself, with two insertion-ordered maps
  as accumulators. `Summary` states its result without the pass: each
  address's statistics are computed from all of that address's messages at
  once. The lemmas below say what `Summary` means.
 */
module Aggregator {
  import opened Wrappers
  import opened Records
  import opened Grouping
  import opened Sorting
  import opened OrderedMaps
  import opened Domains

  /** `domains.slice(0, 10)` */
  const TopDomains: nat := 10

  // ---------------------------------------------------------------------
  // Columns of the input

  function Addresses(emails: seq<Email>): (xs: seq<string>)
    ensures |xs| == |emails|
  {
    seq(|emails|, i requires 0 <= i < |emails| => emails[i].senderEmail)
  }

  /** The domain of each message's address. */
  function MailDomains(emails: seq<Email>): (ds: seq<string>)
    ensures |ds| == |emails|
  {
    seq(|emails|, i requires 0 <= i < |emails| => DomainOf(emails[i].senderEmail))
  }

  function Dates(emails: seq<Email>): (ds: seq<int>)
    ensures |ds| == |emails|
  {
    seq(|emails|, i requires 0 <= i < |emails| => emails[i].date)
  }

  /** The dates of the messages sent from one address, in input order. */
  function DatesFrom(emails: seq<Email>, address: string): (ds: seq<int>)
    ensures |ds| == CountIn(Addresses(emails), address)
  {
    if emails == [] then []
    else
      var prefix, last := emails[..|emails| - 1], emails[|emails| - 1];
      assert Addresses(emails) == Addresses(prefix) + [last.senderEmail];
      CountInAppend(Addresses(prefix), last.senderEmail, address);
      DatesFrom(prefix, address) + (if last.senderEmail == address then [last.date] else [])
  }

  function MinOf(ds: seq<int>): (m: int)
    requires |ds| > 0
    ensures m in ds
    ensures forall d :: d in ds ==> m <= d
  {
    if |ds| == 1 then ds[0]
    else
      var prefix, last := ds[..|ds| - 1], ds[|ds| - 1];
      var m := MinOf(prefix);
      assert forall d :: d in ds ==> d in prefix || d == last by {
        assert ds == prefix + [last];
      }
      if last < m then last else m
  }

  function MaxOf(ds: seq<int>): (m: int)
    requires |ds| > 0
    ensures m in ds
    ensures forall d :: d in ds ==> d <= m
  {
    if |ds| == 1 then ds[0]
    else
      var prefix, last := ds[..|ds| - 1], ds[|ds| - 1];
      var m := MaxOf(prefix);
      assert forall d :: d in ds ==> d in prefix || d == last by {
        assert ds == prefix + [last];
      }
      if last > m then last else m
  }

  // ---------------------------------------------------------------------
  // The result, stated without the single pass

  /**
    An address's entry: the name of its first message, the number of its
    messages, and the earliest and latest of their dates.
   */
  function SenderStatOf(emails: seq<Email>, address: string): SenderStat
    requires address in Addresses(emails)
  {
    var dates := DatesFrom(emails, address);
    SenderStat(address, emails[FirstIndex(Addresses(emails), address)].senderName,
               CountIn(Addresses(emails), address), MinOf(dates), MaxOf(dates))
  }

  function SenderStatsFor(emails: seq<Email>, ks: seq<string>): (t: seq<SenderStat>)
    requires forall i :: 0 <= i < |ks| ==> ks[i] in Addresses(emails)
    ensures |t| == |ks|
  {
    seq(|ks|, i requires 0 <= i < |ks| => SenderStatOf(emails, ks[i]))
  }

  /** The sender map's values, in the order in which the addresses first occur. */
  function SenderTable(emails: seq<Email>): seq<SenderStat> {
    SenderStatsFor(emails, Distinct(Addresses(emails)))
  }

  function DomainStatsFor(emails: seq<Email>, ks: seq<string>): (t: seq<DomainStat>)
    ensures |t| == |ks|
  {
    seq(|ks|, i requires 0 <= i < |ks| => DomainStat(ks[i], CountIn(MailDomains(emails), ks[i])))
  }

  /** The domain map's entries, in the order in which the domains first occur. */
  function DomainTable(emails: seq<Email>): seq<DomainStat> {
    DomainStatsFor(emails, Distinct(MailDomains(emails)))
  }

  /** `Array.from(domainMap.entries()).map(([domain, count]) => ({ domain, count }))` */
  function ToDomainStats(es: seq<(string, nat)>): (ds: seq<DomainStat>)
    ensures |ds| == |es|
    ensures forall i :: 0 <= i < |es| ==> ds[i] == DomainStat(es[i].0, es[i].1)
  {
    if es == [] then [] else [DomainStat(es[0].0, es[0].1)] + ToDomainStats(es[1..])
  }

  /** The senders, by descending count. */
  function SortedSenders(emails: seq<Email>): seq<SenderStat> {
    SortByKeyDesc(SenderTable(emails), SenderCount)
  }

  /** All domains, by descending count, before the cut to the top ten. */
  function SortedDomains(emails: seq<Email>): seq<DomainStat> {
    SortByKeyDesc(DomainTable(emails), DomainCount)
  }

  /**
    The date range. The clock reading that seeds the oldest date is the
    parameter now; the newest date is seeded with the epoch.
   */
  function DateRangeOf(emails: seq<Email>, now: int): DateRange {
    DateRange(MinOf([now] + Dates(emails)), MaxOf([0] + Dates(emails)))
  }

  /** What the aggregation returns. */
  function Summary(emails: seq<Email>, now: int): Analysis {
    var senders, domains := SortedSenders(emails), SortedDomains(emails);
    Analysis(|emails|, |senders|, |domains|, DateRangeOf(emails, now), senders, Take(domains, TopDomains))
  }

  // ---------------------------------------------------------------------
  // The single pass

  /** The sender map holds, for each address seen so far, its entry over the messages seen so far. */
  ghost predicate SenderMapHolds(senderMap: OrderedMap<string, SenderStat>, seen: seq<Email>)
    reads senderMap
  {
    && senderMap.Valid()
    && senderMap.keys == Distinct(Addresses(seen))
    && StatsHold(senderMap.entries, seen)
  }

  /** Each address in the map is one seen so far, with its entry over the messages seen so far. */
  ghost predicate StatsHold(entries: map<string, SenderStat>, seen: seq<Email>) {
    forall k :: k in entries ==> k in Addresses(seen) && entries[k] == SenderStatOf(seen, k)
  }

  /** The domain map holds, for each domain seen so far, the number of messages seen so far from it. */
  ghost predicate DomainMapHolds(domainMap: OrderedMap<string, nat>, seen: seq<Email>)
    reads domainMap
  {
    && domainMap.Valid()
    && domainMap.keys == Distinct(MailDomains(seen))
    && CountsHold(domainMap.entries, seen)
  }

  /** Each domain in the map has the number of messages seen so far from it. */
  ghost predicate CountsHold(entries: map<string, nat>, seen: seq<Email>) {
    forall d :: d in entries ==> entries[d] == CountIn(MailDomains(seen), d)
  }

  /** `analyzeEmails(emails)`, with `new Date()` read as now. */
  method AnalyzeEmails(emails: seq<Email>, now: int) returns (r: Analysis)
    ensures r == Summary(emails, now)
  {
    var senderMap := new OrderedMap<string, SenderStat>();
    var domainMap := new OrderedMap<string, nat>();
    var oldestDate, newestDate := now, 0;
    for i := 0 to |emails|
      invariant senderMap as object != domainMap as object
      invariant SenderMapHolds(senderMap, emails[..i])
      invariant DomainMapHolds(domainMap, emails[..i])
      invariant oldestDate == MinOf([now] + Dates(emails[..i]))
      invariant newestDate == MaxOf([0] + Dates(emails[..i]))
    {
      var email := emails[i];
      PrefixStep(emails, i);
      TrackSender(senderMap, emails[..i], email);
      TrackDomain(domainMap, emails[..i], email);

      // Track date range
      DateRangeStep(emails[..i], email, now);
      if email.date < oldestDate {
        oldestDate := email.date;
      }
      if email.date > newestDate {
        newestDate := email.date;
      }
    }
    assert emails[..|emails|] == emails;

    var values := senderMap.Values();
    var entries := ToDomainStats(domainMap.Entries());
    MapsHoldTables(senderMap, domainMap, emails);
    var senders := SortByKeyDesc(values, SenderCount);
    var domains := SortByKeyDesc(entries, DomainCount);
    r := Analysis(|emails|, |senders|, |domains|, DateRange(oldestDate, newestDate), senders, Take(domains, TopDomains));
  }

  /** Track by email address: one step of the pass over the sender map. */
  method TrackSender(senderMap: OrderedMap<string, SenderStat>, ghost seen: seq<Email>, email: Email)
    requires SenderMapHolds(senderMap, seen)
    modifies senderMap
    ensures SenderMapHolds(senderMap, seen + [email])
  {
    var key := email.senderEmail;
    ghost var before := senderMap.entries;
    if senderMap.Has(key) {
      var sender := senderMap.Get(key);
      DistinctMembers(Addresses(seen), key);
      KnownSenderStep(seen, email);
      assert sender == SenderStatOf(seen, key);
      sender := sender.(count := sender.count + 1);
      if email.date < sender.firstEmail {
        sender := sender.(firstEmail := email.date);
      }
      if email.date > sender.lastEmail {
        sender := sender.(lastEmail := email.date);
      }
      assert sender == SenderStatOf(seen + [email], key);
      senderMap.Set(key, sender);
    } else {
      DistinctMembers(Addresses(seen), key);
      NewSenderStep(seen, email);
      senderMap.Set(key, SenderStat(email.senderEmail, email.senderName, 1, email.date, email.date));
    }
    StatsStep(before, seen, email);
  }

  /** The entry of an address already seen, after one more message from it. */
  lemma KnownSenderStep(seen: seq<Email>, e: Email)
    requires e.senderEmail in Addresses(seen)
    ensures e.senderEmail in Addresses(seen + [e])
    ensures Distinct(Addresses(seen + [e])) == Distinct(Addresses(seen))
    ensures var s := SenderStatOf(seen, e.senderEmail);
      SenderStatOf(seen + [e], e.senderEmail) ==
        s.(count := s.count + 1,
           firstEmail := if e.date < s.firstEmail then e.date else s.firstEmail,
           lastEmail := if e.date > s.lastEmail then e.date else s.lastEmail)
  {
    AddressesAppend(seen, e);
    SenderStatAppend(seen, e, e.senderEmail);
  }

  /** The entry of an address not seen before, after its first message. */
  lemma NewSenderStep(seen: seq<Email>, e: Email)
    requires e.senderEmail !in Addresses(seen)
    ensures e.senderEmail in Addresses(seen + [e])
    ensures SenderStatOf(seen + [e], e.senderEmail) == SenderStat(e.senderEmail, e.senderName, 1, e.date, e.date)
    ensures Distinct(Addresses(seen + [e])) == Distinct(Addresses(seen)) + [e.senderEmail]
  {
    AddressesAppend(seen, e);
    SenderStatAppend(seen, e, e.senderEmail);
  }

  /** Storing the updated entry of the message's address keeps every entry right. */
  lemma StatsStep(entries: map<string, SenderStat>, seen: seq<Email>, e: Email)
    requires StatsHold(entries, seen)
    requires e.senderEmail in entries <==> e.senderEmail in Addresses(seen)
    requires e.senderEmail in Addresses(seen + [e])
    ensures StatsHold(entries[e.senderEmail := SenderStatOf(seen + [e], e.senderEmail)], seen + [e])
  {
    var key := e.senderEmail;
    var entries' := entries[key := SenderStatOf(seen + [e], key)];
    forall k | k in entries'
      ensures k in Addresses(seen + [e]) && entries'[k] == SenderStatOf(seen + [e], k)
    {
      if k != key {
        OtherSenderUnchanged(seen, e, k);
      }
    }
  }

  /** A message from another address leaves an address's entry as it was. */
  lemma OtherSenderUnchanged(seen: seq<Email>, e: Email, k: string)
    requires k in Addresses(seen) && k != e.senderEmail
    ensures k in Addresses(seen + [e])
    ensures SenderStatOf(seen + [e], k) == SenderStatOf(seen, k)
  {
    AddressesAppend(seen, e);
    SenderStatAppend(seen, e, k);
  }

  /** Track by domain: one step of the pass over the domain map. */
  method TrackDomain(domainMap: OrderedMap<string, nat>, ghost seen: seq<Email>, email: Email)
    requires DomainMapHolds(domainMap, seen)
    modifies domainMap
    ensures DomainMapHolds(domainMap, seen + [email])
  {
    var domain := DomainOf(email.senderEmail);
    ghost var before := domainMap.entries;
    MailDomainsAppend(seen, email);
    DistinctMembers(MailDomains(seen), domain);
    CountInAppend(MailDomains(seen), domain, domain);
    domainMap.Set(domain, (if domainMap.Has(domain) then domainMap.Get(domain) else 0) + 1);
    assert domainMap.entries == before[domain := CountIn(MailDomains(seen + [email]), domain)];
    CountsStep(before, seen, email);
  }

  /** Storing the new count of the message's domain keeps every count right. */
  lemma CountsStep(entries: map<string, nat>, seen: seq<Email>, e: Email)
    requires CountsHold(entries, seen)
    ensures var d := DomainOf(e.senderEmail);
      CountsHold(entries[d := CountIn(MailDomains(seen + [e]), d)], seen + [e])
  {
    var d := DomainOf(e.senderEmail);
    MailDomainsAppend(seen, e);
    forall k | k in entries && k != d
      ensures entries[k] == CountIn(MailDomains(seen + [e]), k)
    {
      CountInAppend(MailDomains(seen), d, k);
    }
  }

  /** After the whole input, the maps' contents in key order are the two tables. */
  lemma MapsHoldTables(senderMap: OrderedMap<string, SenderStat>, domainMap: OrderedMap<string, nat>, emails: seq<Email>)
    requires SenderMapHolds(senderMap, emails) && DomainMapHolds(domainMap, emails)
    ensures senderMap.Values() == SenderTable(emails)
    ensures ToDomainStats(domainMap.Entries()) == DomainTable(emails)
  {
  }

  /**
    The caller's side: no analysis for an empty folder (the early return
    before `analyzeEmails` is called), otherwise the analysis, whose date
    range is then a proper range.
   */
  method AnalyzeInbox(emails: seq<Email>, now: int) returns (r: Option<Analysis>)
    ensures r.None? <==> emails == []
    ensures r.Some? ==> r.value == Summary(emails, now)
    ensures r.Some? ==> r.value.dateRange.oldest <= r.value.dateRange.newest
  {
    if |emails| == 0 {
      return None;
    }
    var analysis := AnalyzeEmails(emails, now);
    DateRangeBounds(emails, now);
    return Some(analysis);
  }

  // ---------------------------------------------------------------------
  // One more message

  lemma PrefixStep<T>(s: seq<T>, i: nat)
    requires i < |s|
    ensures s[..i + 1] == s[..i] + [s[i]]
  {
  }

  lemma AddressesAppend(emails: seq<Email>, e: Email)
    ensures Addresses(emails + [e]) == Addresses(emails) + [e.senderEmail]
    ensures Distinct(Addresses(emails + [e])) ==
      if e.senderEmail in Addresses(emails) then Distinct(Addresses(emails))
      else Distinct(Addresses(emails)) + [e.senderEmail]
  {
    assert Addresses(emails + [e]) == Addresses(emails) + [e.senderEmail];
    DistinctAppend(Addresses(emails), e.senderEmail);
  }

  lemma MailDomainsAppend(emails: seq<Email>, e: Email)
    ensures MailDomains(emails + [e]) == MailDomains(emails) + [DomainOf(e.senderEmail)]
    ensures Distinct(MailDomains(emails + [e])) ==
      if DomainOf(e.senderEmail) in MailDomains(emails) then Distinct(MailDomains(emails))
      else Distinct(MailDomains(emails)) + [DomainOf(e.senderEmail)]
  {
    assert MailDomains(emails + [e]) == MailDomains(emails) + [DomainOf(e.senderEmail)];
    DistinctAppend(MailDomains(emails), DomainOf(e.senderEmail));
  }

  /** The global range after one more message: the update the single pass makes. */
  lemma DateRangeStep(emails: seq<Email>, e: Email, now: int)
    ensures MinOf([now] + Dates(emails + [e])) ==
      var m := MinOf([now] + Dates(emails)); if e.date < m then e.date else m
    ensures MaxOf([0] + Dates(emails + [e])) ==
      var m := MaxOf([0] + Dates(emails)); if e.date > m then e.date else m
  {
    assert Dates(emails + [e]) == Dates(emails) + [e.date];
    assert ([now] + Dates(emails + [e]))[..|emails| + 1] == [now] + Dates(emails);
    assert ([0] + Dates(emails + [e]))[..|emails| + 1] == [0] + Dates(emails);
  }

  /** An address's entry after one more message: the update the single pass makes. */
  lemma SenderStatAppend(emails: seq<Email>, e: Email, k: string)
    requires k in Addresses(emails + [e])
    ensures Addresses(emails + [e]) == Addresses(emails) + [e.senderEmail]
    ensures SenderStatOf(emails + [e], k) ==
      if k != e.senderEmail then SenderStatOf(emails, k)
      else if k !in Addresses(emails) then SenderStat(k, e.senderName, 1, e.date, e.date)
      else
        var s := SenderStatOf(emails, k);
        s.(count := s.count + 1,
           firstEmail := if e.date < s.firstEmail then e.date else s.firstEmail,
           lastEmail := if e.date > s.lastEmail then e.date else s.lastEmail)
  {
    var all := emails + [e];
    var xs := Addresses(emails);
    assert Addresses(all) == xs + [e.senderEmail];
    assert all[..|all| - 1] == emails;
    CountInAppend(xs, e.senderEmail, k);
    FirstIndexAppend(xs, e.senderEmail, k);
    var ds := DatesFrom(emails, k);
    var ds' := DatesFrom(all, k);
    assert ds' == ds + (if e.senderEmail == k then [e.date] else []);
    if k != e.senderEmail {
      assert ds' == ds;
      var i := FirstIndex(xs, k);
      assert all[i] == emails[i];
    } else if k in xs {
      var i := FirstIndex(xs, k);
      assert all[i] == emails[i];
      assert ds'[..|ds'| - 1] == ds;
      assert MinOf(ds') == if e.date < MinOf(ds) then e.date else MinOf(ds);
      assert MaxOf(ds') == if e.date > MaxOf(ds) then e.date else MaxOf(ds);
    } else {
      assert ds' == [e.date];
      assert all[|emails|] == e;
    }
  }

  // ---------------------------------------------------------------------
  // What the summary means

  /** The least of a seed and some values: below all of them, and one of them. */
  lemma SeededMin(seed: int, xs: seq<int>)
    ensures var m := MinOf([seed] + xs);
      && m <= seed && (forall j :: 0 <= j < |xs| ==> m <= xs[j])
      && (m == seed || exists j :: 0 <= j < |xs| && xs[j] == m)
  {
    var ds := [seed] + xs;
    var m := MinOf(ds);
    assert ds[0] == seed && seed in ds;
    forall j | 0 <= j < |xs| ensures m <= xs[j] {
      assert ds[j + 1] == xs[j] && xs[j] in ds;
    }
    var a :| 0 <= a < |ds| && ds[a] == m;
    if a > 0 {
      assert xs[a - 1] == m;
    }
  }

  /** The greatest of a seed and some values: above all of them, and one of them. */
  lemma SeededMax(seed: int, xs: seq<int>)
    ensures var m := MaxOf([seed] + xs);
      && seed <= m && (forall j :: 0 <= j < |xs| ==> xs[j] <= m)
      && (m == seed || exists j :: 0 <= j < |xs| && xs[j] == m)
  {
    var ds := [seed] + xs;
    var m := MaxOf(ds);
    assert ds[0] == seed && seed in ds;
    forall j | 0 <= j < |xs| ensures xs[j] <= m {
      assert ds[j + 1] == xs[j] && xs[j] in ds;
    }
    var a :| 0 <= a < |ds| && ds[a] == m;
    if a > 0 {
      assert xs[a - 1] == m;
    }
  }

  /**
    Every message date lies within the range. The range is the seeds (now
    and the epoch) on empty input, and a proper range otherwise.
   */
  lemma DateRangeBounds(emails: seq<Email>, now: int)
    ensures var range := DateRangeOf(emails, now);
      && (forall j :: 0 <= j < |emails| ==> range.oldest <= emails[j].date <= range.newest)
      && range.oldest <= now && 0 <= range.newest
      && (range.oldest == now || exists j :: 0 <= j < |emails| && emails[j].date == range.oldest)
      && (range.newest == 0 || exists j :: 0 <= j < |emails| && emails[j].date == range.newest)
      && (emails == [] ==> range == DateRange(now, 0))
      && (emails != [] ==> range.oldest <= range.newest)
  {
    var range := DateRangeOf(emails, now);
    var dates := Dates(emails);
    SeededMin(now, dates);
    SeededMax(0, dates);
    forall j | 0 <= j < |emails| ensures range.oldest <= emails[j].date <= range.newest {
      assert dates[j] == emails[j].date;
    }
    if range.oldest != now {
      var j :| 0 <= j < |dates| && dates[j] == range.oldest;
      assert emails[j].date == range.oldest;
    }
    if range.newest != 0 {
      var j :| 0 <= j < |dates| && dates[j] == range.newest;
      assert emails[j].date == range.newest;
    }
    if emails == [] {
      assert [now] + dates == [now] && [0] + dates == [0];
    } else {
      assert dates[0] == emails[0].date;
    }
  }
}

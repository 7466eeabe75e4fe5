/**
  What the summary of a mailbox says about the messages it was computed
  from: each sender entry is the statistics of one address, every message
  is counted exactly once in each table, both tables are sorted by
  descending count with ties in order of first appearance, and the domain
  list is the ten most frequent domains.
 */
module AnalysisFacts {
  import opened Records
  import opened Grouping
  import opened Sorting
  import opened Domains
  import opened Aggregator

  // ---------------------------------------------------------------------
  // One sender's entry

  /** Every date of a message from the address is among the dates collected for it. */
  lemma {:induction false} DatesFromListed(emails: seq<Email>, address: string)
    ensures forall j :: 0 <= j < |emails| && emails[j].senderEmail == address ==> emails[j].date in DatesFrom(emails, address)
  {
    if emails != [] {
      var prefix, last := emails[..|emails| - 1], emails[|emails| - 1];
      DatesFromListed(prefix, address);
      var before := DatesFrom(prefix, address);
      var ds := DatesFrom(emails, address);
      assert ds == before + (if last.senderEmail == address then [last.date] else []);
      forall j | 0 <= j < |emails| && emails[j].senderEmail == address ensures emails[j].date in ds {
        if j < |prefix| {
          assert prefix[j] == emails[j];
          assert emails[j].date in before;
        }
      }
    }
  }

  /** Every date collected for the address is the date of a message from it. */
  lemma {:induction false} DatesFromOccur(emails: seq<Email>, address: string, d: int)
    requires d in DatesFrom(emails, address)
    ensures exists j :: 0 <= j < |emails| && emails[j].senderEmail == address && emails[j].date == d
  {
    var prefix, last := emails[..|emails| - 1], emails[|emails| - 1];
    var before := DatesFrom(prefix, address);
    assert DatesFrom(emails, address) == before + (if last.senderEmail == address then [last.date] else []);
    if d in before {
      DatesFromOccur(prefix, address, d);
      var j :| 0 <= j < |prefix| && prefix[j].senderEmail == address && prefix[j].date == d;
      assert emails[j] == prefix[j];
    } else {
      assert emails[|prefix|] == last;
    }
  }

  /**
    An address's entry: its count is the number of messages from it, its
    first and last dates are the earliest and latest of their dates, and
    its name is the name on the first message from it.
   */
  lemma SenderStatMeaning(emails: seq<Email>, address: string)
    requires address in Addresses(emails)
    ensures var s := SenderStatOf(emails, address);
      && s.email == address
      && s.count == |set j: nat | j < |emails| && emails[j].senderEmail == address| >= 1
      && (forall j :: 0 <= j < |emails| && emails[j].senderEmail == address ==>
            s.firstEmail <= emails[j].date <= s.lastEmail)
      && (exists j :: 0 <= j < |emails| && emails[j].senderEmail == address && emails[j].date == s.firstEmail)
      && (exists j :: 0 <= j < |emails| && emails[j].senderEmail == address && emails[j].date == s.lastEmail)
      && (exists j :: 0 <= j < |emails| && emails[j].senderEmail == address && emails[j].senderName == s.name &&
            forall i :: 0 <= i < j ==> emails[i].senderEmail != address)
  {
    SenderCountMeaning(emails, address);
    SenderDatesMeaning(emails, address);
    SenderNameMeaning(emails, address);
  }

  lemma SenderCountMeaning(emails: seq<Email>, address: string)
    requires address in Addresses(emails)
    ensures SenderStatOf(emails, address).count == |set j: nat | j < |emails| && emails[j].senderEmail == address|
  {
    var xs := Addresses(emails);
    CountInIsOccurrences(xs, address);
    assert Occurrences(xs, address) == set j: nat | j < |emails| && emails[j].senderEmail == address;
  }

  lemma SenderDatesMeaning(emails: seq<Email>, address: string)
    requires address in Addresses(emails)
    ensures var s := SenderStatOf(emails, address);
      && (forall j :: 0 <= j < |emails| && emails[j].senderEmail == address ==>
            s.firstEmail <= emails[j].date <= s.lastEmail)
      && (exists j :: 0 <= j < |emails| && emails[j].senderEmail == address && emails[j].date == s.firstEmail)
      && (exists j :: 0 <= j < |emails| && emails[j].senderEmail == address && emails[j].date == s.lastEmail)
  {
    var s := SenderStatOf(emails, address);
    DatesFromListed(emails, address);
    DatesFromOccur(emails, address, s.firstEmail);
    DatesFromOccur(emails, address, s.lastEmail);
  }

  lemma SenderNameMeaning(emails: seq<Email>, address: string)
    requires address in Addresses(emails)
    ensures var s := SenderStatOf(emails, address);
      exists j :: 0 <= j < |emails| && emails[j].senderEmail == address && emails[j].senderName == s.name &&
        forall i :: 0 <= i < j ==> emails[i].senderEmail != address
  {
    var xs := Addresses(emails);
    var i := FirstIndex(xs, address);
    assert xs[i] == emails[i].senderEmail;
    forall j | 0 <= j < i ensures emails[j].senderEmail != address {
      assert xs[j] == emails[j].senderEmail;
    }
  }

  // ---------------------------------------------------------------------
  // The sender list

  /** A sum of keys that are the counts of the matching keys ks in xs is SumCounts(ks, xs). */
  lemma {:induction false} SumMatchesCounts<T, K>(s: seq<T>, key: T -> int, ks: seq<K>, xs: seq<K>)
    requires |s| == |ks|
    requires forall i :: 0 <= i < |s| ==> key(s[i]) == CountIn(xs, ks[i])
    ensures Sum(s, key) == SumCounts(ks, xs)
  {
    if s != [] {
      var n := |s| - 1;
      SumMatchesCounts(s[..n], key, ks[..n], xs);
      assert s == s[..n] + [s[n]];
      SumAppend(s[..n], [s[n]], key);
    }
  }

  /** The sender map's values: entry i is the statistics of the i-th distinct address. */
  lemma SenderTableEntries(emails: seq<Email>)
    ensures var xs := Addresses(emails);
      var ks, table := Distinct(xs), SenderTable(emails);
      && |table| == |ks|
      && forall i :: 0 <= i < |ks| ==>
           ks[i] in xs && table[i] == SenderStatOf(emails, ks[i]) &&
           table[i].email == ks[i] && table[i].count == CountIn(xs, ks[i])
  {
  }

  /** Every message is counted once, under its own address. */
  lemma SendersCountEveryMessage(emails: seq<Email>)
    ensures Sum(SortedSenders(emails), SenderCount) == |emails|
  {
    var xs := Addresses(emails);
    SenderTableEntries(emails);
    SortKeepsSum(SenderTable(emails), SenderCount);
    SumMatchesCounts(SenderTable(emails), SenderCount, Distinct(xs), xs);
    DistinctCountsSumToLength(xs);
  }

  /** The distinct values of a column, counted as a set. */
  lemma ColumnValues(emails: seq<Email>)
    ensures (set a | a in Addresses(emails)) == set j | 0 <= j < |emails| :: emails[j].senderEmail
    ensures (set d | d in MailDomains(emails)) == set j | 0 <= j < |emails| :: DomainOf(emails[j].senderEmail)
  {
    var xs, ds := Addresses(emails), MailDomains(emails);
    forall a | a in xs ensures a in set j | 0 <= j < |emails| :: emails[j].senderEmail {
      var j :| 0 <= j < |xs| && xs[j] == a;
    }
    forall j | 0 <= j < |emails| ensures emails[j].senderEmail in xs {
      assert xs[j] == emails[j].senderEmail;
    }
    forall d | d in ds ensures d in set j | 0 <= j < |emails| :: DomainOf(emails[j].senderEmail) {
      var j :| 0 <= j < |ds| && ds[j] == d;
    }
    forall j | 0 <= j < |emails| ensures DomainOf(emails[j].senderEmail) in ds {
      assert ds[j] == DomainOf(emails[j].senderEmail);
    }
  }

  /** Each entry of the sender list is the statistics of an address that occurs. */
  lemma SendersAreAddressStats(emails: seq<Email>)
    ensures var senders := SortedSenders(emails);
      forall i :: 0 <= i < |senders| ==>
        senders[i].email in Addresses(emails) && senders[i] == SenderStatOf(emails, senders[i].email)
  {
    var table, senders := SenderTable(emails), SortedSenders(emails);
    forall i | 0 <= i < |senders|
      ensures senders[i].email in Addresses(emails) && senders[i] == SenderStatOf(emails, senders[i].email)
    {
      assert senders[i] in multiset(senders);
      TableMember(emails, senders[i]);
    }
  }

  /** An entry of the sender map's values is the statistics of an address that occurs. */
  lemma TableMember(emails: seq<Email>, s: SenderStat)
    requires s in SenderTable(emails)
    ensures s.email in Addresses(emails) && s == SenderStatOf(emails, s.email)
  {
    var table := SenderTable(emails);
    SenderTableEntries(emails);
    var a :| 0 <= a < |table| && table[a] == s;
  }

  /** The addresses in the sender list are the distinct addresses of the messages. */
  lemma SenderAddressesListed(emails: seq<Email>)
    ensures (set s | s in SortedSenders(emails) :: s.email) == set a | a in Addresses(emails)
  {
    ListedAddressesOccur(emails);
    OccurringAddressesListed(emails);
  }

  lemma ListedAddressesOccur(emails: seq<Email>)
    ensures forall s :: s in SortedSenders(emails) ==> s.email in Addresses(emails)
  {
    var senders := SortedSenders(emails);
    forall s | s in senders ensures s.email in Addresses(emails) {
      assert s in multiset(senders);
      TableMember(emails, s);
    }
  }

  lemma OccurringAddressesListed(emails: seq<Email>)
    ensures forall a :: a in Addresses(emails) ==> exists s :: s in SortedSenders(emails) && s.email == a
  {
    var ks := Distinct(Addresses(emails));
    var table, senders := SenderTable(emails), SortedSenders(emails);
    SenderTableEntries(emails);
    PermutedMembers(senders, table);
    forall a | a in Addresses(emails) ensures exists s :: s in senders && s.email == a {
      DistinctMembers(Addresses(emails), a);
      var k :| 0 <= k < |ks| && ks[k] == a;
      assert table[k] in senders;
    }
  }

  /** No address has two entries in the sender list. */
  lemma SendersDistinct(emails: seq<Email>)
    ensures var senders := SortedSenders(emails);
      forall i, j :: 0 <= i < j < |senders| ==> senders[i].email != senders[j].email
  {
    var table := SenderTable(emails);
    SenderTableEntries(emails);
    PermutationKeepsNamesDistinct(table, SortedSenders(emails), (s: SenderStat) => s.email);
  }

  /**
    The sender list has one entry per distinct address: the addresses it
    lists are those of the messages, each once.
   */
  lemma SendersAreTheAddresses(emails: seq<Email>)
    ensures var senders := SortedSenders(emails);
      && (set s | s in senders :: s.email) == (set j | 0 <= j < |emails| :: emails[j].senderEmail)
      && (forall i, j :: 0 <= i < j < |senders| ==> senders[i].email != senders[j].email)
      && |senders| == |set j | 0 <= j < |emails| :: emails[j].senderEmail|
  {
    SenderAddressesListed(emails);
    SendersDistinct(emails);
    DistinctCardinality(Addresses(emails));
    ColumnValues(emails);
  }

  /**
    The sender list is by descending count, is a reordering of the map's
    values, and lists addresses with equal counts in the order in which
    they first appear in the input (the sort is stable).
   */
  lemma SendersSortedStable(emails: seq<Email>)
    ensures var senders, xs := SortedSenders(emails), Addresses(emails);
      && SortedDesc(senders, SenderCount)
      && multiset(senders) == multiset(SenderTable(emails))
      && (forall i :: 0 <= i < |senders| ==> senders[i].email in xs)
      && (forall i, j :: 0 <= i < j < |senders| && senders[i].count == senders[j].count ==>
            FirstIndex(xs, senders[i].email) < FirstIndex(xs, senders[j].email))
  {
    var xs := Addresses(emails);
    var table := SenderTable(emails);
    var senders := SortedSenders(emails);
    SortIsSorted(table, SenderCount);
    SenderTableInFirstOrder(emails);
    SortKeepsTies(table, SenderCount, AddressRank(xs));
    forall i | 0 <= i < |senders| ensures senders[i].email in xs {
      assert senders[i] in multiset(senders);
      TableMember(emails, senders[i]);
    }
  }

  /** Where an entry's address first occurs in the input. */
  function AddressRank(xs: seq<string>): SenderStat -> int {
    (s: SenderStat) => if s.email in xs then FirstIndex(xs, s.email) else -1
  }

  /**
    The sender map's values come in order of each address's first message,
    so in particular entries with equal counts do.
   */
  lemma SenderTableInFirstOrder(emails: seq<Email>)
    ensures var xs, table := Addresses(emails), SenderTable(emails);
      forall i, j :: 0 <= i < j < |table| ==>
        table[i].email in xs && table[j].email in xs &&
        FirstIndex(xs, table[i].email) < FirstIndex(xs, table[j].email)
    ensures TiesInRankOrder(SenderTable(emails), SenderCount, AddressRank(Addresses(emails)))
  {
    var xs := Addresses(emails);
    var ks := Distinct(xs);
    var table := SenderTable(emails);
    forall i, j | 0 <= i < j < |table|
      ensures table[i].email in xs && table[j].email in xs
      ensures FirstIndex(xs, table[i].email) < FirstIndex(xs, table[j].email)
    {
      assert table[i].email == ks[i] && table[j].email == ks[j];
      DistinctMembers(xs, ks[i]);
      DistinctMembers(xs, ks[j]);
      DistinctFollowsFirstOccurrence(xs, i, j);
    }
  }

  // ---------------------------------------------------------------------
  // The domain list

  /** The domain map's entries: entry i is the i-th distinct domain with its count. */
  lemma DomainTableEntries(emails: seq<Email>)
    ensures var ds := MailDomains(emails);
      var ks, table := Distinct(ds), DomainTable(emails);
      && |table| == |ks|
      && forall i :: 0 <= i < |ks| ==>
           ks[i] in ds && table[i] == DomainStat(ks[i], CountIn(ds, ks[i]))
  {
  }

  /** Every message is counted once, under the domain of its address. */
  lemma DomainsCountEveryMessage(emails: seq<Email>)
    ensures Sum(SortedDomains(emails), DomainCount) == |emails|
  {
    var ds := MailDomains(emails);
    DomainTableEntries(emails);
    SortKeepsSum(DomainTable(emails), DomainCount);
    SumMatchesCounts(DomainTable(emails), DomainCount, Distinct(ds), ds);
    DistinctCountsSumToLength(ds);
  }

  /**
    Each entry of the full domain list is a domain that occurs, with the
    number of messages whose address has that domain.
   */
  lemma DomainsAreDomainCounts(emails: seq<Email>)
    ensures var domains := SortedDomains(emails);
      forall i :: 0 <= i < |domains| ==>
        domains[i].domain in MailDomains(emails) &&
        domains[i].count == |set j: nat | j < |emails| && DomainOf(emails[j].senderEmail) == domains[i].domain| >= 1
  {
    var ds := MailDomains(emails);
    var domains := SortedDomains(emails);
    forall i | 0 <= i < |domains|
      ensures domains[i].domain in ds &&
        domains[i].count == |set j: nat | j < |emails| && DomainOf(emails[j].senderEmail) == domains[i].domain| >= 1
    {
      assert domains[i] in multiset(domains);
      DomainTableMember(emails, domains[i]);
      DomainOccurrences(emails, domains[i].domain);
    }
  }

  /** An entry of the domain map is a domain that occurs, with its number of occurrences. */
  lemma DomainTableMember(emails: seq<Email>, e: DomainStat)
    requires e in DomainTable(emails)
    ensures e.domain in MailDomains(emails) && e.count == CountIn(MailDomains(emails), e.domain)
  {
    var table := DomainTable(emails);
    DomainTableEntries(emails);
    var a :| 0 <= a < |table| && table[a] == e;
  }

  /** The number of occurrences of a domain is the number of messages whose address has it. */
  lemma DomainOccurrences(emails: seq<Email>, d: string)
    ensures CountIn(MailDomains(emails), d) == |set j: nat | j < |emails| && DomainOf(emails[j].senderEmail) == d|
  {
    var ds := MailDomains(emails);
    CountInIsOccurrences(ds, d);
    assert Occurrences(ds, d) == set j: nat | j < |emails| && DomainOf(emails[j].senderEmail) == d;
  }

  /** The domains in the full domain list are the distinct domains of the messages. */
  lemma DomainNamesListed(emails: seq<Email>)
    ensures (set d | d in SortedDomains(emails) :: d.domain) == set d | d in MailDomains(emails)
  {
    ListedDomainsOccur(emails);
    OccurringDomainsListed(emails);
  }

  lemma ListedDomainsOccur(emails: seq<Email>)
    ensures forall e :: e in SortedDomains(emails) ==> e.domain in MailDomains(emails)
  {
    var domains := SortedDomains(emails);
    forall e | e in domains ensures e.domain in MailDomains(emails) {
      assert e in multiset(domains);
      DomainTableMember(emails, e);
    }
  }

  lemma OccurringDomainsListed(emails: seq<Email>)
    ensures forall d :: d in MailDomains(emails) ==> exists e :: e in SortedDomains(emails) && e.domain == d
  {
    var ks := Distinct(MailDomains(emails));
    var table, domains := DomainTable(emails), SortedDomains(emails);
    DomainTableEntries(emails);
    PermutedMembers(domains, table);
    forall d | d in MailDomains(emails) ensures exists e :: e in domains && e.domain == d {
      DistinctMembers(MailDomains(emails), d);
      var k :| 0 <= k < |ks| && ks[k] == d;
      assert table[k] in domains;
    }
  }

  /** No domain has two entries in the full domain list. */
  lemma DomainsDistinct(emails: seq<Email>)
    ensures var domains := SortedDomains(emails);
      forall i, j :: 0 <= i < j < |domains| ==> domains[i].domain != domains[j].domain
  {
    var table := DomainTable(emails);
    DomainTableEntries(emails);
    PermutationKeepsNamesDistinct(table, SortedDomains(emails), (d: DomainStat) => d.domain);
  }

  /**
    The full domain list has one entry per distinct domain: the domains it
    lists are those of the messages' addresses, each once.
   */
  lemma DomainsAreTheMailDomains(emails: seq<Email>)
    ensures var domains := SortedDomains(emails);
      && (set d | d in domains :: d.domain) == (set j | 0 <= j < |emails| :: DomainOf(emails[j].senderEmail))
      && (forall i, j :: 0 <= i < j < |domains| ==> domains[i].domain != domains[j].domain)
      && |domains| == |set j | 0 <= j < |emails| :: DomainOf(emails[j].senderEmail)|
  {
    DomainNamesListed(emails);
    DomainsDistinct(emails);
    DistinctCardinality(MailDomains(emails));
    ColumnValues(emails);
  }

  /**
    The full domain list is by descending count, is a reordering of the
    map's entries, and lists domains with equal counts in the order in
    which they first appear in the input.
   */
  lemma DomainsSortedStable(emails: seq<Email>)
    ensures var domains, ds := SortedDomains(emails), MailDomains(emails);
      && SortedDesc(domains, DomainCount)
      && multiset(domains) == multiset(DomainTable(emails))
      && (forall i :: 0 <= i < |domains| ==> domains[i].domain in ds)
      && (forall i, j :: 0 <= i < j < |domains| && domains[i].count == domains[j].count ==>
            FirstIndex(ds, domains[i].domain) < FirstIndex(ds, domains[j].domain))
  {
    var ds := MailDomains(emails);
    var table := DomainTable(emails);
    var domains := SortedDomains(emails);
    SortIsSorted(table, DomainCount);
    DomainTableInFirstOrder(emails);
    SortKeepsTies(table, DomainCount, DomainRank(ds));
    forall i | 0 <= i < |domains| ensures domains[i].domain in ds {
      assert domains[i] in multiset(domains);
      DomainTableMember(emails, domains[i]);
    }
  }

  /** Where an entry's domain first occurs in the input. */
  function DomainRank(ds: seq<string>): DomainStat -> int {
    (d: DomainStat) => if d.domain in ds then FirstIndex(ds, d.domain) else -1
  }

  /**
    The domain map's entries come in order of each domain's first message,
    so in particular entries with equal counts do.
   */
  lemma DomainTableInFirstOrder(emails: seq<Email>)
    ensures var ds, table := MailDomains(emails), DomainTable(emails);
      forall i, j :: 0 <= i < j < |table| ==>
        table[i].domain in ds && table[j].domain in ds &&
        FirstIndex(ds, table[i].domain) < FirstIndex(ds, table[j].domain)
    ensures TiesInRankOrder(DomainTable(emails), DomainCount, DomainRank(MailDomains(emails)))
  {
    var ds := MailDomains(emails);
    var ks := Distinct(ds);
    var table := DomainTable(emails);
    forall i, j | 0 <= i < j < |table|
      ensures table[i].domain in ds && table[j].domain in ds
      ensures FirstIndex(ds, table[i].domain) < FirstIndex(ds, table[j].domain)
    {
      assert table[i].domain == ks[i] && table[j].domain == ks[j];
      DistinctMembers(ds, ks[i]);
      DistinctMembers(ds, ks[j]);
      DistinctFollowsFirstOccurrence(ds, i, j);
    }
  }

  /**
    The domains returned are the first ten of the full sorted list (all of
    them when there are fewer), so no domain left out has more messages
    than one that is kept.
   */
  lemma TopDomainsKept(emails: seq<Email>, now: int)
    ensures var all, top := SortedDomains(emails), Summary(emails, now).domains;
      && |top| == (if |all| < TopDomains then |all| else TopDomains)
      && top == all[..|top|]
      && forall i, j :: 0 <= i < |top| <= j < |all| ==> top[i].count >= all[j].count
  {
    SortIsSorted(DomainTable(emails), DomainCount);
  }

  // ---------------------------------------------------------------------
  // The summary as a whole

  /**
    The totals: the number of messages, of distinct addresses and of
    distinct domains; the domain total counts all domains, not only the
    ten that are returned.
   */
  lemma SummaryTotals(emails: seq<Email>, now: int)
    ensures var r := Summary(emails, now);
      && r.totalEmails == |emails|
      && r.uniqueSenders == |set j | 0 <= j < |emails| :: emails[j].senderEmail| == |r.senders|
      && r.uniqueDomains == |set j | 0 <= j < |emails| :: DomainOf(emails[j].senderEmail)|
      && |r.domains| == (if r.uniqueDomains < TopDomains then r.uniqueDomains else TopDomains)
  {
    SendersAreTheAddresses(emails);
    DomainsAreTheMailDomains(emails);
  }
}

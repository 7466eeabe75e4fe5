/**
  The records the mailbox analysis passes around. Timestamps are integers
  (milliseconds since the epoch), which is what JavaScript's `<` and `>`
  compare when applied to two `Date` objects.
 */
module Records {

  /** One message as the message source delivers it. */
  datatype Email = Email(senderName: string, senderEmail: string, subject: string, date: int)

  /** Per-address statistics: how many messages, and the earliest and latest of their dates. */
  datatype SenderStat = SenderStat(email: string, name: string, count: nat, firstEmail: int, lastEmail: int)

  /** Number of messages from one mail domain. */
  datatype DomainStat = DomainStat(domain: string, count: nat)

  datatype DateRange = DateRange(oldest: int, newest: int)

  /** The summary handed to the presenter. */
  datatype Analysis = Analysis(
    totalEmails: nat,
    uniqueSenders: nat,
    uniqueDomains: nat,
    dateRange: DateRange,
    senders: seq<SenderStat>,
    domains: seq<DomainStat>)

  /** The sort keys: both lists are ordered by their `count`. */
  function SenderCount(s: SenderStat): int {
    s.count
  }

  function DomainCount(d: DomainStat): int {
    d.count
  }
}

/**
  How a message from the REST mail service becomes the record the
  analysis reads. A value that is missing, or is the empty string (which
  JavaScript's `||` treats as false), is replaced by a default.
 */
module MessageSource {
  import opened Wrappers
  import opened Records
  import opened Domains

  const DefaultName := "Unknown"
  const DefaultAddress := "unknown@unknown.com"
  const DefaultSubject := "(No subject)"

  /**
    The fields of a REST message that are read. A field is None when it,
    or an object on the way to it (`msg.from?.emailAddress?`), is absent.
    The received time is already a timestamp.
   */
  datatype RestMessage = RestMessage(
    fromName: Option<string>,
    fromAddress: Option<string>,
    subject: Option<string>,
    receivedDateTime: int)

  /**
    `value || fallback` for a string that may be absent: a present value is
    never replaced, and with a non-empty fallback the result is never empty.
   */
  function OrDefault(value: Option<string>, fallback: string): (r: string)
    ensures value.Some? && value.value != [] ==> r == value.value
    ensures fallback != [] ==> r != []
  {
    if value.Some? && value.value != [] then value.value else fallback
  }

  /**
    The record built from one REST message. lowerCase stands for
    `String.prototype.toLowerCase`, applied to the address after the
    default is put in.
   */
  function FromRest(m: RestMessage, lowerCase: string -> string): (e: Email)
    ensures e.senderName != [] && e.subject != []
    ensures e.senderName == OrDefault(m.fromName, DefaultName)
    ensures e.senderEmail == lowerCase(OrDefault(m.fromAddress, DefaultAddress))
    ensures e.subject == OrDefault(m.subject, DefaultSubject)
    ensures e.date == m.receivedDateTime
    ensures m.fromName.None? || m.fromName.value == [] ==> e.senderName == DefaultName
    ensures m.fromAddress.None? || m.fromAddress.value == [] ==> e.senderEmail == lowerCase(DefaultAddress)
    ensures m.subject.None? || m.subject.value == [] ==> e.subject == DefaultSubject
  {
    Email(OrDefault(m.fromName, DefaultName),
          lowerCase(OrDefault(m.fromAddress, DefaultAddress)),
          OrDefault(m.subject, DefaultSubject),
          m.receivedDateTime)
  }

  /**
    `data.value.map(msg => ...)`: one record per message, in order, each
    with a name and a subject, and with the message's own time.
   */
  function FromRestAll(ms: seq<RestMessage>, lowerCase: string -> string): (es: seq<Email>)
    ensures |es| == |ms|
    ensures forall i :: 0 <= i < |ms| ==>
      es[i].senderName != [] && es[i].subject != [] && es[i].date == ms[i].receivedDateTime
  {
    seq(|ms|, i requires 0 <= i < |ms| => FromRest(ms[i], lowerCase))
  }

  /**
    In the list handed to the analysis, every message without a sender
    address is counted under the domain "unknown.com".
   */
  lemma MissingAddressesDomain(ms: seq<RestMessage>, lowerCase: string -> string)
    requires lowerCase(DefaultAddress) == DefaultAddress
    ensures var es := FromRestAll(ms, lowerCase);
      forall i :: 0 <= i < |ms| && (ms[i].fromAddress.None? || ms[i].fromAddress.value == []) ==>
        DomainOf(es[i].senderEmail) == "unknown.com"
  {
    var es := FromRestAll(ms, lowerCase);
    forall i | 0 <= i < |ms| && (ms[i].fromAddress.None? || ms[i].fromAddress.value == [])
      ensures DomainOf(es[i].senderEmail) == "unknown.com"
    {
      MissingAddressDomain(ms[i], lowerCase);
    }
  }

  /** The default address has the domain "unknown.com". */
  lemma DefaultAddressDomain()
    ensures DomainOf(DefaultAddress) == "unknown.com"
  {
    var a := DefaultAddress;
    assert a[7] == '@' && a[..7] == "unknown" && a[8..19] == "unknown.com";
    DomainBetweenAts(a, 7, 19);
  }

  /**
    A message without a sender address is counted under the domain
    "unknown.com", when lowercasing leaves the (already lower-case)
    default address as it is.
   */
  lemma MissingAddressDomain(m: RestMessage, lowerCase: string -> string)
    requires m.fromAddress.None? || m.fromAddress.value == []
    requires lowerCase(DefaultAddress) == DefaultAddress
    ensures DomainOf(FromRest(m, lowerCase).senderEmail) == "unknown.com"
  {
    DefaultAddressDomain();
  }
}

/** The decision `validate_email` takes on one fetched email: acknowledge a
    well-formed transfer request, stay silent otherwise. */
module Relayer {
  import opened Wrappers
  import Subject

  /** The text of the acknowledgment sent to every party of the email. */
  const ACKNOWLEDGMENT := "Send valid! Validating proof..."

  /** One `reply_all` request: the raw email answered and the text sent. */
  datatype Reply = Reply(original: string, text: string)

  datatype Outcome =
    | Acknowledged(reply: Reply)  // the subject names a transfer
    | Ignored                     // the subject does not; nothing is sent
    | Aborted                     // the subject or the sender could not be extracted

  /** The subject and the sender are what the mail parser extracted from
      `rawEmail`; `None` is an extraction failure, which the relayer does
      not survive. */
  function ValidateEmail(rawEmail: string, subject: Option<string>, from: Option<string>): (r: Outcome)
    ensures r.Aborted? <==> subject.None? || from.None?
    ensures r.Acknowledged? <==>
      && subject.Some? && from.Some?
      && exists p, q {:trigger Subject.TransferIn(subject.value, p, q)} ::
           0 <= p <= q <= |subject.value| && Subject.TransferIn(subject.value, p, q)
    ensures r.Acknowledged? ==> r.reply == Reply(rawEmail, ACKNOWLEDGMENT)
  {
    match (subject, from)
    case (None, _) => Aborted
    case (_, None) => Aborted
    case (Some(s), Some(_)) => if Subject.IsMatch(s) then Acknowledged(Reply(rawEmail, ACKNOWLEDGMENT)) else Ignored
  }

  /** The sender's address is extracted but plays no part in the decision:
      the acknowledgment goes to everyone on the original email. */
  lemma SenderIgnored(rawEmail: string, subject: Option<string>, from: string, from': string)
    ensures ValidateEmail(rawEmail, subject, Some(from)) == ValidateEmail(rawEmail, subject, Some(from'))
  {
  }

  /** A request written inside a longer subject is still acknowledged. */
  lemma AcknowledgedInContext(rawEmail: string, pre: string, s: string, post: string, from: string)
    requires ValidateEmail(rawEmail, Some(s), Some(from)).Acknowledged?
    ensures ValidateEmail(rawEmail, Some(pre + s + post), Some(from)) == ValidateEmail(rawEmail, Some(s), Some(from))
  {
    Subject.MatchInContext(pre, s, post);
  }
}

/** The `Email` of src/dataclass_email.py, the record the message service
    sends. It repeats the record of src/email_models.py with two differences:
    its addresses come from src/email_adress.py, and `prepare` tests the
    recipient list only for emptiness. Both differences are shown here to
    change nothing. */
module DataclassMessages {
  import opened Results
  import opened Text
  import opened Statuses
  import StandaloneAddresses
  import Addresses
  import Messages

  type Email = Messages.Email
  type AddressError = Addresses.AddressError

  /** The condition of this file's `prepare`, without the length test. */
  predicate ReadyCondition(subject: string, body: string, sender: Option<Addresses.Address>, recipients: seq<Addresses.Address>) {
    subject != "" && body != "" && sender.Some? && recipients != []
  }

  /** `Email(...)`: the same construction, parsing strings with the address
      class of src/email_adress.py; it builds what the other record builds. */
  function Create(subject: string, body: string, sender: Messages.SenderArg, recipients: Messages.RecipientsArg,
                  status: Status, date: Option<Messages.Instant>, shortBody: Option<string>): (r: Result<Email, AddressError>)
    ensures r == Messages.Create(subject, body, sender, recipients, status, date, shortBody)
  {
    Messages.ConstructSameParser(StandaloneAddresses.Create, Addresses.Create, subject, body, sender, recipients,
                                 status, date, shortBody);
    Messages.Construct(StandaloneAddresses.Create, subject, body, sender, recipients, status, date, shortBody)
  }

  /** `prepare`: clean, check, shorten; it decides exactly as the other record's. */
  function Prepare(e: Email): (r: Email)
    ensures r == Messages.Prepare(e)
  {
    var subject := CleanText(e.subject);
    var body := CleanText(e.body);
    var status := if ReadyCondition(subject, body, e.sender, e.recipients) then Ready else Invalid;
    Messages.AddShortBody(e.(subject := subject, body := body, status := status), Messages.DefaultShortLength)
  }

  /** `prepare` twice is `prepare` once. */
  lemma {:induction false} PrepareIdempotent(e: Email)
    ensures Prepare(Prepare(e)) == Prepare(e)
  {
    Messages.PrepareIdempotent(e);
  }
}

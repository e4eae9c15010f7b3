/** The `Email` record of src/email_models.py: construction with coercion of
    the sender and the recipients, the short-body excerpt, and `prepare`,
    which cleans the text and decides between READY and INVALID. The record's
    mutating methods are functions from the old record to the new one. */
module Messages {
  import opened Results
  import opened Text
  import opened Statuses
  import Addresses

  type Address = Addresses.Address
  type AddressError = Addresses.AddressError

  /** A moment as `datetime.now()` reports it. */
  type Instant = int

  /** The fields of an `Email` once `__post_init__` has run. A sender that is
      not an address (Python's `None`) is `None` here. */
  datatype Email = Email(
    subject: string,
    body: string,
    sender: Option<Address>,
    recipients: seq<Address>,
    status: Status,
    date: Option<Instant>,
    shortBody: string)

  /** One address as a caller may pass it: a raw string or a built `EmailAddress`. */
  datatype AddressArg = AddressText(text: string) | AddressValue(address: Address)

  /** The `sender` argument: a raw string, a built address, or `None`. */
  datatype SenderArg = SenderText(text: string) | SenderValue(address: Address) | NoSender

  /** The `recipients` argument: absent (`None` or `[]`), a single address, or a list. */
  datatype RecipientsArg = NoRecipients | OneRecipient(recipient: AddressArg) | RecipientList(items: seq<AddressArg>)

  /** The constructor of the address class an `Email` variant imports. */
  type Parser = string -> Result<Address, AddressError>

  /** The default `length` of `add_short_body`. */
  const DefaultShortLength: nat := 50

  /** One list element of `_normalize_recipients`: a string is parsed, an address passes through. */
  function Coerce(x: AddressArg, parse: Parser): Result<Address, AddressError> {
    match x
    case AddressText(s) => parse(s)
    case AddressValue(a) => Ok(a)
  }

  /** `a` is what the argument `x` stands for. */
  predicate CoercesTo(x: AddressArg, a: Address, parse: Parser) {
    match x
    case AddressText(s) => parse(s) == Ok(a)
    case AddressValue(b) => a == b
  }

  /** The loop of `_normalize_recipients` over a list: every element converted,
      in order, or the error of the first element that fails. */
  function CoerceAll(xs: seq<AddressArg>, parse: Parser): (r: Result<seq<Address>, AddressError>)
    ensures r.Ok? <==> forall i :: 0 <= i < |xs| ==> Coerce(xs[i], parse).Ok?
    ensures r.Ok? ==> |r.value| == |xs| && forall i :: 0 <= i < |xs| ==> CoercesTo(xs[i], r.value[i], parse)
    ensures r.Err? ==> exists i :: 0 <= i < |xs| && Coerce(xs[i], parse) == Err(r.error)
                                   && forall j :: 0 <= j < i ==> Coerce(xs[j], parse).Ok?
    decreases |xs|
  {
    if |xs| == 0 then Ok([])
    else
      match Coerce(xs[0], parse)
      case Err(e) => Err(e)
      case Ok(a) =>
        match CoerceAll(xs[1..], parse)
        case Err(e) =>
          var k :| 0 <= k < |xs[1..]| && Coerce(xs[1..][k], parse) == Err(e)
                   && forall j :: 0 <= j < k ==> Coerce(xs[1..][j], parse).Ok?;
          assert Coerce(xs[k + 1], parse) == Err(e);
          Err(e)
        case Ok(rest) =>
          assert forall i :: 1 <= i < |xs| ==> xs[i] == xs[1..][i - 1];
          Ok([a] + rest)
  }

  /** The items `_normalize_recipients` converts: none for a falsy argument
      (`None`, `""`, `[]`), one for a single address, all of a list. */
  function RecipientItems(arg: RecipientsArg): seq<AddressArg> {
    match arg
    case NoRecipients => []
    case OneRecipient(x) => if x == AddressText("") then [] else [x]
    case RecipientList(xs) => xs
  }

  /** `_normalize_recipients`: the recipients become a list of addresses, in
      the order given; a string that is not a valid address raises. */
  function NormalizeRecipients(arg: RecipientsArg, parse: Parser): (r: Result<seq<Address>, AddressError>)
    ensures r == CoerceAll(RecipientItems(arg), parse)
    ensures r.Ok? ==> |r.value| == |RecipientItems(arg)|
    ensures r.Ok? ==> forall i :: 0 <= i < |r.value| ==> CoercesTo(RecipientItems(arg)[i], r.value[i], parse)
  {
    match arg
    case NoRecipients => Ok([])
    case OneRecipient(AddressText(s)) =>
      assert [AddressText(s)][1..] == [];
      if s == "" then Ok([])
      else (match parse(s)
        case Ok(a) => assert [a] + [] == [a]; Ok([a])
        case Err(e) => Err(e))
    case OneRecipient(AddressValue(a)) =>
      assert [AddressValue(a)][1..] == [];
      assert [a] + [] == [a];
      Ok([a])
    case RecipientList(xs) => if |xs| == 0 then Ok([]) else CoerceAll(xs, parse)
  }

  /** The sender after `__post_init__`: a string is parsed, an address kept. */
  function CoerceSender(sender: SenderArg, parse: Parser): (r: Result<Option<Address>, AddressError>)
    ensures r.Err? <==> sender.SenderText? && parse(sender.text).Err?
    ensures r.Err? ==> r.error == parse(sender.text).error
    ensures r.Ok? ==> (r.value.None? <==> sender.NoSender?)
    ensures r.Ok? && sender.SenderText? ==> parse(sender.text) == Ok(r.value.value)
    ensures r.Ok? && sender.SenderValue? ==> r.value == Some(sender.address)
  {
    match sender
    case SenderText(s) =>
      (match parse(s)
       case Ok(a) => Ok(Some(a))
       case Err(e) => Err(e))
    case SenderValue(a) => Ok(Some(a))
    case NoSender => Ok(None)
  }

  /** The dataclass constructor with `__post_init__`, for either address class.
      The sender is converted first, so its error wins; the text fields are
      stored as given; a missing short body becomes "". */
  function Construct(parse: Parser, subject: string, body: string, sender: SenderArg, recipients: RecipientsArg,
                     status: Status, date: Option<Instant>, shortBody: Option<string>): (r: Result<Email, AddressError>)
    ensures sender.SenderText? && parse(sender.text).Err? ==> r == Err(parse(sender.text).error)
    ensures r.Ok? <==> CoerceSender(sender, parse).Ok? && CoerceAll(RecipientItems(recipients), parse).Ok?
    ensures CoerceSender(sender, parse).Ok? && r.Err? ==>
              exists i :: 0 <= i < |RecipientItems(recipients)| && Coerce(RecipientItems(recipients)[i], parse) == Err(r.error)
                          && forall j :: 0 <= j < i ==> Coerce(RecipientItems(recipients)[j], parse).Ok?
    ensures r.Ok? ==> && r.value.subject == subject && r.value.body == body
                      && r.value.status == status && r.value.date == date
                      && r.value.shortBody == ValueOr(shortBody, "")
    ensures r.Ok? ==> match sender
                      case SenderText(s) => r.value.sender.Some? && parse(s) == Ok(r.value.sender.value)
                      case SenderValue(a) => r.value.sender == Some(a)
                      case NoSender => r.value.sender == None
    ensures r.Ok? ==> |r.value.recipients| == |RecipientItems(recipients)|
                      && forall i :: 0 <= i < |r.value.recipients| ==>
                           CoercesTo(RecipientItems(recipients)[i], r.value.recipients[i], parse)
  {
    match CoerceSender(sender, parse)
    case Err(e) => Err(e)
    case Ok(from) =>
      match NormalizeRecipients(recipients, parse)
      case Err(e) => Err(e)
      case Ok(to) =>
        Ok(Email(subject, body, from, to, status, date, ValueOr(shortBody, "")))
  }

  /** `Email(...)` of src/email_models.py, which builds its own `EmailAddress`. */
  function Create(subject: string, body: string, sender: SenderArg, recipients: RecipientsArg,
                  status: Status, date: Option<Instant>, shortBody: Option<string>): Result<Email, AddressError>
  {
    Construct(Addresses.Create, subject, body, sender, recipients, status, date, shortBody)
  }

  /** The excerpt `add_short_body` keeps of a cleaned body: all of it if it
      fits in `length` characters, otherwise its first `length` characters
      followed by "...". */
  function Excerpt(c: string, length: nat): (r: string)
    ensures |r| == Min(|c|, length) + (if |c| > length then 3 else 0)
    ensures c[..Min(|c|, length)] <= r
    ensures |c| <= length ==> r == c
    ensures |c| > length ==> r[length..] == "..."
    ensures |r| <= length + 3
  {
    if |c| <= length then c else c[..length] + "..."
  }

  /** `add_short_body(length)`: only the short body changes, to the excerpt of
      the cleaned body. */
  function AddShortBody(e: Email, length: nat): (r: Email)
    ensures r == e.(shortBody := Excerpt(CleanText(e.body), length))
    ensures !HasText(e.body) ==> r.shortBody == ""
  {
    if e.body == "" then e.(shortBody := "")
    else
      var cleaned := CleanText(e.body);
      if |cleaned| <= length then e.(shortBody := cleaned)
      else e.(shortBody := cleaned[..length] + "...")
  }

  /** The condition of `prepare` in src/email_models.py, with its extra length test. */
  predicate ReadyCondition(subject: string, body: string, sender: Option<Address>, recipients: seq<Address>) {
    subject != "" && body != "" && sender.Some? && |recipients| != 0 && |recipients| > 0
  }

  /** An email has the parts `prepare` asks for: subject and body with text,
      a sender and at least one recipient. */
  predicate Complete(e: Email) {
    HasText(e.subject) && HasText(e.body) && e.sender.Some? && |e.recipients| > 0
  }

  /** Cleaning empties a text exactly when it has no text, so the condition
      on the cleaned fields is completeness of the original ones. */
  lemma {:induction false} ReadyConditionIsComplete(e: Email)
    ensures ReadyCondition(CleanText(e.subject), CleanText(e.body), e.sender, e.recipients) <==> Complete(e)
  {
  }

  /** The first two steps of `prepare`: subject and body cleaned, and the
      status set from the cleaned fields. */
  function CleanAndCheck(e: Email): (r: Email)
    ensures r.status == Ready <==> Complete(e)
    ensures r.status == Ready || r.status == Invalid
    ensures r == e.(subject := r.subject, body := r.body, status := r.status)
    ensures r.subject == CleanText(e.subject) && r.body == CleanText(e.body)
    ensures IsClean(r.subject) && IsClean(r.body)
  {
    var subject := CleanText(e.subject);
    var body := CleanText(e.body);
    ReadyConditionIsComplete(e);
    var status := if ReadyCondition(subject, body, e.sender, e.recipients) then Ready else Invalid;
    e.(subject := subject, body := body, status := status)
  }

  /** `prepare`: clean subject and body, set READY when subject and body
      have text, a sender is there and there is a recipient, INVALID
      otherwise, and recompute the short body. It never raises. */
  function Prepare(e: Email): (r: Email)
    ensures r.status == Ready <==> Complete(e)
    ensures r.status == Ready || r.status == Invalid
    ensures r.sender == e.sender && r.recipients == e.recipients && r.date == e.date
    ensures IsClean(r.subject) && IsClean(r.body)
    ensures r.shortBody == Excerpt(r.body, DefaultShortLength)
    ensures |r.shortBody| <= DefaultShortLength + 3
  {
    CleanTextIdempotent(e.body);
    AddShortBody(CleanAndCheck(e), DefaultShortLength)
  }

  /** `is_valid`. */
  predicate IsValid(e: Email) {
    e.status == Ready
  }

  // ---------------------------------------------------------------- lemmas

  /** `prepare` is idempotent: a second call changes nothing. */
  lemma PrepareIdempotent(e: Email)
    ensures Prepare(Prepare(e)) == Prepare(e)
  {
    CleanTextIdempotent(e.subject);
    CleanTextIdempotent(e.body);
  }

  /** `prepare` keeps the words of subject and body, in order: only the
      whitespace between them changes. */
  lemma PrepareKeepsWords(e: Email)
    ensures Words(Prepare(e).subject) == Words(e.subject)
    ensures Words(Prepare(e).body) == Words(e.body)
  {
  }

  /** After `prepare`, `is_valid` holds exactly when the email has the four parts it needs. */
  lemma ValidAfterPrepare(e: Email)
    ensures IsValid(Prepare(e)) <==> HasText(e.subject) && HasText(e.body) && e.sender.Some? && |e.recipients| > 0
  {
  }

  /** Whatever the coercion's parser, only what it returns on each string matters. */
  lemma {:induction false} CoerceAllSameParser(xs: seq<AddressArg>, f: Parser, g: Parser)
    requires forall s :: f(s) == g(s)
    ensures CoerceAll(xs, f) == CoerceAll(xs, g)
    decreases |xs|
  {
    if |xs| > 0 {
      CoerceAllSameParser(xs[1..], f, g);
    }
  }

  lemma {:induction false} ConstructSameParser(f: Parser, g: Parser, subject: string, body: string, sender: SenderArg,
                                               recipients: RecipientsArg, status: Status, date: Option<Instant>,
                                               shortBody: Option<string>)
    requires forall s :: f(s) == g(s)
    ensures Construct(f, subject, body, sender, recipients, status, date, shortBody)
         == Construct(g, subject, body, sender, recipients, status, date, shortBody)
  {
    CoerceAllSameParser(RecipientItems(recipients), f, g);
    assert NormalizeRecipients(recipients, f) == NormalizeRecipients(recipients, g);
  }
}

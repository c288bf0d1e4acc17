/**
 * The contact-form validator: the ordered decision the submit handler makes
 * over the trimmed `nombre`, `email` and `mensaje` fields, and the
 * notification it shows for each outcome.
 */
module Form {
  import opened Optional
  import opened Text
  import opened Email

  /** The single outcome of one submission. */
  datatype Outcome = MissingFields | InvalidEmail | Sent

  const MissingFieldsMessage := "Por favor, completa todos los campos requeridos."
  const InvalidEmailMessage := "Por favor, ingresa un correo electr\U{00F3}nico v\U{00E1}lido."
  const SentMessage := "\U{00A1}Mensaje enviado correctamente! Gracias por contactarnos."

  /**
   * A field counts as filled when its element exists (`None` is the
   * `undefined` that optional chaining gives for a missing element) and its
   * trimmed value is not the empty string: the element exists and its value
   * holds at least one character that is not whitespace.
   */
  function Filled(field: Option<string>): (b: bool)
    ensures b <==> field.Some? && !AllSpace(field.value)
  {
    field.Some? && Trim(field.value) != []
  }

  /**
   * The submit decision. Missing fields are checked first, then the shape of
   * the trimmed e-mail against the pattern; the submission succeeds only when
   * both pass. Stated in terms of the plain-words e-mail rule, which accepts
   * exactly the strings the pattern does.
   */
  function Validate(nombre: Option<string>, email: Option<string>, mensaje: Option<string>): (o: Outcome)
    ensures o == MissingFields <==> !(Filled(nombre) && Filled(email) && Filled(mensaje))
    ensures o == InvalidEmail <==>
      Filled(nombre) && Filled(email) && Filled(mensaje) && !EmailAccepted(Trim(email.value))
    ensures o == Sent <==>
      Filled(nombre) && Filled(email) && Filled(mensaje) && EmailAccepted(Trim(email.value))
  {
    if !Filled(nombre) || !Filled(email) || !Filled(mensaje) then MissingFields
    else
      EmailAcceptedIffPattern(Trim(email.value));
      if !MatchesEmailPattern(Trim(email.value)) then InvalidEmail
      else Sent
  }

  /** The notification text for an outcome: a different text for each outcome. */
  function Message(o: Outcome): (m: string)
    ensures m == SentMessage <==> o == Sent
    ensures m == InvalidEmailMessage <==> o == InvalidEmail
    ensures m == MissingFieldsMessage <==> o == MissingFields
  {
    match o
    case MissingFields => MissingFieldsMessage
    case InvalidEmail => InvalidEmailMessage
    case Sent => SentMessage
  }

  /** The notification type for an outcome: `success` exactly for a sent message. */
  function NotificationType(o: Outcome): (t: string)
    ensures t == "success" <==> o == Sent
    ensures t == "success" || t == "error"
  {
    if o == Sent then "success" else "error"
  }
}

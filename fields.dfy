/**
 * The request bodies the serializers read and the per-field errors they answer
 * with. A serializer field derived from a model column is required unless the
 * column is blank or has a default, refuses JSON null unless the column is
 * nullable, refuses the empty text unless the column is blank, and refuses a
 * text longer than the column's max_length.
 */
module Fields {
  import opened Wrappers

  /** One value of a request body as a serializer field receives it. */
  datatype FieldValue = Null | Text(text: string)

  /** A request body: a name that is not a key was not sent. */
  type Payload = map<string, FieldValue>

  datatype FieldError =
    | Required
    | NotNull
    | Blank
    | TooLong(limit: nat)
    | InvalidChoice(input: string)
    | Custom(message: string)

  /** The errors of a rejected body, one per offending field, as the 400 response lists them. */
  type Errors = map<string, FieldError>

  /**
   * A text field named `name`: `required` says whether leaving it out is an
   * error, `allowBlank` whether the empty text is accepted, `maxLength` the
   * declared max_length if there is one. An accepted field yields the text that
   * was sent, or None when it was left out.
   */
  function CharField(payload: Payload, name: string, required: bool, allowBlank: bool, maxLength: Option<nat>)
    : (r: Result<Option<string>, FieldError>)
    ensures r.Ok? <==>
      if name in payload then
        payload[name].Text?
        && (allowBlank || payload[name].text != "")
        && (maxLength.Some? ==> |payload[name].text| <= maxLength.value)
      else !required
    ensures r.Ok? ==> r.value == if name in payload then Some(payload[name].text) else None
    ensures name !in payload && required ==> r == Err(Required)
    ensures name in payload && payload[name].Null? ==> r == Err(NotNull)
  {
    if name !in payload then
      if required then Err(Required) else Ok(None)
    else
      match payload[name]
      case Null => Err(NotNull)
      case Text(s) =>
        if s == "" && !allowBlank then Err(Blank)
        else if maxLength.Some? && |s| > maxLength.value then Err(TooLong(maxLength.value))
        else Ok(Some(s))
  }
}

/** The validated fields of a contact: `Name`, `Phone` and `Birthday`. */
module Fields {
  import opened Wrappers
  import opened Calendar
  import DateFormat

  /** Length every phone number must have when it is first stored. */
  const PhoneLength := 10

  /** `Name(name)`: raises ValueError only when no name is given at all;
      any string, the empty one included, is kept as it is. */
  function MakeName(name: Option<string>): (r: Result<string>)
    ensures r.Err? <==> name.None?
    ensures r.Ok? ==> r.value == name.value
    ensures r.Err? ==> r.error == ValueError
  {
    match name
    case None => Err(ValueError)
    case Some(n) => Ok(n)
  }

  /** `Phone(phone)`: a string of exactly ten characters is stored as it
      is; anything else raises ValueError. Characters are not checked to be
      digits. */
  function MakePhone(phone: string): (r: Result<string>)
    ensures r.Ok? <==> |phone| == PhoneLength
    ensures r.Ok? ==> r.value == phone
    ensures r.Err? ==> r.error == ValueError
  {
    if |phone| != PhoneLength then Err(ValueError) else Ok(phone)
  }

  /** `Birthday(value)`: the text parsed as a `DD.MM.YYYY` calendar date. */
  function MakeBirthday(text: string): (r: Result<Date>)
    ensures r.Ok? ==> ValidDate(r.value) && DateFormat.FormatDate(r.value) == text
    ensures r.Ok? <==> exists d :: ValidDate(d) && DateFormat.FormatDate(d) == text
    ensures r.Err? ==> r.error == ValueError
  {
    DateFormat.ParseAcceptsRenderings(text);
    DateFormat.ParseDate(text)
  }
}

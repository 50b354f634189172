/** Author.validates_authors_fields: the validator run on every assignment to
    an Author's name or phone_number. The storage lookup for an existing
    author of the same name is the parameter `existing`, the set of names
    already stored. */
module AuthorValidation {
  import opened Results
  import opened Text

  const NameRequired := "Author name is required!"
  const NameTaken := "Author name already exists."
  const PhoneNotDigits := "Phone number can only contain digits."
  const PhoneWrongLength := "Phone number must be exactly 10 digits."

  /** The number of digits a phone number must have. */
  const PhoneDigits := 10

  /** The fields the validator is registered for. */
  datatype AuthorField = Name | PhoneNumber

  /** What an accepted Author value satisfies: a name that is not blank and is
      not already taken; a phone number of exactly ten ASCII digits. */
  ghost predicate ValidAuthorValue(existing: set<string>, key: AuthorField, v: string) {
    match key
    case Name => !IsBlank(v) && v !in existing
    case PhoneNumber => |v| == PhoneDigits && forall c :: c in v ==> IsAsciiDigit(c)
  }

  /** The name branch: the blank check comes first, then the uniqueness
      check; an accepted name is returned unchanged. */
  function ValidateName(existing: set<string>, name: string): (r: Result)
    ensures r.Ok? ==> r.value == name
    ensures r.Err? ==> r.msg == NameRequired || r.msg == NameTaken
  {
    if name == "" || Strip(name) == "" then Err(NameRequired)
    else if name in existing then Err(NameTaken)
    else Ok(name)
  }

  /** The phone_number branch: spaces are removed, then the compacted string
      must be all digits, then it must be ten long; the compacted string is
      what is returned. */
  function ValidatePhone(value: string): (r: Result)
    ensures r.Ok? ==> r.value == RemoveSpaces(value) && ' ' !in r.value
    ensures r.Err? ==> r.msg == PhoneNotDigits || r.msg == PhoneWrongLength
  {
    var compact := RemoveSpaces(value);
    if !IsDigits(compact) then Err(PhoneNotDigits)
    else if |compact| != PhoneDigits then Err(PhoneWrongLength)
    else Ok(compact)
  }

  /** The validator itself, dispatching on the field being assigned. Every
      value it accepts is valid for that field; a name is stored as given and
      a phone number in its compacted form; a rejection carries one of that
      field's two messages. */
  function ValidateAuthorField(existing: set<string>, key: AuthorField, value: string): (r: Result)
    ensures r.Ok? ==> ValidAuthorValue(existing, key, r.value)
    ensures r.Ok? && key == Name ==> r.value == value
    ensures r.Ok? && key == PhoneNumber ==> r.value == RemoveSpaces(value)
    ensures r.Err? && key == Name ==> r.msg == NameRequired || r.msg == NameTaken
    ensures r.Err? && key == PhoneNumber ==> r.msg == PhoneNotDigits || r.msg == PhoneWrongLength
  {
    match key
    case Name => NameAccepted(existing, value); ValidateName(existing, value)
    case PhoneNumber => PhoneAccepted(value); ValidatePhone(value)
  }

  // ---------------------------------------------------------------------
  // name

  /** A name is accepted iff it is not blank and not taken, and then it is
      returned unchanged. A blank name gets the "required" message whatever
      storage holds; a non-blank taken name gets the "already exists" one. */
  lemma NameAccepted(existing: set<string>, name: string)
    ensures ValidateName(existing, name).Ok? <==> !IsBlank(name) && name !in existing
    ensures ValidateName(existing, name).Ok? ==> ValidateName(existing, name).value == name
    ensures IsBlank(name) ==> ValidateName(existing, name) == Err(NameRequired)
    ensures !IsBlank(name) && name in existing ==> ValidateName(existing, name) == Err(NameTaken)
  {
    StripEmptyIff(name);
  }

  /** Whether a name is blank does not depend on storage: the same name is
      rejected as blank against any two sets of stored names. */
  lemma NameBlankIgnoresStorage(existing: set<string>, other: set<string>, name: string)
    ensures ValidateName(existing, name) == Err(NameRequired)
        <==> ValidateName(other, name) == Err(NameRequired)
  {
  }

  // ---------------------------------------------------------------------
  // phone_number

  /** A phone number is accepted iff it has exactly ten characters other
      than ' ' and all of them are digits; the accepted value is the input
      without its spaces, ten digits long and with no space left. */
  lemma PhoneAccepted(value: string)
    ensures ValidatePhone(value).Ok?
        <==> NonSpaceCount(value) == PhoneDigits
             && forall c :: c in value && c != ' ' ==> IsAsciiDigit(c)
    ensures ValidatePhone(value).Ok? ==>
              var v := ValidatePhone(value).value;
              v == RemoveSpaces(value) && |v| == PhoneDigits && IsDigits(v) && ' ' !in v
  {
    RemoveSpacesLength(value);
    RemoveSpacesChars(value);
  }

  /** The digit check comes before the length check: any character other
      than a digit or ' ' (a hyphen, a tab), or nothing but spaces, gives
      the digits message; only an all-digit string of the wrong length gets
      the length message. */
  lemma PhoneErrors(value: string)
    ensures ValidatePhone(value) == Err(PhoneNotDigits)
        <==> NonSpaceCount(value) == 0
             || exists c :: c in value && c != ' ' && !IsAsciiDigit(c)
    ensures ValidatePhone(value) == Err(PhoneWrongLength)
        <==> NonSpaceCount(value) != 0 && NonSpaceCount(value) != PhoneDigits
             && forall c :: c in value && c != ' ' ==> IsAsciiDigit(c)
  {
    RemoveSpacesLength(value);
    RemoveSpacesChars(value);
  }

  /** Re-validating an accepted phone number accepts it again, unchanged. */
  lemma PhoneIdempotent(value: string)
    requires ValidatePhone(value).Ok?
    ensures ValidatePhone(ValidatePhone(value).value) == ValidatePhone(value)
  {
    RemoveSpacesIdempotent(value);
  }

  /** Spaces anywhere in a phone number are irrelevant: inserting one
      changes neither the verdict nor the stored value. */
  lemma PhoneIgnoresSpace(x: string, y: string)
    ensures ValidatePhone(x + " " + y) == ValidatePhone(x + y)
  {
    RemoveSpacesConcat(x + " ", y);
    RemoveSpacesConcat(x, " ");
    RemoveSpacesConcat(x, y);
  }

  // The examples below pin their strings through a requires (or build them
  // from pieces) instead of writing the literals into the ensures: the
  // verifier unfolds a recursive function applied to a string literal
  // character by character, which makes the direct statement too costly.

  /** A string of digits is accepted as it is when it is ten long and gets
      the length message otherwise. */
  lemma PhoneOfDigits(v: string)
    requires IsDigits(v)
    ensures ValidatePhone(v) == if |v| == PhoneDigits then Ok(v) else Err(PhoneWrongLength)
  {
    RemoveSpacesIdentity(v);
  }

  /** "555 123 4567" is accepted and stored as "5551234567". */
  lemma PhoneExampleCompacted(a: string, b: string, c: string)
    requires a == "555" && b == "123" && c == "4567"
    ensures ValidatePhone(a + " " + b + " " + c) == Ok("5551234567")
  {
    PhoneIgnoresSpace(a, b + " " + c);
    PhoneIgnoresSpace(a + b, c);
    assert a + " " + b + " " + c == a + " " + (b + " " + c);
    assert a + (b + " " + c) == a + b + " " + c;
    assert a + b + c == "5551234567";
    PhoneOfDigits(a + b + c);
  }

  /** "555-123-4567" is rejected by the digit check: a hyphen is not a digit
      and is not removed. */
  lemma PhoneExampleHyphens(value: string)
    requires value == "555-123-4567"
    ensures ValidatePhone(value) == Err(PhoneNotDigits)
  {
    assert ' ' !in value;
    RemoveSpacesIdentity(value);
    assert value[3] == '-' && !IsAsciiDigit(value[3]);
    assert !IsDigits(RemoveSpaces(value));
  }

  /** An empty or all-space number fails the digit check, not the length
      check, because "".isdigit() is false. */
  lemma PhoneExamplesEmpty()
    ensures ValidatePhone("") == Err(PhoneNotDigits)
    ensures ValidatePhone("   ") == Err(PhoneNotDigits)
  {
  }

  /** Nine or eleven digits fail the length check. */
  lemma PhoneExamplesWrongLength(nine: string, eleven: string)
    requires nine == "555123456" && eleven == "55512345678"
    ensures ValidatePhone(nine) == Err(PhoneWrongLength)
    ensures ValidatePhone(eleven) == Err(PhoneWrongLength)
  {
    PhoneOfDigits(nine);
    PhoneOfDigits(eleven);
  }

  // ---------------------------------------------------------------------
  // the dispatch

  /** Re-validating an accepted value against the same storage accepts it
      again and returns it unchanged. */
  lemma AuthorFieldIdempotent(existing: set<string>, key: AuthorField, value: string)
    requires ValidateAuthorField(existing, key, value).Ok?
    ensures ValidateAuthorField(existing, key, ValidateAuthorField(existing, key, value).value)
         == ValidateAuthorField(existing, key, value)
  {
    if key == PhoneNumber {
      PhoneIdempotent(value);
    }
  }
}

/**
 * `Participant`: a person who can register for events.
 */
module Participants {
  import opened Errors
  import opened Text
  import opened Validation

  datatype Participant = Participant(
    id: string,
    name: string,
    email: string,
    phone: string,
    organization: string)

  /** `isValidEmail`: the address holds an '@' and a '.', anywhere and in any order. */
  predicate IsValidEmail(email: string) {
    '@' in email && '.' in email
  }

  /** The checks of the `init` block, in order; the first that fails names the error. */
  function NewParticipant(
    id: string, name: string, email: string,
    phone: string := "",
    organization: string := ""): (r: Result<Participant>)
    ensures r.Ok? <==> !IsBlank(name) && !IsBlank(email) && IsValidEmail(email)
    ensures IsBlank(name) ==> r == Err(IllegalArgument("Participant name cannot be blank"))
    ensures (!IsBlank(name) && IsBlank(email)) ==> r == Err(IllegalArgument("Participant email cannot be blank"))
    ensures (!IsBlank(name) && !IsBlank(email) && !IsValidEmail(email))
              ==> r == Err(IllegalArgument("Invalid email format"))
    ensures r.Ok? ==> r.value == Participant(id, name, email, phone, organization)
  {
    var _ :- Require(!IsBlank(name), "Participant name cannot be blank");
    var _ :- Require(!IsBlank(email), "Participant email cannot be blank");
    var _ :- Require(IsValidEmail(email), "Invalid email format");
    Ok(Participant(id, name, email, phone, organization))
  }

  /**
   * The constructor's e-mail check and `validateEmail` agree: an address one
   * accepts the other accepts, unchanged, whatever the field is called.
   */
  lemma EmailChecksAgree(name: string, email: string, fieldName: string)
    requires !IsBlank(name)
    ensures NewParticipant("", name, email).Ok? <==> ValidateEmail(email, fieldName).Ok?
    ensures ValidateEmail(email, fieldName).Ok? ==> ValidateEmail(email, fieldName).value == email
  {
  }

  /** Neither character alone makes an address acceptable. */
  lemma BothCharactersNeeded()
    ensures !IsValidEmail("invalid-email")
    ensures !IsValidEmail("user@domain") && !IsValidEmail("user.domain")
    ensures IsValidEmail("user@domain.com")
  {
    assert "user@domain.com"[4] == '@' && "user@domain.com"[11] == '.';
  }

  /** The rejected address of the unit tests fails the third check. */
  lemma InvalidEmailExample()
    ensures NewParticipant("p", "Test User", "invalid-email") == Err(IllegalArgument("Invalid email format"))
  {
    assert !IsWhitespace("Test User"[0]) && !IsWhitespace("invalid-email"[0]);
    BothCharactersNeeded();
  }

  /** `displayString`: "<name> (<email>)". */
  function DisplayString(p: Participant): (s: string)
    ensures |s| == |p.name| + |p.email| + 3
    ensures s[..|p.name|] == p.name
    ensures s[|p.name| + 2..|s| - 1] == p.email
    ensures s[|p.name|..|p.name| + 2] == " (" && s[|s| - 1] == ')'
  {
    p.name + " (" + p.email + ")"
  }

  /**
   * The display text determines the e-mail of a participant whose name is
   * known: two participants with the same name and display text share the
   * address.
   */
  lemma DisplayStringDeterminesEmail(p: Participant, q: Participant)
    requires p.name == q.name && DisplayString(p) == DisplayString(q)
    ensures p.email == q.email
  {
    var s := DisplayString(p);
    assert p.email == s[|p.name| + 2..|s| - 1];
  }

  /** The display text of the unit tests. */
  lemma DisplayStringExample()
    ensures DisplayString(Participant("p", "Jane Smith", "jane@company.org", "", ""))
         == "Jane Smith (jane@company.org)"
  {
  }
}

/** The authority registration form: the roles it offers and the validator
    that runs on submit. Every field is checked on its own and every problem
    found is reported, keyed by the field it concerns. */
module Authorities {
  import opened Options
  import opened Seqs
  import opened Text
  import opened Records

  /** The roles the form's role list offers. The validator itself only asks
      for a non-empty role. */
  const Roles: seq<string> := ["Chefe de Estado", "Ministro de Finança", "Presidente de Banco Central"]

  datatype Field = NameField | CountryField | RoleField | EmailField

  datatype Problem =
    | IncompleteName  // no space in the name
    | MissingCountry
    | MissingRole
    | RoleTaken       // the country already has someone in that role
    | MissingEmail
    | WrongDomain     // no domain, or one without the country's TLD

  /** The error object the validator returns: at most one problem per field. */
  type Errors = map<Field, Problem>

  /** The name check: empty, or `name.split(" ")` gives fewer than two pieces. */
  predicate NameIncomplete(name: string) {
    name == "" || |Split(name, ' ')| < 2
  }

  /** `authorities.some(...)`: someone already holds `role` for `country`. */
  function RoleHeld(authorities: seq<Authority>, country: string, role: string): (held: bool)
    ensures held <==> exists i :: 0 <= i < |authorities|
                        && authorities[i].country == country && authorities[i].role == role
  {
    if |authorities| == 0 then false
    else
      var rest := RoleHeld(authorities[1..], country, role);
      assert rest <==> exists i :: 1 <= i < |authorities|
                        && authorities[i].country == country && authorities[i].role == role by {
        forall i | 1 <= i < |authorities| ensures authorities[i] == authorities[1..][i - 1] {}
        forall i | 0 <= i < |authorities| - 1 ensures authorities[1..][i] == authorities[i + 1] {}
      }
      (authorities[0].country == country && authorities[0].role == role) || rest
  }

  /** `tlds[country]`; an absent entry is `undefined`, which `endsWith`
      reads as the text "undefined". */
  function ExpectedTld(tlds: map<string, string>, country: string): string {
    if country in tlds then tlds[country] else "undefined"
  }

  /** `email.split("@")[1]`: the text between the first `@` and the next
      one (or the end), or `undefined` when there is no `@`. */
  function EmailDomain(email: string): (domain: Option<string>)
    ensures domain.None? <==> '@' !in email
    ensures domain.Some? ==> domain.value == Before(email[IndexOf(email, '@') + 1..], '@')
  {
    var parts := Split(email, '@');
    if '@' in email then
      SplitTail(email, '@');
      SplitHead(email[IndexOf(email, '@') + 1..], '@');
      Some(parts[1])
    else None
  }

  /** The email check once an email is given: there must be a non-empty
      domain and it must end with the country's TLD. */
  predicate DomainRejected(email: string, tld: string) {
    match EmailDomain(email)
    case None => true
    case Some(domain) => domain == "" || !EndsWith(domain, tld)
  }

  /** A name is incomplete exactly when it is empty or has no space. */
  lemma NameCheck(name: string)
    ensures NameIncomplete(name) <==> name == "" || ' ' !in name
  {
    assert |Split(name, ' ')| == Count(name, ' ') + 1;
  }

  /** The domain rule stated on the address itself: there is no `@`, or
      the text after the first `@` up to the next one is empty or does not
      end with the TLD. */
  predicate DomainMismatch(email: string, tld: string) {
    || '@' !in email
    || var domain := Before(email[IndexOf(email, '@') + 1..], '@');
       domain == "" || !EndsWith(domain, tld)
  }

  /** The `split`-based email check rejects exactly the mismatched domains. */
  lemma DomainCheck(email: string, tld: string)
    ensures DomainRejected(email, tld) <==> DomainMismatch(email, tld)
  {
    if '@' in email {
      var domain := EmailDomain(email).value;
      assert domain == Before(email[IndexOf(email, '@') + 1..], '@');
    }
  }

  /** The name check of `validateForm`. */
  function NameProblem(name: string): (p: Option<Problem>)
    ensures p.Some? <==> name == "" || ' ' !in name
    ensures p.Some? ==> p.value == IncompleteName
  {
    NameCheck(name);
    if NameIncomplete(name) then Some(IncompleteName) else None
  }

  /** The role check of `validateForm`. */
  function RoleProblem(authorities: seq<Authority>, country: string, role: string): (p: Option<Problem>)
    ensures p.Some? <==>
              || role == ""
              || (exists i :: 0 <= i < |authorities| && authorities[i].country == country && authorities[i].role == role)
    ensures p.Some? ==> p.value == if role == "" then MissingRole else RoleTaken
  {
    if role == "" then Some(MissingRole)
    else if RoleHeld(authorities, country, role) then Some(RoleTaken)
    else None
  }

  /** The email check of `validateForm`. */
  function EmailProblem(email: string, tld: string): (p: Option<Problem>)
    ensures p.Some? <==> email == "" || DomainMismatch(email, tld)
    ensures p.Some? ==> p.value == if email == "" then MissingEmail else WrongDomain
  {
    DomainCheck(email, tld);
    if email == "" then Some(MissingEmail)
    else if DomainRejected(email, tld) then Some(WrongDomain)
    else None
  }

  /** The problem `validateForm` finds with one field, if any. */
  function Check(form: Authority, authorities: seq<Authority>, tlds: map<string, string>, field: Field): Option<Problem> {
    match field
    case NameField => NameProblem(form.name)
    case CountryField => if form.country == "" then Some(MissingCountry) else None
    case RoleField => RoleProblem(authorities, form.country, form.role)
    case EmailField => EmailProblem(form.email, ExpectedTld(tlds, form.country))
  }

  const AllFields: set<Field> := {NameField, CountryField, RoleField, EmailField}

  /** `validateForm` of the registration page. */
  function Validate(form: Authority, authorities: seq<Authority>, tlds: map<string, string>): (errors: Errors)
    ensures NameField in errors <==> form.name == "" || ' ' !in form.name
    ensures CountryField in errors <==> form.country == ""
    ensures RoleField in errors <==>
              || form.role == ""
              || (exists i :: 0 <= i < |authorities|
                    && authorities[i].country == form.country && authorities[i].role == form.role)
    ensures EmailField in errors <==> form.email == "" || DomainMismatch(form.email, ExpectedTld(tlds, form.country))
    ensures NameField in errors ==> errors[NameField] == IncompleteName
    ensures CountryField in errors ==> errors[CountryField] == MissingCountry
    ensures RoleField in errors ==> errors[RoleField] == if form.role == "" then MissingRole else RoleTaken
    ensures EmailField in errors ==> errors[EmailField] == if form.email == "" then MissingEmail else WrongDomain
  {
    var errors: Errors := map field | field in AllFields && Check(form, authorities, tlds, field).Some? ::
      Check(form, authorities, tlds, field).value;
    errors
  }

  /** One space is enough, with no surname after it: "Ana " passes the name
      check, while a name without any space does not. */
  lemma TrailingSpaceIsEnough()
    ensures !NameIncomplete("Ana ")
    ensures NameIncomplete("Ana")
  {
    assert ' ' in "Ana ";
  }

  /** The domain is what lies between the first `@` and the next one: an
      address `local@domain`, or `local@domain@rest`, has domain `domain`
      when neither `local` nor `domain` holds an `@`. */
  lemma EmailDomainOf(local: string, domain: string, rest: string)
    requires '@' !in local && '@' !in domain
    ensures EmailDomain(local + "@" + domain) == Some(domain)
    ensures EmailDomain(local + "@" + domain + "@" + rest) == Some(domain)
  {
    IndexOfAfter(local, '@', domain);
    assert (local + "@" + domain)[|local| + 1..] == domain;
    var tail := domain + "@" + rest;
    assert local + "@" + domain + "@" + rest == local + "@" + tail;
    IndexOfAfter(local, '@', tail);
    assert (local + "@" + tail)[|local| + 1..] == tail;
    IndexOfAfter(domain, '@', rest);
    assert tail[..|domain|] == domain;
  }

  /** With ".br" as Brazil's TLD, an address at "test.br" passes the email
      check and one at "test.com" does not. */
  lemma BrazilianDomains(local: string)
    requires '@' !in local
    ensures !DomainRejected(local + "@" + "test.br", ".br")
    ensures DomainRejected(local + "@" + "test.com", ".br")
  {
    EmailDomainOf(local, "test.br", "");
    EmailDomainOf(local, "test.com", "");
    assert EndsWith("test.br", ".br");
    assert !EndsWith("test.com", ".br");
  }

  /** Only the text between the first and the second `@` is checked, so an
      address with a second `@` passes on its middle part, whatever follows. */
  lemma SecondAtIsIgnored(local: string, rest: string)
    requires '@' !in local
    ensures !DomainRejected(local + "@" + "mail.br" + "@" + rest, ".br")
  {
    EmailDomainOf(local, "mail.br", rest);
    assert EndsWith("mail.br", ".br");
  }
}

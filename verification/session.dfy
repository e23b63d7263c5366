/** The application state the pages share: the registered authorities and
    the booked presentations, each an append-only sequence. A submit is one
    atomic step: the form is validated against the current state and the
    record is appended exactly when no problem was found. */
module Session {
  import opened Options
  import opened Clock
  import opened Records
  import A = Authorities
  import F = AgendaForm
  import Agendas

  datatype State = State(authorities: seq<Authority>, agendas: seq<Agenda>)

  /** `handleSubmit` of the registration page. */
  function SubmitAuthority(s: State, form: Authority, tlds: map<string, string>): (r: (State, A.Errors))
    ensures r.1 == A.Validate(form, s.authorities, tlds)
    ensures r.0.agendas == s.agendas
    ensures r.1 == map[] ==> r.0.authorities == s.authorities + [form]
    ensures r.1 != map[] ==> r.0.authorities == s.authorities
  {
    var errors := A.Validate(form, s.authorities, tlds);
    if errors == map[] then (s.(authorities := s.authorities + [form]), errors) else (s, errors)
  }

  /** `handleSubmit` of the booking page. */
  function SubmitAgenda(s: State, form: Agenda): (r: (State, F.Errors))
    ensures r.1 == F.Validate(form, s.agendas)
    ensures r.0.authorities == s.authorities
    ensures r.1 == map[] ==> r.0.agendas == s.agendas + [form]
    ensures r.1 != map[] ==> r.0.agendas == s.agendas
  {
    var errors := F.Validate(form, s.agendas);
    if errors == map[] then (s.(agendas := s.agendas + [form]), errors) else (s, errors)
  }

  /** No two authorities hold the same role for the same country. */
  predicate RolesUnique(authorities: seq<Authority>) {
    forall i, j :: 0 <= i < j < |authorities| ==>
      authorities[i].country != authorities[j].country || authorities[i].role != authorities[j].role
  }

  /** An authority whose name contains a space, with a country, a role, and an email whose
      domain ends with the country's TLD. */
  predicate WellFormed(a: Authority, tlds: map<string, string>) {
    && a.name != "" && ' ' in a.name
    && a.country != ""
    && a.role != ""
    && a.email != "" && !A.DomainRejected(a.email, A.ExpectedTld(tlds, a.country))
  }

  predicate AuthoritiesValid(authorities: seq<Authority>, tlds: map<string, string>) {
    && RolesUnique(authorities)
    && forall i :: 0 <= i < |authorities| ==> WellFormed(authorities[i], tlds)
  }

  /** The two bookings are at least 15 minutes apart, or one of them has no
      valid instant. */
  predicate FarApart(a: Agenda, b: Agenda) {
    match (F.InstantOf(a), F.InstantOf(b))
    case (Some(x), Some(y)) => x - y >= F.ConflictMinutes || y - x >= F.ConflictMinutes
    case _ => true
  }

  /** Every stored booking names an authority and is on an accepted date,
      and any two bookings whose instants exist are at least 15 minutes
      apart; a booking without an instant never conflicts. */
  predicate AgendasValid(agendas: seq<Agenda>) {
    && (forall i :: 0 <= i < |agendas| ==> agendas[i].authority != "")
    && (forall i :: 0 <= i < |agendas| ==> agendas[i].date == F.FirstDay || agendas[i].date == F.LastDay)
    && (forall i, j :: 0 <= i < |agendas| && 0 <= j < |agendas| && i != j ==> FarApart(agendas[i], agendas[j]))
  }

  predicate Valid(s: State, tlds: map<string, string>) {
    AuthoritiesValid(s.authorities, tlds) && AgendasValid(s.agendas)
  }

  /** A registration never breaks role uniqueness or lets in a malformed
      record. */
  lemma SubmitAuthorityKeepsValid(s: State, form: Authority, tlds: map<string, string>)
    requires AuthoritiesValid(s.authorities, tlds)
    ensures AuthoritiesValid(SubmitAuthority(s, form, tlds).0.authorities, tlds)
  {
    var (next, errors) := SubmitAuthority(s, form, tlds);
    if errors == map[] {
      var all := next.authorities;
      assert all == s.authorities + [form];
      assert WellFormed(form, tlds);
      forall i, j | 0 <= i < j < |all|
        ensures all[i].country != all[j].country || all[i].role != all[j].role
      {
        if j == |all| - 1 {
          assert all[i] == s.authorities[i];
        }
      }
    }
  }

  /** A booking never brings two bookings within 15 minutes of each other,
      nor stores an unnamed or wrongly dated one. */
  lemma SubmitAgendaKeepsValid(s: State, form: Agenda)
    requires AgendasValid(s.agendas)
    ensures AgendasValid(SubmitAgenda(s, form).0.agendas)
  {
    var (next, errors) := SubmitAgenda(s, form);
    if errors == map[] {
      var all := next.agendas;
      var n := |s.agendas|;
      assert all == s.agendas + [form];
      forall k | 0 <= k < n
        ensures FarApart(form, s.agendas[k]) && FarApart(s.agendas[k], form)
      {
        assert !F.Clash(form, s.agendas[k]);
      }
      forall i, j | 0 <= i < |all| && 0 <= j < |all| && i != j
        ensures FarApart(all[i], all[j])
      {
        if i < n && j < n {
          assert all[i] == s.agendas[i] && all[j] == s.agendas[j];
        }
      }
    }
  }

  /** A submit starting from a valid state ends in one. */
  lemma SubmitsKeepValid(s: State, tlds: map<string, string>, authority: Authority, agenda: Agenda)
    requires Valid(s, tlds)
    ensures Valid(SubmitAuthority(s, authority, tlds).0, tlds)
    ensures Valid(SubmitAgenda(s, agenda).0, tlds)
  {
    SubmitAuthorityKeepsValid(s, authority, tlds);
    SubmitAgendaKeepsValid(s, agenda);
  }

  /** Once a country has someone in a role, every later registration of that
      role for that country is refused with `RoleTaken` and changes nothing. */
  lemma RoleCannotBeTakenTwice(s: State, form: Authority, tlds: map<string, string>, k: nat)
    requires k < |s.authorities|
    requires form.role != ""
    requires s.authorities[k].country == form.country && s.authorities[k].role == form.role
    ensures SubmitAuthority(s, form, tlds).1[A.RoleField] == A.RoleTaken
    ensures SubmitAuthority(s, form, tlds).0 == s
  {
  }

  /** On a valid state the listing is always defined when every stored time
      is one a time input produces. */
  lemma ListingDefined(s: State, tlds: map<string, string>)
    requires Valid(s, tlds)
    requires forall i :: 0 <= i < |s.agendas| ==> ParseTime(s.agendas[i].time).Some?
    ensures Agendas.AllTimed(s.agendas)
  {
    F.FirstDayParses();
    F.LastDayParses();
  }
}

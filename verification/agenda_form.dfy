/** The presentation booking form: the validator that runs on submit and the
    authority picker that fills in role and country. One shared schedule is
    checked: a new booking conflicts with any booking, whoever holds it. */
module AgendaForm {
  import opened Options
  import opened Clock
  import opened Records

  /** The only dates the validator accepts. */
  const FirstDay := "2025-11-01"
  const LastDay := "2025-11-10"

  /** Bookings closer than this many minutes conflict. */
  const ConflictMinutes: int := 15

  datatype Field = AuthorityField | DateField | TimeField

  datatype Problem =
    | NoAuthority
    | NoDate
    | DateNotOffered  // a date other than the two accepted ones
    | NoTime
    | TimeConflict    // another booking is less than 15 minutes away

  type Errors = map<Field, Problem>

  /** The instant of a booking, `None` when its date or time does not parse. */
  function InstantOf(a: Agenda): Option<int> {
    Instant(a.date, a.time)
  }

  /** Absolute value, `Math.abs`. */
  function Abs(x: int): (r: nat)
    ensures r == x || r == -x
  {
    if x < 0 then -x else x
  }

  /** One step of `agendas.some(...)`: the two bookings' instants are less
      than 15 minutes apart. An invalid instant is NaN, and a comparison
      with NaN is false. */
  function Clash(a: Agenda, b: Agenda): (clash: bool)
    ensures clash <==>
              && InstantOf(a).Some? && InstantOf(b).Some?
              && InstantOf(a).value - InstantOf(b).value < ConflictMinutes
              && InstantOf(b).value - InstantOf(a).value < ConflictMinutes
  {
    match (InstantOf(a), InstantOf(b))
    case (Some(x), Some(y)) => Abs(x - y) < ConflictMinutes
    case _ => false
  }

  /** Conflict is mutual: a booking clashes with another exactly when the
      other clashes with it. */
  lemma ClashSymmetric(a: Agenda, b: Agenda)
    ensures Clash(a, b) <==> Clash(b, a)
  {
  }

  /** `agendas.some(...)` of the conflict check. */
  function HasConflict(candidate: Agenda, agendas: seq<Agenda>): (conflict: bool)
    ensures conflict <==> exists i :: 0 <= i < |agendas| && Clash(candidate, agendas[i])
  {
    if |agendas| == 0 then false
    else
      var rest := HasConflict(candidate, agendas[1..]);
      assert rest <==> exists i :: 1 <= i < |agendas| && Clash(candidate, agendas[i]) by {
        forall i | 1 <= i < |agendas| ensures agendas[i] == agendas[1..][i - 1] {}
        forall i | 0 <= i < |agendas| - 1 ensures agendas[1..][i] == agendas[i + 1] {}
      }
      Clash(candidate, agendas[0]) || rest
  }

  /** `validateForm` of the booking page. */
  function Validate(form: Agenda, agendas: seq<Agenda>): (errors: Errors)
    ensures AuthorityField in errors <==> form.authority == ""
    ensures DateField in errors <==> form.date != FirstDay && form.date != LastDay
    ensures TimeField in errors <==>
              || form.time == ""
              || (exists i :: 0 <= i < |agendas| && Clash(form, agendas[i]))
    ensures AuthorityField in errors ==> errors[AuthorityField] == NoAuthority
    ensures DateField in errors ==> errors[DateField] == if form.date == "" then NoDate else DateNotOffered
    ensures TimeField in errors ==> errors[TimeField] == if form.time == "" then NoTime else TimeConflict
  {
    var afterAuthority: Errors :=
      if form.authority == "" then map[AuthorityField := NoAuthority] else map[];
    var afterDate :=
      if form.date == "" then afterAuthority[DateField := NoDate]
      else if form.date != FirstDay && form.date != LastDay then afterAuthority[DateField := DateNotOffered]
      else afterAuthority;
    var afterTime :=
      if form.time == "" then afterDate[TimeField := NoTime]
      else if HasConflict(form, agendas) then afterDate[TimeField := TimeConflict]
      else afterDate;
    afterTime
  }

  /** Who holds a booking plays no part in the conflict check: changing the
      candidate's authority, country or role never changes the answer. */
  lemma ConflictIgnoresHolder(candidate: Agenda, agendas: seq<Agenda>, authority: string, country: string, role: string)
    ensures HasConflict(candidate.(authority := authority, country := country, role := role), agendas)
            == HasConflict(candidate, agendas)
  {
    var moved := candidate.(authority := authority, country := country, role := role);
    assert InstantOf(moved) == InstantOf(candidate);
    assert forall i :: 0 <= i < |agendas| ==> (Clash(moved, agendas[i]) <==> Clash(candidate, agendas[i]));
  }

  /** `authorities.find(...)`: the position of the first authority with the
      given name. */
  function FindByName(authorities: seq<Authority>, name: string): (found: Option<nat>)
    ensures found.None? <==> forall i :: 0 <= i < |authorities| ==> authorities[i].name != name
    ensures found.Some? ==> found.value < |authorities| && authorities[found.value].name == name
    ensures found.Some? ==> forall i :: 0 <= i < found.value ==> authorities[i].name != name
  {
    if |authorities| == 0 then None
    else if authorities[0].name == name then Some(0)
    else
      match FindByName(authorities[1..], name)
      case None => None
      case Some(k) => Some(k + 1)
  }

  /** The authority picker: the chosen name is stored, and when some
      authority has that name the role and country of the first one are
      copied; otherwise role and country keep their previous values. */
  function ChooseAuthority(form: Agenda, authorities: seq<Authority>, name: string): (chosen: Agenda)
    ensures chosen.authority == name
    ensures chosen.date == form.date && chosen.time == form.time
    ensures (forall i :: 0 <= i < |authorities| ==> authorities[i].name != name) ==>
              chosen.role == form.role && chosen.country == form.country
    ensures forall i ::
              (&& 0 <= i < |authorities|
               && authorities[i].name == name
               && (forall j :: 0 <= j < i ==> authorities[j].name != name))
              ==> chosen.role == authorities[i].role && chosen.country == authorities[i].country
  {
    var named := form.(authority := name);
    match FindByName(authorities, name)
    case None => named
    case Some(i) => named.(role := authorities[i].role, country := authorities[i].country)
  }

  lemma AcceptedDatesText()
    ensures DateText(2025, 11, 1) == FirstDay
    ensures DateText(2025, 11, 10) == LastDay
  {
    assert Digits(2025, 4) == "2025";
    assert Digits(11, 2) == "11";
    assert Digits(1, 2) == "01";
    assert Digits(10, 2) == "10";
  }

  lemma FirstDayParses()
    ensures ParseDate(FirstDay) == Some(DayNumber(2025, 11, 1))
  {
    AcceptedDatesText();
    DateRoundTrip(2025, 11, 1);
  }

  lemma LastDayParses()
    ensures ParseDate(LastDay) == Some(DayNumber(2025, 11, 10))
  {
    AcceptedDatesText();
    DateRoundTrip(2025, 11, 10);
  }

  /** The two accepted dates are nine days apart, so bookings on different
      accepted dates never conflict. */
  lemma AcceptedDatesNineDaysApart()
    ensures ParseDate(FirstDay).Some? && ParseDate(LastDay).Some?
    ensures ParseDate(LastDay).value - ParseDate(FirstDay).value == 9
  {
    FirstDayParses();
    LastDayParses();
  }

  lemma MorningTimesText()
    ensures TimeText(10, 0) == "10:00"
    ensures TimeText(10, 10) == "10:10"
    ensures TimeText(10, 15) == "10:15"
  {
    assert Digits(10, 2) == "10" && Digits(0, 2) == "00" && Digits(15, 2) == "15";
  }

  lemma MorningTimes()
    ensures ParseTime("10:00") == Some(600)
    ensures ParseTime("10:10") == Some(610)
    ensures ParseTime("10:15") == Some(615)
  {
    MorningTimesText();
    TimeRoundTrip(10, 0);
    TimeRoundTrip(10, 10);
    TimeRoundTrip(10, 15);
  }

  /** With a booking at 10:00, 10:10 conflicts and 10:15, exactly fifteen
      minutes later, does not. */
  lemma ConflictThresholdIsStrict(holder: string, country: string, role: string)
    ensures Clash(Agenda(holder, country, FirstDay, "10:10", role), Agenda(holder, country, FirstDay, "10:00", role))
    ensures !Clash(Agenda(holder, country, FirstDay, "10:15", role), Agenda(holder, country, FirstDay, "10:00", role))
  {
    FirstDayParses();
    MorningTimes();
  }
}

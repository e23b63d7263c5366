/** The presentation list: a copy of the bookings sorted by instant with a
    stable sort, so bookings at the same instant keep their booking order.
    The stored bookings are never reordered. */
module Agendas {
  import opened Options
  import opened Seqs
  import opened Records
  import opened AgendaForm
  import opened Sorting

  predicate Timed(a: Agenda) {
    InstantOf(a).Some?
  }

  predicate AllTimed(s: seq<Agenda>) {
    forall i :: 0 <= i < |s| ==> Timed(s[i])
  }

  /** The sort key; it is the instant for every booking the listing sorts. */
  function Key(a: Agenda): int {
    InstantOf(a).GetOr(0)
  }

  /** The bookings of `s` at instant `t`, in their order in `s`. */
  function AtInstant(s: seq<Agenda>, t: int): seq<Agenda> {
    Keep(s, a => InstantOf(a) == Some(t))
  }

  /** A permutation of timed bookings holds only timed bookings. */
  lemma PermutationTimed(s: seq<Agenda>, r: seq<Agenda>)
    requires AllTimed(s) && multiset(r) == multiset(s)
    ensures AllTimed(r)
  {
    forall i | 0 <= i < |r|
      ensures Timed(r[i])
    {
      assert r[i] in multiset(s);
    }
  }

  /** On timed bookings, selecting by key is selecting by instant. */
  lemma {:induction false} WithKeyIsAtInstant(s: seq<Agenda>, t: int)
    requires AllTimed(s)
    ensures WithKey(s, Key, t) == AtInstant(s, t)
    decreases |s|
  {
    if |s| > 0 {
      WithKeyIsAtInstant(s[1..], t);
      var v := InstantOf(s[0]);
      assert v.Some? && Key(s[0]) == v.value;
      assert WithKey(s, Key, t) == (if Key(s[0]) == t then [s[0]] else []) + WithKey(s[1..], Key, t);
      assert AtInstant(s, t) == (if v == Some(t) then [s[0]] else []) + AtInstant(s[1..], t);
    }
  }

  /** `[...agendas].sort(...)` by instant: a permutation of the bookings, in
      non-decreasing order of instant, where bookings at one instant keep
      their booking order. */
  function ListAgendas(agendas: seq<Agenda>): (listed: seq<Agenda>)
    requires AllTimed(agendas)
    ensures multiset(listed) == multiset(agendas)
    ensures AllTimed(listed)
    ensures forall i, j :: 0 <= i < j < |listed| ==> InstantOf(listed[i]).value <= InstantOf(listed[j]).value
    ensures forall t :: AtInstant(listed, t) == AtInstant(agendas, t)
  {
    var listed := InsertionSort(agendas, Key);
    InsertionSortCorrect(agendas, Key);
    PermutationTimed(agendas, listed);
    assert forall t :: AtInstant(listed, t) == AtInstant(agendas, t) by {
      forall t
        ensures AtInstant(listed, t) == AtInstant(agendas, t)
      {
        WithKeyIsAtInstant(listed, t);
        WithKeyIsAtInstant(agendas, t);
      }
    }
    listed
  }
}

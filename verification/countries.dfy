/** The country page: the selected country's details, with fallbacks for
    missing data, and the authorities registered for it. */
module Countries {
  import opened Options
  import opened Seqs
  import opened Records

  function HeldFor(country: string): Authority -> bool {
    (a: Authority) => a.country == country
  }

  /** `countryAuthorities`: the registered authorities of the selected
      country, in registration order. Without a selection the page shows
      only a prompt and nothing is computed (`None`). */
  function CountryAuthorities(selected: Option<Country>, authorities: seq<Authority>): (listed: Option<seq<Authority>>)
    ensures listed.Some? <==> selected.Some?
    ensures listed.Some? ==> |listed.value| <= |authorities| && IsSubsequence(listed.value, authorities)
    ensures listed.Some? ==> forall a :: a in listed.value ==> a.country == selected.value.commonName
    ensures listed.Some? ==> forall a: Authority :: a.country == selected.value.commonName ==>
              multiset(listed.value)[a] == multiset(authorities)[a]
  {
    match selected
    case None => None
    case Some(c) =>
      var listed := Keep(authorities, HeldFor(c.commonName));
      KeepIsSubsequence(authorities, HeldFor(c.commonName));
      assert forall a: Authority :: a.country == c.commonName ==> multiset(listed)[a] == multiset(authorities)[a] by {
        forall a: Authority | a.country == c.commonName
          ensures multiset(listed)[a] == multiset(authorities)[a]
        {
          KeepCount(authorities, HeldFor(c.commonName), a);
        }
      }
      Some(listed)
  }

  /** `list?.[0] || "N/A"`: the first entry, unless the list is missing or
      empty or its first entry is the empty text, which is falsy. What is
      shown is never blank. */
  function FirstOrNotAvailable(list: Option<seq<string>>): (shown: string)
    ensures shown != ""
    ensures list.Some? && |list.value| > 0 && list.value[0] != "" ==> shown == list.value[0]
    ensures list.None? || |list.value| == 0 || list.value[0] == "" ==> shown == "N/A"
  {
    match list
    case Some(entries) => if |entries| > 0 && entries[0] != "" then entries[0] else "N/A"
    case None => "N/A"
  }

  /** The capital line. */
  function CapitalShown(c: Country): (shown: string)
    ensures shown != ""
  {
    FirstOrNotAvailable(c.capital)
  }

  /** The TLD line. */
  function TldShown(c: Country): (shown: string)
    ensures shown != ""
  {
    FirstOrNotAvailable(c.tld)
  }

  /** The language line, `languages ? Object.values(languages)[0] : "N/A"`:
      only a missing `languages` object falls back; an empty one yields
      `undefined`, which renders as nothing. */
  function LanguageShown(c: Country): (shown: string)
    ensures c.languages.None? ==> shown == "N/A"
    ensures c.languages.Some? && |c.languages.value| > 0 ==> shown == c.languages.value[0]
    ensures c.languages.Some? && |c.languages.value| == 0 ==> shown == ""
  {
    match c.languages
    case None => "N/A"
    case Some(values) => if |values| > 0 then values[0] else ""
  }
}

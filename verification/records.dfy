/** The records the pages pass around. Every field is the text a form
    control or the country directory supplies. */
module Records {
  import opened Options

  /** A directory entry, with the fields the pages read: `name.common`,
      `region`, `capital`, the values of `languages` (in the object's property order), and
      `tld`. A field the directory leaves out is `None`. */
  datatype Country = Country(
    commonName: string,
    region: string,
    capital: Option<seq<string>>,
    languages: Option<seq<string>>,
    tld: Option<seq<string>>)

  /** A registered official, exactly as the registration form holds it. */
  datatype Authority = Authority(name: string, country: string, role: string, email: string)

  /** A booked presentation, exactly as the booking form holds it: the
      authority's name, the country and role copied from that authority, and
      the date and time inputs' text. */
  datatype Agenda = Agenda(authority: string, country: string, date: string, time: string, role: string)
}

/**
 * `google_flights_link` (App.py): a Google Flights search URL assembled by
 * plain concatenation, without escaping its fields. `ParseFlightsLink` reads
 * such a URL back; it recovers the fields whenever none of them holds '%'.
 */
module FlightsLink {
  import opened PyText

  // The fixed texts of the link, in order.
  const LinkPrefix: string := "https://www.google.com/travel/flights?q=Flights%20from%20"
  const ToText: string := "%20to%20"
  const OnText: string := "%20on%20"
  const AdultsText: string := "%20adults%3D"

  /** The fields a link carries. */
  datatype Query = Query(origin: string, dest: string, date: string, adults: int)

  /** The URL for flights from `origin` to `dest` on `date` for `adults` passengers. */
  function GoogleFlightsLink(origin: string, dest: string, date: string, adults: int): string
  {
    LinkPrefix + origin + ToText + dest + OnText + date + AdultsText + Dec(adults)
  }

  /**
   * The text of `s` up to its first '%', and what follows `marker` there;
   * `None` when `s` has no '%' or `marker` does not start at it.
   */
  function CutAtMarker(s: string, marker: string): (r: Option<(string, string)>)
    ensures r.Some? ==> '%' !in r.value.0
    ensures r.Some? ==> s == r.value.0 + marker + r.value.1
  {
    if '%' !in s then None
    else
      var k := IndexOf(s, '%');
      if StartsWith(s[k..], marker) then
        assert s == s[..k] + marker + s[k + |marker|..] by {
          assert s[k..][..|marker|] == marker;
          assert s[k..k + |marker|] == marker;
        }
        Some((s[..k], s[k + |marker|..]))
      else None
  }

  /** A field without '%' followed by a marker starting with '%' is read back intact. */
  lemma CutAtMarkerOf(f: string, marker: string, rest: string)
    requires '%' !in f && marker != [] && marker[0] == '%'
    ensures CutAtMarker(f + marker + rest, marker) == Some((f, rest))
  {
    var s, after := f + marker + rest, marker + rest;
    assert s == f + after;
    assert after[0] == '%';
    IndexOfAppend(f, after, '%');
    assert s[|f|..] == after && s[..|f|] == f;
    assert StartsWith(after, marker) by {
      assert after[..|marker|] == marker;
    }
    assert s[|f| + |marker|..] == rest;
  }

  /** The part of the link after `LinkPrefix`. */
  function QueryText(origin: string, dest: string, date: string, adults: int): string
  {
    origin + ToText + dest + OnText + date + AdultsText + Dec(adults)
  }

  /** Regrouping the seven pieces of the query text. */
  lemma Regroup(a: string, b: string, c: string, d: string, e: string, f: string, g: string)
    ensures a + b + (c + d + (e + f + g)) == a + b + c + d + e + f + g
  {
  }

  lemma LinkIsPrefixAndQuery(origin: string, dest: string, date: string, adults: int)
    ensures GoogleFlightsLink(origin, dest, date, adults) == LinkPrefix + QueryText(origin, dest, date, adults)
  {
    var p, q := LinkPrefix, QueryText(origin, dest, date, adults);
    var o, t, d, n, dt, a, c := origin, ToText, dest, OnText, date, AdultsText, Dec(adults);
    assert p + (o + t + d + n + dt + a + c) == p + o + t + d + n + dt + a + c;
  }

  /** Reads the fields back out of the text after the prefix. */
  function ParseQuery(text: string): (q: Option<Query>)
    ensures q.Some? ==> text == QueryText(q.value.origin, q.value.dest, q.value.date, q.value.adults)
  {
    match CutAtMarker(text, ToText)
    case None => None
    case Some((origin, rest)) =>
      match CutAtMarker(rest, OnText)
      case None => None
      case Some((dest, rest)) =>
        match CutAtMarker(rest, AdultsText)
        case None => None
        case Some((date, rest)) =>
          // The passenger count, accepted only in the form the link writes it.
          match PyInt(rest)
          case Some(n) =>
            if rest == Dec(n) then
              Regroup(origin, ToText, dest, OnText, date, AdultsText, rest);
              Some(Query(origin, dest, date, n))
            else None
          case None => None
  }

  /** Reads the fields back out of a link, or `None` if it does not have the link's shape. */
  function ParseFlightsLink(url: string): (q: Option<Query>)
    ensures q.Some? ==> url == GoogleFlightsLink(q.value.origin, q.value.dest, q.value.date, q.value.adults)
  {
    StartsWithAppend(url, LinkPrefix);
    if !StartsWith(url, LinkPrefix) then None
    else
      match ParseQuery(url[|LinkPrefix|..])
      case None => None
      case Some(v) =>
        LinkIsPrefixAndQuery(v.origin, v.dest, v.date, v.adults);
        Some(v)
  }

  /** The text after the prefix reads back as the fields it was built from when they hold no '%'. */
  lemma ParseQueryText(origin: string, dest: string, date: string, adults: int)
    requires '%' !in origin && '%' !in dest && '%' !in date
    ensures ParseQuery(QueryText(origin, dest, date, adults)) == Some(Query(origin, dest, date, adults))
  {
    var count := Dec(adults);
    var tail := date + AdultsText + count;
    var rest := dest + OnText + tail;
    assert QueryText(origin, dest, date, adults) == origin + ToText + rest by {
      Regroup(origin, ToText, dest, OnText, date, AdultsText, count);
    }
    CutAtMarkerOf(origin, ToText, rest);
    CutAtMarkerOf(dest, OnText, tail);
    CutAtMarkerOf(date, AdultsText, count);
    PyIntOfDec(adults);
  }

  /** A link whose text fields hold no '%' reads back as the fields it was built from. */
  lemma ParseGoogleFlightsLink(origin: string, dest: string, date: string, adults: int)
    requires '%' !in origin && '%' !in dest && '%' !in date
    ensures ParseFlightsLink(GoogleFlightsLink(origin, dest, date, adults)) == Some(Query(origin, dest, date, adults))
  {
    var text := QueryText(origin, dest, date, adults);
    LinkIsPrefixAndQuery(origin, dest, date, adults);
    StartsWithAppend(LinkPrefix + text, LinkPrefix);
    assert (LinkPrefix + text)[|LinkPrefix|..] == text;
    ParseQueryText(origin, dest, date, adults);
  }

  /** Two searches whose origin and destination read the same once joined share a link. */
  lemma SameLink(o1: string, d1: string, o2: string, d2: string, date: string, adults: int)
    requires o1 + ToText + d1 == o2 + ToText + d2
    ensures GoogleFlightsLink(o1, d1, date, adults) == GoogleFlightsLink(o2, d2, date, adults)
  {
    Group(LinkPrefix, o1, ToText, d1, OnText, date, AdultsText, Dec(adults));
    Group(LinkPrefix, o2, ToText, d2, OnText, date, AdultsText, Dec(adults));
  }

  lemma Group(p: string, a: string, b: string, c: string, d: string, e: string, f: string, g: string)
    ensures p + a + b + c + d + e + f + g == p + (a + b + c) + (d + e + f + g)
  {
  }

  /**
   * The fields are not escaped, so different searches can share a link: an
   * origin holding "%20to%20" reads as part of the destination.
   */
  lemma GoogleFlightsLinkAmbiguous(date: string, adults: int)
    ensures GoogleFlightsLink("A%20to%20B", "C", date, adults) == GoogleFlightsLink("A", "B%20to%20C", date, adults)
  {
    SameLink("A%20to%20B", "C", "A", "B%20to%20C", date, adults);
  }
}

/**
 * Location lookup and selection (App.py): `search_locations` refuses short
 * keywords, otherwise orders the matches the lookup endpoint returned so that
 * airports come first, then by name; the form shows each match as the label
 * `<code> — <name>`, and `extract_iata` takes the code back out of the label
 * the user picked.
 */
module Locations {
  import opened PyText
  import opened Ordering

  /**
   * One entry of the lookup response's `data` list. A key the response
   * leaves out is `None`.
   */
  datatype Location = Location(iataCode: Option<string>, name: Option<string>, subType: Option<string>)

  /** The HTTP status and the `data` list of the lookup response. */
  datatype LocationsResponse = LocationsResponse(status: int, data: Option<seq<Location>>)

  const MinKeywordLength: nat := 2

  /** The em dash that separates code and name in a label. */
  const EmDash: char := '\U{2014}'

  predicate IsAirport(loc: Location)
  {
    loc.subType == Some("AIRPORT")
  }

  /** `x.get("name", "")`. */
  function NameKey(loc: Location): string
  {
    match loc.name
    case Some(n) => n
    case None => ""
  }

  /** Python's `<` on the sort key `(subType != "AIRPORT", name)`. */
  predicate KeyLess(x: Location, y: Location)
  {
    (IsAirport(x) && !IsAirport(y)) || (IsAirport(x) == IsAirport(y) && StrLess(NameKey(x), NameKey(y)))
  }

  /** The order `data.sort(key=...)` follows: `y` does not sort before `x`. */
  predicate LocationOrder(x: Location, y: Location)
  {
    !KeyLess(y, x)
  }

  /** Python's `<=` on strings. */
  predicate StrLessEq(a: string, b: string)
  {
    a == b || StrLess(a, b)
  }

  lemma LocationOrderIsTotalPreorder()
    ensures TotalPreorder(LocationOrder)
  {
    forall x, y ensures LocationOrder(x, y) || LocationOrder(y, x) {
      if KeyLess(x, y) && KeyLess(y, x) {
        StrLessAsymmetric(NameKey(x), NameKey(y));
      }
    }
    forall x, y, z | LocationOrder(x, y) && LocationOrder(y, z) ensures LocationOrder(x, z) {
      if KeyLess(z, x) {
        StrLessTotal(NameKey(x), NameKey(y));
        StrLessTotal(NameKey(y), NameKey(z));
        if IsAirport(x) == IsAirport(y) == IsAirport(z) {
          if StrLess(NameKey(x), NameKey(y)) {
            StrLessTransitive(NameKey(z), NameKey(x), NameKey(y));
          }
        }
      }
    }
  }

  /** Two locations sort as equals exactly when their keys are equal. */
  lemma LocationOrderEquivalent(x: Location, y: Location)
    ensures Equivalent(LocationOrder, x, y) <==> IsAirport(x) == IsAirport(y) && NameKey(x) == NameKey(y)
  {
    StrLessTotal(NameKey(x), NameKey(y));
    StrLessIrreflexive(NameKey(x));
  }

  /**
   * `search_locations(keyword)`. The lookup is requested only for a keyword
   * of at least two characters; a failed lookup yields no matches; otherwise
   * the matches are `data` (missing: empty) stably sorted by the key.
   */
  method SearchLocations(keyword: string, response: LocationsResponse) returns (requested: bool, matches: seq<Location>)
    ensures requested <==> |keyword| >= MinKeywordLength
    ensures !requested || response.status != 200 ==> matches == []
    ensures requested && response.status == 200 ==> matches == Sort(LocationOrder, DataOf(response))
  {
    if |keyword| < MinKeywordLength {
      return false, [];
    }
    requested := true;
    if response.status != 200 {
      return requested, [];
    }
    var data := DataOf(response);
    var a := new Location[|data|](i requires 0 <= i < |data| => data[i]);
    assert a[..] == data;
    StableSort(a, LocationOrder);
    matches := a[..];
  }

  /** `r.json().get("data", [])`. */
  function DataOf(response: LocationsResponse): seq<Location>
  {
    match response.data
    case Some(d) => d
    case None => []
  }

  /**
   * In any sequence ordered by `LocationOrder`, every airport comes before
   * every other entry and names are in order within each group (a missing
   * name counting as "").
   */
  lemma OrderedLocations(r: seq<Location>)
    requires Sorted(LocationOrder, r)
    ensures forall i, j :: 0 <= i < |r| && 0 <= j < |r| && IsAirport(r[i]) && !IsAirport(r[j]) ==> i < j
    ensures forall i, j :: 0 <= i < j < |r| && IsAirport(r[i]) == IsAirport(r[j]) ==> StrLessEq(NameKey(r[i]), NameKey(r[j]))
  {
    forall i, j | 0 <= i < |r| && 0 <= j < |r| && IsAirport(r[i]) && !IsAirport(r[j]) ensures i < j {
      // r[j] sorting no later than r[i] would make the non-airport the smaller key.
      assert j < i ==> LocationOrder(r[j], r[i]);
    }
    forall i, j | 0 <= i < j < |r| && IsAirport(r[i]) == IsAirport(r[j])
      ensures StrLessEq(NameKey(r[i]), NameKey(r[j]))
    {
      assert LocationOrder(r[i], r[j]);
      StrLessTotal(NameKey(r[i]), NameKey(r[j]));
    }
  }

  /**
   * The matches `search_locations` returns are the response's entries,
   * airports first, names in order within each group, and entries with
   * equal keys in their input order.
   */
  lemma SortedLocations(data: seq<Location>)
    ensures multiset(Sort(LocationOrder, data)) == multiset(data)
    ensures var r := Sort(LocationOrder, data);
      forall i, j :: 0 <= i < |r| && 0 <= j < |r| && IsAirport(r[i]) && !IsAirport(r[j]) ==> i < j
    ensures var r := Sort(LocationOrder, data);
      forall i, j :: 0 <= i < j < |r| && IsAirport(r[i]) == IsAirport(r[j]) ==> StrLessEq(NameKey(r[i]), NameKey(r[j]))
    ensures Stable(LocationOrder, data, Sort(LocationOrder, data))
  {
    LocationOrderIsTotalPreorder();
    SortIsStableSort(LocationOrder, data);
    OrderedLocations(Sort(LocationOrder, data));
  }

  // ---------------------------------------------------------------------
  // Labels and extract_iata
  // ---------------------------------------------------------------------

  /** `f"{x['iataCode']} — {x['name']}"`; a missing key raises KeyError (None). */
  function Label(loc: Location): Option<string>
  {
    match (loc.iataCode, loc.name)
    case (Some(code), Some(name)) => Some(code + " " + [EmDash] + " " + name)
    case _ => None
  }

  function Labels(matches: seq<Location>): Option<seq<string>>
  {
    if matches == [] then Some([])
    else
      match (Label(matches[0]), Labels(matches[1..]))
      case (Some(l), Some(ls)) => Some([l] + ls)
      case _ => None
  }

  /** The select box options: the labels, or `[""]` when there is no match. */
  function Choices(matches: seq<Location>): Option<seq<string>>
  {
    if matches == [] then Some([""]) else Labels(matches)
  }

  /**
   * `extract_iata(selection)`: the stripped text before the first em dash,
   * or "" when the selection is empty or has no em dash. The result never
   * holds an em dash.
   */
  function ExtractIata(selection: string): (code: string)
    ensures EmDash !in code
    ensures EmDash !in selection ==> code == ""
    ensures EmDash in selection ==> code == Strip(selection[..IndexOf(selection, EmDash)])
  {
    if selection != [] && EmDash in selection then Strip(Split(selection, EmDash)[0]) else ""
  }

  /** A code is shown and read back intact when it is trimmed and holds no em dash. */
  predicate WellFormedCode(code: string)
  {
    Trimmed(code) && EmDash !in code
  }

  /** The label, cut around its em dash. */
  lemma Regroup(a: string, b: string, c: string, d: string, e: string)
    ensures a + b + c + d + e == (a + b) + c + (d + e)
  {
  }

  /** Reading the code back from a label gives the code the label was built from. */
  lemma ExtractIataOfLabel(code: string, name: string)
    requires WellFormedCode(code)
    ensures ExtractIata(code + " " + [EmDash] + " " + name) == code
  {
    var before, after := code + " ", " " + name;
    assert EmDash !in before;
    calc {
      ExtractIata(code + " " + [EmDash] + " " + name);
      { Regroup(code, " ", [EmDash], " ", name); }
      ExtractIata(before + [EmDash] + after);
      Strip(Split(before + [EmDash] + after, EmDash)[0]);
      { SplitAt(before, EmDash, after); }
      Strip(before);
      { StripTrailingSpace(code); }
      code;
    }
  }

  lemma {:induction false} LabelsRoundTrip(matches: seq<Location>)
    requires forall i :: 0 <= i < |matches| ==> matches[i].iataCode.Some? && matches[i].name.Some?
    requires forall i :: 0 <= i < |matches| ==> WellFormedCode(matches[i].iataCode.value)
    ensures Labels(matches).Some?
    ensures |Labels(matches).value| == |matches|
    ensures forall i :: 0 <= i < |matches| ==>
      ExtractIata(Labels(matches).value[i]) == matches[i].iataCode.value
  {
    if matches != [] {
      LabelsRoundTrip(matches[1..]);
      var loc := matches[0];
      ExtractIataOfLabel(loc.iataCode.value, loc.name.value);
      LabelsCons(matches);
      var ls := Labels(matches).value;
      assert ls[0] == Label(loc).value && ls[1..] == Labels(matches[1..]).value;
      ReadBackCons(matches, ls);
    }
  }

  /** Labels read back one by one when the first does and the others do. */
  lemma ReadBackCons(matches: seq<Location>, ls: seq<string>)
    requires |ls| == |matches| > 0
    requires forall i :: 0 <= i < |matches| ==> matches[i].iataCode.Some?
    requires ExtractIata(ls[0]) == matches[0].iataCode.value
    requires forall i :: 0 <= i < |matches| - 1 ==> ExtractIata(ls[1..][i]) == matches[1..][i].iataCode.value
    ensures forall i :: 0 <= i < |matches| ==> ExtractIata(ls[i]) == matches[i].iataCode.value
  {
    forall i | 0 < i < |matches| ensures ExtractIata(ls[i]) == matches[i].iataCode.value {
      assert ls[i] == ls[1..][i - 1] && matches[i] == matches[1..][i - 1];
    }
  }

  lemma LabelsCons(matches: seq<Location>)
    requires matches != [] && Label(matches[0]).Some? && Labels(matches[1..]).Some?
    ensures Labels(matches) == Some([Label(matches[0]).value] + Labels(matches[1..]).value)
  {
  }

  /**
   * Every option of the select box reads back as its match's code, and the
   * placeholder shown for no match reads back as "" (no valid selection).
   */
  lemma ChoicesRoundTrip(matches: seq<Location>)
    requires forall i :: 0 <= i < |matches| ==> matches[i].iataCode.Some? && matches[i].name.Some?
    requires forall i :: 0 <= i < |matches| ==> WellFormedCode(matches[i].iataCode.value)
    ensures Choices(matches).Some?
    ensures matches == [] ==> Choices(matches).value == [""] && ExtractIata("") == ""
    ensures matches != [] ==> |Choices(matches).value| == |matches|
    ensures matches != [] ==>
      forall i :: 0 <= i < |matches| ==> ExtractIata(Choices(matches).value[i]) == matches[i].iataCode.value
  {
    LabelsRoundTrip(matches);
  }
}

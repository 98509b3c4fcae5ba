/**
 * Presenting the flight offers (App.py): the offers are sorted by price,
 * each card shows its stop count as "Direto" or "<n> escala(s)", and the
 * price line has its decimal and thousands separators exchanged by a chain
 * of three one-character replacements.
 */
module Offers {
  import opened PyText
  import opened Ordering

  /** One leg of an itinerary; only the fields the page reads. */
  datatype Segment = Segment(departure: string, arrival: string, duration: Option<string>)

  datatype Itinerary = Itinerary(duration: Option<string>, segments: seq<Segment>)

  /**
   * An offer. `price` stands for the number `float(price["grandTotal"])`
   * the sort compares; `grandTotal` is the text shown on the card.
   */
  datatype Offer = Offer(price: int, grandTotal: string, currency: string, itineraries: seq<Itinerary>)

  // ---------------------------------------------------------------------
  // offers.sort(key=lambda o: float(o["price"]["grandTotal"]))
  // ---------------------------------------------------------------------

  /** `y` does not sort before `x`: the sort only asks whether one price is smaller. */
  predicate PriceOrder(x: Offer, y: Offer)
  {
    !(y.price < x.price)
  }

  lemma PriceOrderIsTotalPreorder()
    ensures TotalPreorder(PriceOrder)
  {
  }

  /** Sorts the offers in place, cheapest first, offers of equal price in their input order. */
  method SortOffers(offers: array<Offer>)
    modifies offers
    ensures offers[..] == Sort(PriceOrder, old(offers[..]))
  {
    StableSort(offers, PriceOrder);
  }

  /**
   * The sorted offers are the input offers, with prices non-decreasing, and
   * offers of equal price in their input order.
   */
  lemma SortedOffers(offers: seq<Offer>)
    ensures multiset(Sort(PriceOrder, offers)) == multiset(offers)
    ensures var r := Sort(PriceOrder, offers);
      forall i, j :: 0 <= i < j < |r| ==> r[i].price <= r[j].price
    ensures Stable(PriceOrder, offers, Sort(PriceOrder, offers))
  {
    PriceOrderIsTotalPreorder();
    SortIsStableSort(PriceOrder, offers);
  }

  /** Two offers sort as equals exactly when their prices are equal. */
  lemma PriceOrderEquivalent(x: Offer, y: Offer)
    ensures Equivalent(PriceOrder, x, y) <==> x.price == y.price
  {
  }

  // ---------------------------------------------------------------------
  // Stop label
  // ---------------------------------------------------------------------

  /** `len(segs) - 1`. */
  function Stops(segments: seq<Segment>): (stops: int)
    ensures stops >= -1
  {
    |segments| - 1
  }

  /** "Direto" for no stop, otherwise the stop count followed by " escala(s)". */
  function StopLabel(segments: seq<Segment>): (text: string)
    ensures text == "Direto" <==> |segments| == 1
  {
    var stops := Stops(segments);
    if stops == 0 then "Direto"
    else
      assert |Dec(stops) + " escala(s)"| > |"Direto"|;
      Dec(stops) + " escala(s)"
  }

  /**
   * Away from the direct case, the first word of the label reads back as the
   * stop count, and the rest of the label is fixed.
   */
  lemma StopLabelCount(segments: seq<Segment>)
    requires |segments| != 1
    ensures Split(StopLabel(segments), ' ')[0] == Dec(|segments| - 1)
    ensures PyInt(Split(StopLabel(segments), ' ')[0]) == Some(|segments| - 1)
    ensures StopLabel(segments) == Dec(|segments| - 1) + " escala(s)"
  {
    var n := |segments| - 1;
    assert ' ' !in Dec(n) by {
      assert forall c :: c in Dec(n) ==> IsDigit(c) || c == '-';
    }
    SplitFirstPiece(Dec(n), " escala(s)", ' ');
    assert Split(" escala(s)", ' ')[0] == [];
    PyIntOfDec(n);
  }

  /** An itinerary without segments is labelled with minus one stop. */
  lemma StopLabelNoSegments()
    ensures StopLabel([]) == "-1 escala(s)"
  {
    assert Dec(-1) == "-1";
  }

  // ---------------------------------------------------------------------
  // .replace(",", "X").replace(".", ",").replace("X", ".")
  // ---------------------------------------------------------------------

  /** What the replacement chain does to one character. */
  function SeparatorImage(c: char): char
  {
    if c == ',' then '.'
    else if c == '.' then ','
    else if c == 'X' then '.'
    else c
  }

  /**
   * The replacement chain: every ',' becomes '.', every '.' becomes ',',
   * and every 'X' already in the text also becomes '.'.
   */
  function SwapSeparators(s: string): (r: string)
    ensures |r| == |s|
    ensures forall i :: 0 <= i < |s| ==> r[i] == SeparatorImage(s[i])
  {
    Replace(Replace(Replace(s, ',', 'X'), '.', ','), 'X', '.')
  }

  /** The output never holds an 'X'. */
  lemma SwapSeparatorsNoX(s: string)
    ensures 'X' !in SwapSeparators(s)
  {
    var r := SwapSeparators(s);
    forall i | 0 <= i < |r| ensures r[i] != 'X' {
      assert r[i] == SeparatorImage(s[i]);
    }
  }

  /** Swapping twice gives the text back exactly when it holds no 'X'. */
  lemma SwapSeparatorsInvolution(s: string)
    ensures SwapSeparators(SwapSeparators(s)) == s <==> 'X' !in s
  {
    var r := SwapSeparators(SwapSeparators(s));
    if 'X' in s {
      var i :| 0 <= i < |s| && s[i] == 'X';
      assert r[i] == ',';
    } else {
      forall i | 0 <= i < |s| ensures r[i] == s[i] {
        assert s[i] != 'X';
      }
    }
  }

  /** The swap leaves a text alone exactly when it holds no ',', '.' or 'X'. */
  lemma SwapSeparatorsUnchanged(s: string)
    ensures SwapSeparators(s) == s <==> (',' !in s && '.' !in s && 'X' !in s)
  {
    var r := SwapSeparators(s);
    if ',' in s {
      var i :| 0 <= i < |s| && s[i] == ',';
      assert r[i] == '.';
    } else if '.' in s {
      var i :| 0 <= i < |s| && s[i] == '.';
      assert r[i] == ',';
    } else if 'X' in s {
      var i :| 0 <= i < |s| && s[i] == 'X';
      assert r[i] == '.';
    }
  }

  /** The swap works character by character, so it distributes over concatenation. */
  lemma SwapSeparatorsAppend(a: string, b: string)
    ensures SwapSeparators(a + b) == SwapSeparators(a) + SwapSeparators(b)
  {
    var a1, b1 := Replace(a, ',', 'X'), Replace(b, ',', 'X');
    var a2, b2 := Replace(a1, '.', ','), Replace(b1, '.', ',');
    ReplaceAppend(a, b, ',', 'X');
    ReplaceAppend(a1, b1, '.', ',');
    ReplaceAppend(a2, b2, 'X', '.');
  }

  /** No character the swap rewrites. */
  predicate SeparatorFree(s: string)
  {
    ',' !in s && '.' !in s && 'X' !in s
  }

  /** Fixed text without separators passes through; the two fields are swapped. */
  lemma SwapSeparatorsFrame(open: string, x: string, mid: string, y: string, close: string)
    requires SeparatorFree(open) && SeparatorFree(mid) && SeparatorFree(close)
    ensures SwapSeparators(open + x + mid + y + close)
         == open + SwapSeparators(x) + mid + SwapSeparators(y) + close
  {
    SwapSeparatorsUnchanged(open);
    SwapSeparatorsUnchanged(mid);
    SwapSeparatorsUnchanged(close);
    SwapSeparatorsAppend(open + x + mid + y, close);
    SwapSeparatorsAppend(open + x + mid, y);
    SwapSeparatorsAppend(open + x, mid);
    SwapSeparatorsAppend(open, x);
  }

  const PriceOpen: string := "<div class=\"price\">"
  const PriceClose: string := "</div>"

  /**
   * The price line of a card: currency code and formatted amount wrapped in
   * the price element, then passed through the replacement chain.
   * `amount` is the already formatted `{:,.2f}` text of the total.
   */
  function PriceMarkup(currency: string, amount: string): (markup: string)
    ensures markup == PriceOpen + SwapSeparators(currency) + " " + SwapSeparators(amount) + PriceClose
  {
    SwapSeparatorsFrame(PriceOpen, currency, " ", amount, PriceClose);
    SwapSeparators(PriceOpen + currency + " " + amount + PriceClose)
  }

  /** In a price in Mexican pesos, the 'X' of the currency code becomes '.'. */
  lemma PriceMarkupMexicanPeso(amount: string)
    ensures PriceMarkup("MXN", amount) == PriceOpen + "M.N " + SwapSeparators(amount) + PriceClose
  {
    var c := SwapSeparators("MXN");
    assert c == "M.N" by {
      assert c[1] == SeparatorImage('X');
    }
  }

  /**
   * In an amount formatted with a thousands comma and a decimal point, the
   * two separators trade places ("1,234.50" becomes "1.234,50").
   */
  lemma SwapSeparatorsAmount(thousands: string, units: string, cents: string)
    requires SeparatorFree(thousands) && SeparatorFree(units) && SeparatorFree(cents)
    ensures SwapSeparators(thousands + "," + units + "." + cents) == thousands + "." + units + "," + cents
  {
    SwapSeparatorsUnchanged(thousands);
    SwapSeparatorsUnchanged(units);
    SwapSeparatorsUnchanged(cents);
    assert SwapSeparators(",") == "." && SwapSeparators(".") == ",";
    SwapSeparatorsAppend(thousands + "," + units + ".", cents);
    SwapSeparatorsAppend(thousands + "," + units, ".");
    SwapSeparatorsAppend(thousands + ",", units);
    SwapSeparatorsAppend(thousands, ",");
  }
}

/**
 * The part of `forecast` that runs after the HTTP request: the status check,
 * the shape check on the parsed document, the walk over the observation
 * items, and the translation of the precipitation code. Every failure gives
 * the absent pair `(None, None)`.
 *
 * The parsed XML document is given as nested records whose keys may be
 * missing (`None`): a missing `items`/`item` key, a missing `category`, or a
 * missing `obsrValue` on a T1H or PTY item raises `KeyError` in the source.
 * An item field that is present but empty (`<category/>`, `<obsrValue/>`)
 * parses to the value `None` and raises nothing.
 */
module Forecast {
  import opened Wrappers
  import opened WeatherCodes

  /** A key of an item record: absent, present with the value `None` (an empty element), or text. */
  datatype Field = Missing | Null | Text(text: string)

  datatype Item = Item(category: Field, obsrValue: Field)
  /** `items` is `body['items']['item']`, `None` when either key is missing. */
  datatype Body = Body(items: Option<seq<Item>>)
  datatype Response = Response(body: Option<Body>)
  datatype Document = Document(response: Option<Response>)

  /** The `(temp, sky)` pair `forecast` returns. */
  datatype Observation = Observation(temp: Option<string>, sky: Option<string>)

  const Absent := Observation(None, None)
  const HttpOk := 200
  const Temperature := "T1H"
  const Precipitation := "PTY"

  /** The Python value a present field holds: its text, or `None` for an empty element. */
  function ValueOf(f: Field): (v: Option<string>)
    ensures v.Some? <==> f.Text?
  {
    if f.Text? then Some(f.text) else None
  }

  /** Reading this item in the loop raises no `KeyError`. */
  predicate ItemReadable(item: Item) {
    !item.category.Missing? &&
    (item.category == Text(Temperature) || item.category == Text(Precipitation) ==> !item.obsrValue.Missing?)
  }

  predicate Readable(items: seq<Item>) {
    forall i :: 0 <= i < |items| ==> ItemReadable(items[i])
  }

  /** The `obsrValue` of the last item whose category is `cat`; `None` if there is none. */
  function LastValue(items: seq<Item>, cat: string): Option<string> {
    if items == [] then None
    else if items[|items| - 1].category == Text(cat) then ValueOf(items[|items| - 1].obsrValue)
    else LastValue(items[..|items| - 1], cat)
  }

  /** `i` is the position of the last item of category `cat`. */
  predicate IsLastOf(items: seq<Item>, cat: string, i: int) {
    0 <= i < |items| && items[i].category == Text(cat) &&
    forall j :: i < j < |items| ==> items[j].category != Text(cat)
  }

  /** When a category repeats, the value of its last occurrence is the one kept. */
  lemma {:induction false} LastValueAt(items: seq<Item>, cat: string, i: int)
    requires IsLastOf(items, cat, i)
    ensures LastValue(items, cat) == ValueOf(items[i].obsrValue)
    decreases |items|
  {
    if i < |items| - 1 {
      var init := items[..|items| - 1];
      assert IsLastOf(init, cat, i);
      LastValueAt(init, cat, i);
    }
  }

  /** A category that never occurs leaves its variable at `None`. */
  lemma {:induction false} LastValueAbsent(items: seq<Item>, cat: string)
    requires forall j :: 0 <= j < |items| ==> items[j].category != Text(cat)
    ensures LastValue(items, cat) == None
    decreases |items|
  {
    if items != [] {
      LastValueAbsent(items[..|items| - 1], cat);
    }
  }

  /** An item of another category, wherever it stands, does not change the value kept. */
  lemma {:induction false} LastValueSkips(before: seq<Item>, item: Item, after: seq<Item>, cat: string)
    requires item.category != Text(cat)
    ensures LastValue(before + [item] + after, cat) == LastValue(before + after, cat)
    decreases |after|
  {
    if after == [] {
      assert (before + [item] + after)[..|before| + 1 - 1] == before;
      assert before + after == before;
    } else {
      var last := after[|after| - 1];
      var rest := after[..|after| - 1];
      assert (before + [item] + after)[..|before + [item] + after| - 1] == before + [item] + rest;
      assert (before + after)[..|before + after| - 1] == before + rest;
      LastValueSkips(before, item, rest, cat);
    }
  }

  /**
   * The item loop of `forecast`: walk the items keeping the last T1H value in `temp` and the
   * last PTY value in `sky`; `readable` is false when a `KeyError` ends the walk.
   */
  method ScanItems(items: seq<Item>) returns (readable: bool, temp: Option<string>, sky: Option<string>)
    ensures readable <==> Readable(items)
    ensures readable ==> temp == LastValue(items, Temperature) && sky == LastValue(items, Precipitation)
  {
    temp, sky := None, None;
    var i := 0;
    while i < |items|
      invariant 0 <= i <= |items|
      invariant Readable(items[..i])
      invariant temp == LastValue(items[..i], Temperature)
      invariant sky == LastValue(items[..i], Precipitation)
    {
      var item := items[i];
      if item.category.Missing? {
        return false, temp, sky;
      }
      if item.category == Text(Temperature) {
        if item.obsrValue.Missing? {
          return false, temp, sky;
        }
        temp := ValueOf(item.obsrValue);
      }
      if item.category == Text(Precipitation) {
        if item.obsrValue.Missing? {
          return false, temp, sky;
        }
        sky := ValueOf(item.obsrValue);
      }
      assert items[..i + 1][..i] == items[..i];
      i := i + 1;
    }
    assert items[..i] == items;
    return true, temp, sky;
  }

  /** What `forecast` returns for a response with this status and parsed document. */
  function ForecastOutcome(status: int, doc: Document): (obs: Observation)
    ensures obs.sky.None? ==> obs == Absent
    ensures obs.sky.Some? ==> obs.sky.value in Labels && status == HttpOk
  {
    if status != HttpOk || doc.response.None? || doc.response.value.body.None? then Absent
    else match doc.response.value.body.value.items
      case None => Absent
      case Some(items) =>
        if !Readable(items) then Absent
        else match Lookup(LastValue(items, Precipitation))
          case None => Absent
          case Some(name) => Observation(LastValue(items, Temperature), Some(name))
  }

  /** `forecast` after the request has returned `status` and the body has been parsed into `doc`. */
  method Forecast(status: int, doc: Document) returns (obs: Observation)
    ensures obs == ForecastOutcome(status, doc)
  {
    if status != HttpOk {
      return Absent;
    }
    if doc.response.None? || doc.response.value.body.None? {
      return Absent;
    }
    var items := doc.response.value.body.value.items;
    if items.None? {
      return Absent;
    }
    var readable, temp, sky := ScanItems(items.value);
    if !readable {
      return Absent;
    }
    sky := Lookup(sky);
    if sky.None? {
      return Absent;
    }
    return Observation(temp, sky);
  }

  function DocumentOf(items: seq<Item>): Document {
    Document(Some(Response(Some(Body(Some(items))))))
  }

  /** A non-200 status or a document without `response`/`body` fails whatever items follow. */
  lemma FailsBeforeItems(status: int, doc: Document)
    requires status != HttpOk || doc.response.None? || doc.response.value.body.None?
    ensures ForecastOutcome(status, doc) == Absent
  {
  }

  /**
   * A successful result carries the label of the last PTY code, which must be
   * in the table, and the last T1H value, or `None` when no T1H item appeared.
   */
  lemma {:induction false} SuccessIsLastValues(items: seq<Item>, p: int, t: int)
    requires Readable(items) && IsLastOf(items, Precipitation, p)
    requires items[p].obsrValue.Text? && items[p].obsrValue.text in Codes
    requires t == -1 || IsLastOf(items, Temperature, t)
    requires t == -1 ==> forall j :: 0 <= j < |items| ==> items[j].category != Text(Temperature)
    ensures ForecastOutcome(HttpOk, DocumentOf(items)) ==
      Observation(if t == -1 then None else ValueOf(items[t].obsrValue), Some(IntToWeather[items[p].obsrValue.text]))
  {
    LastValueAt(items, Precipitation, p);
    if t == -1 {
      LastValueAbsent(items, Temperature);
    } else {
      LastValueAt(items, Temperature, t);
    }
  }

  /** A body without the `items`/`item` keys raises `KeyError` and gives the absent pair. */
  lemma FailsWithoutItemList(status: int)
    ensures ForecastOutcome(status, Document(Some(Response(Some(Body(None)))))) == Absent
  {
  }

  /** A missing key anywhere in the item list raises `KeyError` and gives the absent pair. */
  lemma FailsOnUnreadableItem(status: int, items: seq<Item>)
    requires !Readable(items)
    ensures ForecastOutcome(status, DocumentOf(items)) == Absent
  {
  }

  /**
   * When the last PTY value is empty or is text outside the code table, the
   * lookup raises `KeyError` and the result is the absent pair: no default label.
   */
  lemma {:induction false} FailsOnUnknownCode(status: int, items: seq<Item>, p: int)
    requires IsLastOf(items, Precipitation, p)
    requires !(items[p].obsrValue.Text? && items[p].obsrValue.text in Codes)
    ensures ForecastOutcome(status, DocumentOf(items)) == Absent
  {
    LastValueAt(items, Precipitation, p);
  }

  /** Without any PTY item there is no code to translate, so the result is the absent pair. */
  lemma {:induction false} NoPrecipitationItemFails(items: seq<Item>)
    requires forall j :: 0 <= j < |items| ==> items[j].category != Text(Precipitation)
    ensures ForecastOutcome(HttpOk, DocumentOf(items)) == Absent
  {
    LastValueAbsent(items, Precipitation);
  }

  /** An item of a category other than T1H and PTY can be dropped without changing the result. */
  lemma {:induction false} IgnoresOtherCategories(status: int, before: seq<Item>, item: Item, after: seq<Item>)
    requires !item.category.Missing? && item.category != Text(Temperature) && item.category != Text(Precipitation)
    ensures ForecastOutcome(status, DocumentOf(before + [item] + after)) ==
            ForecastOutcome(status, DocumentOf(before + after))
  {
    var with, without := before + [item] + after, before + after;
    LastValueSkips(before, item, after, Temperature);
    LastValueSkips(before, item, after, Precipitation);
    assert Readable(with) <==> Readable(without) by {
      if Readable(without) {
        forall i | 0 <= i < |with| ensures ItemReadable(with[i]) {
          if i < |before| { assert with[i] == without[i]; }
          else if i > |before| { assert with[i] == without[i - 1]; }
        }
      }
      if Readable(with) {
        forall i | 0 <= i < |without| ensures ItemReadable(without[i]) {
          if i < |before| { assert with[i] == without[i]; }
          else { assert with[i + 1] == without[i]; }
        }
      }
    }
  }

  /**
   * A typical response: temperature 15 and PTY code 1 give `("15", "비")`; code 4
   * gives the absent pair. An empty `<obsrValue/>` on the T1H item leaves the
   * temperature `None` without failing, and an item with an empty `<category/>`
   * is skipped.
   */
  lemma Examples()
    ensures ForecastOutcome(HttpOk, DocumentOf([Item(Text("T1H"), Text("15")), Item(Text("PTY"), Text("1"))]))
            == Observation(Some("15"), Some(Rain))
    ensures ForecastOutcome(HttpOk, DocumentOf([Item(Text("T1H"), Text("15")), Item(Text("PTY"), Text("4"))]))
            == Absent
    ensures ForecastOutcome(404, DocumentOf([Item(Text("T1H"), Text("15")), Item(Text("PTY"), Text("1"))]))
            == Absent
    ensures ForecastOutcome(HttpOk, DocumentOf([Item(Text("T1H"), Null), Item(Text("PTY"), Text("1"))]))
            == Observation(None, Some(Rain))
    ensures ForecastOutcome(HttpOk, DocumentOf([Item(Null, Missing), Item(Text("PTY"), Text("0"))]))
            == Observation(None, Some(Clear))
    ensures ForecastOutcome(HttpOk, DocumentOf([Item(Missing, Text("1")), Item(Text("PTY"), Text("0"))]))
            == Absent
  {
    var skipped := [Item(Null, Missing), Item(Text("PTY"), Text("0"))];
    assert skipped[..1] == [skipped[0]];
    assert Readable(skipped);
    assert LastValue(skipped, Precipitation) == Some("0");
    assert LastValue(skipped, Temperature) == None;
  }
}

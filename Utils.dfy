/** The page-side helpers: the calendar label that keeps the leading zero
    of the day, and the search for the customer id among the nodes of the
    page's login state.  The module's two time converters are the same
    functions as those of `DateUtils`. */
module Utils {
  import opened Wrappers
  import opened Strings
  import opened Calendar
  import opened DateUtils

  // ---------------------------------------------------------------------
  // Calendar label with a two-digit day
  // ---------------------------------------------------------------------

  /** `format_date_for_calendar` of this module: `strftime("%b %d, %Y")`. */
  function FormatDateForCalendarPadded(s: string): (r: Result<string, DateError>)
    ensures r.Ok? <==> ParseIsoDate(s).Ok?
    ensures r.Err? ==> r.error == ValueError
    ensures r.Ok? ==> |r.value| == 12 && r.value[3] == ' ' && r.value[6..8] == ", "
  {
    match ParseIsoDate(s)
    case Err(e) => Err(e)
    case Ok(d) => Ok(MonthAbbrev(d.month) + " " + FixedDigits(d.day, 2) + ", " + FixedDigits(d.year, 4))
  }

  /** The two day renderings: from the 10th on they agree; before it the
      padded one is the other with a `0` in front. */
  lemma DayPadding(day: int)
    requires 1 <= day <= 31
    ensures day >= 10 ==> FixedDigits(day, 2) == NatToString(day)
    ensures day < 10 ==> FixedDigits(day, 2) == "0" + NatToString(day)
  {
    NatToStringSmall(day);
    if day < 10 {
      TwoDigits(day);
      assert FixedDigits(day, 1) == FixedDigits(day / 10, 0) + [DigitChar(day % 10)];
    }
  }

  /** The two labels of one date, built from the same month and year. */
  lemma LabelPieces(mon: string, day: int, year: string)
    requires |mon| == 3 && 1 <= day <= 31
    ensures var p, u := mon + " " + FixedDigits(day, 2) + ", " + year, mon + " " + NatToString(day) + ", " + year;
      && (day >= 10 ==> p == u)
      && (day < 10 ==> |p| == |u| + 1 && p == u[..4] + "0" + u[4..])
  {
    DayPadding(day);
    var u := mon + " " + NatToString(day) + ", " + year;
    assert u[..4] == mon + " ";
    assert u[4..] == NatToString(day) + ", " + year;
  }

  /** Both labels accept and refuse the same strings; they differ only in the
      day: from the 10th on they agree, before it the padded label has a `0`
      inserted after the month and its blank. */
  lemma LabelsDifferInPadding(s: string)
    ensures FormatDateForCalendarPadded(s).Ok? <==> FormatDateForCalendar(s).Ok?
    ensures FormatDateForCalendarPadded(s).Err? ==> FormatDateForCalendarPadded(s) == FormatDateForCalendar(s)
    ensures FormatDateForCalendarPadded(s).Ok? ==>
      var p, u := FormatDateForCalendarPadded(s).value, FormatDateForCalendar(s).value;
      var d := ParseIsoDate(s).value;
      && (d.day >= 10 ==> p == u)
      && (d.day < 10 ==> |p| == |u| + 1 && p == u[..4] + "0" + u[4..])
  {
    var r := ParseIsoDate(s);
    if r.Ok? {
      var d := r.value;
      LabelPieces(MonthAbbrev(d.month), d.day, FixedDigits(d.year, 4));
    }
  }

  /** The padded label of a `YYYY-MM-DD` rendering: month, two-digit day,
      four-digit year, always 12 characters. */
  lemma PaddedLabelOfIso(d: Date)
    requires InRange(d)
    ensures FormatDateForCalendarPadded(FormatIso(d))
         == Ok(MonthAbbrev(d.month) + " " + FixedDigits(d.day, 2) + ", " + FixedDigits(d.year, 4))
    ensures |FormatDateForCalendarPadded(FormatIso(d)).value| == 12
  {
    IsoRoundTrip(d);
  }

  lemma PaddedLabelText()
    ensures MonthAbbrev(1) + " " + FixedDigits(3, 2) + ", " + FixedDigits(2024, 4) == "Jan 03, 2024"
  {
    TwoDigits(3);
    assert FixedDigits(2024, 4) == "2024";
  }

  /** 2024-01-03 is labelled "Jan 03, 2024" here and "Jan 3, 2024" by the
      other copy. */
  lemma PaddedLabelExample()
    ensures FormatDateForCalendarPadded("2024-01-03") == Ok("Jan 03, 2024")
    ensures FormatDateForCalendar("2024-01-03") == Ok("Jan 3, 2024")
  {
    PaddedLabelOfIso(Date(2024, 1, 3));
    IsoExample(Date(2024, 1, 3));
    PaddedLabelText();
    CalendarLabelExample();
  }

  // ---------------------------------------------------------------------
  // Customer id
  // ---------------------------------------------------------------------

  /** The decoded JSON values of the page state. */
  datatype Json =
    | JNull
    | JBool(b: bool)
    | JNum(n: int)
    | JStr(s: string)
    | JArr(items: seq<Json>)
    | JObj(fields: map<string, Json>)

  /** The exceptions of the search: `NotFound` is the `ValueError` raised
      when no node matches; the others are what subscripting raises. */
  datatype LookupError = NotFound | IndexError | KeyError | TypeError

  /** A node of the state: a JSON object. */
  type Node = map<string, Json>

  /** `v[i]` for an integer index: lists and strings are indexed (a string
      gives a one-character string), objects have no integer keys, and the
      other values cannot be subscripted. */
  function Item(v: Json, i: nat): (r: Result<Json, LookupError>)
    ensures r.Err? ==> r.error != NotFound
  {
    match v
    case JArr(items) => if i < |items| then Ok(items[i]) else Err(IndexError)
    case JStr(s) => if i < |s| then Ok(JStr([s[i]])) else Err(IndexError)
    case JObj(_) => Err(KeyError)
    case _ => Err(TypeError)
  }

  /** What the loop body does with one node: go on, return, or fail. */
  datatype Probe = Skip | Hit(value: Result<Json, LookupError>)

  /** `if "entry" in node and node["entry"][0] == "customerid": return
      node["entry"][1]`; the `and` only evaluates the index when the key is
      there, and an index that raises ends the search. */
  function ProbeNode(node: Node): (p: Probe)
    ensures p.Hit? ==> "entry" in node
    ensures p.Hit? && p.value.Ok? ==> IsCustomerNode(node) && p.value == Item(node["entry"], 1)
    ensures p.Hit? && p.value.Err? ==> p.value.error != NotFound
  {
    if "entry" !in node then Skip
    else
      match Item(node["entry"], 0)
      case Err(e) => Hit(Err(e))
      case Ok(k) => if k == JStr("customerid") then Hit(Item(node["entry"], 1)) else Skip
  }

  /** The reference definition: the outcome of the first node that does not
      skip, or the `ValueError` when every node skips. */
  function CustomerIdOf(nodes: seq<Node>): (r: Result<Json, LookupError>)
    ensures r != Err(NotFound) ==> exists i :: 0 <= i < |nodes| && ProbeNode(nodes[i]) == Hit(r)
  {
    if nodes == [] then Err(NotFound)
    else if ProbeNode(nodes[0]).Hit? then ProbeNode(nodes[0]).value
    else CustomerIdOf(nodes[1..])
  }

  /** The loop of `get_customer_id` over the nodes, the navigation to them
      taken as given. */
  method GetCustomerId(nodes: seq<Node>) returns (r: Result<Json, LookupError>)
    ensures r == CustomerIdOf(nodes)
  {
    for i := 0 to |nodes|
      invariant CustomerIdOf(nodes) == CustomerIdOf(nodes[i..])
    {
      var node := nodes[i];
      if "entry" in node {
        var key := Item(node["entry"], 0);
        if key.Err? {
          return Err(key.error);
        }
        if key.value == JStr("customerid") {
          return Item(node["entry"], 1);
        }
      }
      assert nodes[i..][1..] == nodes[i + 1..];
    }
    return Err(NotFound);
  }

  /** A node that matches: it has an entry whose first element is the
      string "customerid". */
  predicate IsCustomerNode(node: Node) {
    "entry" in node && Item(node["entry"], 0) == Ok(JStr("customerid"))
  }

  /** Skipped nodes are those without an entry and those whose entry has
      another first element; a node whose entry cannot be indexed ends the
      search with that error. */
  lemma ProbeCases(node: Node)
    ensures ProbeNode(node).Skip? <==>
      "entry" !in node || (Item(node["entry"], 0).Ok? && !IsCustomerNode(node))
    ensures IsCustomerNode(node) ==> ProbeNode(node) == Hit(Item(node["entry"], 1))
  {
  }

  /** The search returns the outcome of the first node that is not skipped:
      every node before it is skipped, whatever the nodes after it are. */
  lemma {:induction false} FirstHitWins(nodes: seq<Node>, i: int)
    requires 0 <= i < |nodes| && ProbeNode(nodes[i]).Hit?
    requires forall j :: 0 <= j < i ==> ProbeNode(nodes[j]).Skip?
    ensures CustomerIdOf(nodes) == ProbeNode(nodes[i]).value
    decreases i
  {
    if i > 0 {
      assert ProbeNode(nodes[0]).Skip?;
      FirstHitWins(nodes[1..], i - 1);
    }
  }

  /** In particular an earlier customer node wins over a later one, and its
      `entry[1]` is returned. */
  lemma FirstCustomerNodeWins(nodes: seq<Node>, i: int)
    requires 0 <= i < |nodes| && IsCustomerNode(nodes[i])
    requires forall j :: 0 <= j < i ==> ProbeNode(nodes[j]).Skip?
    ensures CustomerIdOf(nodes) == Item(nodes[i]["entry"], 1)
  {
    ProbeCases(nodes[i]);
    FirstHitWins(nodes, i);
  }

  /** The `ValueError` is raised exactly when every node is skipped; no
      value is then returned. */
  lemma {:induction false} NotFoundIffAllSkipped(nodes: seq<Node>)
    ensures CustomerIdOf(nodes) == Err(NotFound) <==>
      forall j :: 0 <= j < |nodes| ==> ProbeNode(nodes[j]).Skip?
  {
    if nodes != [] {
      NotFoundIffAllSkipped(nodes[1..]);
      if ProbeNode(nodes[0]).Hit? {
        var v := ProbeNode(nodes[0]).value;
        assert v.Err? ==> v.error != NotFound;
      } else {
        assert forall j :: 1 <= j < |nodes| ==> nodes[j] == nodes[1..][j - 1];
      }
    }
  }

  /** A successful search returns the `entry[1]` of some customer node. */
  lemma {:induction false} FoundComesFromCustomerNode(nodes: seq<Node>)
    requires CustomerIdOf(nodes).Ok?
    ensures exists i :: 0 <= i < |nodes| && IsCustomerNode(nodes[i])
                        && Item(nodes[i]["entry"], 1) == CustomerIdOf(nodes)
  {
    if ProbeNode(nodes[0]).Hit? {
      assert IsCustomerNode(nodes[0]);
    } else {
      FoundComesFromCustomerNode(nodes[1..]);
      var i :| 0 <= i < |nodes[1..]| && IsCustomerNode(nodes[1..][i])
               && Item(nodes[1..][i]["entry"], 1) == CustomerIdOf(nodes[1..]);
      assert nodes[i + 1] == nodes[1..][i];
    }
  }

  lemma CustomerIdExample()
    ensures var other := map["entry" := JArr([JStr("email"), JStr("a@b.c")])];
      var first := map["entry" := JArr([JStr("customerid"), JNum(42)])];
      var second := map["entry" := JArr([JStr("customerid"), JNum(7)])];
      var bare: Node := map["id" := JNum(1)];
      && CustomerIdOf([bare, other, first, second]) == Ok(JNum(42))
      && CustomerIdOf([bare, other]) == Err(NotFound)
      && CustomerIdOf([map["entry" := JArr([JStr("customerid")])]]) == Err(IndexError)
  {
    var other := map["entry" := JArr([JStr("email"), JStr("a@b.c")])];
    var first := map["entry" := JArr([JStr("customerid"), JNum(42)])];
    var second := map["entry" := JArr([JStr("customerid"), JNum(7)])];
    var bare: Node := map["id" := JNum(1)];
    assert ProbeNode(bare) == Skip;
    assert Item(other["entry"], 0) == Ok(JStr("email"));
    assert JStr("email") != JStr("customerid") by {
      assert "email"[0] != "customerid"[0];
    }
    assert ProbeNode(other) == Skip;
    assert ProbeNode(first) == Hit(Ok(JNum(42)));
    FirstHitWins([bare, other, first, second], 2);
    NotFoundIffAllSkipped([bare, other]);
  }
}

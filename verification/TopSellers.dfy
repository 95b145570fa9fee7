/** The best-selling items of the analytics screen: sale lines are added up by item name,
    sorted, and the first eight kept. */
module TopSellers {
  import opened Wrappers
  import opened StableOrder

  datatype Item = Item(description: Option<string>, qty: Option<real>, lineTotal: Option<real>)

  datatype Sale = Sale(items: Option<seq<Item>>)

  datatype Row = Row(name: string, qty: real, revenue: real)

  datatype SortMode = ByRevenue | ByQuantity | ByName

  function NameOf(item: Item): string {
    match item.description case Some(d) => d case None => "Unknown item"
  }

  // ---- What the groups are to be ----

  function ItemsOf(sale: Sale): seq<Item> {
    match sale.items case Some(items) => items case None => []
  }

  /** All lines, sale after sale. */
  function Lines(sales: seq<Sale>): seq<Item> {
    if sales == [] then [] else Lines(sales[..|sales| - 1]) + ItemsOf(sales[|sales| - 1])
  }

  /** The different names in the order in which they first occur. */
  function Names(lines: seq<Item>): (names: seq<string>)
    ensures forall i, j :: 0 <= i < j < |names| ==> names[i] != names[j]
  {
    if lines == [] then []
    else
      var names := Names(lines[..|lines| - 1]);
      var name := NameOf(lines[|lines| - 1]);
      if name in names then names else names + [name]
  }

  function QtyOf(lines: seq<Item>, name: string): real {
    if lines == [] then 0.0
    else
      var x := lines[|lines| - 1];
      QtyOf(lines[..|lines| - 1], name) + (if NameOf(x) == name then OrZero(x.qty) else 0.0)
  }

  function RevenueOf(lines: seq<Item>, name: string): real {
    if lines == [] then 0.0
    else
      var x := lines[|lines| - 1];
      RevenueOf(lines[..|lines| - 1], name) + (if NameOf(x) == name then OrZero(x.lineTotal) else 0.0)
  }

  function RowOf(lines: seq<Item>, name: string): Row {
    Row(name, QtyOf(lines, name), RevenueOf(lines, name))
  }

  function Grouped(lines: seq<Item>): (rows: seq<Row>)
    ensures |rows| == |Names(lines)|
  {
    var names := Names(lines);
    seq(|names|, i requires 0 <= i < |names| => RowOf(lines, names[i]))
  }

  // ---- The order ----

  /** `collate` says of two names whether localeCompare puts the first no later. */
  function AtMost(mode: SortMode, collate: (string, string) -> bool): (Row, Row) -> bool {
    (a: Row, b: Row) =>
      match mode
      case ByQuantity => a.qty >= b.qty
      case ByName => collate(a.name, b.name)
      case ByRevenue => a.revenue >= b.revenue
  }

  lemma AtMostIsPreorder(mode: SortMode, collate: (string, string) -> bool)
    requires mode.ByName? ==> TotalPreorder(collate)
    ensures TotalPreorder(AtMost(mode, collate))
  {
    var le := AtMost(mode, collate);
    forall a, b ensures le(a, b) || le(b, a) {
      if mode.ByName? {
        assert collate(a.name, b.name) || collate(b.name, a.name);
      }
    }
    forall a, b, c | le(a, b) && le(b, c) ensures le(a, c) {
      if mode.ByName? {
        assert collate(a.name, b.name) && collate(b.name, c.name) ==> collate(a.name, c.name);
      }
    }
  }

  function TopRows(lines: seq<Item>, mode: SortMode, collate: (string, string) -> bool): seq<Row> {
    var sorted := Sorted(Grouped(lines), AtMost(mode, collate));
    if |sorted| <= 8 then sorted else sorted[..8]
  }

  // ---- The program ----

  /** Adds one line to the map. The map of the program keeps its keys in the order of their
      insertion; `keys` is that order. */
  method AddLine(keys: seq<string>, itemMap: map<string, Row>, item: Item, ghost lines: seq<Item>)
    returns (keys': seq<string>, itemMap': map<string, Row>)
    requires Holds(keys, itemMap, lines)
    ensures Holds(keys', itemMap', lines + [item])
  {
    var name := NameOf(item);
    var current := if name in itemMap then itemMap[name] else Row(name, 0.0, 0.0);
    current := current.(qty := current.qty + OrZero(item.qty));
    current := current.(revenue := current.revenue + OrZero(item.lineTotal));
    keys' := if name in itemMap then keys else keys + [name];
    itemMap' := itemMap[name := current];
    HoldsAfter(keys, itemMap, lines, item);
  }

  /** The inner loop: adds the lines of one sale. */
  method AddSale(keys: seq<string>, itemMap: map<string, Row>, items: seq<Item>, ghost earlier: seq<Item>)
    returns (keys': seq<string>, itemMap': map<string, Row>)
    requires Holds(keys, itemMap, earlier)
    ensures Holds(keys', itemMap', earlier + items)
  {
    keys', itemMap' := keys, itemMap;
    assert earlier + items[..0] == earlier;
    for j := 0 to |items|
      invariant Holds(keys', itemMap', earlier + items[..j])
    {
      keys', itemMap' := AddLine(keys', itemMap', items[j], earlier + items[..j]);
      assert (earlier + items[..j]) + [items[j]] == earlier + items[..j + 1];
    }
    assert items[..|items|] == items;
  }

  /** The result depends on the sales only through the lines they hold together. */
  method TopSellers(sales: seq<Sale>, mode: SortMode, collate: (string, string) -> bool) returns (top: seq<Row>)
    ensures top == TopRows(Lines(sales), mode, collate)
    ensures mode.ByRevenue? ==> exists p :: RevenueFirst(Lines(sales), top, p)
    ensures mode.ByQuantity? ==> exists p :: QuantityFirst(Lines(sales), top, p)
    ensures mode.ByName? && TotalPreorder(collate) ==> exists p :: NameFirst(Lines(sales), top, p, collate)
  {
    var keys: seq<string> := [];
    var itemMap: map<string, Row> := map[];
    for i := 0 to |sales|
      invariant Holds(keys, itemMap, Lines(sales[..i]))
    {
      keys, itemMap := AddSale(keys, itemMap, ItemsOf(sales[i]), Lines(sales[..i]));
      assert sales[..i + 1][..i] == sales[..i];
    }
    assert sales[..|sales|] == sales;
    var sorted := Sorted(Values(keys, itemMap), AtMost(mode, collate));
    ValuesAreGroups(keys, itemMap, Lines(sales));
    top := if |sorted| <= 8 then sorted else sorted[..8];
    match mode {
      case ByRevenue => var _ := TopByRevenue(Lines(sales), collate);
      case ByQuantity => var _ := TopByQuantity(Lines(sales), collate);
      case ByName =>
        if TotalPreorder(collate) {
          var _ := TopByName(Lines(sales), collate);
        }
    }
  }

  // ---- The order, mode by mode ----

  /** The result is made of different groups, eight of them if there are so many; p says which,
      counted in the order in which their names first occur. */
  ghost predicate Picked(lines: seq<Item>, top: seq<Row>, p: seq<nat>) {
    && |p| == |top| == (if |Names(lines)| <= 8 then |Names(lines)| else 8)
    && (forall k, l :: 0 <= k < l < |p| ==> p[k] != p[l])
    && (forall k :: 0 <= k < |p| ==>
          p[k] < |Names(lines)| && top[k] == Grouped(lines)[p[k]] && top[k].name == Names(lines)[p[k]])
  }

  /** Larger revenue first; among equal ones the name that occurred first. */
  ghost predicate RevenueFirst(lines: seq<Item>, top: seq<Row>, p: seq<nat>) {
    && Picked(lines, top, p)
    && (forall k, l :: 0 <= k < l < |top| ==>
          top[k].revenue > top[l].revenue || (top[k].revenue == top[l].revenue && p[k] < p[l]))
    && (forall k, i :: 0 <= k < |top| && 0 <= i < |Names(lines)| && i !in p ==>
          var dropped := Grouped(lines)[i];
          top[k].revenue > dropped.revenue || (top[k].revenue == dropped.revenue && p[k] < i))
  }

  ghost predicate QuantityFirst(lines: seq<Item>, top: seq<Row>, p: seq<nat>) {
    && Picked(lines, top, p)
    && (forall k, l :: 0 <= k < l < |top| ==>
          top[k].qty > top[l].qty || (top[k].qty == top[l].qty && p[k] < p[l]))
    && (forall k, i :: 0 <= k < |top| && 0 <= i < |Names(lines)| && i !in p ==>
          var dropped := Grouped(lines)[i];
          top[k].qty > dropped.qty || (top[k].qty == dropped.qty && p[k] < i))
  }

  ghost predicate NameFirst(lines: seq<Item>, top: seq<Row>, p: seq<nat>, collate: (string, string) -> bool) {
    && Picked(lines, top, p)
    && (forall k, l :: 0 <= k < l < |top| ==>
          collate(top[k].name, top[l].name) && (collate(top[l].name, top[k].name) ==> p[k] < p[l]))
    && (forall k, i :: 0 <= k < |top| && 0 <= i < |Names(lines)| && i !in p ==>
          var dropped := Names(lines)[i];
          collate(top[k].name, dropped) && (collate(dropped, top[k].name) ==> p[k] < i))
  }

  /** The beginning of the stable order: which groups are kept, each before the later and the
      dropped ones. */
  lemma TopPicks(lines: seq<Item>, mode: SortMode, collate: (string, string) -> bool) returns (p: seq<nat>)
    requires mode.ByName? ==> TotalPreorder(collate)
    ensures Picked(lines, TopRows(lines, mode, collate), p)
    ensures forall k, l :: 0 <= k < l < |p| ==> Before(Grouped(lines), AtMost(mode, collate), p[k], p[l])
    ensures forall k, i :: 0 <= k < |p| && 0 <= i < |Names(lines)| && i !in p ==>
              Before(Grouped(lines), AtMost(mode, collate), p[k], i)
  {
    var rows, le := Grouped(lines), AtMost(mode, collate);
    AtMostIsPreorder(mode, collate);
    var m := if |rows| <= 8 then |rows| else 8;
    p := FirstOfOrder(rows, le, m);
    assert forall k :: 0 <= k < m ==> Sorted(rows, le)[k] == rows[p[k]];
  }

  lemma TopByRevenue(lines: seq<Item>, collate: (string, string) -> bool) returns (p: seq<nat>)
    ensures RevenueFirst(lines, TopRows(lines, ByRevenue, collate), p)
  {
    p := TopPicks(lines, ByRevenue, collate);
  }

  lemma TopByQuantity(lines: seq<Item>, collate: (string, string) -> bool) returns (p: seq<nat>)
    ensures QuantityFirst(lines, TopRows(lines, ByQuantity, collate), p)
  {
    p := TopPicks(lines, ByQuantity, collate);
  }

  lemma TopByName(lines: seq<Item>, collate: (string, string) -> bool) returns (p: seq<nat>)
    requires TotalPreorder(collate)
    ensures NameFirst(lines, TopRows(lines, ByName, collate), p, collate)
  {
    p := TopPicks(lines, ByName, collate);
  }

  /** The values of the map in the order of their keys. */
  function Values(keys: seq<string>, itemMap: map<string, Row>): seq<Row>
    requires forall name :: name in keys ==> name in itemMap
  {
    seq(|keys|, k requires 0 <= k < |keys| => itemMap[keys[k]])
  }

  lemma ValuesAreGroups(keys: seq<string>, itemMap: map<string, Row>, lines: seq<Item>)
    requires Holds(keys, itemMap, lines)
    ensures Values(keys, itemMap) == Grouped(lines)
  {
  }

  /** The map holds exactly the groups of the lines seen so far. */
  ghost predicate Holds(keys: seq<string>, itemMap: map<string, Row>, lines: seq<Item>) {
    && keys == Names(lines)
    && (forall name :: name in itemMap <==> name in keys)
    && (forall name :: name in itemMap ==> itemMap[name] == RowOf(lines, name))
  }

  lemma RowAfter(lines: seq<Item>, x: Item, name: string)
    ensures RowOf(lines + [x], name) ==
            if NameOf(x) == name then
              Row(name, QtyOf(lines, name) + OrZero(x.qty), RevenueOf(lines, name) + OrZero(x.lineTotal))
            else RowOf(lines, name)
  {
  }

  lemma NamesAfter(lines: seq<Item>, x: Item)
    ensures Names(lines + [x]) == if NameOf(x) in Names(lines) then Names(lines) else Names(lines) + [NameOf(x)]
  {
  }

  lemma {:induction false} AbsentIsZero(lines: seq<Item>, name: string)
    requires name !in Names(lines)
    ensures RowOf(lines, name) == Row(name, 0.0, 0.0)
    decreases |lines|
  {
    if lines != [] {
      var n := |lines| - 1;
      assert lines == lines[..n] + [lines[n]];
      AbsentBefore(lines[..n], lines[n], name);
      AbsentIsZero(lines[..n], name);
    }
  }

  lemma AbsentBefore(rest: seq<Item>, x: Item, name: string)
    ensures name !in Names(rest + [x]) ==> name !in Names(rest) && NameOf(x) != name
  {
  }

  lemma HoldsAfter(keys: seq<string>, itemMap: map<string, Row>, lines: seq<Item>, x: Item)
    requires Holds(keys, itemMap, lines)
    ensures
      var name := NameOf(x);
      var old' := if name in itemMap then itemMap[name] else Row(name, 0.0, 0.0);
      Holds(if name in itemMap then keys else keys + [name],
            itemMap[name := Row(name, old'.qty + OrZero(x.qty), old'.revenue + OrZero(x.lineTotal))],
            lines + [x])
  {
    var name := NameOf(x);
    NamesAfter(lines, x);
    if name !in itemMap {
      AbsentIsZero(lines, name);
    }
    forall other ensures RowOf(lines + [x], other) == RowOf(lines, other) || other == name {
      RowAfter(lines, x, other);
    }
    RowAfter(lines, x, name);
  }

  // ---- What the result means ----

  /** The result is the beginning of the only stable order of the groups: every kept row stands
      before every dropped one, and among equals the one whose name occurred first. */
  lemma TopIsStable(lines: seq<Item>, mode: SortMode, collate: (string, string) -> bool)
    requires mode.ByName? ==> TotalPreorder(collate)
    ensures
      var rows, le := Grouped(lines), AtMost(mode, collate);
      var p, top := Order(rows, le, |rows|), TopRows(lines, mode, collate);
      && (forall q :: IsStableOrder(rows, le, q, |rows|) <==> q == p)
      && |top| == (if |rows| <= 8 then |rows| else 8)
      && (forall k :: 0 <= k < |top| ==> top[k] == rows[p[k]])
      && (forall k, l :: 0 <= k < |top| <= l < |rows| ==> Before(rows, le, p[k], p[l]))
      && (forall k, l :: 0 <= k < l < |top| ==> le(top[k], top[l]))
  {
    AtMostIsPreorder(mode, collate);
    SortedIsStable(Grouped(lines), AtMost(mode, collate));
  }

  /** A line counts under its own description, or under one common name when it has none. */
  predicate CountsUnder(item: Item, name: string) {
    item.description == Some(name) || (item.description.None? && name == "Unknown item")
  }

  lemma NameOfIff(item: Item, name: string)
    ensures NameOf(item) == name <==> CountsUnder(item, name)
  {
  }

  function LinesOf(lines: seq<Item>, name: string): seq<Item> {
    if lines == [] then []
    else
      var n := |lines| - 1;
      LinesOf(lines[..n], name) + (if CountsUnder(lines[n], name) then [lines[n]] else [])
  }

  /** A group has the quantity and the revenue of the lines that count under its name. */
  lemma {:induction false} GroupIsSum(lines: seq<Item>, name: string)
    ensures QtyOf(lines, name) == LineQty(LinesOf(lines, name))
    ensures RevenueOf(lines, name) == LineRevenue(LinesOf(lines, name))
    decreases |lines|
  {
    if lines != [] {
      var n := |lines| - 1;
      var own := LinesOf(lines[..n], name);
      GroupIsSum(lines[..n], name);
      NameOfIff(lines[n], name);
      LinesSnoc(own, lines[n]);
      assert own + [] == own;
    }
  }

  lemma LinesSnoc(lines: seq<Item>, x: Item)
    ensures LineQty(lines + [x]) == LineQty(lines) + OrZero(x.qty)
    ensures LineRevenue(lines + [x]) == LineRevenue(lines) + OrZero(x.lineTotal)
  {
    assert (lines + [x])[..|lines|] == lines;
  }

  /** The lines are those of the first sale, of the second and so on; a sale without items adds none. */
  lemma SaleAddsItems(sales: seq<Sale>, sale: Sale)
    ensures Lines([]) == []
    ensures sale.items.None? ==> Lines(sales + [sale]) == Lines(sales)
    ensures sale.items.Some? ==> Lines(sales + [sale]) == Lines(sales) + sale.items.value
  {
    assert (sales + [sale])[..|sales|] == sales;
  }

  /** Every name that lines count under has one group, and no other name has. */
  lemma NamesAreAll(lines: seq<Item>, name: string)
    ensures name in Names(lines) <==> exists i :: 0 <= i < |lines| && CountsUnder(lines[i], name)
  {
    NamesOccur(lines, name);
    forall i | 0 <= i < |lines| ensures NameOf(lines[i]) == name <==> CountsUnder(lines[i], name) {
      NameOfIff(lines[i], name);
    }
  }

  lemma {:induction false} NamesOccur(lines: seq<Item>, name: string)
    ensures name in Names(lines) <==> exists i :: 0 <= i < |lines| && NameOf(lines[i]) == name
    decreases |lines|
  {
    if lines != [] {
      var n := |lines| - 1;
      var rest, x := lines[..n], lines[n];
      assert lines == rest + [x];
      NamesOccur(rest, name);
      NamesAfter(rest, x);
      OccursAfter(rest, x, name);
    }
  }

  lemma OccursAfter(rest: seq<Item>, x: Item, name: string)
    ensures (exists i :: 0 <= i < |rest| + 1 && NameOf((rest + [x])[i]) == name) <==>
              NameOf(x) == name || exists i :: 0 <= i < |rest| && NameOf(rest[i]) == name
  {
    var lines := rest + [x];
    assert NameOf(lines[|rest|]) == NameOf(x);
    forall i | 0 <= i < |rest| ensures NameOf(lines[i]) == NameOf(rest[i]) {
    }
  }

  function SumQty(rows: seq<Row>): real {
    if rows == [] then 0.0 else SumQty(rows[..|rows| - 1]) + rows[|rows| - 1].qty
  }

  function SumRevenue(rows: seq<Row>): real {
    if rows == [] then 0.0 else SumRevenue(rows[..|rows| - 1]) + rows[|rows| - 1].revenue
  }

  function LineQty(lines: seq<Item>): real {
    if lines == [] then 0.0
    else
      match lines[|lines| - 1].qty
      case Some(q) => LineQty(lines[..|lines| - 1]) + q
      case None => LineQty(lines[..|lines| - 1])
  }

  function LineRevenue(lines: seq<Item>): real {
    if lines == [] then 0.0
    else
      match lines[|lines| - 1].lineTotal
      case Some(t) => LineRevenue(lines[..|lines| - 1]) + t
      case None => LineRevenue(lines[..|lines| - 1])
  }

  function RowsFor(lines: seq<Item>, names: seq<string>): (rows: seq<Row>)
    ensures |rows| == |names|
  {
    seq(|names|, i requires 0 <= i < |names| => RowOf(lines, names[i]))
  }

  /** One more line adds to the total of the rows exactly when its name is among them. */
  lemma {:induction false} RowsForAfter(lines: seq<Item>, x: Item, names: seq<string>)
    requires forall i, j :: 0 <= i < j < |names| ==> names[i] != names[j]
    ensures SumQty(RowsFor(lines + [x], names))
         == SumQty(RowsFor(lines, names)) + (if NameOf(x) in names then OrZero(x.qty) else 0.0)
    ensures SumRevenue(RowsFor(lines + [x], names))
         == SumRevenue(RowsFor(lines, names)) + (if NameOf(x) in names then OrZero(x.lineTotal) else 0.0)
    decreases |names|
  {
    if names != [] {
      var n := |names| - 1;
      RowsForAfter(lines, x, names[..n]);
      RowAfter(lines, x, names[n]);
      RowsForSnoc(lines + [x], names[..n], names[n]);
      RowsForSnoc(lines, names[..n], names[n]);
      assert names == names[..n] + [names[n]];
    }
  }

  lemma RowsForSnoc(lines: seq<Item>, names: seq<string>, name: string)
    ensures SumQty(RowsFor(lines, names + [name])) == SumQty(RowsFor(lines, names)) + QtyOf(lines, name)
    ensures SumRevenue(RowsFor(lines, names + [name])) == SumRevenue(RowsFor(lines, names)) + RevenueOf(lines, name)
  {
    assert RowsFor(lines, names + [name])[..|names|] == RowsFor(lines, names);
  }

  /** Before the cut nothing is lost: the groups add up to the lines. */
  lemma {:induction false} GroupsAddUp(lines: seq<Item>)
    ensures SumQty(Grouped(lines)) == LineQty(lines)
    ensures SumRevenue(Grouped(lines)) == LineRevenue(lines)
    decreases |lines|
  {
    assert Grouped(lines) == RowsFor(lines, Names(lines));
    if lines != [] {
      var n := |lines| - 1;
      var rest, x := lines[..n], lines[n];
      assert lines == rest + [x];
      GroupsAddUp(rest);
      assert Grouped(rest) == RowsFor(rest, Names(rest));
      NamesAfter(rest, x);
      RowsForAfter(rest, x, Names(rest));
      if NameOf(x) !in Names(rest) {
        RowsForSnoc(lines, Names(rest), NameOf(x));
        AbsentIsZero(rest, NameOf(x));
        RowAfter(rest, x, NameOf(x));
      }
    }
  }
}

/** The sidebar transformer of the `packages` docs instance: it hides the
    `adapters` and `clients` categories, decorates the `plugins` category with
    a puzzle-piece glyph, and sorts the items by label. */
module Sidebar {
  import opened Strings
  import opened Seqs
  import opened Records

  /** A sidebar item: its `type` tag (`kind`), its display `label` (`caption`,
      since `label` is a Dafny keyword) and everything else. */
  datatype SidebarItem = SidebarItem(kind: string, caption: string, extra: Extra)

  const CategoryKind: string := "category"

  /** The puzzle-piece glyph (U+1F9E9) and a space. */
  const PluginsPrefix: string := "\U{1F9E9} "

  predicate IsCategory(item: SidebarItem) {
    item.kind == CategoryKind
  }

  /** A category the transformer removes: `adapters` or `clients`, in any case. */
  predicate IsHidden(item: SidebarItem) {
    IsCategory(item) && (Lower(item.caption) == "adapters" || Lower(item.caption) == "clients")
  }

  /** The filter's test compares labels ignoring case. */
  lemma IsHiddenIgnoresCase(item: SidebarItem)
    ensures IsHidden(item) <==>
      IsCategory(item) && (EqualsIgnoringCase(item.caption, "adapters") || EqualsIgnoringCase(item.caption, "clients"))
  {
    LowerEqualsIgnoringCase(item.caption, "adapters");
    LowerEqualsIgnoringCase(item.caption, "clients");
  }

  predicate IsShown(item: SidebarItem) {
    !IsHidden(item)
  }

  /** The category whose label the transformer decorates: `plugins`, in any case. */
  predicate IsPluginsCategory(item: SidebarItem) {
    IsCategory(item) && Lower(item.caption) == "plugins"
  }

  /** The relabel condition compares the label ignoring case. */
  lemma IsPluginsCategoryIgnoresCase(item: SidebarItem)
    ensures IsPluginsCategory(item) <==> IsCategory(item) && EqualsIgnoringCase(item.caption, "plugins")
  {
    LowerEqualsIgnoringCase(item.caption, "plugins");
  }

  // ---------------------------------------------------------------------
  // Step 1: filter
  // ---------------------------------------------------------------------

  /** Drops the hidden categories and nothing else, keeping the order. */
  function FilterHidden(items: seq<SidebarItem>): (r: seq<SidebarItem>)
    ensures forall i :: 0 <= i < |r| ==> !IsHidden(r[i])
    ensures forall x :: x in r <==> x in items && !IsHidden(x)
    ensures forall x :: !IsCategory(x) ==> multiset(r)[x] == multiset(items)[x]
    ensures IsSubsequence(r, items)
  {
    Filter(IsShown, items)
  }

  /** No other order-preserving selection of shown items is as long: the
      filter removes the hidden categories and nothing more. */
  lemma FilterHiddenIsExact(items: seq<SidebarItem>, t: seq<SidebarItem>)
    requires IsSubsequence(t, items)
    requires forall i :: 0 <= i < |t| ==> !IsHidden(t[i])
    requires |t| >= |FilterHidden(items)|
    ensures t == FilterHidden(items)
  {
    FilterUnique(IsShown, t, items);
  }

  const ExampleAdapters: SidebarItem := SidebarItem(CategoryKind, "Adapters", map[])
  const ExamplePage: SidebarItem := SidebarItem("doc", "adapters", map[])
  const ExampleClients: SidebarItem := SidebarItem(CategoryKind, "CLIENTS", map[])

  /** Hiding is case-insensitive and spares non-category items. */
  lemma ExampleHidden()
    ensures FilterHidden([ExampleAdapters, ExamplePage, ExampleClients]) == [ExamplePage]
  {
    ExampleLabels();
    ExampleHiddenTail();
    assert IsHidden(ExampleAdapters);
    assert [ExampleAdapters, ExamplePage, ExampleClients]
        == [ExampleAdapters] + [ExamplePage, ExampleClients];
    FilterCons(IsShown, ExampleAdapters, [ExamplePage, ExampleClients]);
  }

  lemma ExampleHiddenTail()
    ensures Filter(IsShown, [ExamplePage, ExampleClients]) == [ExamplePage]
  {
    ExampleLabels();
    assert IsHidden(ExampleClients);
    FilterCons(IsShown, ExampleClients, []);
    assert IsShown(ExamplePage);
    assert [ExamplePage, ExampleClients] == [ExamplePage] + [ExampleClients];
    FilterCons(IsShown, ExamplePage, [ExampleClients]);
  }

  lemma ExampleLabels()
    ensures Lower("Adapters") == "adapters" && Lower("CLIENTS") == "clients"
  {
  }

  // ---------------------------------------------------------------------
  // Step 2: relabel
  // ---------------------------------------------------------------------

  /** Prefixes the label of the `plugins` category with the glyph. */
  function Relabel(item: SidebarItem): (r: SidebarItem)
    ensures r.kind == item.kind && r.extra == item.extra
    ensures IsPluginsCategory(item) ==> r.caption == PluginsPrefix + item.caption
    ensures !IsPluginsCategory(item) ==> r == item
  {
    if IsPluginsCategory(item) then item.(caption := PluginsPrefix + item.caption) else item
  }

  /** A relabelled item is never again the `plugins` category, nor hidden
      unless it was hidden before. */
  lemma RelabelSettles(item: SidebarItem)
    ensures !IsPluginsCategory(Relabel(item))
    ensures IsHidden(Relabel(item)) <==> IsHidden(item)
  {
    if IsPluginsCategory(item) {
      assert |Lower(Relabel(item).caption)| == |item.caption| + 2 == 9;
    }
  }

  /** Running the relabel step on its own output changes nothing. */
  lemma RelabelIdempotent(item: SidebarItem)
    ensures Relabel(Relabel(item)) == Relabel(item)
  {
    RelabelSettles(item);
  }

  /** Relabels every item, keeping the order. */
  function RelabelAll(items: seq<SidebarItem>): (r: seq<SidebarItem>)
    ensures |r| == |items|
    ensures forall i :: 0 <= i < |r| ==> r[i] == Relabel(items[i])
    ensures forall i :: 0 <= i < |r| ==> !IsPluginsCategory(r[i])
    ensures forall i :: 0 <= i < |r| ==> (IsHidden(r[i]) <==> IsHidden(items[i]))
  {
    if |items| == 0 then []
    else
      RelabelSettles(items[0]);
      [Relabel(items[0])] + RelabelAll(items[1..])
  }

  /** The relabel step neither creates nor destroys any non-category item. */
  lemma {:induction false} RelabelAllKeepsOthers(items: seq<SidebarItem>, x: SidebarItem)
    requires !IsCategory(x)
    ensures multiset(RelabelAll(items))[x] == multiset(items)[x]
  {
    if |items| > 0 {
      RelabelAllKeepsOthers(items[1..], x);
      assert items == [items[0]] + items[1..];
      assert RelabelAll(items) == [Relabel(items[0])] + RelabelAll(items[1..]);
      assert Relabel(items[0]) == x <==> items[0] == x;
    }
  }

  /** Relabelling a sequence with no `plugins` category is the identity. */
  lemma {:induction false} RelabelAllNoPlugins(items: seq<SidebarItem>)
    requires forall i :: 0 <= i < |items| ==> !IsPluginsCategory(items[i])
    ensures RelabelAll(items) == items
  {
    if |items| > 0 {
      RelabelAllNoPlugins(items[1..]);
      assert items == [items[0]] + items[1..];
    }
  }

  // ---------------------------------------------------------------------
  // Step 3: sort
  // ---------------------------------------------------------------------

  /** A `localeCompare`-style comparator on labels: negative, zero or positive. */
  type Comparator = (string, string) -> int

  /** `a` may come before `b`. */
  predicate Precedes(cmp: Comparator, a: SidebarItem, b: SidebarItem) {
    cmp(a.caption, b.caption) <= 0
  }

  /** The comparator orders labels totally, allowing ties. */
  ghost predicate TotalPreorder(cmp: Comparator) {
    && (forall a, b :: cmp(a, b) <= 0 || cmp(b, a) <= 0)
    && (forall a, b, c :: cmp(a, b) <= 0 && cmp(b, c) <= 0 ==> cmp(a, c) <= 0)
  }

  ghost predicate SortedBy(cmp: Comparator, s: seq<SidebarItem>) {
    forall i, j :: 0 <= i < j < |s| ==> Precedes(cmp, s[i], s[j])
  }

  /** Inserts `x` into the sorted `s` ahead of the first item it may precede,
      so that it stays ahead of the items it ties with. */
  function Insert(cmp: Comparator, x: SidebarItem, s: seq<SidebarItem>): (r: seq<SidebarItem>)
    requires TotalPreorder(cmp) && SortedBy(cmp, s)
    ensures multiset(r) == multiset(s) + multiset{x}
    ensures SortedBy(cmp, r)
  {
    if |s| == 0 then [x]
    else if Precedes(cmp, x, s[0]) then
      PrependSorted(cmp, x, s);
      [x] + s
    else
      var rest := Insert(cmp, x, s[1..]);
      assert s == [s[0]] + s[1..];
      HeadPrecedesInsert(cmp, x, s, rest);
      PrependSorted(cmp, s[0], rest);
      [s[0]] + rest
  }

  /** An item that precedes the head of a sorted sequence may lead it. */
  lemma PrependSorted(cmp: Comparator, x: SidebarItem, s: seq<SidebarItem>)
    requires TotalPreorder(cmp) && SortedBy(cmp, s)
    requires |s| > 0 ==> Precedes(cmp, x, s[0])
    ensures SortedBy(cmp, [x] + s)
  {
    var r := [x] + s;
    forall i, j | 0 <= i < j < |r| ensures Precedes(cmp, r[i], r[j]) {
      if i == 0 && j > 1 {
        assert Precedes(cmp, s[0], s[j - 1]);
      }
    }
  }

  /** When `x` does not precede the head of the sorted `s`, that head
      precedes everything `x` is inserted among. */
  lemma HeadPrecedesInsert(cmp: Comparator, x: SidebarItem, s: seq<SidebarItem>, rest: seq<SidebarItem>)
    requires TotalPreorder(cmp) && SortedBy(cmp, s)
    requires |s| > 0 && !Precedes(cmp, x, s[0])
    requires multiset(rest) == multiset(s[1..]) + multiset{x}
    ensures |rest| > 0 ==> Precedes(cmp, s[0], rest[0])
  {
    if |rest| > 0 {
      var y := rest[0];
      assert y in multiset(rest);
      if y != x {
        assert y in s[1..];
      }
    }
  }

  /** A stable insertion sort: the result is a sorted permutation of `s`. */
  function Sort(cmp: Comparator, s: seq<SidebarItem>): (r: seq<SidebarItem>)
    requires TotalPreorder(cmp)
    ensures multiset(r) == multiset(s)
    ensures SortedBy(cmp, r)
  {
    if |s| == 0 then []
    else
      assert s == [s[0]] + s[1..];
      Insert(cmp, s[0], Sort(cmp, s[1..]))
  }

  /** Sorting an already sorted sequence leaves it exactly as it was: ties
      keep their order. */
  lemma {:induction false} SortSorted(cmp: Comparator, s: seq<SidebarItem>)
    requires TotalPreorder(cmp) && SortedBy(cmp, s)
    ensures Sort(cmp, s) == s
  {
    if |s| > 0 {
      SortSorted(cmp, s[1..]);
      assert s == [s[0]] + s[1..];
      if |s| > 1 {
        assert Precedes(cmp, s[0], s[1]);
      }
    }
  }

  /** The items whose label ties with `key` under the comparator. */
  function TieClass(cmp: Comparator, key: string): SidebarItem -> bool {
    (x: SidebarItem) => cmp(x.caption, key) <= 0 && cmp(key, x.caption) <= 0
  }

  /** Two members of one tie class may come in either order. */
  lemma TiedPrecede(cmp: Comparator, key: string, x: SidebarItem, y: SidebarItem)
    requires TotalPreorder(cmp)
    requires TieClass(cmp, key)(x) && TieClass(cmp, key)(y)
    ensures Precedes(cmp, x, y)
  {
    assert cmp(x.caption, key) <= 0 && cmp(key, y.caption) <= 0;
  }

  /** Insertion places `x` ahead of every item it ties with and behind only
      items that are strictly smaller, so within any tie class it simply
      becomes the first member. */
  lemma {:induction false} InsertKeepsTies(cmp: Comparator, key: string, x: SidebarItem, s: seq<SidebarItem>)
    requires TotalPreorder(cmp) && SortedBy(cmp, s)
    ensures var p := TieClass(cmp, key);
      Filter(p, Insert(cmp, x, s)) == (if p(x) then [x] else []) + Filter(p, s)
  {
    var p := TieClass(cmp, key);
    if |s| == 0 {
      FilterCons(p, x, []);
    } else if Precedes(cmp, x, s[0]) {
      FilterCons(p, x, s);
    } else {
      var rest := Insert(cmp, x, s[1..]);
      assert Insert(cmp, x, s) == [s[0]] + rest;
      assert s == [s[0]] + s[1..];
      if p(x) && p(s[0]) {
        TiedPrecede(cmp, key, x, s[0]);
      }
      InsertKeepsTies(cmp, key, x, s[1..]);
      FilterPastHead(p, x, s[0], rest, s[1..]);
    }
  }

  /** If `rest` filters to `tail`'s filtering with `x` possibly in front,
      and `x` passing rules out `h` passing, the same holds with `h` put
      ahead of both. */
  lemma FilterPastHead(p: SidebarItem -> bool, x: SidebarItem, h: SidebarItem, rest: seq<SidebarItem>, tail: seq<SidebarItem>)
    requires p(x) ==> !p(h)
    requires Filter(p, rest) == (if p(x) then [x] else []) + Filter(p, tail)
    ensures Filter(p, [h] + rest) == (if p(x) then [x] else []) + Filter(p, [h] + tail)
  {
    FilterCons(p, h, rest);
    FilterCons(p, h, tail);
  }

  /** The sort is stable: the items of every tie class leave it in the order
      they entered it. */
  lemma {:induction false} SortStable(cmp: Comparator, key: string, s: seq<SidebarItem>)
    requires TotalPreorder(cmp)
    ensures Filter(TieClass(cmp, key), Sort(cmp, s)) == Filter(TieClass(cmp, key), s)
  {
    if |s| > 0 {
      var p := TieClass(cmp, key);
      var sorted := Sort(cmp, s[1..]);
      assert Sort(cmp, s) == Insert(cmp, s[0], sorted);
      calc {
        Filter(p, Insert(cmp, s[0], sorted));
        == { InsertKeepsTies(cmp, key, s[0], sorted); }
        (if p(s[0]) then [s[0]] else []) + Filter(p, sorted);
        == { SortStable(cmp, key, s[1..]); }
        (if p(s[0]) then [s[0]] else []) + Filter(p, s[1..]);
        == { assert s == [s[0]] + s[1..]; FilterCons(p, s[0], s[1..]); }
        Filter(p, s);
      }
    }
  }

  // ---------------------------------------------------------------------
  // The whole transformer
  // ---------------------------------------------------------------------

  /** The sidebar items the callback returns for the framework's defaults:
      the shown items, relabelled, in comparator order. */
  function TransformSidebar(cmp: Comparator, items: seq<SidebarItem>): (r: seq<SidebarItem>)
    requires TotalPreorder(cmp)
    ensures SortedBy(cmp, r)
    ensures multiset(r) == multiset(RelabelAll(FilterHidden(items)))
  {
    Sort(cmp, RelabelAll(FilterHidden(items)))
  }

  /** The output is no longer than the input and holds neither a hidden
      category nor an undecorated `plugins` category. */
  lemma TransformSidebarCleans(cmp: Comparator, items: seq<SidebarItem>)
    requires TotalPreorder(cmp)
    ensures |TransformSidebar(cmp, items)| <= |items|
    ensures forall y :: y in TransformSidebar(cmp, items) ==> !IsHidden(y) && !IsPluginsCategory(y)
  {
    var kept := FilterHidden(items);
    var relabelled := RelabelAll(kept);
    var r := TransformSidebar(cmp, items);
    SubsequenceLength(kept, items);
    assert |r| == |multiset(r)| == |relabelled|;
    forall y | y in r ensures !IsHidden(y) && !IsPluginsCategory(y) {
      assert y in multiset(relabelled);
    }
  }

  /** Every non-category item of the input is in the output, as often as
      it was in the input. */
  lemma TransformSidebarKeepsPages(cmp: Comparator, items: seq<SidebarItem>, x: SidebarItem)
    requires TotalPreorder(cmp) && !IsCategory(x)
    ensures multiset(TransformSidebar(cmp, items))[x] == multiset(items)[x]
  {
    RelabelAllKeepsOthers(FilterHidden(items), x);
  }

  /** A `plugins` category of the input is in the output, relabelled. */
  lemma TransformSidebarRelabelsPlugins(cmp: Comparator, items: seq<SidebarItem>, x: SidebarItem)
    requires TotalPreorder(cmp) && x in items && IsPluginsCategory(x)
    ensures Relabel(x) in TransformSidebar(cmp, items)
  {
    var kept := FilterHidden(items);
    var relabelled := RelabelAll(kept);
    var k :| 0 <= k < |kept| && kept[k] == x;
    assert relabelled[k] in multiset(TransformSidebar(cmp, items));
  }

  /** Labels that tie under the comparator keep their relative order from
      the filtered and relabelled input. */
  lemma TransformSidebarStable(cmp: Comparator, key: string, items: seq<SidebarItem>)
    requires TotalPreorder(cmp)
    ensures Filter(TieClass(cmp, key), TransformSidebar(cmp, items))
         == Filter(TieClass(cmp, key), RelabelAll(FilterHidden(items)))
  {
    SortStable(cmp, key, RelabelAll(FilterHidden(items)));
  }

  /** Applying the transformer to its own output changes nothing. */
  lemma TransformSidebarIdempotent(cmp: Comparator, items: seq<SidebarItem>)
    requires TotalPreorder(cmp)
    ensures TransformSidebar(cmp, TransformSidebar(cmp, items)) == TransformSidebar(cmp, items)
  {
    var r := TransformSidebar(cmp, items);
    TransformSidebarCleans(cmp, items);
    FilterAllPass(IsShown, r);
    RelabelAllNoPlugins(r);
    SortSorted(cmp, r);
  }
}

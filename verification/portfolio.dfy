/**
 * The portfolio gallery's rules: which catalog items a filter chip shows,
 * in catalog order, and which item a Quick View button opens.
 */
module Portfolio {
  import opened Wrappers

  datatype Item = Item(id: string, kind: string, title: string, desc: string, cover: string, url: string)

  const Catalog: seq<Item> := [
    Item("realtyhub-website", "website", "RealtyHub \U{2014} AI Website + Lead Capture",
         "Property listing site with contact capture and automated follow-ups.",
         "/public/img/portfolio/realtyhub-cover.webp", "#"),
    Item("planmate-chatbot", "chatbot", "PlanMate \U{2014} Insurance Chatbot",
         "Qualifies leads in Messenger, sends to Sheets, books calls.",
         "/public/img/portfolio/planmate-cover.webp", "#"),
    Item("autoflow-n8n", "automation", "AutoFlow \U{2014} n8n Workflow",
         "Form \U{2192} Sheets \U{2192} GPT Tag \U{2192} Email Confirmation + Telegram alert.",
         "/public/img/portfolio/autoflow-cover.webp", "#")
  ]

  /** The filter `renderPortfolio` uses: a chip without `data-filter` passes `undefined`, which takes the default "all". */
  function FilterOf(chip: Option<string>): (filter: string)
    ensures chip.None? ==> forall x :: Shows(filter, x)
  {
    if chip.Some? then chip.value else "all"
  }

  predicate Shows(filter: string, item: Item) {
    filter == "all" || item.kind == filter
  }

  /** `PORTFOLIO.filter(p => filter === "all" ? true : p.type === filter)`. */
  function Visible(items: seq<Item>, filter: string): (r: seq<Item>)
    ensures forall x :: x in r <==> x in items && Shows(filter, x)
    ensures |r| <= |items|
  {
    if items == [] then []
    else (if Shows(filter, items[0]) then [items[0]] else []) + Visible(items[1..], filter)
  }

  /** Filtering a concatenation filters each part and keeps their order. */
  lemma {:induction false} VisibleAppend(a: seq<Item>, b: seq<Item>, filter: string)
    ensures Visible(a + b, filter) == Visible(a, filter) + Visible(b, filter)
  {
    if a == [] {
      assert a + b == b;
    } else {
      assert (a + b)[1..] == a[1..] + b;
      VisibleAppend(a[1..], b, filter);
    }
  }

  /** "all" shows every item, in order. */
  lemma {:induction false} VisibleAll(items: seq<Item>)
    ensures Visible(items, "all") == items
  {
    if items != [] {
      VisibleAll(items[1..]);
    }
  }

  /** A filter keeps every item it accepts and only those: filtering twice is filtering once. */
  lemma {:induction false} VisibleIdempotent(items: seq<Item>, filter: string)
    ensures Visible(Visible(items, filter), filter) == Visible(items, filter)
  {
    if items != [] {
      var head := if Shows(filter, items[0]) then [items[0]] else [];
      VisibleAppend(head, Visible(items[1..], filter), filter);
      VisibleIdempotent(items[1..], filter);
    }
  }

  /** `k` is the first position of `items` holding an item with that id. */
  predicate FirstWithId(items: seq<Item>, id: string, k: int) {
    0 <= k < |items| && items[k].id == id && forall j :: 0 <= j < k ==> items[j].id != id
  }

  /** `PORTFOLIO.find(p => p.id === id)`: the first item with that id, if any. */
  function FindById(items: seq<Item>, id: string): (r: Option<Item>)
    ensures r.None? <==> forall k :: 0 <= k < |items| ==> items[k].id != id
    ensures r.Some? ==> exists k :: FirstWithId(items, id, k) && items[k] == r.value
  {
    if items == [] then None
    else if items[0].id == id then Some(items[0])
    else
      var r := FindById(items[1..], id);
      assert forall k :: 1 <= k < |items| ==> items[k] == items[1..][k - 1];
      r
  }

  /** The catalog's three items have pairwise different ids, so a lookup by id is unambiguous. */
  lemma CatalogIdsDistinct()
    ensures |Catalog| == 3
    ensures forall i, j :: 0 <= i < j < |Catalog| ==> Catalog[i].id != Catalog[j].id
  {
  }

  /** The chatbot filter shows only the chatbot. */
  lemma CatalogChatbots()
    ensures Visible(Catalog, "chatbot") == [Catalog[1]]
  {
  }

  /** No filter given means "all", which shows the whole catalog in order. */
  lemma CatalogDefault()
    ensures Visible(Catalog, FilterOf(None)) == Catalog
  {
    VisibleAll(Catalog);
  }

  /** A category no item belongs to shows nothing. */
  lemma CatalogUnknownCategory()
    ensures Visible(Catalog, "design") == []
  {
  }

  /** A catalog item is found by its own id. */
  lemma CatalogLookup()
    ensures FindById(Catalog, "autoflow-n8n") == Some(Catalog[2])
  {
  }

  /** An unknown id opens nothing. */
  lemma CatalogMissing()
    ensures FindById(Catalog, "missing") == None
  {
  }
}

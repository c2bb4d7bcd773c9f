/**
 The page classification of the Zipfian data generator: count hits per page and slot, order the pages
 by hits, label them HOT, SKEW or COLD and add up pages and traffic per label.
 */
module Pages {

  datatype PageType = HOT | SKEW | COLD

  /** The number of pages and of records on each; the program refuses zero of either. */
  datatype Layout = Layout(pages: nat, perPage: nat) {
    predicate Valid() {
      pages > 0 && perPage > 0
    }
    function Records(): nat {
      pages * perPage
    }
  }

  /** A key drawn by the scrambled generator over `[0, Records())`, from the hash of its rank. */
  function KeyOf(l: Layout, hash: nat): nat
    requires l.Valid()
  {
    RecordsPositive(l);
    hash % l.Records()
  }

  lemma RecordsPositive(l: Layout)
    requires l.Valid()
    ensures l.Records() > 0
  {
  }

  function PageOf(l: Layout, hash: nat): nat
    requires l.Valid()
  {
    KeyOf(l, hash) / l.perPage
  }

  function SlotOf(l: Layout, hash: nat): nat
    requires l.Valid()
  {
    KeyOf(l, hash) % l.perPage
  }

  lemma MulMonotone(a: nat, b: nat, d: nat)
    requires a <= b
    ensures a * d <= b * d
  {
  }

  lemma DivBelow(k: nat, n: nat, d: nat)
    requires d > 0 && k < n * d
    ensures k / d < n
  {
    var q := k / d;
    assert q * d <= k;
    if q >= n { MulMonotone(n, q, d); }
  }

  /** Every draw addresses an existing page and slot, and they name the key. */
  lemma KeyInRange(l: Layout, hash: nat)
    requires l.Valid()
    ensures PageOf(l, hash) < l.pages && SlotOf(l, hash) < l.perPage
    ensures PageOf(l, hash) * l.perPage + SlotOf(l, hash) == KeyOf(l, hash)
  {
    RecordsPositive(l);
    DivBelow(KeyOf(l, hash), l.pages, l.perPage);
  }

  // ---------- Counting ----------

  function PageCount(l: Layout, draws: seq<nat>, page: nat): nat
    requires l.Valid()
  {
    if draws == [] then 0
    else PageCount(l, draws[..|draws| - 1], page) + if PageOf(l, draws[|draws| - 1]) == page then 1 else 0
  }

  function SlotCount(l: Layout, draws: seq<nat>, page: nat, slot: nat): nat
    requires l.Valid()
  {
    if draws == [] then 0
    else SlotCount(l, draws[..|draws| - 1], page, slot)
         + if PageOf(l, draws[|draws| - 1]) == page && SlotOf(l, draws[|draws| - 1]) == slot then 1 else 0
  }

  function Hits(m: map<nat, nat>, slot: nat): nat {
    if slot in m then m[slot] else 0
  }

  /** The sum of a count over the indices below `n`. */
  function Sum(f: nat -> nat, n: nat): nat {
    if n == 0 then 0 else Sum(f, n - 1) + f(n - 1)
  }

  /** The sampling loop: a page counter and a map of slot counters per page. */
  method Sample(l: Layout, draws: seq<nat>) returns (pageHits: array<nat>, slotHits: array<map<nat, nat>>)
    requires l.Valid()
    ensures fresh(pageHits) && fresh(slotHits) && pageHits.Length == slotHits.Length == l.pages
    ensures forall p :: 0 <= p < l.pages ==> pageHits[p] == PageCount(l, draws, p)
    ensures forall p, s: nat :: 0 <= p < l.pages ==> Hits(slotHits[p], s) == SlotCount(l, draws, p, s)
    ensures forall p, s: nat :: 0 <= p < l.pages && s in slotHits[p] ==> s < l.perPage
  {
    pageHits := new nat[l.pages](i => 0);
    slotHits := new map<nat, nat>[l.pages](i => map[]);
    for i := 0 to |draws|
      invariant forall p :: 0 <= p < l.pages ==> pageHits[p] == PageCount(l, draws[..i], p)
      invariant forall p, s: nat :: 0 <= p < l.pages ==> Hits(slotHits[p], s) == SlotCount(l, draws[..i], p, s)
      invariant forall p, s: nat :: 0 <= p < l.pages && s in slotHits[p] ==> s < l.perPage
    {
      KeyInRange(l, draws[i]);
      var key := KeyOf(l, draws[i]);
      var page, slot := key / l.perPage, key % l.perPage;
      assert draws[..i + 1][..i] == draws[..i];
      pageHits[page] := pageHits[page] + 1;
      slotHits[page] := slotHits[page][slot := Hits(slotHits[page], slot) + 1];
    }
    assert draws[..|draws|] == draws;
  }

  function SlotCounter(l: Layout, draws: seq<nat>, page: nat): nat -> nat
    requires l.Valid()
  {
    (s: nat) => SlotCount(l, draws, page, s)
  }

  function PageCounter(l: Layout, draws: seq<nat>): nat -> nat
    requires l.Valid()
  {
    (p: nat) => PageCount(l, draws, p)
  }

  lemma {:induction false} SumZero(f: nat -> nat, n: nat)
    requires forall i: nat :: f(i) == 0
    ensures Sum(f, n) == 0
  {
    if n > 0 { SumZero(f, n - 1); }
  }

  /** Raising one term by one raises the sum by one, if the term is among those summed. */
  lemma {:induction false} SumBump(f: nat -> nat, g: nat -> nat, n: nat, k: nat, bump: bool)
    requires forall i: nat :: g(i) == f(i) + if bump && i == k then 1 else 0
    ensures Sum(g, n) == Sum(f, n) + if bump && k < n then 1 else 0
  {
    if n > 0 { SumBump(f, g, n - 1, k, bump); }
  }

  /** The slot hits of a page add up to its page hits. */
  lemma {:induction false} SlotsAddUp(l: Layout, draws: seq<nat>, page: nat)
    requires l.Valid()
    ensures Sum(SlotCounter(l, draws, page), l.perPage) == PageCount(l, draws, page)
  {
    if draws == [] {
      SumZero(SlotCounter(l, draws, page), l.perPage);
    } else {
      var n := |draws| - 1;
      SlotsAddUp(l, draws[..n], page);
      KeyInRange(l, draws[n]);
      SumBump(SlotCounter(l, draws[..n], page), SlotCounter(l, draws, page), l.perPage,
              SlotOf(l, draws[n]), PageOf(l, draws[n]) == page);
    }
  }

  /** The page hits add up to the number of samples. */
  lemma {:induction false} PagesAddUp(l: Layout, draws: seq<nat>)
    requires l.Valid()
    ensures Sum(PageCounter(l, draws), l.pages) == |draws|
  {
    if draws == [] {
      SumZero(PageCounter(l, draws), l.pages);
    } else {
      var n := |draws| - 1;
      PagesAddUp(l, draws[..n]);
      KeyInRange(l, draws[n]);
      SumBump(PageCounter(l, draws[..n]), PageCounter(l, draws), l.pages, PageOf(l, draws[n]), true);
    }
  }

  // ---------- Labels ----------

  /** What `std::sort` promises of `page_order`: all pages, each once, by falling hits, ties anyhow. */
  predicate Ordered(hits: seq<nat>, order: seq<nat>) {
    && |order| == |hits|
    && (forall i :: 0 <= i < |order| ==> order[i] < |hits|)
    && (forall i, j :: 0 <= i < j < |order| ==> order[i] != order[j])
    && (forall i, j :: 0 <= i < j < |order| ==> hits[order[i]] >= hits[order[j]])
  }

  function Min(a: nat, b: nat): nat {
    if a < b then a else b
  }

  predicate IsMaxHit(m: map<nat, nat>, x: nat) {
    && (forall s :: s in m ==> m[s] <= x)
    && (x == 0 || exists s :: s in m && m[s] == x)
  }

  /** The largest counter of a page, whatever the order in which the hash map yields its entries. */
  method MaxSlotHit(m: map<nat, nat>) returns (x: nat)
    ensures IsMaxHit(m, x)
  {
    x := 0;
    var rest := m.Keys;
    while rest != {}
      invariant rest <= m.Keys
      invariant forall s :: s in m && s !in rest ==> m[s] <= x
      invariant x == 0 || exists s :: s in m && m[s] == x
      decreases |rest|
    {
      var s :| s in rest;
      if m[s] > x { x := m[s]; }
      rest := rest - {s};
    }
  }

  /** The rule that decides a label. */
  ghost predicate Labelled(hits: seq<nat>, slots: seq<map<nat, nat>>, order: seq<nat>, hotCount: nat, ratio: real,
                           p: nat, kind: PageType)
    requires p < |hits| == |slots| && Ordered(hits, order)
  {
    if hits[p] > 0 && p in order[..Min(hotCount, |order|)] then kind == HOT
    else if hits[p] == 0 then kind == COLD
    else kind != HOT && forall x: nat :: IsMaxHit(slots[p], x) ==>
           kind == if x as real / hits[p] as real >= ratio then SKEW else COLD
  }

  /** The two labelling loops, over the pages in sorted order and then over all pages. */
  method Classify(hits: seq<nat>, slots: seq<map<nat, nat>>, order: seq<nat>, hotCount: nat, ratio: real)
    returns (types: array<PageType>)
    requires |hits| == |slots| && Ordered(hits, order)
    ensures fresh(types) && types.Length == |hits|
    ensures forall p :: 0 <= p < |hits| ==> Labelled(hits, slots, order, hotCount, ratio, p, types[p])
  {
    var n := |hits|;
    types := new PageType[n](i => COLD);
    var k := Min(hotCount, n);
    for i := 0 to k
      invariant forall p :: 0 <= p < n ==> types[p] == if hits[p] > 0 && p in order[..i] then HOT else COLD
    {
      assert order[..i + 1] == order[..i] + [order[i]];
      if hits[order[i]] > 0 { types[order[i]] := HOT; }
    }
    ghost var hot := types[..];
    for page := 0 to n
      invariant forall p :: page <= p < n ==> types[p] == hot[p]
      invariant forall p :: 0 <= p < page ==> Labelled(hits, slots, order, hotCount, ratio, p, types[p])
    {
      if types[page] == HOT { continue; }
      if hits[page] == 0 {
        types[page] := COLD;
        continue;
      }
      var x := MaxSlotHit(slots[page]);
      MaxHitUnique(slots[page], x);
      types[page] := if x as real / hits[page] as real >= ratio then SKEW else COLD;
    }
  }

  lemma MaxHitUnique(m: map<nat, nat>, x: nat)
    requires IsMaxHit(m, x)
    ensures forall y: nat :: IsMaxHit(m, y) ==> y == x
  {
  }

  // ---------- The hot pages are the hottest ----------

  predicate IsHot(hits: seq<nat>, order: seq<nat>, hotCount: nat, p: nat)
    requires p < |hits|
  {
    hits[p] > 0 && p in order[..Min(hotCount, |order|)]
  }

  /** No page left out of HOT has more hits than a HOT page. */
  lemma NoneAboveHot(hits: seq<nat>, order: seq<nat>, hotCount: nat, p: nat, q: nat)
    requires Ordered(hits, order) && p < |hits| && q < |hits|
    requires IsHot(hits, order, hotCount, p) && !IsHot(hits, order, hotCount, q)
    ensures hits[q] <= hits[p]
  {
    if hits[q] > 0 {
      var j := Position(hits, order, q);
      var k := Min(hotCount, |order|);
      var i :| 0 <= i < k && order[..k][i] == p;
      Outside(order, j, k);
    }
  }

  lemma Outside(order: seq<nat>, j: nat, m: nat)
    requires j < |order| && m <= |order| && order[j] !in order[..m]
    ensures j >= m
  {
    var first := order[..m];
    assert forall i :: 0 <= i < m ==> first[i] == order[i] && first[i] in first;
  }

  function Elements(s: seq<nat>): (r: set<nat>)
    ensures forall x :: x in r <==> x in s
    ensures |r| <= |s|
  {
    if s == [] then {}
    else
      assert s == s[..|s| - 1] + [s[|s| - 1]];
      Elements(s[..|s| - 1]) + {s[|s| - 1]}
  }

  lemma {:induction false} ElementsDistinct(s: seq<nat>)
    requires forall i, j :: 0 <= i < j < |s| ==> s[i] != s[j]
    ensures |Elements(s)| == |s|
  {
    if s != [] {
      ElementsDistinct(s[..|s| - 1]);
    }
  }

  lemma {:induction false} SubsetSize(a: set<nat>, b: set<nat>)
    requires a <= b
    ensures |a| <= |b|
  {
    if a != {} {
      var x :| x in a;
      SubsetSize(a - {x}, b - {x});
    }
  }

  function Upto(n: nat): (r: set<nat>)
    ensures |r| == n && forall x :: x in r <==> 0 <= x < n
  {
    if n == 0 then {} else Upto(n - 1) + {n - 1}
  }

  lemma SubsetFull(a: set<nat>, b: set<nat>)
    requires a <= b && |a| == |b|
    ensures a == b
  {
    if x :| x in b && x !in a {
      SubsetSize(a, b - {x});
      assert false;
    }
  }

  /** Every page has a place in the order. */
  lemma Position(hits: seq<nat>, order: seq<nat>, p: nat) returns (i: nat)
    requires Ordered(hits, order) && p < |hits|
    ensures i < |order| && order[i] == p
  {
    ElementsDistinct(order);
    SubsetFull(Elements(order), Upto(|hits|));
    assert p in order;
    i :| i < |order| && order[i] == p;
  }

  /** The traffic of a set of pages. */
  ghost function Traffic(hits: seq<nat>, s: set<nat>): nat
    requires forall p :: p in s ==> p < |hits|
  {
    if s == {} then 0
    else
      var p :| p in s;
      hits[p] + Traffic(hits, s - {p})
  }

  lemma {:induction false} TrafficRemove(hits: seq<nat>, s: set<nat>, q: nat)
    requires (forall p :: p in s ==> p < |hits|) && q in s
    ensures Traffic(hits, s) == hits[q] + Traffic(hits, s - {q})
    decreases |s|
  {
    var p :| p in s && Traffic(hits, s) == hits[p] + Traffic(hits, s - {p});
    if p != q {
      TrafficRemove(hits, s - {p}, q);
      TrafficRemove(hits, s - {q}, p);
      assert s - {p} - {q} == s - {q} - {p};
    }
  }

  function TopTraffic(hits: seq<nat>, order: seq<nat>, k: nat): nat
    requires Ordered(hits, order) && k <= |order|
  {
    if k == 0 then 0 else TopTraffic(hits, order, k - 1) + hits[order[k - 1]]
  }

  /** Some page of a set of `n` stands at place `n - 1` or later. */
  lemma LatePage(hits: seq<nat>, order: seq<nat>, s: set<nat>) returns (j: nat)
    requires Ordered(hits, order) && (forall p :: p in s ==> p < |hits|) && s != {}
    ensures |s| - 1 <= j < |order| && order[j] in s
  {
    var m := |s| - 1;
    if m > |order| {
      SubsetSize(s, Upto(|hits|));
      assert false;
    }
    if p :| p in s && p !in order[..m] {
      j := Position(hits, order, p);
      Outside(order, j, m);
    } else {
      SubsetSize(s, Elements(order[..m]));
      assert false;
    }
  }

  /** No set of `n` pages carries more traffic than the first `n` pages of the order. */
  lemma {:induction false} TopIsBest(hits: seq<nat>, order: seq<nat>, s: set<nat>)
    requires Ordered(hits, order) && (forall p :: p in s ==> p < |hits|)
    ensures |s| <= |order| && Traffic(hits, s) <= TopTraffic(hits, order, |s|)
    decreases |s|
  {
    if s != {} {
      var j := LatePage(hits, order, s);
      TopIsBest(hits, order, s - {order[j]});
      TrafficRemove(hits, s, order[j]);
    }
  }

  // ---------- How many pages are hot ----------

  ghost function HotPages(hits: seq<nat>, order: seq<nat>, hotCount: nat): (r: set<nat>)
    ensures forall p :: p in r <==> 0 <= p < |hits| && IsHot(hits, order, hotCount, p)
  {
    set p | 0 <= p < |hits| && IsHot(hits, order, hotCount, p)
  }

  /** The pages with any hits come first: the number of hot pages is where either limit strikes. */
  lemma {:induction false} HotPrefix(hits: seq<nat>, order: seq<nat>, k: nat) returns (m: nat)
    requires Ordered(hits, order) && k <= |order|
    ensures m <= k
    ensures forall i :: 0 <= i < m ==> hits[order[i]] > 0
    ensures forall i :: m <= i < k ==> hits[order[i]] == 0
    ensures m < k ==> forall i :: m <= i < |order| ==> hits[order[i]] == 0
  {
    m := 0;
    while m < k && hits[order[m]] > 0
      invariant m <= k
      invariant forall i :: 0 <= i < m ==> hits[order[i]] > 0
    {
      m := m + 1;
    }
  }

  ghost function ActivePages(hits: seq<nat>): (r: set<nat>)
    ensures forall p :: p in r <==> 0 <= p < |hits| && hits[p] > 0
  {
    set p | 0 <= p < |hits| && hits[p] > 0
  }

  /** Exactly as many pages are HOT as asked for, or as have hits at all when these are fewer. */
  lemma HotPageCount(hits: seq<nat>, order: seq<nat>, hotCount: nat)
    requires Ordered(hits, order)
    ensures |HotPages(hits, order, hotCount)| == Min(hotCount, |ActivePages(hits)|)
    ensures Traffic(hits, HotPages(hits, order, hotCount)) == TopTraffic(hits, order, Min(hotCount, |order|))
  {
    var k := Min(hotCount, |order|);
    var m := HotPrefix(hits, order, k);
    assert HotPages(hits, order, hotCount) == Elements(order[..m]) by {
      HotAreFirst(hits, order, hotCount, m);
    }
    ElementsDistinct(order[..m]);
    TrafficOfFirst(hits, order, m);
    IdleTail(hits, order, m, k);
    ActiveCount(hits, order, m, k);
    SubsetSize(ActivePages(hits), Upto(|hits|));
  }

  lemma HotAreFirst(hits: seq<nat>, order: seq<nat>, hotCount: nat, m: nat)
    requires Ordered(hits, order) && m <= Min(hotCount, |order|)
    requires forall i :: 0 <= i < m ==> hits[order[i]] > 0
    requires forall i :: m <= i < Min(hotCount, |order|) ==> hits[order[i]] == 0
    ensures forall p :: p < |hits| && 0 <= p ==> (IsHot(hits, order, hotCount, p) <==> p in order[..m])
  {
    var k := Min(hotCount, |order|);
    forall p | 0 <= p < |hits|
      ensures IsHot(hits, order, hotCount, p) <==> p in order[..m]
    {
      if IsHot(hits, order, hotCount, p) {
        var i :| 0 <= i < k && order[..k][i] == p;
        assert order[..m][i] == p;
      }
      if p in order[..m] {
        var i :| 0 <= i < m && order[..m][i] == p;
        assert order[..k][i] == p;
      }
    }
  }

  lemma FirstStep(order: seq<nat>, m: nat)
    requires 0 < m <= |order| && forall i, j :: 0 <= i < j < |order| ==> order[i] != order[j]
    ensures order[m - 1] in Elements(order[..m])
    ensures Elements(order[..m]) - {order[m - 1]} == Elements(order[..m - 1])
  {
    var q := order[m - 1];
    assert order[..m] == order[..m - 1] + [q];
    assert forall i :: 0 <= i < m - 1 ==> order[..m - 1][i] == order[i] != q;
    assert q !in order[..m - 1];
  }

  lemma {:induction false} TrafficOfFirst(hits: seq<nat>, order: seq<nat>, m: nat)
    requires Ordered(hits, order) && m <= |order|
    ensures Traffic(hits, Elements(order[..m])) == TopTraffic(hits, order, m)
  {
    if m > 0 {
      TrafficOfFirst(hits, order, m - 1);
      FirstStep(order, m);
      TrafficRemove(hits, Elements(order[..m]), order[m - 1]);
    }
  }

  lemma {:induction false} IdleTail(hits: seq<nat>, order: seq<nat>, m: nat, k: nat)
    requires Ordered(hits, order) && m <= k <= |order|
    requires forall i :: m <= i < k ==> hits[order[i]] == 0
    ensures TopTraffic(hits, order, k) == TopTraffic(hits, order, m)
  {
    if m < k { IdleTail(hits, order, m, k - 1); }
  }

  lemma ActiveCount(hits: seq<nat>, order: seq<nat>, m: nat, k: nat)
    requires Ordered(hits, order) && m <= k <= |order|
    requires forall i :: 0 <= i < m ==> hits[order[i]] > 0
    requires m < k ==> forall i :: m <= i < |order| ==> hits[order[i]] == 0
    ensures m <= |ActivePages(hits)|
    ensures m < k ==> m == |ActivePages(hits)|
  {
    var first := Elements(order[..m]);
    ElementsDistinct(order[..m]);
    SubsetSize(first, ActivePages(hits));
    if m < k {
      forall p | p in ActivePages(hits)
        ensures p in first
      {
        var i := Position(hits, order, p);
        assert order[..m][i] == p;
      }
      assert first == ActivePages(hits);
    }
  }

  // ---------- Totals ----------

  datatype Totals = Totals(pages: nat, traffic: nat)

  /** Pages and traffic with one label among the first `n` pages. */
  function TotalOf(hits: seq<nat>, types: seq<PageType>, kind: PageType, n: nat): Totals
    requires n <= |hits| == |types|
  {
    if n == 0 then Totals(0, 0)
    else
      var t := TotalOf(hits, types, kind, n - 1);
      if types[n - 1] == kind then Totals(t.pages + 1, t.traffic + hits[n - 1]) else t
  }

  function SumHits(hits: seq<nat>, n: nat): nat
    requires n <= |hits|
  {
    if n == 0 then 0 else SumHits(hits, n - 1) + hits[n - 1]
  }

  /** The aggregation loop. Between them the labels cover every page and all the traffic, once. */
  method Aggregate(hits: seq<nat>, types: array<PageType>) returns (hot: Totals, skew: Totals, cold: Totals)
    requires types.Length == |hits|
    ensures hot == TotalOf(hits, types[..], HOT, |hits|)
    ensures skew == TotalOf(hits, types[..], SKEW, |hits|)
    ensures cold == TotalOf(hits, types[..], COLD, |hits|)
    ensures hot.pages + skew.pages + cold.pages == |hits|
    ensures hot.traffic + skew.traffic + cold.traffic == SumHits(hits, |hits|)
  {
    var ts := types[..];
    hot, skew, cold := Totals(0, 0), Totals(0, 0), Totals(0, 0);
    for p := 0 to |hits|
      invariant hot == TotalOf(hits, ts, HOT, p)
      invariant skew == TotalOf(hits, ts, SKEW, p)
      invariant cold == TotalOf(hits, ts, COLD, p)
      invariant hot.pages + skew.pages + cold.pages == p
      invariant hot.traffic + skew.traffic + cold.traffic == SumHits(hits, p)
    {
      match types[p]
      case HOT => hot := Totals(hot.pages + 1, hot.traffic + hits[p]);
      case SKEW => skew := Totals(skew.pages + 1, skew.traffic + hits[p]);
      case COLD => cold := Totals(cold.pages + 1, cold.traffic + hits[p]);
    }
  }

  lemma {:induction false} SumHitsIs(l: Layout, draws: seq<nat>, hits: seq<nat>, n: nat)
    requires l.Valid() && n <= |hits| && forall p :: 0 <= p < |hits| ==> hits[p] == PageCount(l, draws, p)
    ensures SumHits(hits, n) == Sum(PageCounter(l, draws), n)
  {
    if n > 0 { SumHitsIs(l, draws, hits, n - 1); }
  }

  /** The pages with a label among the first `n`. */
  ghost function PagesOf(types: seq<PageType>, kind: PageType, n: nat): (r: set<nat>)
    requires n <= |types|
    ensures forall p :: p in r <==> 0 <= p < n && types[p] == kind
  {
    set p | 0 <= p < n && types[p] == kind
  }

  lemma PagesOfStep(types: seq<PageType>, kind: PageType, n: nat)
    requires 0 < n <= |types|
    ensures var now, before := PagesOf(types, kind, n), PagesOf(types, kind, n - 1);
            if types[n - 1] == kind then n - 1 in now && now - {n - 1} == before && |now| == |before| + 1
            else now == before
  {
    var now, before := PagesOf(types, kind, n), PagesOf(types, kind, n - 1);
    if types[n - 1] == kind { assert now == before + {n - 1}; }
  }

  lemma {:induction false} TotalsOfPages(hits: seq<nat>, types: seq<PageType>, kind: PageType, n: nat)
    requires n <= |hits| == |types|
    ensures TotalOf(hits, types, kind, n) == Totals(|PagesOf(types, kind, n)|, Traffic(hits, PagesOf(types, kind, n)))
  {
    if n > 0 {
      TotalsOfPages(hits, types, kind, n - 1);
      PagesOfStep(types, kind, n);
      if types[n - 1] == kind { TrafficRemove(hits, PagesOf(types, kind, n), n - 1); }
    }
  }

  lemma {:induction false} TopGrows(hits: seq<nat>, order: seq<nat>, j: nat, k: nat)
    requires Ordered(hits, order) && j <= k <= |order|
    ensures TopTraffic(hits, order, j) <= TopTraffic(hits, order, k)
  {
    if j < k { TopGrows(hits, order, j, k - 1); }
  }

  /** The totals reported for HOT: the number of pages asked for, or fewer when fewer have hits, and more
      traffic than any other choice of that many pages. */
  lemma HotTotals(hits: seq<nat>, slots: seq<map<nat, nat>>, order: seq<nat>, hotCount: nat, ratio: real,
                  types: seq<PageType>)
    requires |hits| == |slots| == |types| && Ordered(hits, order)
    requires forall p :: 0 <= p < |hits| ==> Labelled(hits, slots, order, hotCount, ratio, p, types[p])
    ensures var hot := TotalOf(hits, types, HOT, |hits|);
            && hot.pages == Min(hotCount, |ActivePages(hits)|)
            && forall s: set<nat> {:trigger Traffic(hits, s)} ::
                 (forall p :: p in s ==> p < |hits|) && |s| <= hotCount ==> Traffic(hits, s) <= hot.traffic
  {
    TotalsOfPages(hits, types, HOT, |hits|);
    HotLabels(hits, slots, order, hotCount, ratio, types);
    HotPageCount(hits, order, hotCount);
    forall s: set<nat> | (forall p :: p in s ==> p < |hits|) && |s| <= hotCount
      ensures Traffic(hits, s) <= TopTraffic(hits, order, Min(hotCount, |order|))
    {
      TopIsBest(hits, order, s);
      TopGrows(hits, order, |s|, Min(hotCount, |order|));
    }
  }

  lemma HotLabels(hits: seq<nat>, slots: seq<map<nat, nat>>, order: seq<nat>, hotCount: nat, ratio: real,
                  types: seq<PageType>)
    requires |hits| == |slots| == |types| && Ordered(hits, order)
    requires forall p :: 0 <= p < |hits| ==> Labelled(hits, slots, order, hotCount, ratio, p, types[p])
    ensures PagesOf(types, HOT, |hits|) == HotPages(hits, order, hotCount)
  {
    assert forall p :: 0 <= p < |hits| ==> (types[p] == HOT <==> IsHot(hits, order, hotCount, p));
  }

  lemma PercentRange(n: real, percent: real)
    requires 0.0 <= n && 0.0 <= percent <= 100.0
    ensures 0.0 <= n * percent / 100.0 <= n
  {
    assert n * percent <= n * 100.0;
  }

  /** `hot_page_count`: the given percentage of the pages, rounded up. */
  function HotCount(pages: nat, percent: real): (k: nat)
    requires 0.0 <= percent <= 100.0
    ensures k <= pages
    ensures k as real - 1.0 < pages as real * percent / 100.0 <= k as real
  {
    PercentRange(pages as real, percent);
    -((-(pages as real * percent / 100.0)).Floor)
  }

  function PageHits(l: Layout, draws: seq<nat>): (hits: seq<nat>)
    requires l.Valid()
    ensures |hits| == l.pages && forall p :: 0 <= p < l.pages ==> hits[p] == PageCount(l, draws, p)
  {
    seq(l.pages, p requires 0 <= p < l.pages => PageCount(l, draws, p))
  }

  // ---------- The labels in terms of the draws ----------

  predicate Reaches(count: nat, total: nat, ratio: real) {
    count as real >= ratio * total as real
  }

  /** Some slot of the page took at least `ratio` of the page's hits. */
  ghost predicate Concentrated(l: Layout, draws: seq<nat>, ratio: real, p: nat)
    requires l.Valid()
  {
    exists s: nat :: s < l.perPage && Reaches(SlotCount(l, draws, p, s), PageCount(l, draws, p), ratio)
  }

  /** The pages that are not hot, have hits and have them concentrated. */
  ghost function SkewPages(l: Layout, draws: seq<nat>, order: seq<nat>, hotCount: nat, ratio: real): (r: set<nat>)
    requires l.Valid()
    ensures forall p :: p in r ==> 0 <= p < l.pages
  {
    var hits := PageHits(l, draws);
    set p | 0 <= p < l.pages && !IsHot(hits, order, hotCount, p) && hits[p] > 0 && Concentrated(l, draws, ratio, p)
  }

  /** The pages that are not hot and have no hits or have them spread. */
  ghost function ColdPages(l: Layout, draws: seq<nat>, order: seq<nat>, hotCount: nat, ratio: real): (r: set<nat>)
    requires l.Valid()
    ensures forall p :: p in r ==> 0 <= p < l.pages
  {
    var hits := PageHits(l, draws);
    set p | 0 <= p < l.pages && !IsHot(hits, order, hotCount, p) && (hits[p] == 0 || !Concentrated(l, draws, ratio, p))
  }

  lemma {:induction false} MaxHitExists(m: map<nat, nat>)
    ensures exists x: nat :: IsMaxHit(m, x)
    decreases |m|
  {
    if m == map[] {
      assert IsMaxHit(m, 0);
    } else {
      var s :| s in m;
      var rest := m - {s};
      assert m.Keys == rest.Keys + {s};
      assert |m.Keys| == |rest.Keys| + 1;
      MaxHitExists(rest);
      var y: nat :| IsMaxHit(rest, y);
      assert IsMaxHit(m, if y > m[s] then y else m[s]);
    }
  }

  lemma RatioTimes(x: nat, n: nat, ratio: real)
    requires n > 0
    ensures x as real / n as real >= ratio <==> Reaches(x, n, ratio)
  {
    var q, d := x as real / n as real, n as real;
    assert q * d == x as real;
    assert (q - ratio) * d == x as real - ratio * d;
  }

  /** The counters of one page's map are its slot counts. */
  ghost predicate CountsSlots(l: Layout, draws: seq<nat>, p: nat, m: map<nat, nat>)
    requires l.Valid()
  {
    && (forall s: nat :: Hits(m, s) == SlotCount(l, draws, p, s))
    && (forall s: nat :: s in m ==> s < l.perPage)
  }

  /** The largest counter is the largest slot count. */
  lemma MaxIsSlot(l: Layout, draws: seq<nat>, p: nat, m: map<nat, nat>, x: nat)
    requires l.Valid() && CountsSlots(l, draws, p, m) && IsMaxHit(m, x)
    ensures forall s: nat :: SlotCount(l, draws, p, s) <= x
    ensures exists s: nat :: s < l.perPage && SlotCount(l, draws, p, s) == x
  {
    forall s: nat
      ensures SlotCount(l, draws, p, s) <= x
    {
      assert Hits(m, s) == SlotCount(l, draws, p, s);
    }
    var s: nat := if x == 0 then 0 else var s :| s in m && m[s] == x; s;
    assert Hits(m, s) == SlotCount(l, draws, p, s);
  }

  lemma ReachesUp(a: nat, b: nat, total: nat, ratio: real)
    requires a <= b && Reaches(a, total, ratio)
    ensures Reaches(b, total, ratio)
  {
    var floor := ratio * total as real;
    assert a as real >= floor;
  }

  /** So it decides whether the hits are concentrated. */
  lemma MaxDecides(l: Layout, draws: seq<nat>, ratio: real, p: nat, m: map<nat, nat>, x: nat, n: nat)
    requires l.Valid() && CountsSlots(l, draws, p, m) && IsMaxHit(m, x) && n == PageCount(l, draws, p)
    ensures Reaches(x, n, ratio) <==> Concentrated(l, draws, ratio, p)
  {
    MaxIsSlot(l, draws, p, m, x);
    if Concentrated(l, draws, ratio, p) {
      var s: nat :| s < l.perPage && Reaches(SlotCount(l, draws, p, s), n, ratio);
      ReachesUp(SlotCount(l, draws, p, s), x, n, ratio);
    }
    var s: nat :| s < l.perPage && SlotCount(l, draws, p, s) == x;
    assert Reaches(SlotCount(l, draws, p, s), n, ratio) <==> Reaches(x, n, ratio);
  }

  lemma LabelByDraws(l: Layout, draws: seq<nat>, slots: seq<map<nat, nat>>, order: seq<nat>, hotCount: nat, ratio: real,
                     p: nat, kind: PageType)
    requires l.Valid() && |slots| == l.pages && Ordered(PageHits(l, draws), order) && p < l.pages
    requires CountsSlots(l, draws, p, slots[p])
    requires Labelled(PageHits(l, draws), slots, order, hotCount, ratio, p, kind)
    ensures kind == SKEW <==> p in SkewPages(l, draws, order, hotCount, ratio)
    ensures kind == COLD <==> p in ColdPages(l, draws, order, hotCount, ratio)
  {
    if PageHits(l, draws)[p] > 0 {
      MaxHitExists(slots[p]);
      var x: nat :| IsMaxHit(slots[p], x);
      MaxDecides(l, draws, ratio, p, slots[p], x, PageHits(l, draws)[p]);
      RatioTimes(x, PageHits(l, draws)[p], ratio);
    }
  }

  /** The totals of the two other labels, in terms of the draws. */
  lemma OtherTotals(l: Layout, draws: seq<nat>, slots: seq<map<nat, nat>>, order: seq<nat>, hotCount: nat, ratio: real,
                    types: seq<PageType>)
    requires l.Valid() && |slots| == |types| == l.pages && Ordered(PageHits(l, draws), order)
    requires forall p :: 0 <= p < l.pages ==> CountsSlots(l, draws, p, slots[p])
    requires forall p :: 0 <= p < l.pages ==> Labelled(PageHits(l, draws), slots, order, hotCount, ratio, p, types[p])
    ensures PagesOf(types, SKEW, l.pages) == SkewPages(l, draws, order, hotCount, ratio)
    ensures PagesOf(types, COLD, l.pages) == ColdPages(l, draws, order, hotCount, ratio)
  {
    forall p | 0 <= p < l.pages
      ensures types[p] == SKEW <==> p in SkewPages(l, draws, order, hotCount, ratio)
      ensures types[p] == COLD <==> p in ColdPages(l, draws, order, hotCount, ratio)
    {
      LabelByDraws(l, draws, slots, order, hotCount, ratio, p, types[p]);
    }
  }

  /** Number and traffic of a set of pages. */
  ghost function TotalsOf(hits: seq<nat>, s: set<nat>): Totals
    requires forall p :: p in s ==> p < |hits|
  {
    Totals(|s|, Traffic(hits, s))
  }

  /** The whole program, whatever is drawn and however ties are broken: the labels split the pages and
      the samples among them, HOT is a best choice of its size, and SKEW and COLD tell concentrated pages
      from the others. */
  method Run(l: Layout, draws: seq<nat>, order: seq<nat>, hotPercent: real, ratio: real)
    returns (hot: Totals, skew: Totals, cold: Totals)
    requires l.Valid() && 0.0 <= hotPercent <= 100.0 && Ordered(PageHits(l, draws), order)
    ensures var hits, k := PageHits(l, draws), HotCount(l.pages, hotPercent);
            && hot == TotalsOf(hits, HotPages(hits, order, k))
            && skew == TotalsOf(hits, SkewPages(l, draws, order, k, ratio))
            && cold == TotalsOf(hits, ColdPages(l, draws, order, k, ratio))
    ensures hot.pages + skew.pages + cold.pages == l.pages
    ensures hot.traffic + skew.traffic + cold.traffic == |draws|
    ensures hot.pages == Min(HotCount(l.pages, hotPercent), |ActivePages(PageHits(l, draws))|)
    ensures forall s: set<nat> {:trigger Traffic(PageHits(l, draws), s)} ::
              (forall p :: p in s ==> p < l.pages) && |s| <= HotCount(l.pages, hotPercent) ==>
                Traffic(PageHits(l, draws), s) <= hot.traffic
  {
    var pageHits, slotHits := Sample(l, draws);
    var hits := pageHits[..];
    assert hits == PageHits(l, draws);
    var k := HotCount(l.pages, hotPercent);
    var types := Classify(hits, slotHits[..], order, k, ratio);
    hot, skew, cold := Aggregate(hits, types);
    SumHitsIs(l, draws, hits, |hits|);
    PagesAddUp(l, draws);
    HotTotals(hits, slotHits[..], order, k, ratio, types[..]);
    HotLabels(hits, slotHits[..], order, k, ratio, types[..]);
    OtherTotals(l, draws, slotHits[..], order, k, ratio, types[..]);
    TotalsOfPages(hits, types[..], HOT, |hits|);
    TotalsOfPages(hits, types[..], SKEW, |hits|);
    TotalsOfPages(hits, types[..], COLD, |hits|);
  }
}

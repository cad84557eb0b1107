/** The search filter and the two sorts of the catalog table, as functions on
    sequences of products (main.js:150-175, 233-279). */
module Query {
  import opened Wrappers
  import opened Text
  import opened Products

  /** The search term read from the search box: lower-cased, then trimmed
      (main.js:152, 269). */
  function SearchTerm(input: string): (r: string)
    ensures Trimmed(r) && |r| <= |input|
  {
    Trim(Lower(input))
  }

  /** The filter test of main.js:160: the lower-cased title contains the term. */
  predicate Matches(p: Product, term: string) {
    Contains(Lower(p.title), term)
  }

  /** Array.prototype.filter with that test: the matching products, in order. */
  function Filter(s: seq<Product>, term: string): (r: seq<Product>)
    ensures |r| <= |s|
    ensures forall x :: x in r ==> x in s && Matches(x, term)
  {
    if s == [] then []
    else (if Matches(s[0], term) then [s[0]] else []) + Filter(s[1..], term)
  }

  /** Filtering distributes over concatenation: relative order is kept. */
  lemma {:induction false} FilterConcat(a: seq<Product>, b: seq<Product>, term: string)
    ensures Filter(a + b, term) == Filter(a, term) + Filter(b, term)
  {
    if a == [] {
      assert a + b == b;
    } else {
      assert (a + b)[0] == a[0] && (a + b)[1..] == a[1..] + b;
      FilterConcat(a[1..], b, term);
    }
  }

  /** Each product occurs in the result as often as in the input when it
      matches, and not at all otherwise. */
  lemma {:induction false} FilterCount(s: seq<Product>, term: string, x: Product)
    ensures multiset(Filter(s, term))[x] == if Matches(x, term) then multiset(s)[x] else 0
  {
    if s != [] {
      FilterCount(s[1..], term, x);
      assert s == [s[0]] + s[1..];
    }
  }

  /** The result is a sub-multiset of the input. */
  lemma FilterSubMultiset(s: seq<Product>, term: string)
    ensures multiset(Filter(s, term)) <= multiset(s)
  {
    forall x {
      FilterCount(s, term, x);
    }
  }

  /** The empty term matches every title, so the branch of main.js:154-156
      that copies the whole list agrees with filtering. */
  lemma {:induction false} FilterEmptyTerm(s: seq<Product>)
    ensures Filter(s, "") == s
  {
    if s != [] {
      assert StartsWith(Lower(s[0].title), "");
      FilterEmptyTerm(s[1..]);
    }
  }

  /** The price used by the comparator; only called on products that have one. */
  function PriceKey(p: Product): int {
    match p.price
    case Some(v) => v
    case None => 0
  }

  predicate AllPriced(s: seq<Product>) {
    forall i :: 0 <= i < |s| ==> s[i].price.Some?
  }

  /** The comparator of each sort is negative: `x` must come before `y`.
      Price ascending is `a.price - b.price`, descending `b.price - a.price`;
      name ascending is `a.title.localeCompare(b.title)`, descending the
      reverse. */
  predicate Precedes(spec: SortSpec, x: Product, y: Product) {
    match spec.field
    case ByPrice =>
      if spec.direction == Asc then PriceKey(x) < PriceKey(y) else PriceKey(y) < PriceKey(x)
    case ByName =>
      if spec.direction == Asc then Less(x.title, y.title) else Less(y.title, x.title)
  }

  /** Every comparator is a strict weak order. */
  lemma PrecedesOrder(spec: SortSpec, x: Product, y: Product, z: Product)
    ensures !Precedes(spec, x, x)
    ensures Precedes(spec, x, y) ==> !Precedes(spec, y, x)
    ensures !Precedes(spec, x, y) && !Precedes(spec, y, z) ==> !Precedes(spec, x, z)
  {
    if spec.field == ByName {
      LessIrreflexive(x.title);
      if Less(x.title, y.title) {
        LessAsymmetric(x.title, y.title);
      }
      LessTotal(x.title, y.title);
      LessTotal(y.title, z.title);
      LessTotal(x.title, z.title);
      if Less(z.title, y.title) && Less(y.title, x.title) {
        LessTransitive(z.title, y.title, x.title);
      }
      if Less(x.title, y.title) && Less(y.title, z.title) {
        LessTransitive(x.title, y.title, z.title);
      }
      if Less(x.title, z.title) {
        LessAsymmetric(x.title, z.title);
      }
      if Less(z.title, x.title) {
        LessAsymmetric(z.title, x.title);
      }
    }
  }

  /** No element has to move in front of an earlier one. */
  predicate Sorted(spec: SortSpec, s: seq<Product>) {
    forall i, j :: 0 <= i < j < |s| ==> !Precedes(spec, s[j], s[i])
  }

  lemma SortedSnoc(spec: SortSpec, s: seq<Product>, y: Product)
    requires Sorted(spec, s)
    requires forall i :: 0 <= i < |s| ==> !Precedes(spec, y, s[i])
    ensures Sorted(spec, s + [y])
  {
  }

  /** One step of a stable insertion sort: `x` goes after every element it
      does not have to precede. */
  function Insert(spec: SortSpec, x: Product, s: seq<Product>): (r: seq<Product>)
    ensures multiset(r) == multiset(s) + multiset{x} && |r| == |s| + 1
  {
    if s == [] then [x]
    else
      var last := s[|s| - 1];
      var init := s[..|s| - 1];
      assert s == init + [last];
      if Precedes(spec, x, last) then Insert(spec, x, init) + [last] else s + [x]
  }

  /** Inserting into a sorted list gives a sorted list. */
  lemma {:induction false} InsertSorted(spec: SortSpec, x: Product, s: seq<Product>)
    requires Sorted(spec, s)
    ensures Sorted(spec, Insert(spec, x, s))
  {
    if s != [] {
      var last := s[|s| - 1];
      var init := s[..|s| - 1];
      assert s == init + [last];
      if Precedes(spec, x, last) {
        var r := Insert(spec, x, init);
        assert Sorted(spec, init);
        InsertSorted(spec, x, init);
        forall i | 0 <= i < |r|
          ensures !Precedes(spec, last, r[i])
        {
          assert r[i] in multiset(r);
          PrecedesOrder(spec, x, last, x);
        }
        SortedSnoc(spec, r, last);
      } else {
        forall i | 0 <= i < |s|
          ensures !Precedes(spec, x, s[i])
        {
          PrecedesOrder(spec, x, last, s[i]);
        }
        SortedSnoc(spec, s, x);
      }
    }
  }

  /** Array.prototype.sort with the comparator of `spec`. The sort is stable,
      so its result is that of this insertion sort. */
  function SortSeq(spec: SortSpec, s: seq<Product>): (r: seq<Product>)
    ensures multiset(r) == multiset(s) && |r| == |s|
    ensures Sorted(spec, r)
  {
    if s == [] then []
    else
      var init := s[..|s| - 1];
      var last := s[|s| - 1];
      assert s == init + [last];
      assert multiset(s) == multiset(init) + multiset{last};
      InsertSorted(spec, last, SortSeq(spec, init));
      Insert(spec, last, SortSeq(spec, init))
  }

  /** Neither of the two has to come before the other: the comparator
      returns 0 for them. */
  predicate Tie(spec: SortSpec, x: Product, y: Product) {
    !Precedes(spec, x, y) && !Precedes(spec, y, x)
  }

  /** The products of `s` that tie with `e`, in their order in `s`. */
  function TiedWith(spec: SortSpec, e: Product, s: seq<Product>): seq<Product> {
    if s == [] then []
    else (if Tie(spec, s[0], e) then [s[0]] else []) + TiedWith(spec, e, s[1..])
  }

  lemma {:induction false} TiedWithConcat(spec: SortSpec, e: Product, a: seq<Product>, b: seq<Product>)
    ensures TiedWith(spec, e, a + b) == TiedWith(spec, e, a) + TiedWith(spec, e, b)
  {
    if a == [] {
      assert a + b == b;
    } else {
      assert (a + b)[0] == a[0] && (a + b)[1..] == a[1..] + b;
      TiedWithConcat(spec, e, a[1..], b);
    }
  }

  /** Of two products one of which must precede the other, at most one
      ties with `e`. */
  lemma OneSideTies(spec: SortSpec, e: Product, x: Product, y: Product)
    requires Precedes(spec, x, y)
    ensures TiedWith(spec, e, [x]) == [] || TiedWith(spec, e, [y]) == []
  {
    PrecedesOrder(spec, x, e, y);
    assert [x][1..] == [] && [y][1..] == [];
  }

  /** The step of InsertKeepsTies where `x` goes in front of the last product. */
  lemma InsertBeforeLast(spec: SortSpec, e: Product, x: Product, init: seq<Product>, last: Product)
    requires Precedes(spec, x, last)
    requires TiedWith(spec, e, Insert(spec, x, init)) == TiedWith(spec, e, init) + TiedWith(spec, e, [x])
    ensures TiedWith(spec, e, Insert(spec, x, init) + [last]) == TiedWith(spec, e, init + [last]) + TiedWith(spec, e, [x])
  {
    var before, ofX, ofLast := TiedWith(spec, e, init), TiedWith(spec, e, [x]), TiedWith(spec, e, [last]);
    TiedWithConcat(spec, e, Insert(spec, x, init), [last]);
    TiedWithConcat(spec, e, init, [last]);
    OneSideTies(spec, e, x, last);
    assert before + ofX + ofLast == before + ofLast + ofX;
  }

  /** Inserting `x` puts it after every product that ties with `e`. */
  lemma {:induction false} InsertKeepsTies(spec: SortSpec, e: Product, x: Product, t: seq<Product>)
    ensures TiedWith(spec, e, Insert(spec, x, t)) == TiedWith(spec, e, t) + TiedWith(spec, e, [x])
  {
    if t != [] {
      var last := t[|t| - 1];
      var init := t[..|t| - 1];
      assert t == init + [last];
      if Precedes(spec, x, last) {
        InsertKeepsTies(spec, e, x, init);
        InsertBeforeLast(spec, e, x, init, last);
      } else {
        TiedWithConcat(spec, e, t, [x]);
      }
    }
  }

  /** The sort is stable: the products that tie with any `e` keep their
      relative order. */
  lemma {:induction false} SortStable(spec: SortSpec, e: Product, s: seq<Product>)
    ensures TiedWith(spec, e, SortSeq(spec, s)) == TiedWith(spec, e, s)
  {
    if s != [] {
      var init := s[..|s| - 1];
      var last := s[|s| - 1];
      assert s == init + [last];
      SortStable(spec, e, init);
      InsertKeepsTies(spec, e, last, SortSeq(spec, init));
      TiedWithConcat(spec, e, init, [last]);
    }
  }

  /** Sorting an already sorted list leaves it as it is. */
  lemma {:induction false} SortedIsFixed(spec: SortSpec, s: seq<Product>)
    requires Sorted(spec, s)
    ensures SortSeq(spec, s) == s
  {
    if s != [] {
      var init := s[..|s| - 1];
      assert Sorted(spec, init);
      SortedIsFixed(spec, init);
      assert s == init + [s[|s| - 1]];
      if init != [] {
        assert !Precedes(spec, s[|s| - 1], init[|init| - 1]);
      }
    }
  }

  /** Sorting an already sorted list again changes nothing more, as when the
      same sort button is pressed twice. A search re-sorts a fresh filter
      result in the full list's order, which this does not cover unless that
      list was itself sorted. */
  lemma SortIdempotent(spec: SortSpec, s: seq<Product>)
    ensures SortSeq(spec, SortSeq(spec, s)) == SortSeq(spec, s)
  {
    SortedIsFixed(spec, SortSeq(spec, s));
  }

  /** What Sorted means for each of the four buttons: prices non-decreasing
      or non-increasing, titles in order or in reverse order. */
  lemma SortedMeaning(spec: SortSpec, s: seq<Product>, i: int, j: int)
    requires Sorted(spec, s) && 0 <= i < j < |s|
    ensures spec == SortSpec(ByPrice, Asc) ==> PriceKey(s[i]) <= PriceKey(s[j])
    ensures spec == SortSpec(ByPrice, Desc) ==> PriceKey(s[i]) >= PriceKey(s[j])
    ensures spec == SortSpec(ByName, Asc) ==> s[i].title == s[j].title || Less(s[i].title, s[j].title)
    ensures spec == SortSpec(ByName, Desc) ==> s[i].title == s[j].title || Less(s[j].title, s[i].title)
  {
    LessTotal(s[i].title, s[j].title);
  }

  /** The same field in the other direction. */
  function Flip(spec: SortSpec): (r: SortSpec)
    ensures r.field == spec.field && r.direction != spec.direction
    ensures forall x, y :: Precedes(r, x, y) <==> Precedes(spec, y, x)
  {
    SortSpec(spec.field, if spec.direction == Asc then Desc else Asc)
  }

  function Reverse(s: seq<Product>): (r: seq<Product>)
    ensures |r| == |s|
    ensures forall i :: 0 <= i < |s| ==> r[i] == s[|s| - 1 - i]
  {
    if s == [] then [] else Reverse(s[1..]) + [s[0]]
  }

  lemma {:induction false} ReverseMultiset(s: seq<Product>)
    ensures multiset(Reverse(s)) == multiset(s)
  {
    if s != [] {
      ReverseMultiset(s[1..]);
      assert s == [s[0]] + s[1..];
    }
  }

  /** Reversing a sorted list sorts it the other way. */
  lemma ReverseSorted(spec: SortSpec, t: seq<Product>)
    requires Sorted(spec, t)
    ensures Sorted(Flip(spec), Reverse(t))
  {
    var r := Reverse(t);
    forall i, j | 0 <= i < j < |r|
      ensures !Precedes(Flip(spec), r[j], r[i])
    {
      assert r[j] == t[|t| - 1 - j] && r[i] == t[|t| - 1 - i];
    }
  }

  /** No two distinct products of `s` compare equal. */
  predicate Tieless(spec: SortSpec, s: seq<Product>) {
    forall x, y :: x in s && y in s && x != y ==> Precedes(spec, x, y) || Precedes(spec, y, x)
  }

  /** Two sorted arrangements of one multiset without ties start alike. */
  lemma SortedHeads(spec: SortSpec, a: seq<Product>, b: seq<Product>)
    requires Sorted(spec, a) && Sorted(spec, b)
    requires multiset(a) == multiset(b)
    requires Tieless(spec, a)
    requires a != []
    ensures b != [] && a[0] == b[0]
  {
    assert |b| == |multiset(b)| == |a|;
    assert a[0] in multiset(b) && b[0] in multiset(a);
    var k :| 0 <= k < |b| && b[k] == a[0];
    var m :| 0 <= m < |a| && a[m] == b[0];
    assert a[0] in a && b[0] in a;
  }

  /** Dropping the head keeps a list sorted and tieless, and takes the head
      out of its multiset. */
  lemma TailFacts(spec: SortSpec, a: seq<Product>)
    requires a != []
    ensures multiset(a[1..]) == multiset(a) - multiset{a[0]}
    ensures Sorted(spec, a) ==> Sorted(spec, a[1..])
    ensures Tieless(spec, a) ==> Tieless(spec, a[1..])
  {
    assert a == [a[0]] + a[1..];
    assert forall x :: x in a[1..] ==> x in a;
  }

  /** Without ties there is only one sorted arrangement of a multiset. */
  lemma {:induction false} SortedUnique(spec: SortSpec, a: seq<Product>, b: seq<Product>)
    requires Sorted(spec, a) && Sorted(spec, b)
    requires multiset(a) == multiset(b)
    requires Tieless(spec, a)
    ensures a == b
  {
    if a == [] {
      assert |b| == |multiset(b)| == 0;
    } else {
      SortedHeads(spec, a, b);
      TailFacts(spec, a);
      TailFacts(spec, b);
      SortedUnique(spec, a[1..], b[1..]);
      assert a == [a[0]] + a[1..] && b == [b[0]] + b[1..];
    }
  }

  /** Having no ties is a property of the multiset, and of either direction. */
  lemma TielessMoves(spec: SortSpec, a: seq<Product>, b: seq<Product>)
    requires multiset(a) == multiset(b) && Tieless(spec, a)
    ensures Tieless(spec, b) && Tieless(Flip(spec), b)
  {
    forall x, y | x in b && y in b && x != y
      ensures Precedes(spec, x, y) || Precedes(spec, y, x)
    {
      assert x in multiset(a) && y in multiset(a);
    }
  }

  /** Sorting ascending and then descending by the same field reverses the
      ascending order, when no two products tie. */
  lemma DescendingReversesAscending(field: SortField, s: seq<Product>)
    requires Tieless(SortSpec(field, Asc), s)
    ensures SortSeq(SortSpec(field, Desc), SortSeq(SortSpec(field, Asc), s))
      == Reverse(SortSeq(SortSpec(field, Asc), s))
  {
    var asc := SortSpec(field, Asc);
    var desc := SortSpec(field, Desc);
    assert Flip(asc) == desc;
    var t := SortSeq(asc, s);
    var u := SortSeq(desc, t);
    ReverseSorted(asc, t);
    ReverseMultiset(t);
    TielessMoves(asc, s, u);
    SortedUnique(desc, u, Reverse(t));
  }

  /** The order filterProducts leaves: the sort in force, if any, applied to
      the filtered list. */
  function Arranged(sort: Option<SortSpec>, s: seq<Product>): (r: seq<Product>)
    ensures multiset(r) == multiset(s)
    ensures sort.Some? ==> Sorted(sort.value, r)
    ensures sort.None? ==> r == s
  {
    match sort
    case None => s
    case Some(spec) => SortSeq(spec, s)
  }

  /** The list shown after a search holds exactly the matching products of
      the full list, each as often as there. */
  lemma ShownAreExactlyMatches(sort: Option<SortSpec>, s: seq<Product>, term: string, x: Product)
    ensures multiset(Arranged(sort, Filter(s, term)))[x] == if Matches(x, term) then multiset(s)[x] else 0
  {
    FilterCount(s, term, x);
  }
}

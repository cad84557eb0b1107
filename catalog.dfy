/** The view state of the catalog page and the operations that change it
    (main.js:8-12, 23-26, 150-279). The two product lists are arrays, so
    that `filteredProducts` can be the very array `allProducts` is, as it
    is right after a load. */
module Catalog {
  import opened Wrappers
  import opened Products
  import opened Query
  import Paging

  /** A fresh array holding `s`: what `[...list]` and `list.filter(...)` give. */
  method ArrayOf(s: seq<Product>) returns (a: array<Product>)
    ensures fresh(a) && a[..] == s
  {
    a := new Product[|s|](i requires 0 <= i < |s| => s[i]);
  }

  /** The products of `a` whose lower-cased title contains the search term,
      in their order, as a fresh array; with an empty term, a copy of `a`
      (main.js:152-163, and 265-274 where the copy is filtered). */
  method Matching(a: array<Product>, input: string) returns (b: array<Product>)
    ensures fresh(b)
    ensures b[..] == Filter(a[..], SearchTerm(input))
  {
    var term := SearchTerm(input);
    if term == "" {
      FilterEmptyTerm(a[..]);
      b := ArrayOf(a[..]);
    } else {
      b := ArrayOf(Filter(a[..], term));
    }
  }

  /** Array.prototype.sort with the comparator of `spec`, in place. */
  method SortInPlace(a: array<Product>, spec: SortSpec)
    modifies a
    ensures a[..] == SortSeq(spec, old(a[..]))
  {
    var sorted := SortSeq(spec, a[..]);
    forall i | 0 <= i < a.Length {
      a[i] := sorted[i];
    }
    assert a[..] == sorted;
  }

  class CatalogView {
    var allProducts: array<Product>
    var filteredProducts: array<Product>
    var currentPage: int
    var itemsPerPage: int
    var currentSort: Option<SortSpec>

    /** The page size is positive and the current page is a page of the
        shown list (page 1 when it is empty). */
    ghost predicate Valid()
      reads this
    {
      itemsPerPage > 0 && 1 <= currentPage <= Paging.Max(1, TotalPages())
    }

    function TotalPages(): nat
      reads this
      requires itemsPerPage > 0
    {
      Paging.TotalPages(filteredProducts.Length, itemsPerPage)
    }

    /** The rows displayPaginatedTable hands to displayTable (main.js:180-182):
        at most one page of the shown list, never empty unless the list is. */
    function ShownItems(): (r: seq<Product>)
      reads this, filteredProducts
      requires Valid()
      ensures |r| <= itemsPerPage
      ensures r == [] <==> filteredProducts.Length == 0
      ensures r == filteredProducts[Paging.Min((currentPage - 1) * itemsPerPage, filteredProducts.Length)
                                    ..Paging.Min(currentPage * itemsPerPage, filteredProducts.Length)]
    {
      Paging.CurrentPageShape(filteredProducts[..], itemsPerPage, currentPage);
      Paging.PageItems(filteredProducts[..], currentPage, itemsPerPage)
    }

    /** The previous button's `disabled` (main.js:200): set exactly when
        previousPage would do nothing. */
    function PrevButtonDisabled(): (r: bool)
      reads this
      requires Valid()
      ensures r <==> !(currentPage > 1)
    {
      Paging.PrevDisabled(currentPage)
    }

    /** The next button's `disabled` (main.js:201): set exactly when nextPage
        would do nothing. */
    function NextButtonDisabled(): (r: bool)
      reads this
      requires Valid()
      ensures r <==> !(currentPage < TotalPages())
    {
      Paging.NextDisabled(currentPage, TotalPages())
    }

    /** The initial state (main.js:8-12): two distinct empty lists, page 1,
        ten a page, no sort. */
    constructor ()
      ensures Valid() && fresh(allProducts) && fresh(filteredProducts)
      ensures allProducts != filteredProducts
      ensures allProducts[..] == [] && filteredProducts[..] == []
      ensures currentPage == 1 && itemsPerPage == 10 && currentSort == None
    {
      allProducts := new Product[0];
      filteredProducts := new Product[0];
      currentPage := 1;
      itemsPerPage := 10;
      currentSort := None;
    }

    /** The success branch of getAll (main.js:23-25): the fetched list becomes
        the full list and, as the same array, the shown list; page 1; the
        sort in force is kept. */
    method Load(fetched: seq<Product>)
      requires Valid()
      modifies this`allProducts, this`filteredProducts, this`currentPage
      ensures Valid() && fresh(allProducts)
      ensures allProducts[..] == fetched
      ensures filteredProducts == allProducts
      ensures currentPage == 1
    {
      allProducts := ArrayOf(fetched);
      filteredProducts := allProducts;
      currentPage := 1;
    }

    /** Load with the shown list a copy of the fetched one, as every other
        assignment to `filteredProducts` makes it. */
    method LoadDetached(fetched: seq<Product>)
      requires Valid()
      modifies this`allProducts, this`filteredProducts, this`currentPage
      ensures Valid() && fresh(allProducts) && fresh(filteredProducts)
      ensures allProducts[..] == fetched && filteredProducts[..] == fetched
      ensures filteredProducts != allProducts
      ensures currentPage == 1
    {
      allProducts := ArrayOf(fetched);
      filteredProducts := ArrayOf(allProducts[..]);
      currentPage := 1;
    }

    /** sortByPrice (main.js:233-245): sorts the shown array in place, which is
        the full list too while the two are one array. */
    method SortByPrice(direction: Direction)
      requires itemsPerPage > 0 && AllPriced(filteredProducts[..])
      modifies this`currentSort, this`currentPage, filteredProducts
      ensures Valid()
      ensures filteredProducts[..] == SortSeq(SortSpec(ByPrice, direction), old(filteredProducts[..]))
      ensures allProducts != filteredProducts ==> allProducts[..] == old(allProducts[..])
      ensures allProducts == filteredProducts ==> allProducts[..] == SortSeq(SortSpec(ByPrice, direction), old(allProducts[..]))
      ensures currentSort == Some(SortSpec(ByPrice, direction)) && currentPage == 1
    {
      ghost var allBefore := allProducts[..];
      currentSort := Some(SortSpec(ByPrice, direction));
      SortInPlace(filteredProducts, SortSpec(ByPrice, direction));
      currentPage := 1;
      if allProducts == filteredProducts {
        assert allProducts[..] == filteredProducts[..];
      } else {
        assert allProducts[..] == allBefore;
      }
    }

    /** sortByName (main.js:248-260), likewise by title. */
    method SortByName(direction: Direction)
      requires itemsPerPage > 0
      modifies this`currentSort, this`currentPage, filteredProducts
      ensures Valid()
      ensures filteredProducts[..] == SortSeq(SortSpec(ByName, direction), old(filteredProducts[..]))
      ensures allProducts != filteredProducts ==> allProducts[..] == old(allProducts[..])
      ensures allProducts == filteredProducts ==> allProducts[..] == SortSeq(SortSpec(ByName, direction), old(allProducts[..]))
      ensures currentSort == Some(SortSpec(ByName, direction)) && currentPage == 1
    {
      ghost var allBefore := allProducts[..];
      currentSort := Some(SortSpec(ByName, direction));
      SortInPlace(filteredProducts, SortSpec(ByName, direction));
      currentPage := 1;
      if allProducts == filteredProducts {
        assert allProducts[..] == filteredProducts[..];
      } else {
        assert allProducts[..] == allBefore;
      }
    }

    /** The re-sort at the end of a search (main.js:165-172): the sort in
        force, if any, is applied again to a shown list of its own. */
    method ReapplySort()
      requires itemsPerPage > 0 && allProducts != filteredProducts
      requires currentSort.Some? && currentSort.value.field == ByPrice ==> AllPriced(filteredProducts[..])
      modifies this`currentSort, this`currentPage, filteredProducts
      ensures filteredProducts[..] == Arranged(currentSort, old(filteredProducts[..]))
      ensures allProducts[..] == old(allProducts[..])
      ensures currentSort == old(currentSort)
      ensures currentSort.Some? ==> currentPage == 1
      ensures currentSort.None? ==> currentPage == old(currentPage)
    {
      if currentSort.Some? {
        var spec := currentSort.value;
        if spec.field == ByPrice {
          SortByPrice(spec.direction);
        } else {
          SortByName(spec.direction);
        }
      }
    }

    /** The first half of filterProducts (main.js:151-163): the shown list
        becomes a new array of the matching products. */
    method Search(input: string)
      modifies this`filteredProducts
      ensures fresh(filteredProducts)
      ensures filteredProducts[..] == Filter(allProducts[..], SearchTerm(input))
    {
      filteredProducts := Matching(allProducts, input);
    }

    /** filterProducts (main.js:150-175): a new shown list of the matching
        products of the current full list, re-sorted by the sort in force. */
    method FilterProducts(input: string)
      requires Valid()
      requires currentSort.Some? && currentSort.value.field == ByPrice ==>
        AllPriced(Filter(allProducts[..], SearchTerm(input)))
      modifies this`filteredProducts, this`currentSort, this`currentPage
      ensures Valid() && fresh(filteredProducts)
      ensures filteredProducts[..] == Arranged(currentSort, Filter(allProducts[..], SearchTerm(input)))
      ensures currentSort == old(currentSort) && currentPage == 1
    {
      Search(input);
      ReapplySort();
      currentPage := 1;
    }

    /** resetSort (main.js:263-279): no sort, and the shown list is the
        unsorted filter result for the search box's term. */
    method ResetSort(input: string)
      requires Valid()
      modifies this`filteredProducts, this`currentSort, this`currentPage
      ensures Valid() && fresh(filteredProducts)
      ensures filteredProducts[..] == Filter(allProducts[..], SearchTerm(input))
      ensures currentSort == None && currentPage == 1
    {
      currentSort := None;
      filteredProducts := Matching(allProducts, input);
      currentPage := 1;
    }

    /** previousPage (main.js:205-212). */
    method PreviousPage()
      requires Valid()
      modifies this`currentPage
      ensures Valid()
      ensures currentPage == if old(currentPage) > 1 then old(currentPage) - 1 else old(currentPage)
    {
      if currentPage > 1 {
        currentPage := currentPage - 1;
      }
    }

    /** nextPage (main.js:215-222). */
    method NextPage()
      requires Valid()
      modifies this`currentPage
      ensures Valid()
      ensures currentPage == if old(currentPage) < TotalPages() then old(currentPage) + 1 else old(currentPage)
    {
      var totalPages := TotalPages();
      if currentPage < totalPages {
        currentPage := currentPage + 1;
      }
    }

    /** changeItemsPerPage (main.js:225-230), with the parsed size as a parameter. */
    method ChangeItemsPerPage(size: int)
      requires Valid() && size > 0
      modifies this`itemsPerPage, this`currentPage
      ensures Valid()
      ensures itemsPerPage == size && currentPage == 1
    {
      itemsPerPage := size;
      currentPage := 1;
    }
  }

  /** An empty search box gives the empty search term. */
  lemma EmptyInputIsEmptyTerm()
    ensures SearchTerm("") == ""
  {
    assert Text.Lower("") == "";
  }

  /** Load, sort by name before any search, then reset the sort with an empty
      search box: because the shown list is the full list after a load, the
      sort reordered the full list too, and the reset shows the fetched
      products sorted, not in the order they were fetched. */
  method SortThenResetAfterLoad(fetched: seq<Product>, direction: Direction)
    returns (shown: seq<Product>, all: seq<Product>)
    ensures all == SortSeq(SortSpec(ByName, direction), fetched)
    ensures shown == all
  {
    var view := new CatalogView();
    view.Load(fetched);
    view.SortByName(direction);
    EmptyInputIsEmptyTerm();
    view.ResetSort("");
    FilterEmptyTerm(view.allProducts[..]);
    shown := view.filteredProducts[..];
    all := view.allProducts[..];
  }

  /** The same steps after LoadDetached: the reset shows the fetched order. */
  method SortThenResetAfterDetachedLoad(fetched: seq<Product>, direction: Direction)
    returns (shown: seq<Product>, all: seq<Product>)
    ensures all == fetched
    ensures shown == fetched
  {
    var view := new CatalogView();
    view.LoadDetached(fetched);
    view.SortByName(direction);
    EmptyInputIsEmptyTerm();
    view.ResetSort("");
    FilterEmptyTerm(view.allProducts[..]);
    shown := view.filteredProducts[..];
    all := view.allProducts[..];
  }

  /** Two products fetched as "b" then "a": sorting them by name ascending
      changes their order, so the reset after Load does not give back the
      fetched order. */
  lemma ResetLosesFetchedOrder()
    ensures var b := Product(1, "b", None, Some(1), Absent, Absent, Absent);
            var a := Product(2, "a", None, Some(2), Absent, Absent, Absent);
            SortSeq(SortSpec(ByName, Asc), [b, a]) == [a, b] != [b, a]
  {
    var b := Product(1, "b", None, Some(1), Absent, Absent, Absent);
    var a := Product(2, "a", None, Some(2), Absent, Absent, Absent);
    assert Text.Less(a.title, b.title);
    assert [b, a][..1] == [b];
    assert SortSeq(SortSpec(ByName, Asc), [b]) == [b];
  }

  /** Twenty-five products at ten a page: two presses of "next" reach page 3,
      which shows products 21 to 25, and a third press does nothing because
      the next button is disabled there. */
  method TwentyFiveProducts(fetched: seq<Product>)
    returns (page: int, shown: seq<Product>, nextDisabled: bool)
    requires |fetched| == 25
    ensures page == 3
    ensures shown == fetched[20..25]
    ensures nextDisabled
  {
    var view := new CatalogView();
    view.Load(fetched);
    Paging.TwentyFiveAtTen(fetched);
    view.NextPage();
    view.NextPage();
    view.NextPage();
    page := view.currentPage;
    shown := view.ShownItems();
    nextDisabled := view.NextButtonDisabled();
  }
}

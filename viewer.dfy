/** The integer state of the graphics-view PDF viewer: each page item's
    rotation and search-result cursor, the scene's map from page number to
    page item, and the viewer's current page and rotation. */
module GraphicsViewer {
  import opened Common
  import opened Rotation

  /** A search hit on a page, in page coordinates (`QRectF`). */
  datatype Rect = Rect(x: real, y: real, width: real, height: real)

  /** The pages of `doc` that the scene can show: those in range whose page
      object can be loaded. */
  function LoadablePages(doc: Document): set<int>
  {
    set p | 0 <= p < doc.numPages && p in doc.loadable
  }

  /** `getPageCount` of the scene and of the viewer: the document's page
      count, 0 without a document. */
  function PageCount(doc: Option<Document>): nat
  {
    if doc.Some? then doc.value.numPages else 0
  }

  /** `QGraphicsPDFPageItem`: one rendered page with its search highlights. */
  class PdfPageItem {
    var pageNumber: int
    var rotation: int
    var searchResults: seq<Rect>
    var currentSearchResultIndex: int

    /** The rotation is normalised and the cursor is -1 or a valid index. */
    ghost predicate Valid()
      reads this
    {
      && 0 <= rotation < 360
      && -1 <= currentSearchResultIndex < |searchResults|
    }

    constructor ()
      ensures Valid()
      ensures pageNumber == -1 && rotation == 0
      ensures searchResults == [] && currentSearchResultIndex == -1
    {
      pageNumber := -1;
      rotation := 0;
      searchResults := [];
      currentSearchResultIndex := -1;
    }

    /** `setPage`: stores the normalised rotation and, for a real page, takes
        over its number; `page` is the page's index or None for a null page. */
    method SetPage(page: Option<int>, degrees: int)
      requires Valid()
      modifies this`pageNumber, this`rotation
      ensures Valid()
      ensures rotation == Normalize(degrees)
      ensures pageNumber == if page.Some? then page.value else old(pageNumber)
    {
      rotation := Normalize(degrees);
      if page.Some? {
        pageNumber := page.value;
      }
    }

    /** `setRotation`: takes the normalised angle; the same angle is a no-op. */
    method SetRotation(degrees: int)
      requires Valid()
      modifies this`rotation
      ensures Valid()
      ensures rotation == Normalize(degrees)
    {
      var newRotation := Normalize(degrees);
      if newRotation != rotation {
        rotation := newRotation;
      }
    }

    /** `setSearchResults`: new hits, no current one. */
    method SetSearchResults(results: seq<Rect>)
      requires Valid()
      modifies this`searchResults, this`currentSearchResultIndex
      ensures Valid()
      ensures searchResults == results && currentSearchResultIndex == -1
    {
      searchResults := results;
      currentSearchResultIndex := -1;
    }

    /** `clearSearchHighlights`: no hits, no current one. */
    method ClearSearchHighlights()
      requires Valid()
      modifies this`searchResults, this`currentSearchResultIndex
      ensures Valid()
      ensures searchResults == [] && currentSearchResultIndex == -1
    {
      searchResults := [];
      currentSearchResultIndex := -1;
    }

    /** `setCurrentSearchResult`: accepts only an index of an existing hit. */
    method SetCurrentSearchResult(index: int)
      requires Valid()
      modifies this`currentSearchResultIndex
      ensures Valid()
      ensures 0 <= index < |searchResults| ==> currentSearchResultIndex == index
      ensures !(0 <= index < |searchResults|) ==> currentSearchResultIndex == old(currentSearchResultIndex)
    {
      if index >= 0 && index < |searchResults| {
        currentSearchResultIndex := index;
      }
    }
  }

  /** `QGraphicsPDFScene`: the page items of the open document, by page number. */
  class PdfScene {
    var document: Option<Document>
    var pageItems: map<int, PdfPageItem>
    var rotation: int

    /** Without a document there are no items; with one, every item sits under
        a loadable page of the document, carries that page's number and the
        scene's rotation, and keeps its own invariant. Since every item carries
        its key, no item is stored under two keys. */
    ghost predicate Valid()
      reads this, pageItems.Values
    {
      && 0 <= rotation < 360
      && (document.None? ==> pageItems == map[])
      && (forall k :: k in pageItems ==>
            && (document.Some? ==> 0 <= k < document.value.numPages && k in document.value.loadable)
            && pageItems[k].pageNumber == k
            && pageItems[k].rotation == rotation
            && pageItems[k].Valid())
    }

    constructor ()
      ensures Valid()
      ensures document == None && pageItems == map[] && rotation == 0
    {
      document := None;
      pageItems := map[];
      rotation := 0;
    }

    /** `getPageItem`: the item shown for a page, if any. In a valid scene
        an item is only found for a loadable page of the open document, and
        it carries that page's number and the scene's rotation. */
    function GetPageItem(page: int): (item: Option<PdfPageItem>)
      reads this, pageItems.Values
      ensures item.Some? <==> page in pageItems
      ensures Valid() && item.Some? ==>
                && item.value.pageNumber == page
                && item.value.rotation == rotation
                && document.Some? && page in LoadablePages(document.value)
      ensures Valid() && document.None? ==> item.None?
    {
      if page in pageItems then Some(pageItems[page]) else None
    }

    /** `addPage`: adds a fresh item for an in-range, loadable page that has
        none yet; anything else leaves the map as it was. */
    method AddPage(page: int)
      requires Valid()
      modifies this`pageItems
      ensures Valid()
      ensures var added := document.Some? && 0 <= page < document.value.numPages
                           && page !in old(pageItems) && page in document.value.loadable;
              && (added ==> page in pageItems && fresh(pageItems[page])
                            && pageItems == old(pageItems)[page := pageItems[page]]
                            && pageItems[page].searchResults == []
                            && pageItems[page].currentSearchResultIndex == -1)
              && (!added ==> pageItems == old(pageItems))
    {
      if document.None? || page < 0 || page >= document.value.numPages {
        return;
      }
      if page in pageItems {
        return;
      }
      if page !in document.value.loadable {
        return;
      }
      var item := new PdfPageItem();
      item.SetPage(Some(page), rotation);
      NormalizeCanonical(rotation);
      pageItems := pageItems[page := item];
    }

    /** `removePage`: drops the item of that page and no other. */
    method RemovePage(page: int)
      requires Valid()
      modifies this`pageItems
      ensures Valid()
      ensures pageItems == old(pageItems) - {page}
    {
      if page in pageItems {
        pageItems := pageItems - {page};
      }
    }

    /** `removeAllPages`: no items remain. */
    method RemoveAllPages()
      requires Valid()
      modifies this`pageItems
      ensures Valid()
      ensures pageItems == map[]
    {
      pageItems := map[];
    }

    /** `clearDocument`: no items and no document. */
    method ClearDocument()
      requires Valid()
      modifies this`pageItems, this`document
      ensures Valid()
      ensures pageItems == map[] && document == None
    {
      RemoveAllPages();
      document := None;
    }

    /** `setDocument`: replaces the document and adds one fresh item for every
        loadable page, in page order. */
    method SetDocument(doc: Option<Document>)
      requires Valid()
      modifies this`pageItems, this`document
      ensures Valid()
      ensures document == doc
      ensures doc.None? ==> pageItems == map[]
      ensures doc.Some? ==> pageItems.Keys == LoadablePages(doc.value)
      ensures doc.Some? && (forall p :: 0 <= p < doc.value.numPages ==> p in doc.value.loadable) ==>
                forall p :: p in pageItems <==> 0 <= p < doc.value.numPages
      ensures forall k :: k in pageItems ==>
                fresh(pageItems[k]) && pageItems[k].searchResults == []
                && pageItems[k].currentSearchResultIndex == -1
    {
      ClearDocument();
      document := doc;
      if doc.Some? {
        var i := 0;
        while i < doc.value.numPages
          invariant 0 <= i <= doc.value.numPages
          invariant Valid() && document == doc
          invariant pageItems.Keys == set p | 0 <= p < i && p in doc.value.loadable
          invariant forall k :: k in pageItems ==>
                      fresh(pageItems[k]) && pageItems[k].searchResults == []
                      && pageItems[k].currentSearchResultIndex == -1
        {
          AddPage(i);
          i := i + 1;
        }
      }
    }

    /** `setRotation`: takes the normalised angle and hands it to every item;
        the same angle is a no-op. The items keep their pages and search data. */
    method SetRotation(degrees: int)
      requires Valid()
      modifies this`rotation, pageItems.Values
      ensures Valid()
      ensures rotation == Normalize(degrees)
      ensures pageItems == old(pageItems)
      ensures forall k :: k in pageItems ==>
                && pageItems[k].searchResults == old(pageItems[k].searchResults)
                && pageItems[k].currentSearchResultIndex == old(pageItems[k].currentSearchResultIndex)
      ensures Normalize(degrees) == old(rotation) ==> forall k :: k in pageItems ==> unchanged(pageItems[k])
    {
      var newRotation := Normalize(degrees);
      if newRotation == rotation {
        return;
      }
      rotation := newRotation;
      var pending := pageItems.Keys;
      while pending != {}
        invariant pending <= pageItems.Keys
        invariant pageItems == old(pageItems) && rotation == newRotation
        invariant forall k :: k in pageItems ==>
                    && pageItems[k].pageNumber == k
                    && pageItems[k].Valid()
                    && pageItems[k].searchResults == old(pageItems[k].searchResults)
                    && pageItems[k].currentSearchResultIndex == old(pageItems[k].currentSearchResultIndex)
                    && pageItems[k].rotation == (if k in pending then old(rotation) else newRotation)
        decreases pending
      {
        HasElement(pending);
        var k :| k in pending;
        pageItems[k].SetRotation(newRotation);
        NormalizeCanonical(newRotation);
        pending := pending - {k};
      }
    }
  }

  /** `QGraphicsPDFViewer`: the current page and rotation over a scene it owns. */
  class PdfViewer {
    var scene: PdfScene
    var document: Option<Document>
    var currentPage: int
    var rotation: int

    /** The scene is valid and shows the viewer's document at the viewer's rotation. */
    ghost predicate Valid()
      reads this, scene, scene.pageItems.Values
    {
      && scene.Valid()
      && scene.document == document
      && scene.rotation == rotation
      && 0 <= rotation < 360
    }

    /** The current page is a page of the document, or 0 when there is none. */
    predicate PageInRange()
      reads this`document, this`currentPage
    {
      currentPage == 0 || 0 <= currentPage < PageCount(document)
    }

    constructor ()
      ensures Valid() && PageInRange() && fresh(scene)
      ensures document == None && currentPage == 0 && rotation == 0
    {
      scene := new PdfScene();
      document := None;
      currentPage := 0;
      rotation := 0;
    }

    /** `goToPage`: moves to a page of the open document; any other target,
        or no document, leaves the current page alone. */
    method GoToPage(page: int)
      modifies this`currentPage
      ensures document.Some? && 0 <= page < PageCount(document) ==> currentPage == page
      ensures !(document.Some? && 0 <= page < PageCount(document)) ==> currentPage == old(currentPage)
      ensures old(PageInRange()) ==> PageInRange()
    {
      if document.None? || page < 0 || page >= PageCount(document) {
        return;
      }
      currentPage := page;
    }

    /** `nextPage`: one page forward, nothing on the last page. */
    method NextPage()
      modifies this`currentPage
      ensures old(0 <= currentPage < PageCount(document) - 1) ==> currentPage == old(currentPage) + 1
      ensures old(currentPage >= PageCount(document) - 1) ==> currentPage == old(currentPage)
      ensures currentPage == old(currentPage) || currentPage == old(currentPage) + 1
      ensures old(PageInRange()) ==> PageInRange()
    {
      if currentPage < PageCount(document) - 1 {
        GoToPage(currentPage + 1);
      }
    }

    /** `previousPage`: one page back, nothing on the first page. */
    method PreviousPage()
      modifies this`currentPage
      ensures old(0 < currentPage < PageCount(document)) ==> currentPage == old(currentPage) - 1
      ensures old(currentPage <= 0) ==> currentPage == old(currentPage)
      ensures currentPage == old(currentPage) || currentPage == old(currentPage) - 1
      ensures old(PageInRange()) ==> PageInRange()
    {
      if currentPage > 0 {
        GoToPage(currentPage - 1);
      }
    }

    /** `firstPage`: page 0 of a non-empty document. */
    method FirstPage()
      modifies this`currentPage
      ensures currentPage == if PageCount(document) > 0 then 0 else old(currentPage)
      ensures old(PageInRange()) ==> PageInRange()
    {
      GoToPage(0);
    }

    /** `lastPage`: the last page of a non-empty document. */
    method LastPage()
      modifies this`currentPage
      ensures currentPage == if PageCount(document) > 0 then PageCount(document) - 1 else old(currentPage)
      ensures old(PageInRange()) ==> PageInRange()
    {
      GoToPage(PageCount(document) - 1);
    }

    /** `clearDocument`: empties the scene, drops the document, back to page 0. */
    method ClearDocument()
      requires Valid()
      modifies this`document, this`currentPage, scene`pageItems, scene`document
      ensures Valid() && PageInRange()
      ensures document == None && currentPage == 0 && scene.pageItems == map[]
    {
      scene.ClearDocument();
      document := None;
      currentPage := 0;
    }

    /** `setDocument`: clears, then shows every loadable page of the new
        document from page 0. */
    method SetDocument(doc: Option<Document>)
      requires Valid()
      modifies this`document, this`currentPage, scene`pageItems, scene`document
      ensures Valid() && PageInRange()
      ensures document == doc && currentPage == 0
      ensures doc.None? ==> scene.pageItems == map[]
      ensures doc.Some? ==> scene.pageItems.Keys == LoadablePages(doc.value)
    {
      ClearDocument();
      document := doc;
      if doc.Some? {
        scene.SetDocument(doc);
        currentPage := 0;
      }
    }

    /** `onScenePageClicked`: the clicked page becomes current, without a range
        check; a click on an item of the scene therefore stays in range. */
    method OnScenePageClicked(page: int)
      requires Valid()
      modifies this`currentPage
      ensures currentPage == page
      ensures page in scene.pageItems ==> PageInRange()
    {
      if page != currentPage {
        currentPage := page;
      }
    }

    /** `setRotation`: takes the normalised angle and passes it to the scene;
        the same angle is a no-op. */
    method SetRotation(degrees: int)
      requires Valid()
      modifies this`rotation, scene`rotation, scene.pageItems.Values
      ensures Valid()
      ensures rotation == Normalize(degrees)
      ensures scene.pageItems == old(scene.pageItems)
      ensures ItemsKeepSearchData(old(scene.pageItems))
      ensures Normalize(degrees) == old(rotation) ==> forall k :: k in scene.pageItems ==> unchanged(scene.pageItems[k])
    {
      var newRotation := Normalize(degrees);
      if newRotation != rotation {
        rotation := newRotation;
        scene.SetRotation(newRotation);
      }
    }

    /** Every item of `items` still has the search results and cursor it had
        before the call. */
    twostate predicate ItemsKeepSearchData(items: map<int, PdfPageItem>)
      reads items.Values
    {
      forall k :: k in items ==>
        && items[k].searchResults == old(items[k].searchResults)
        && items[k].currentSearchResultIndex == old(items[k].currentSearchResultIndex)
    }

    /** `rotateLeft`: 90 degrees counter-clockwise; quarter turns stay quarter turns. */
    method RotateLeft()
      requires Valid()
      modifies this`rotation, scene`rotation, scene.pageItems.Values
      ensures Valid()
      ensures rotation == Normalize(old(rotation) - 90) && rotation != old(rotation)
      ensures old(IsQuarterTurn(rotation)) ==> IsQuarterTurn(rotation)
      ensures scene.pageItems == old(scene.pageItems)
      ensures ItemsKeepSearchData(old(scene.pageItems))
    {
      if IsQuarterTurn(rotation) {
        QuarterTurnsClosed(rotation);
      }
      SetRotation(rotation - 90);
    }

    /** `rotateRight`: 90 degrees clockwise; quarter turns stay quarter turns. */
    method RotateRight()
      requires Valid()
      modifies this`rotation, scene`rotation, scene.pageItems.Values
      ensures Valid()
      ensures rotation == Normalize(old(rotation) + 90) && rotation != old(rotation)
      ensures old(IsQuarterTurn(rotation)) ==> IsQuarterTurn(rotation)
      ensures scene.pageItems == old(scene.pageItems)
      ensures ItemsKeepSearchData(old(scene.pageItems))
    {
      if IsQuarterTurn(rotation) {
        QuarterTurnsClosed(rotation);
      }
      SetRotation(rotation + 90);
    }

    /** `resetRotation`: back to 0 degrees. */
    method ResetRotation()
      requires Valid()
      modifies this`rotation, scene`rotation, scene.pageItems.Values
      ensures Valid()
      ensures rotation == 0
      ensures scene.pageItems == old(scene.pageItems)
      ensures ItemsKeepSearchData(old(scene.pageItems))
      ensures old(rotation) == 0 ==> forall k :: k in scene.pageItems ==> unchanged(scene.pageItems[k])
    {
      SetRotation(0);
      NormalizeCanonical(0);
    }
  }
}

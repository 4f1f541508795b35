/**
 * The earlier version of the page navigator and its label-table pages: the
 * placeholder text is `"###"`, titles and units are fixed (no language), the
 * captions are the data keys themselves, and clearing the display removes
 * all of its pages.
 */
module SerialPagesOld {
  import opened Labels
  import opened Navigation

  /** The text a value label shows when there is no data. */
  const OCC := "###"

  /** The fixed title of a page. */
  function OldTitle(kind: PageKind): string {
    match kind
    case NowWeather => "Now Weather"
    case Air => "Air Quality"
    case Wind => "Wind"
    case SunMoon => "Sun & Moon"
  }

  /** The fixed unit suffixes of a page, one per key. */
  function OldUnits(kind: PageKind): (r: seq<string>)
    ensures |r| == |Keys(kind)|
  {
    match kind
    case NowWeather => ["%", "°C", "", "级", "百帕", "公里", "%"]
    case Air => ["", "", "", "μg/m³", "μg/m³", "μg/m³", "μg/m³", "mg/m³", "μg/m³"]
    case Wind => ["", "级", "km/h", "°"]
    case SunMoon => ["", "", "", "", ""]
  }

  /** One label-table page; `texts` holds what its value labels show. */
  class LabelPage {
    const kind: PageKind
    var title: string
    var units: seq<string>
    var texts: seq<string>

    ghost predicate Valid()
      reads this
    {
      title == OldTitle(kind) && units == OldUnits(kind) && |texts| == |Keys(kind)|
    }

    /** A new page shows the placeholder in every value label. */
    constructor (kind: PageKind)
      ensures Valid() && this.kind == kind
      ensures texts == Blank(|Keys(kind)|, OCC)
    {
      this.kind := kind;
      title := OldTitle(kind);
      units := OldUnits(kind);
      texts := Blank(|Keys(kind)|, OCC);
    }

    /** `clear`: every value label back to the placeholder. */
    method Clear()
      requires Valid()
      modifies this
      ensures Valid()
      ensures texts == Blank(|Keys(kind)|, OCC)
    {
      var keys := Keys(kind);
      var i := 0;
      while i < |keys|
        invariant 0 <= i <= |keys|
        invariant Valid()
        invariant forall j :: 0 <= j < i ==> texts[j] == OCC
      {
        texts := texts[i := OCC];
        i := i + 1;
      }
    }

    /** `update(**kwargs)`: clear, then write value plus unit key by key;
        `ok` is false when a key was missing (`KeyError`). */
    method Update(kwargs: map<string, string>) returns (ok: bool)
      requires Valid()
      modifies this
      ensures Valid()
      ensures texts == Shown(Keys(kind), OldUnits(kind), kwargs, OCC)
      ensures ok <==> forall k :: k in Keys(kind) ==> k in kwargs
    {
      Clear();
      var keys := Keys(kind);
      CompleteUpdate(keys, units, kwargs, OCC);
      var i := 0;
      while i < |keys|
        invariant 0 <= i <= |keys|
        invariant Valid()
        invariant forall j :: 0 <= j < i ==> keys[j] in kwargs
        invariant texts == Filled(keys, units, kwargs, OCC, i)
      {
        if keys[i] !in kwargs {
          FirstMissingAt(keys, kwargs, i);
          return false;
        }
        FilledStep(keys, units, kwargs, OCC, i);
        texts := texts[i := kwargs[keys[i]] + units[i]];
        i := i + 1;
      }
      FirstMissingAt(keys, kwargs, i);
      return true;
    }
  }

  /** `SerialDisplay` of the earlier version. */
  class SerialDisplay {
    var currentPage: int
    var pages: seq<LabelPage>
    var prevEnabled: bool
    var nextEnabled: bool
    var placed: set<LabelPage>

    /** The index is in range, the buttons follow the index, only the
        current page of the list is placed, and every page is well formed. */
    ghost predicate Valid()
      reads this, pages
    {
      InRange(currentPage, |pages|) &&
      prevEnabled == PrevEnabled(currentPage) &&
      nextEnabled == NextEnabled(currentPage, |pages|) &&
      OnlyCurrentPlaced(placed, pages, currentPage) &&
      forall p :: p in pages ==> p.Valid()
    }

    /** A new display has no pages and index 0. */
    constructor ()
      ensures Valid()
      ensures pages == [] && currentPage == 0
      ensures !prevEnabled && nextEnabled && placed == {}
    {
      currentPage := 0;
      pages := [];
      placed := {};
      new;
      ShowCurrentPage();
    }

    /** `show_current_page`. */
    method ShowCurrentPage()
      requires InRange(currentPage, |pages|)
      modifies this
      ensures pages == old(pages) && currentPage == old(currentPage)
      ensures placed == Regrid(old(placed), pages, currentPage)
      ensures prevEnabled == PrevEnabled(currentPage) && nextEnabled == NextEnabled(currentPage, |pages|)
    {
      var i := 0;
      while i < |pages|
        invariant 0 <= i <= |pages|
        invariant pages == old(pages) && currentPage == old(currentPage)
        invariant placed == old(placed) - set p | p in pages[..i]
      {
        assert pages[..i + 1] == pages[..i] + [pages[i]];
        placed := placed - {pages[i]};
        i := i + 1;
      }
      assert pages[..i] == pages;
      if |pages| > 0 {
        placed := placed + {pages[currentPage]};
      }
      UpdateButtonState();
    }

    /** `add_page`. */
    method AddPage(page: LabelPage)
      requires Valid() && page.Valid()
      modifies this
      ensures Valid()
      ensures pages == old(pages) + [page] && currentPage == old(currentPage)
      ensures placed == Regrid(old(placed), pages, currentPage)
    {
      pages := pages + [page];
      ShowCurrentPage();
    }

    /** `show_previous_page`. */
    method ShowPreviousPage()
      requires Valid()
      modifies this
      ensures Valid()
      ensures pages == old(pages) && currentPage == Prev(old(currentPage))
      ensures placed == if old(currentPage) > 0 then Regrid(old(placed), pages, currentPage) else old(placed)
    {
      if currentPage > 0 {
        currentPage := currentPage - 1;
        ShowCurrentPage();
      }
      UpdateButtonState();
    }

    /** `show_next_page`. */
    method ShowNextPage()
      requires Valid()
      modifies this
      ensures Valid()
      ensures pages == old(pages) && currentPage == Next(old(currentPage), |pages|)
      ensures placed == if old(currentPage) < |pages| - 1 then Regrid(old(placed), pages, currentPage) else old(placed)
    {
      if currentPage < |pages| - 1 {
        currentPage := currentPage + 1;
        ShowCurrentPage();
      }
      UpdateButtonState();
    }

    /** `update_button_state`. */
    method UpdateButtonState()
      modifies this
      ensures pages == old(pages) && currentPage == old(currentPage) && placed == old(placed)
      ensures prevEnabled == PrevEnabled(currentPage) && nextEnabled == NextEnabled(currentPage, |pages|)
    {
      prevEnabled := currentPage != 0;
      nextEnabled := currentPage != |pages| - 1;
    }

    /** `clear` of this version: every page is removed and the index goes
        back to 0; the pages themselves are not cleared. */
    method Clear()
      requires Valid()
      modifies this
      ensures Valid()
      ensures pages == [] && currentPage == 0
      ensures placed == old(placed) && !prevEnabled && nextEnabled
    {
      pages := [];
      currentPage := 0;
      ShowCurrentPage();
    }
  }
}

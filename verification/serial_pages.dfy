/**
 * The page navigator of the weather window (`SerialDisplay`) and its
 * label-table pages, in the current version: the placeholder text is
 * `"---"`, pages carry a language, and clearing the display clears each page
 * but keeps the pages.
 */
module SerialPages {
  import opened LangDict
  import opened Labels
  import opened Navigation

  /** The text a value label shows when there is no data. */
  const OCC := "---"

  /** One label-table page: its title, captions and units follow its
      language, and `texts` holds what its value labels show. */
  class LabelPage {
    const kind: PageKind
    var language: Language
    var title: string
    var subtitles: seq<string>
    var units: seq<string>
    var texts: seq<string>

    ghost predicate Valid()
      reads this
    {
      title == Title(kind, language) && subtitles == Subtitles(kind, language) &&
      units == Units(kind, language) && |texts| == |Keys(kind)|
    }

    /** A new page shows the placeholder in every value label. */
    constructor (kind: PageKind, language: Language)
      ensures Valid()
      ensures this.kind == kind && this.language == language
      ensures texts == Blank(|Keys(kind)|, OCC)
    {
      this.kind := kind;
      this.language := language;
      title := Title(kind, language);
      subtitles := Subtitles(kind, language);
      units := Units(kind, language);
      texts := Blank(|Keys(kind)|, OCC);
    }

    /** `clear`: every value label back to the placeholder. */
    method Clear()
      requires Valid()
      modifies this
      ensures Valid() && language == old(language)
      ensures texts == Blank(|Keys(kind)|, OCC)
    {
      var keys := Keys(kind);
      var i := 0;
      while i < |keys|
        invariant 0 <= i <= |keys|
        invariant Valid() && language == old(language)
        invariant forall j :: 0 <= j < i ==> texts[j] == OCC
      {
        texts := texts[i := OCC];
        i := i + 1;
      }
    }

    /** `update(**kwargs)`: clear, then write value plus unit key by key.
        `ok` is false when a key was missing (`KeyError`), in which case the
        labels from that key on keep the placeholder. */
    method Update(kwargs: map<string, string>) returns (ok: bool)
      requires Valid()
      modifies this
      ensures Valid() && language == old(language)
      ensures texts == Shown(Keys(kind), units, kwargs, OCC)
      ensures ok <==> forall k :: k in Keys(kind) ==> k in kwargs
    {
      Clear();
      var keys := Keys(kind);
      CompleteUpdate(keys, units, kwargs, OCC);
      var i := 0;
      while i < |keys|
        invariant 0 <= i <= |keys|
        invariant Valid() && language == old(language)
        invariant forall j :: 0 <= j < i ==> keys[j] in kwargs
        invariant texts == Filled(keys, units, kwargs, OCC, i)
      {
        if keys[i] !in kwargs {
          FirstMissingAt(keys, kwargs, i);
          return false;
        }
        FilledStep(keys, units, kwargs, OCC, i);
        texts := texts[i := kwargs[keys[i]] + units[i]];
        i := i + 1;
      }
      FirstMissingAt(keys, kwargs, i);
      return true;
    }

    /** `set_language`: title, captions and units in the new language, and
        every value label back to the placeholder until the next update. */
    method SetLanguage(language: Language)
      requires Valid()
      modifies this
      ensures Valid() && this.language == language
      ensures texts == Blank(|Keys(kind)|, OCC)
    {
      this.language := language;
      title := Title(kind, language);
      subtitles := Subtitles(kind, language);
      units := Units(kind, language);
      var keys := Keys(kind);
      var i := 0;
      while i < |keys|
        invariant 0 <= i <= |keys|
        invariant Valid() && this.language == language
        invariant forall j :: 0 <= j < i ==> texts[j] == OCC
      {
        texts := texts[i := OCC];
        i := i + 1;
      }
    }
  }

  /** `SerialDisplay`: a list of pages with "<" and ">" buttons, showing the
      page at `currentPage`. `placed` is the set of pages put in the frame's
      grid. */
  class SerialDisplay {
    var language: Language
    var currentPage: int
    var pages: seq<LabelPage>
    var prevEnabled: bool
    var nextEnabled: bool
    var placed: set<LabelPage>

    /** The index is in range, the buttons follow the index, only the
        current page of the list is placed, and every page is well formed. */
    ghost predicate Valid()
      reads this, pages
    {
      InRange(currentPage, |pages|) &&
      prevEnabled == PrevEnabled(currentPage) &&
      nextEnabled == NextEnabled(currentPage, |pages|) &&
      OnlyCurrentPlaced(placed, pages, currentPage) &&
      forall p :: p in pages ==> p.Valid()
    }

    /** A new display has no pages and index 0; showing that (empty) page
        disables "<" and enables ">". */
    constructor (language: Language)
      ensures Valid()
      ensures this.language == language && pages == [] && currentPage == 0
      ensures !prevEnabled && nextEnabled && placed == {}
    {
      this.language := language;
      currentPage := 0;
      pages := [];
      placed := {};
      new;
      ShowCurrentPage();
    }

    /** `show_current_page`: take every page of the list off the grid, put
        the current one on, and set the buttons. */
    method ShowCurrentPage()
      requires InRange(currentPage, |pages|)
      modifies this
      ensures language == old(language) && pages == old(pages) && currentPage == old(currentPage)
      ensures placed == Regrid(old(placed), pages, currentPage)
      ensures prevEnabled == PrevEnabled(currentPage) && nextEnabled == NextEnabled(currentPage, |pages|)
    {
      var i := 0;
      while i < |pages|
        invariant 0 <= i <= |pages|
        invariant language == old(language) && pages == old(pages) && currentPage == old(currentPage)
        invariant placed == old(placed) - set p | p in pages[..i]
      {
        assert pages[..i + 1] == pages[..i] + [pages[i]];
        placed := placed - {pages[i]};
        i := i + 1;
      }
      assert pages[..i] == pages;
      if |pages| > 0 {
        placed := placed + {pages[currentPage]};
      }
      UpdateButtonState();
    }

    /** `add_page`: append the page and show the (unchanged) current page. */
    method AddPage(page: LabelPage)
      requires Valid() && page.Valid()
      modifies this
      ensures Valid()
      ensures language == old(language) && pages == old(pages) + [page] && currentPage == old(currentPage)
      ensures placed == Regrid(old(placed), pages, currentPage)
    {
      pages := pages + [page];
      ShowCurrentPage();
    }

    /** `show_previous_page`: one page back unless on the first. */
    method ShowPreviousPage()
      requires Valid()
      modifies this
      ensures Valid()
      ensures language == old(language) && pages == old(pages) && currentPage == Prev(old(currentPage))
      ensures placed == if old(currentPage) > 0 then Regrid(old(placed), pages, currentPage) else old(placed)
    {
      if currentPage > 0 {
        currentPage := currentPage - 1;
        ShowCurrentPage();
      }
      UpdateButtonState();
    }

    /** `show_next_page`: one page forward unless on the last. */
    method ShowNextPage()
      requires Valid()
      modifies this
      ensures Valid()
      ensures language == old(language) && pages == old(pages) && currentPage == Next(old(currentPage), |pages|)
      ensures placed == if old(currentPage) < |pages| - 1 then Regrid(old(placed), pages, currentPage) else old(placed)
    {
      if currentPage < |pages| - 1 {
        currentPage := currentPage + 1;
        ShowCurrentPage();
      }
      UpdateButtonState();
    }

    /** `update_button_state`: "<" disabled on index 0, ">" disabled on the
        last index. */
    method UpdateButtonState()
      modifies this
      ensures language == old(language) && pages == old(pages) && currentPage == old(currentPage)
      ensures placed == old(placed)
      ensures prevEnabled == PrevEnabled(currentPage) && nextEnabled == NextEnabled(currentPage, |pages|)
    {
      prevEnabled := currentPage != 0;
      nextEnabled := currentPage != |pages| - 1;
    }

    /** `clear`: clear every page; the list and the index stay. */
    method Clear()
      requires Valid()
      modifies this, set p | p in pages
      ensures Valid()
      ensures language == old(language) && pages == old(pages) && currentPage == old(currentPage)
      ensures placed == old(placed) && prevEnabled == old(prevEnabled) && nextEnabled == old(nextEnabled)
      ensures forall p :: p in pages ==> p.language == old(p.language) && p.texts == Blank(|Keys(p.kind)|, OCC)
    {
      var i := 0;
      while i < |pages|
        invariant 0 <= i <= |pages|
        invariant Valid()
        invariant language == old(language) && pages == old(pages) && currentPage == old(currentPage)
        invariant placed == old(placed) && prevEnabled == old(prevEnabled) && nextEnabled == old(nextEnabled)
        invariant forall p :: p in pages ==> p.language == old(p.language)
        invariant forall j :: 0 <= j < i ==> pages[j].texts == Blank(|Keys(pages[j].kind)|, OCC)
      {
        pages[i].Clear();
        i := i + 1;
      }
    }

    /** `delete_all_pages`: no pages and index 0. The page that was shown is
        not taken off the grid, as it is no longer in the list. */
    method DeleteAllPages()
      requires Valid()
      modifies this
      ensures Valid()
      ensures language == old(language) && pages == [] && currentPage == 0
      ensures placed == old(placed) && !prevEnabled && nextEnabled
    {
      pages := [];
      currentPage := 0;
      ShowCurrentPage();
    }

    /** `set_language`: the display's language, and each page's. */
    method SetLanguage(language: Language)
      requires Valid()
      modifies this, set p | p in pages
      ensures Valid()
      ensures this.language == language && pages == old(pages) && currentPage == old(currentPage)
      ensures placed == old(placed)
      ensures forall p :: p in pages ==> p.language == language && p.texts == Blank(|Keys(p.kind)|, OCC)
    {
      this.language := language;
      var i := 0;
      while i < |pages|
        invariant 0 <= i <= |pages|
        invariant Valid()
        invariant this.language == language && pages == old(pages) && currentPage == old(currentPage)
        invariant placed == old(placed)
        invariant forall j :: 0 <= j < i ==> pages[j].language == language && pages[j].texts == Blank(|Keys(pages[j].kind)|, OCC)
      {
        pages[i].SetLanguage(language);
        i := i + 1;
      }
    }
  }
}

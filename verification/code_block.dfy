/**
 * One code block tool instance: its block data, an abstract view of the
 * editing surface, and the language selector overlay (trigger button,
 * search field, list) with its open/closed state and its document listener.
 */
module CodeFlaskTool {
  import opened Options
  import opened Sequences
  import opened Catalog
  import opened ChooserList
  import opened Block

  /** Where a document pointer-down landed, relative to the selector. */
  datatype PointerTarget = InChooser | InButton | Elsewhere | NoTarget

  /** The trigger button's tooltip for a language. */
  function ButtonTitle(lang: string): string
  {
    "Language: " + lang
  }

  class CodeFlaskBlock {
    const readOnly: bool
    /** The grammar registry; it does not change during a session. */
    const registry: Registry
    /** The catalog this registry yields. */
    ghost const catalog: seq<string>

    // this.data
    var code: string
    var language: string
    var showLineNumbers: bool

    // the editing surface and the wrapper element
    var rendered: bool
    var editorCode: string
    var editorLanguage: string
    var height: Option<int>

    // the language selector
    var hasChooser: bool   // chooser, search field and list were built
    var hasButton: bool    // trigger button was built
    var isOpen: bool
    var query: string      // the search field's value
    var rows: seq<Row>     // the list's children
    ghost var rowsQuery: string    // the normalised query the rows were filtered by
    ghost var rowsMarked: string   // the language the rows were marked against
    var btnLabel: string
    var btnTitle: string
    var availableLanguages: Option<seq<string>>
    var removeListener: bool   // _removeLangChooserListeners is set
    var docListeners: nat      // pointer-down listeners of this block on the document

    ghost predicate CacheValid()
      reads this
    {
      && catalog == AvailableLanguages(registry)
      && (availableLanguages.Some? ==> availableLanguages.value == catalog)
    }

    ghost predicate Valid()
      reads this
    {
      && CacheValid()
      && docListeners == (if removeListener then 1 else 0)
      && (removeListener ==> hasChooser)
      && hasChooser == hasButton
      && (hasChooser ==> rendered && !readOnly)
      && (!hasChooser ==> !isOpen)
      && (hasChooser ==> rows == ListRows(catalog, rowsQuery, rowsMarked) && rowsQuery == NormalizeQuery(query))
      && (hasButton ==> btnLabel == language && btnTitle == ButtonTitle(language))
    }

    /** The constructor: block data with defaults, nothing rendered yet. */
    constructor (input: Input, readOnly: bool, registry: Registry)
      ensures Valid()
      ensures this.readOnly == readOnly && this.registry == registry
      ensures BlockData(code, language, showLineNumbers) == WithDefaults(input)
      ensures !rendered && !hasChooser && !isOpen
      ensures availableLanguages == None && !removeListener && docListeners == 0
    {
      this.readOnly := readOnly;
      this.registry := registry;
      var d := WithDefaults(input);
      code, language, showLineNumbers := d.code, d.language, d.showLineNumbers;
      catalog := AvailableLanguages(registry);
      rendered, editorCode, editorLanguage, height := false, "", "", None;
      hasChooser, hasButton, isOpen, query, rows, rowsQuery, rowsMarked := false, false, false, "", [], "", "";
      btnLabel, btnTitle := "", "";
      availableLanguages := None;
      removeListener, docListeners := false, 0;
    }

    /** `_getAvailableLanguages`: computes the catalog once, then returns the cached sequence. */
    method GetAvailableLanguages() returns (langs: seq<string>)
      requires CacheValid()
      modifies this`availableLanguages
      ensures CacheValid()
      ensures langs == AvailableLanguages(registry)
      ensures availableLanguages == Some(langs)
      ensures old(availableLanguages).Some? ==> langs == old(availableLanguages).value
    {
      if availableLanguages.Some? {
        return availableLanguages.value;
      }
      var raw := Candidates(registry);
      raw := SortByName(raw);
      availableLanguages := Some(raw);
      langs := raw;
    }

    /** `_renderLangChooserList`: rebuilds the list from the catalog and the current query. */
    method RenderList()
      requires CacheValid()
      modifies this`rows, this`rowsQuery, this`rowsMarked, this`availableLanguages
      ensures CacheValid()
      ensures hasChooser ==> rows == ListRows(AvailableLanguages(registry), NormalizeQuery(query), language)
      ensures hasChooser ==> rowsQuery == NormalizeQuery(query) && rowsMarked == language
      ensures !hasChooser ==> rows == old(rows) && rowsQuery == old(rowsQuery) && rowsMarked == old(rowsMarked)
    {
      if !hasChooser {
        return;
      }
      var q := NormalizeQuery(query);
      var langs := GetAvailableLanguages();
      rows := BuildRows(langs, q, language);
      rowsQuery, rowsMarked := q, language;
    }

    /** `_installLangChooserCloseHandlers`: drops a previous listener, then adds one. */
    method InstallCloseHandlers()
      requires docListeners == (if removeListener then 1 else 0)
      modifies this`removeListener, this`docListeners
      ensures removeListener && docListeners == 1
    {
      if removeListener {
        docListeners := docListeners - 1;
        removeListener := false;
      }
      docListeners := docListeners + 1;
      removeListener := true;
    }

    /** `_buildLangChooser`: a closed chooser with an empty search field and the full list. */
    method BuildChooser()
      requires CacheValid()
      modifies this`hasChooser, this`isOpen, this`query, this`rows, this`rowsQuery, this`rowsMarked, this`availableLanguages
      ensures CacheValid()
      ensures hasChooser && !isOpen && query == ""
      ensures rows == ListRows(catalog, "", language) && rowsQuery == "" && rowsMarked == language
    {
      hasChooser := true;
      isOpen := false;
      query := "";
      assert NormalizeQuery(query) == "";
      RenderList();
    }

    /** `_buildLangButton`: the trigger shows the current language. */
    method BuildButton()
      modifies this`hasButton, this`btnLabel, this`btnTitle
      ensures hasButton && btnLabel == language && btnTitle == ButtonTitle(language)
    {
      hasButton := true;
      btnLabel := language;
      btnTitle := ButtonTitle(language);
    }

    /** The selector part of `render`: the chooser, the button, then the close handler. */
    method BuildSelector()
      requires Valid() && rendered && !readOnly
      modifies this`hasChooser, this`isOpen, this`query, this`rows, this`rowsQuery, this`rowsMarked, this`availableLanguages
      modifies this`hasButton, this`btnLabel, this`btnTitle, this`removeListener, this`docListeners
      ensures Valid()
      ensures hasChooser && hasButton && !isOpen && query == "" && rows == ListRows(catalog, "", language)
      ensures rowsMarked == language
      ensures btnLabel == language && btnTitle == ButtonTitle(language)
      ensures removeListener && docListeners == 1
    {
      BuildChooser();
      assert NormalizeQuery(query) == "";
      BuildButton();
      InstallCloseHandlers();
    }

    /**
     * `render`: builds the editing surface; outside read-only mode also the
     * chooser (closed, empty query, full list), the button and the listener.
     */
    method Render()
      requires Valid()
      modifies this`rendered, this`height, this`editorCode, this`editorLanguage
      modifies this`hasChooser, this`isOpen, this`query, this`rows, this`rowsQuery, this`rowsMarked, this`availableLanguages
      modifies this`hasButton, this`btnLabel, this`btnTitle, this`removeListener, this`docListeners
      ensures Valid()
      ensures rendered && editorCode == code && editorLanguage == language && height == None
      ensures hasChooser == !readOnly && !isOpen
      ensures !readOnly ==> query == "" && rows == ListRows(catalog, "", language)
      ensures !readOnly ==> btnLabel == language && btnTitle == ButtonTitle(language)
      ensures docListeners == (if readOnly then 0 else 1)
    {
      rendered := true;
      height := None;
      if !readOnly {
        BuildSelector();
      }
      editorCode := code;
      editorLanguage := language;
    }

    /** `_closeLangChooser`. */
    method Close()
      requires Valid()
      modifies this`isOpen
      ensures Valid()
      ensures !isOpen
    {
      if !hasChooser {
        return;
      }
      isOpen := false;
    }

    /** `_toggleLangChooser`: closes an open chooser; opens a closed one with an empty query and the full list. */
    method Toggle()
      requires Valid()
      modifies this`isOpen, this`query, this`rows, this`rowsQuery, this`rowsMarked, this`availableLanguages
      ensures Valid()
      ensures !hasChooser ==> isOpen == old(isOpen) && query == old(query) && rows == old(rows)
      ensures hasChooser && old(isOpen) ==> !isOpen && query == old(query) && rows == old(rows)
      ensures hasChooser && !old(isOpen) ==>
                isOpen && query == "" && rows == ListRows(AvailableLanguages(registry), "", language)
    {
      if !hasChooser || !hasButton {
        return;
      }
      if isOpen {
        Close();
        return;
      }
      isOpen := true;
      query := "";
      RenderList();
    }

    /** The search field's input event: the list is re-rendered for the new value. */
    method TypeQuery(value: string)
      requires Valid() && hasChooser
      modifies this`query, this`rows, this`rowsQuery, this`rowsMarked, this`availableLanguages
      ensures Valid()
      ensures query == value
      ensures rows == ListRows(AvailableLanguages(registry), NormalizeQuery(value), language)
    {
      query := value;
      RenderList();
    }

    /** The document pointer-down handler: closes only an open chooser, and only for a target outside it and the button. */
    method OnDocPointerDown(t: PointerTarget)
      requires Valid()
      modifies this`isOpen
      ensures Valid()
      ensures isOpen == (old(isOpen) && !(hasChooser && t == Elsewhere))
    {
      if !hasChooser || !hasButton {
        return;
      }
      if !isOpen {
        return;
      }
      if t == NoTarget {
        return;
      }
      if t == InChooser {
        return;
      }
      if t == InButton {
        return;
      }
      Close();
    }

    /** A pointer-down on the document reaches the handler only while the listener is installed. */
    method DocumentPointerDown(t: PointerTarget)
      requires Valid()
      modifies this`isOpen
      ensures Valid()
      ensures isOpen == (old(isOpen) && !(removeListener && t == Elsewhere))
    {
      if removeListener {
        OnDocPointerDown(t);
      }
    }

    /** `_updateLanguage`: sets the language, the button's label and title, and the editor's language. */
    method UpdateLanguage(lang: string)
      requires Valid() && rendered
      modifies this`language, this`btnLabel, this`btnTitle, this`editorLanguage
      ensures Valid()
      ensures language == lang && editorLanguage == lang
      ensures hasButton ==> btnLabel == lang && btnTitle == ButtonTitle(lang)
      ensures !hasButton ==> btnLabel == old(btnLabel) && btnTitle == old(btnTitle)
    {
      language := lang;
      if hasButton {
        btnLabel := language;
        btnTitle := ButtonTitle(language);
      }
      editorLanguage := language;
    }

    /** A click on a list item: selects its language and closes the chooser. */
    method SelectItem(lang: string)
      requires Valid() && hasChooser
      requires lang in Shown(rows)
      modifies this`language, this`btnLabel, this`btnTitle, this`editorLanguage, this`isOpen
      ensures Valid()
      ensures language == lang && editorLanguage == lang
      ensures btnLabel == lang && btnTitle == ButtonTitle(lang)
      ensures language in catalog
      ensures !isOpen
    {
      ListRowsShape(catalog, rowsQuery, rowsMarked);
      FilterCount(catalog, rowsQuery, lang);
      UpdateLanguage(lang);
      Close();
    }

    /** `_toggleLineNumbers`: flips the flag and nothing else. */
    method ToggleLineNumbers()
      modifies this`showLineNumbers
      ensures showLineNumbers == !old(showLineNumbers)
    {
      showLineNumbers := !showLineNumbers;
    }

    /** `onPaste`: a pasted element's text becomes the code, and the editor's once it exists. */
    method OnPaste(content: Option<string>)
      requires Valid()
      modifies this`code, this`editorCode
      ensures Valid()
      ensures content.None? ==> code == old(code) && editorCode == old(editorCode)
      ensures content.Some? ==> code == content.value
      ensures content.Some? && rendered ==> editorCode == content.value
      ensures content.Some? && !rendered ==> editorCode == old(editorCode)
    {
      if content.None? {
        return;
      }
      var text := content.value;
      code := text;
      if rendered {
        editorCode := code;
      }
    }

    /** An edit in the editor and its update notification: the wrapper's height follows the line count at once. */
    method EditCode(newCode: string)
      requires Valid() && rendered
      modifies this`editorCode, this`height
      ensures Valid()
      ensures editorCode == newCode
      ensures height == Some(EditorHeight(LineCount(newCode)))
    {
      editorCode := newCode;
      height := Some(EditorHeight(LineCount(newCode)));
    }

    /** `save`: the editor's code with the stored language and line-number flag. */
    method Save() returns (saved: BlockData)
      requires rendered
      ensures saved.code == editorCode
      ensures saved.language == language && saved.showLineNumbers == showLineNumbers
    {
      saved := BlockData(editorCode, language, showLineNumbers);
    }

    /** `destroy`: removes the listener if there is one; safe to call again. */
    method Destroy()
      requires Valid()
      modifies this`removeListener, this`docListeners
      ensures Valid()
      ensures !removeListener && docListeners == 0
    {
      if removeListener {
        docListeners := docListeners - 1;
        removeListener := false;
      }
    }
  }

  /** Saving right after rendering, without edits, returns the loaded data with its defaults. */
  method SaveAfterRender(input: Input, readOnly: bool, registry: Registry) returns (saved: BlockData)
    ensures saved == WithDefaults(input)
  {
    var block := new CodeFlaskBlock(input, readOnly, registry);
    block.Render();
    saved := block.Save();
  }

  /** Two calls of the catalog accessor give the same sorted catalog. */
  method CatalogIsCached(input: Input, registry: Registry) returns (first: seq<string>, second: seq<string>)
    ensures first == second
    ensures SortedByName(first)
  {
    var block := new CodeFlaskBlock(input, false, registry);
    first := block.GetAvailableLanguages();
    second := block.GetAvailableLanguages();
    CatalogSorted(registry, "");
  }

  /** Whatever was typed before, closing and reopening the chooser lists the whole catalog again. */
  method ReopenShowsCatalog(input: Input, registry: Registry, typed: string) returns (shownOnReopen: seq<string>)
    ensures shownOnReopen == AvailableLanguages(registry)
  {
    var block := new CodeFlaskBlock(input, false, registry);
    block.Render();
    block.Toggle();
    block.TypeQuery(typed);
    block.Toggle();
    block.Toggle();
    OpenListShowsCatalog(block.catalog, block.language);
    shownOnReopen := Shown(block.rows);
  }

  /** Picking the first language of the opened list sets it, labels the button with it and closes the chooser. */
  method OpenAndSelectFirst(input: Input, registry: Registry) returns (chosen: string, buttonText: string, nowOpen: bool)
    requires AvailableLanguages(registry) != []
    ensures chosen == AvailableLanguages(registry)[0] && buttonText == chosen && !nowOpen
  {
    var block := new CodeFlaskBlock(input, false, registry);
    block.Render();
    block.Toggle();
    OpenListShowsCatalog(block.catalog, block.language);
    block.SelectItem(Shown(block.rows)[0]);
    chosen, buttonText, nowOpen := block.language, block.btnLabel, block.isOpen;
  }

  /** Destroying twice leaves no listener, and a later pointer-down no longer closes an open chooser. */
  method DestroyIsIdempotent(input: Input, registry: Registry) returns (listeners: nat, stillOpen: bool)
    ensures listeners == 0 && stillOpen
  {
    var block := new CodeFlaskBlock(input, false, registry);
    block.Render();
    block.Toggle();
    block.Destroy();
    block.Destroy();
    block.DocumentPointerDown(Elsewhere);
    listeners, stillOpen := block.docListeners, block.isOpen;
  }

}

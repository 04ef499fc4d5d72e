/**
 The About dialog's documentation tabs. Opening the dialog appends one tab
 per documentation file and fills the selected one; every later selection of
 a tab fills it on first visit only. A tab is filled by adding one child view
 to it, and a tab that already has a child is never filled again.
 */
module AboutDialog {
  import opened LineEndings
  import opened Documents

  datatype Option<T> = None | Some(value: T)

  /**
   A tab page: its caption, its tag (the documentation file name; `None` is a
   null tag), its tooltip (the resolved full path) and its child controls.
   */
  datatype Page = Page(caption: string, tag: Option<string>, toolTip: string, controls: seq<View>)

  /** The documentation files, in the order their tabs are added. */
  const DocumentNames: seq<string> := ["changelog.md", "readme.md", "acknowledgements.md", "license.txt"]

  /** The page `AddReadme` creates: caption and tag are both the file name, and it has no child yet. */
  function ReadmePage(resolve: string -> string, fileName: string): Page
  {
    Page(fileName, Some(fileName), resolve(fileName), [])
  }

  /** The pages `AddReadme` creates for `names`, in order. */
  function ReadmePages(resolve: string -> string, names: seq<string>): (r: seq<Page>)
    ensures |r| == |names|
    ensures forall k :: 0 <= k < |names| ==> r[k] == ReadmePage(resolve, names[k])
  {
    if names == [] then [] else [ReadmePage(resolve, names[0])] + ReadmePages(resolve, names[1..])
  }

  /** The guard of `LoadDocumentForTab`: a page is given, it has no child control yet, and it has a tag. */
  predicate NeedsLoad(pages: seq<Page>, page: Option<nat>)
    requires page.Some? ==> page.value < |pages|
  {
    page.Some? && |pages[page.value].controls| == 0 && pages[page.value].tag.Some?
  }

  /** The pages after `LoadDocumentForTab(page)`: the guarded page gets the view of its document added. */
  function LoadPage(pages: seq<Page>, page: Option<nat>, resolve: string -> string, convert: string -> string, disk: Disk): seq<Page>
    requires page.Some? ==> page.value < |pages|
  {
    if NeedsLoad(pages, page) then
      var p := pages[page.value];
      pages[page.value := p.(controls := p.controls + [DocumentView(resolve, convert, disk, p.tag.value)])]
    else pages
  }

  /**
   A page that passes the guard receives exactly one child, the view of the
   document its tag names; its caption, tag and tooltip and every other page
   stay as they were.
   */
  lemma LoadFillsOnePage(pages: seq<Page>, i: nat, resolve: string -> string, convert: string -> string, disk: Disk)
    requires i < |pages|
    requires NeedsLoad(pages, Some(i))
    ensures var r := LoadPage(pages, Some(i), resolve, convert, disk);
      && |r| == |pages|
      && r[i].controls == [DocumentView(resolve, convert, disk, pages[i].tag.value)]
      && r[i].caption == pages[i].caption && r[i].tag == pages[i].tag && r[i].toolTip == pages[i].toolTip
      && (forall j :: 0 <= j < |pages| && j != i ==> r[j] == pages[j])
  {
    assert [] + [DocumentView(resolve, convert, disk, pages[i].tag.value)] == [DocumentView(resolve, convert, disk, pages[i].tag.value)];
  }

  /** A null page, a page without a tag, or a page that already has a child: nothing changes. */
  lemma LoadSkipsGuardedPage(pages: seq<Page>, page: Option<nat>, resolve: string -> string, convert: string -> string, disk: Disk)
    requires page.Some? ==> page.value < |pages|
    requires page.None? || pages[page.value].tag.None? || |pages[page.value].controls| > 0
    ensures LoadPage(pages, page, resolve, convert, disk) == pages
  {
  }

  /**
   Load once: a second load of the same page changes nothing, whatever the
   file system says by then, so the file is never read twice.
   */
  lemma LoadOnce(pages: seq<Page>, page: Option<nat>, resolve: string -> string, convert: string -> string, first: Disk, second: Disk)
    requires page.Some? ==> page.value < |pages|
    ensures var once := LoadPage(pages, page, resolve, convert, first);
      LoadPage(once, page, resolve, convert, second) == once
  {
    var once := LoadPage(pages, page, resolve, convert, first);
    if NeedsLoad(pages, page) {
      LoadFillsOnePage(pages, page.value, resolve, convert, first);
      assert !NeedsLoad(once, page);
    }
  }

  /** After a load, a tagged page has a child whether or not this call added it. */
  lemma LoadLeavesTaggedPageFilled(pages: seq<Page>, i: nat, resolve: string -> string, convert: string -> string, disk: Disk)
    requires i < |pages|
    requires pages[i].tag.Some?
    ensures |LoadPage(pages, Some(i), resolve, convert, disk)[i].controls| > 0
  {
    if NeedsLoad(pages, Some(i)) {
      LoadFillsOnePage(pages, i, resolve, convert, disk);
    }
  }

  /** The pages of a dialog that opened with an empty tab control. */
  function OpenedPages(resolve: string -> string, convert: string -> string, disk: Disk): seq<Page>
  {
    LoadPage(ReadmePages(resolve, DocumentNames), Some(0), resolve, convert, disk)
  }

  /**
   Once opened, the dialog has four tabs in the order changelog, readme,
   acknowledgements, license, each captioned and tagged with its file name,
   and only the first (selected) one holds its document.
   */
  lemma OpenedLayout(resolve: string -> string, convert: string -> string, disk: Disk)
    ensures var r := OpenedPages(resolve, convert, disk);
      && |r| == 4
      && (forall k :: 0 <= k < 4 ==>
            r[k].caption == DocumentNames[k] && r[k].tag == Some(DocumentNames[k]) && r[k].toolTip == resolve(DocumentNames[k]))
      && r[0].controls == [DocumentView(resolve, convert, disk, "changelog.md")]
      && (forall k :: 1 <= k < 4 ==> r[k].controls == [])
  {
    var pages := ReadmePages(resolve, DocumentNames);
    LoadFillsOnePage(pages, 0, resolve, convert, disk);
  }

  /**
   When each file name resolves to a path that ends in that name, the three
   `.md` documents are shown as HTML and the license as plain text.
   */
  lemma DocumentKinds(resolve: string -> string, convert: string -> string, text: string)
    requires forall k :: 0 <= k < |DocumentNames| ==> EndsWith(resolve(DocumentNames[k]), DocumentNames[k])
    ensures forall k :: 0 <= k < |DocumentNames| ==>
      (Render(resolve(DocumentNames[k]), text, convert).Html? <==> k < 3)
  {
    forall k | 0 <= k < |DocumentNames|
      ensures Render(resolve(DocumentNames[k]), text, convert).Html? <==> k < 3
    {
      var name := DocumentNames[k];
      var path := resolve(name);
      assert EndsWith(path, name);
      RenderByExtension(path, text, convert);
      assert path[|path| - 3..] == name[|name| - 3..];
    }
  }

  /** The About dialog: its tab control's pages and selected page, and its two outside collaborators. */
  class Dialog {
    /** The full path of a documentation file, resolved against the application's directory. */
    const resolve: string -> string
    /** The Markdown to HTML converter. */
    const convert: string -> string

    var pages: seq<Page>
    var selected: Option<nat>

    /** The selection is a page of the control, and there is one exactly when there are pages. */
    ghost predicate Valid()
      reads this
    {
      (selected.None? <==> pages == []) && (selected.Some? ==> selected.value < |pages|)
    }

    /** A dialog whose tab control has no pages yet. */
    constructor (resolve: string -> string, convert: string -> string)
      ensures Valid()
      ensures this.resolve == resolve && this.convert == convert
      ensures pages == [] && selected == None
    {
      this.resolve := resolve;
      this.convert := convert;
      pages := [];
      selected := None;
    }

    /** Appends the page of one documentation file; the first page of an empty control becomes selected. */
    method AddReadme(fileName: string)
      requires Valid()
      modifies this
      ensures Valid()
      ensures pages == old(pages) + [ReadmePage(resolve, fileName)]
      ensures selected == if old(selected).None? then Some(0) else old(selected)
    {
      pages := pages + [Page(fileName, Some(fileName), resolve(fileName), [])];
      if selected.None? {
        selected := Some(0);
      }
    }

    /** Fills `page` with the view of its document, unless it is null, untagged or already filled. */
    method LoadDocumentForTab(page: Option<nat>, disk: Disk)
      requires Valid()
      requires page.Some? ==> page.value < |pages|
      modifies this
      ensures Valid()
      ensures pages == LoadPage(old(pages), page, resolve, convert, disk)
      ensures selected == old(selected)
    {
      if page.Some? && |pages[page.value].controls| == 0 && pages[page.value].tag.Some? {
        var p := pages[page.value];
        var fullPath := resolve(p.tag.value);
        var text := if disk.fileExists(fullPath) then disk.read(fullPath) else Placeholder(fullPath);
        if IndexOf(text, LF) != -1 && IndexOf(text, CR) == -1 {
          text := ReplaceLf(text);
        }
        var view: View;
        if Extension(fullPath) == ".md" {
          view := Html(HtmlOpen + convert(text) + HtmlClose);
        } else {
          view := PlainText(text);
        }
        pages := pages[page.value := p.(controls := p.controls + [view])];
      }
    }

    /** Registers the four documentation tabs and fills the selected one; does nothing in design mode. */
    method OnLoad(designMode: bool, disk: Disk)
      requires Valid()
      modifies this
      ensures Valid()
      ensures designMode ==> pages == old(pages) && selected == old(selected)
      ensures !designMode ==>
        selected == (if old(selected).None? then Some(0) else old(selected))
        && pages == LoadPage(old(pages) + ReadmePages(resolve, DocumentNames), selected, resolve, convert, disk)
    {
      if !designMode {
        AddReadme("changelog.md");
        AddReadme("readme.md");
        AddReadme("acknowledgements.md");
        AddReadme("license.txt");
        assert pages == old(pages) + ReadmePages(resolve, DocumentNames);
        LoadDocumentForTab(selected, disk);
      }
    }

    /** The tab control's `Selecting` handler: fills the page about to be shown. */
    method Selecting(page: Option<nat>, disk: Disk)
      requires Valid()
      requires page.Some? ==> page.value < |pages|
      modifies this
      ensures Valid()
      ensures pages == LoadPage(old(pages), page, resolve, convert, disk)
      ensures selected == old(selected)
    {
      LoadDocumentForTab(page, disk);
    }
  }

  /** Creates the dialog and runs its load handler, as showing it does. */
  method ShowAboutDialog(resolve: string -> string, convert: string -> string, disk: Disk) returns (dialog: Dialog)
    ensures fresh(dialog) && dialog.Valid()
    ensures dialog.selected == Some(0)
    ensures dialog.pages == OpenedPages(resolve, convert, disk)
  {
    dialog := new Dialog(resolve, convert);
    dialog.OnLoad(false, disk);
  }
}

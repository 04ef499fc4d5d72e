/**
 What the About dialog shows for one documentation file: the text it loads
 (the file's contents, or a placeholder when the file is missing), line
 endings normalised, and a view chosen by the file's extension — an HTML
 view of the converted Markdown for `.md`, a read-only text box otherwise.
 */
module Documents {
  import opened LineEndings

  /** The file system as one load sees it: `File.Exists` and `File.ReadAllText`. */
  datatype Disk = Disk(fileExists: string -> bool, read: string -> string)

  /** The single child control a loaded tab holds. */
  datatype View =
    | Html(html: string)       // an HtmlPanel showing a whole HTML document
    | PlainText(text: string)  // a read-only, multi-line, word-wrapped TextBox

  predicate EndsWith(s: string, suffix: string)
  {
    |suffix| <= |s| && s[|s| - |suffix|..] == suffix
  }

  /** The characters that end a file name when scanning a path backwards. */
  predicate IsSeparator(c: char)
  {
    c == '\\' || c == '/' || c == ':'
  }

  /**
   `Path.GetExtension` scanning `path[..i]` backwards, where `path[i..]` holds
   neither a dot nor a separator: the text from the last dot to the end, or ""
   when a separator comes first, there is no dot, or the dot is the last character.
   */
  function ExtensionScan(path: string, i: nat): (ext: string)
    requires i <= |path|
    requires forall k :: i <= k < |path| ==> path[k] != '.' && !IsSeparator(path[k])
    ensures ext == "" || (|ext| >= 2 && ext[0] == '.' && |ext| <= |path| && ext == path[|path| - |ext|..])
    ensures forall k :: 1 <= k < |ext| ==> ext[k] != '.' && !IsSeparator(ext[k])
    decreases i
  {
    if i == 0 then ""
    else if path[i - 1] == '.' then (if i - 1 != |path| - 1 then path[i - 1..] else "")
    else if IsSeparator(path[i - 1]) then ""
    else ExtensionScan(path, i - 1)
  }

  /** .NET's `Path.GetExtension`. */
  function Extension(path: string): string
  {
    ExtensionScan(path, |path|)
  }

  /** `path[k]` is a dot that starts an extension: not the last character, and no dot or separator follows it. */
  predicate ExtensionAt(path: string, k: int)
  {
    0 <= k < |path| - 1 && path[k] == '.'
    && forall j :: k < j < |path| ==> path[j] != '.' && !IsSeparator(path[j])
  }

  /** The scan finds the extension that starts at `k` when it passes over `k`. */
  lemma {:induction false} ScanFinds(path: string, i: nat, k: int)
    requires i <= |path|
    requires forall j :: i <= j < |path| ==> path[j] != '.' && !IsSeparator(path[j])
    requires ExtensionAt(path, k) && k < i
    ensures ExtensionScan(path, i) == path[k..]
    decreases i
  {
    if i - 1 != k {
      ScanFinds(path, i - 1, k);
    }
  }

  /**
   The extension is the text from a dot to the end exactly when that dot is
   not the last character and no dot or separator follows it; otherwise it is "".
   */
  lemma ExtensionIff(path: string)
    ensures Extension(path) != "" <==> exists k :: ExtensionAt(path, k)
    ensures forall k :: ExtensionAt(path, k) ==> Extension(path) == path[k..]
  {
    forall k | ExtensionAt(path, k) ensures Extension(path) == path[k..] {
      ScanFinds(path, |path|, k);
    }
    var ext := Extension(path);
    if ext != "" {
      assert ExtensionAt(path, |path| - |ext|) by {
        forall j | |path| - |ext| < j < |path| ensures path[j] != '.' && !IsSeparator(path[j]) {
          assert path[j] == ext[j - (|path| - |ext|)];
        }
      }
    }
  }

  /** The extension is exactly `.md` (compared case-sensitively) if and only if the path ends in `.md`. */
  lemma MarkdownExtensionIff(path: string)
    ensures Extension(path) == ".md" <==> EndsWith(path, ".md")
  {
    var n := |path|;
    if EndsWith(path, ".md") {
      assert path[n - 1] == 'd' && path[n - 2] == 'm' && path[n - 3] == '.';
      assert Extension(path) == ExtensionScan(path, n - 1) == ExtensionScan(path, n - 2);
      assert ExtensionScan(path, n - 2) == path[n - 3..];
    }
  }

  /** A file name whose extension differs from `.md` only in letter case is not Markdown. */
  lemma UpperCaseMdIsNotMarkdown()
    ensures Extension("README.MD") == ".MD" != ".md"
  {
    assert ExtensionScan("README.MD", 9) == ExtensionScan("README.MD", 7) == "README.MD"[6..];
  }

  const PlaceholderPrefix: string := "Cannot find file '"
  const PlaceholderSuffix: string := "'"

  /** The text shown in place of a missing file. */
  function Placeholder(fullPath: string): (text: string)
    ensures |text| == |PlaceholderPrefix| + |fullPath| + |PlaceholderSuffix|
    ensures text[..|PlaceholderPrefix|] == PlaceholderPrefix
    ensures text[|text| - |PlaceholderSuffix|..] == PlaceholderSuffix
    ensures text[|PlaceholderPrefix|..|text| - |PlaceholderSuffix|] == fullPath
  {
    PlaceholderPrefix + fullPath + PlaceholderSuffix
  }

  /** A placeholder holds no line feed unless the path does, so normalisation keeps it. */
  lemma PlaceholderIsNormal(fullPath: string)
    requires LF !in fullPath
    ensures Normalize(Placeholder(fullPath)) == Placeholder(fullPath)
  {
    var text := Placeholder(fullPath);
    forall k | 0 <= k < |text| ensures text[k] != LF {
      if |PlaceholderPrefix| <= k < |PlaceholderPrefix| + |fullPath| {
        assert text[k] == fullPath[k - |PlaceholderPrefix|];
      }
    }
    NormalizeKeeps(text);
  }

  /** The text a load obtains: the file's contents when it exists, the placeholder otherwise. */
  function LoadText(disk: Disk, fullPath: string): string
  {
    if disk.fileExists(fullPath) then disk.read(fullPath) else Placeholder(fullPath)
  }

  const HtmlOpen: string := "<html><body>"
  const HtmlClose: string := "</body></html>"

  /** `doc` is a whole HTML document with an explicit body element. */
  predicate IsWrapped(doc: string)
  {
    |HtmlOpen| + |HtmlClose| <= |doc|
    && doc[..|HtmlOpen|] == HtmlOpen
    && doc[|doc| - |HtmlClose|..] == HtmlClose
  }

  /** The markup inside the body element of a wrapped document. */
  function BodyOf(doc: string): string
    requires IsWrapped(doc)
  {
    doc[|HtmlOpen|..|doc| - |HtmlClose|]
  }

  /** An HTML fragment wrapped into a document, so that the HTML view finds a body element. */
  function Wrap(fragment: string): (doc: string)
    ensures IsWrapped(doc)
    ensures BodyOf(doc) == fragment
  {
    HtmlOpen + fragment + HtmlClose
  }

  /** The view a loaded text gets, chosen by the extension of its full path. */
  function Render(fullPath: string, text: string, convert: string -> string): View
  {
    if Extension(fullPath) == ".md" then Html(Wrap(convert(text))) else PlainText(text)
  }

  /**
   `Render` gives an HTML view exactly for paths ending in `.md`; that view's
   body is the converted text, and every other path shows the text unchanged.
   */
  lemma RenderByExtension(fullPath: string, text: string, convert: string -> string)
    ensures Render(fullPath, text, convert).Html? <==> EndsWith(fullPath, ".md")
    ensures Render(fullPath, text, convert).PlainText? ==> Render(fullPath, text, convert).text == text
    ensures Render(fullPath, text, convert).Html? ==>
      IsWrapped(Render(fullPath, text, convert).html) && BodyOf(Render(fullPath, text, convert).html) == convert(text)
  {
    MarkdownExtensionIff(fullPath);
  }

  /** The whole loading pipeline for one file name. */
  function DocumentView(resolve: string -> string, convert: string -> string, disk: Disk, fileName: string): View
  {
    var fullPath := resolve(fileName);
    Render(fullPath, Normalize(LoadText(disk, fullPath)), convert)
  }

  /**
   An existing file is shown with its own contents, line endings normalised:
   verbatim in a text view, or converted inside an HTML document for `.md`.
   */
  lemma ExistingFileView(resolve: string -> string, convert: string -> string, disk: Disk, fileName: string)
    requires disk.fileExists(resolve(fileName))
    ensures var v := DocumentView(resolve, convert, disk, fileName);
      var text := Normalize(disk.read(resolve(fileName)));
      && (v.Html? <==> EndsWith(resolve(fileName), ".md"))
      && (v.PlainText? ==> v.text == text)
      && (v.Html? ==> IsWrapped(v.html) && BodyOf(v.html) == convert(text))
  {
    RenderByExtension(resolve(fileName), Normalize(disk.read(resolve(fileName))), convert);
  }

  /**
   A missing file is not an error: its tab shows the placeholder naming the
   full path, as plain text, or converted as Markdown when the path ends in `.md`.
   */
  lemma MissingFileView(resolve: string -> string, convert: string -> string, disk: Disk, fileName: string)
    requires !disk.fileExists(resolve(fileName))
    requires LF !in resolve(fileName)
    ensures var v := DocumentView(resolve, convert, disk, fileName);
      var text := Placeholder(resolve(fileName));
      && (v.Html? <==> EndsWith(resolve(fileName), ".md"))
      && (v.PlainText? ==> v.text == text)
      && (v.Html? ==> IsWrapped(v.html) && BodyOf(v.html) == convert(text))
  {
    PlaceholderIsNormal(resolve(fileName));
    RenderByExtension(resolve(fileName), Placeholder(resolve(fileName)), convert);
  }
}

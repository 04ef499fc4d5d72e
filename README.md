# About dialog document tabs, in Dafny

A model of the documentation viewer in the Cyotek colour picker demo's About
dialog. When the dialog opens it appends four tabs — `changelog.md`,
`readme.md`, `acknowledgements.md`, `license.txt` — each captioned and tagged
with its file name, and fills the selected tab. Selecting a tab later fills it
on its first visit only. Filling a tab means:

- resolving the file name to a full path;
- reading the file, or, when it does not exist, using the text
  `Cannot find file '<full path>'` (no error is raised);
- rewriting every `\n` to `\r\n`, but only when the text has at least one `\n`
  and no `\r` at all;
- choosing the view by the full path's extension: exactly `.md` gives an HTML
  view of the converted Markdown wrapped in `<html><body>…</body></html>`, and
  anything else gives a read-only text box holding the text;
- adding that view as the tab's one child control.

Files:

- `line_endings.dfy` (module `LineEndings`): `IndexOf`, `ReplaceLf` (the
  `Replace("\n", "\r\n")`), its inverse `RemoveCr`, and `Normalize`, with the
  lemmas about them.
- `documents.dfy` (module `Documents`): `Extension` (after .NET's
  `Path.GetExtension`), `Placeholder`, `Wrap`, `Render` and the whole pipeline
  `DocumentView`; the file system is a `Disk` value (`fileExists`, `read`).
- `about_dialog.dfy` (module `AboutDialog`): tab pages as a `Page` datatype,
  the specification function `LoadPage` of the load-once guard with its lemmas,
  and the `Dialog` class whose methods `AddReadme`, `LoadDocumentForTab`,
  `OnLoad` and `Selecting` update its `pages` and `selected` fields.

The path resolution and the Markdown converter are the `Dialog`'s constant
fields `resolve` and `convert`, arbitrary functions fixed when the dialog is
made. The file system is passed to each load as a `Disk`.

The guard only checks that the page exists, its tag is not null and it has no
child control yet (`AboutDialog.cs:129`); an empty tag is loaded like any other.
That is what `NeedsLoad` states.

## Model

| member | source | states |
|---|---|---|
| `LineEndings.IndexOf` | Cyotek.Windows.Forms.ColorPicker.Demo/AboutDialog.cs:142 | The result is -1 exactly when the character is absent; otherwise it is an index holding the character with no earlier occurrence |
| `LineEndings.ReplaceLf` | Cyotek.Windows.Forms.ColorPicker.Demo/AboutDialog.cs:144 | The ordinal `Replace("\n", "\r\n")`; pinned down by `RemoveCrUndoesReplaceLf`, `ReplaceLfNoBareLf`, `ReplaceLfCrOnlyBeforeLf` and `ReplaceLfCounts` |
| `LineEndings.ReplaceLfCounts` | Cyotek.Windows.Forms.ColorPicker.Demo/AboutDialog.cs:144 | The rewrite keeps every `\n`, adds one `\r` per `\n`, and the text grows by the number of `\n` |
| `LineEndings.ReplaceLfNoBareLf` | Cyotek.Windows.Forms.ColorPicker.Demo/AboutDialog.cs:144 | After the rewrite every `\n` has a `\r` immediately before it |
| `LineEndings.ReplaceLfCrOnlyBeforeLf` | Cyotek.Windows.Forms.ColorPicker.Demo/AboutDialog.cs:144 | On text without `\r`, every `\r` in the result is immediately followed by `\n` |
| `LineEndings.RemoveCr` | Cyotek.Windows.Forms.ColorPicker.Demo/AboutDialog.cs:144 | The inverse used to state the rewrite: the result has no `\r` and is shorter by the number of `\r` |
| `LineEndings.RemoveCrUndoesReplaceLf` | Cyotek.Windows.Forms.ColorPicker.Demo/AboutDialog.cs:144 | Round trip: dropping the `\r` again gives back any text that had none, so the rewrite only inserts `\r` before each `\n` |
| `LineEndings.Normalize` | Cyotek.Windows.Forms.ColorPicker.Demo/AboutDialog.cs:142-145 | The conditional rewrite; its behaviour is stated by `NormalizeRewritesBareLf`, `NormalizeKeeps`, `NormalizeIdempotent` and `NormalizeOnlyAddsCr` |
| `LineEndings.NormalizeRewritesBareLf` | Cyotek.Windows.Forms.ColorPicker.Demo/AboutDialog.cs:142-145 | With at least one `\n` and no `\r`, the text is the input with `\r` inserted exactly before each `\n`, with no bare `\n`, and longer by the number of `\n` |
| `LineEndings.NormalizeKeeps` | Cyotek.Windows.Forms.ColorPicker.Demo/AboutDialog.cs:142 | Text holding any `\r`, or no `\n`, is returned unchanged |
| `LineEndings.NormalizeIdempotent` | Cyotek.Windows.Forms.ColorPicker.Demo/AboutDialog.cs:142-145 | A second normalisation changes nothing |
| `LineEndings.NormalizeOnlyAddsCr` | Cyotek.Windows.Forms.ColorPicker.Demo/AboutDialog.cs:142-145 | Normalisation loses no character: both sides agree once `\r` is dropped |
| `LineEndings.MixedTextKeepsBareLf` | Cyotek.Windows.Forms.ColorPicker.Demo/AboutDialog.cs:142 | A text with a `\r\n` and also a bare `\n` is left as it is and keeps its bare `\n` |
| `Documents.ExtensionScan` | Cyotek.Windows.Forms.ColorPicker.Demo/AboutDialog.cs:147 | The extension is empty or a suffix of the path of length at least 2 that starts with `.` and holds no other dot and no separator |
| `Documents.Extension` | Cyotek.Windows.Forms.ColorPicker.Demo/AboutDialog.cs:147 | `Path.GetExtension` of the full path; characterised by `ExtensionIff` and `MarkdownExtensionIff` |
| `Documents.ScanFinds` | Cyotek.Windows.Forms.ColorPicker.Demo/AboutDialog.cs:147 | The backward scan returns the text from a dot to the end whenever no dot or separator follows that dot and it is not the last character |
| `Documents.ExtensionIff` | Cyotek.Windows.Forms.ColorPicker.Demo/AboutDialog.cs:147 | The extension is non-empty exactly when some dot is followed by at least one character and by no dot or separator, and it is then the text from that dot to the end |
| `Documents.MarkdownExtensionIff` | Cyotek.Windows.Forms.ColorPicker.Demo/AboutDialog.cs:147-149 | The extension is exactly `.md` if and only if the path ends in `.md` |
| `Documents.UpperCaseMdIsNotMarkdown` | Cyotek.Windows.Forms.ColorPicker.Demo/AboutDialog.cs:149 | The comparison is case-sensitive: `README.MD` has extension `.MD`, not `.md` |
| `Documents.Placeholder` | Cyotek.Windows.Forms.ColorPicker.Demo/AboutDialog.cs:140 | The missing-file text starts with `Cannot find file '`, ends with `'`, and holds exactly the full path between them, so the path can be read back from it |
| `Documents.LoadText` | Cyotek.Windows.Forms.ColorPicker.Demo/AboutDialog.cs:140 | The file's contents when it exists, the placeholder otherwise; stated per case by `ExistingFileView` and `MissingFileView` |
| `Documents.PlaceholderIsNormal` | Cyotek.Windows.Forms.ColorPicker.Demo/AboutDialog.cs:140-145 | For a path without `\n`, normalisation leaves the placeholder unchanged |
| `Documents.Wrap` | Cyotek.Windows.Forms.ColorPicker.Demo/AboutDialog.cs:154 | The wrapped text is a whole document with a body element whose contents are exactly the fragment |
| `Documents.Render` | Cyotek.Windows.Forms.ColorPicker.Demo/AboutDialog.cs:147-167 | The view chosen by extension; stated by `RenderByExtension` |
| `Documents.RenderByExtension` | Cyotek.Windows.Forms.ColorPicker.Demo/AboutDialog.cs:147-167 | An HTML view exactly when the path ends in `.md`, its body being the converted text; otherwise a text view holding the text unchanged |
| `Documents.DocumentView` | Cyotek.Windows.Forms.ColorPicker.Demo/AboutDialog.cs:139-167 | The whole pipeline for one file name; stated by `ExistingFileView` and `MissingFileView` |
| `Documents.ExistingFileView` | Cyotek.Windows.Forms.ColorPicker.Demo/AboutDialog.cs:139-167 | For an existing file the view shows its normalised contents, verbatim or converted by extension |
| `Documents.MissingFileView` | Cyotek.Windows.Forms.ColorPicker.Demo/AboutDialog.cs:139-167 | For a missing file the view shows exactly `Cannot find file '<full path>'`, verbatim or converted by extension, without any error. It assumes the full path holds no line feed, which holds because `Path.GetFullPath` rejects control characters |
| `AboutDialog.ReadmePage` | Cyotek.Windows.Forms.ColorPicker.Demo/AboutDialog.cs:98-105 | The page of one file: caption and tag are the name, tooltip the full path, no child; listed in order by `ReadmePages` |
| `AboutDialog.ReadmePages` | Cyotek.Windows.Forms.ColorPicker.Demo/AboutDialog.cs:96-105 | One page per file name, in order, each with caption and tag equal to the name, the full path as tooltip, and no child |
| `AboutDialog.NeedsLoad` | Cyotek.Windows.Forms.ColorPicker.Demo/AboutDialog.cs:129 | The guard: a page is given, it has no child control and its tag is not null; its two outcomes are stated by `LoadFillsOnePage` and `LoadSkipsGuardedPage` |
| `AboutDialog.LoadPage` | Cyotek.Windows.Forms.ColorPicker.Demo/AboutDialog.cs:129-170 | The pages after one load; stated by `LoadFillsOnePage`, `LoadSkipsGuardedPage`, `LoadOnce` and `LoadLeavesTaggedPageFilled` |
| `AboutDialog.LoadFillsOnePage` | Cyotek.Windows.Forms.ColorPicker.Demo/AboutDialog.cs:129-170 | A page passing the guard gets exactly one child, the view of its document; its caption, tag and tooltip and all other pages are unchanged |
| `AboutDialog.LoadSkipsGuardedPage` | Cyotek.Windows.Forms.ColorPicker.Demo/AboutDialog.cs:129 | A null page, a null tag or a page that already has a child: no page changes |
| `AboutDialog.LoadOnce` | Cyotek.Windows.Forms.ColorPicker.Demo/AboutDialog.cs:129-170 | A second load of the same page changes nothing, whatever the file system then holds |
| `AboutDialog.LoadLeavesTaggedPageFilled` | Cyotek.Windows.Forms.ColorPicker.Demo/AboutDialog.cs:129-170 | After any load of a tagged page, that page has a child |
| `AboutDialog.OpenedPages` | Cyotek.Windows.Forms.ColorPicker.Demo/AboutDialog.cs:64-69 | The pages of a freshly opened dialog; stated by `OpenedLayout` |
| `AboutDialog.OpenedLayout` | Cyotek.Windows.Forms.ColorPicker.Demo/AboutDialog.cs:64-69 | An opened dialog has the four tabs in order, captioned and tagged with their names, and only the first holds its document |
| `AboutDialog.DocumentKinds` | Cyotek.Windows.Forms.ColorPicker.Demo/AboutDialog.cs:64-67 | When each name resolves to a path ending in that name, the three `.md` files get HTML views and `license.txt` a text view |
| `AboutDialog.Dialog.constructor` | Cyotek.Windows.Forms.ColorPicker.Demo/AboutDialog.cs:24-27 | A new dialog has no pages and no selection |
| `AboutDialog.Dialog.AddReadme` | Cyotek.Windows.Forms.ColorPicker.Demo/AboutDialog.cs:96-106 | Appends the file's page and changes nothing else; the first page of an empty control becomes selected |
| `AboutDialog.Dialog.LoadDocumentForTab` | Cyotek.Windows.Forms.ColorPicker.Demo/AboutDialog.cs:127-174 | The new pages are `LoadPage` of the old ones, and the selection is unchanged |
| `AboutDialog.Dialog.OnLoad` | Cyotek.Windows.Forms.ColorPicker.Demo/AboutDialog.cs:45-71 | Outside design mode, appends the four documentation pages and loads the selected one; in design mode nothing changes |
| `AboutDialog.Dialog.Selecting` | Cyotek.Windows.Forms.ColorPicker.Demo/AboutDialog.cs:122-125 | Selecting a page loads it under the same guard |
| `AboutDialog.ShowAboutDialog` | Cyotek.Windows.Forms.ColorPicker.Demo/AboutDialog.cs:33-39 | A shown dialog has its first page selected and its pages equal to `OpenedPages` |

## Left out

- Path resolution (`GetFullReadmePath`, `AboutDialog.cs:108-111`): joining the file name to the application directory plus `..\..\..\` is operating-system path logic; the model takes it as an arbitrary function `resolve`.
- File access (`File.Exists`, `File.ReadAllText`): an outside collaborator, given as a `Disk` value. Read failures other than a missing file (access denied, a file deleted between the two calls) and text encodings are not modelled.
- `CommonMarkConverter.Convert`: a library, taken as an arbitrary function `convert`.
- `Path.GetExtension`'s rejection of invalid path characters: the full path has already passed `Path.GetFullPath`, which rejects them first.
- The fixed properties of the views (docking, base stylesheet, the text box's read-only, multi-line, word-wrap and scroll-bar settings) and of the tab pages (padding, visual-style background): the model records only which view a tab holds and its text.
- Tab pages are values inside the dialog's `pages` sequence rather than objects of their own, so aliasing of a page between controls is not captured.
- The tab control's own selection behaviour is toolkit code: the model assumes that adding the first page to an empty control selects it, and does not model the selection change that follows the `Selecting` event. Pages created by the form designer are not part of this model; a new dialog has none.
- Title, version and copyright labels read through reflection (`AboutDialog.cs:55-62`), `OnResize` layout, the footer paint, the wait cursor, `Debug.Print`, the close button and the `TabControl` property: interface and cosmetics with no logic to verify.
- The web link handler (`AboutDialog.cs:182-191`): a call into the operating-system shell and a message box.
- `ShowAboutDialog`: the modal message loop that `ShowDialog` runs and the disposal of the dialog when it closes (`AboutDialog.cs:35-38`) are not part of this member; it returns the dialog as it stands right after its load handler.
- `ColorSliderDemonstrationForm.cs`: its two handlers only forward an event to a property grid and to an event list whose code is not part of this model.

/** The document session of the editor window: the editor text, the current file
    path, the modified flag, and what the window shows of them (title, preview,
    word count). Each event handler of the renderer is a method. The save dialog
    and the write request to the main process are not modelled: their outcomes
    are parameters. */
module Session {
  import opened Text
  import Sanitizer
  import Latex
  import Words

  // ---------------------------------------------------------------------------
  // What the window shows

  /** The file name part of a path: everything after the last `/`. */
  function BaseName(p: string): (r: string)
    ensures '/' !in r
    ensures |r| <= |p| && r == p[|p| - |r|..]
    ensures |r| < |p| ==> p[|p| - |r| - 1] == '/'
    decreases |p|
  {
    if p == [] || p[|p| - 1] == '/' then []
    else
      var r := BaseName(p[..|p| - 1]);
      assert p[..|p| - 1][|p| - 1 - |r|..] + [p[|p| - 1]] == p[|p| - |r| - 1..];
      r + [p[|p| - 1]]
  }

  /** `currentFilePath` is truthy: a path is set and it is not empty. */
  predicate HasPath(path: Option<string>) {
    path.Some? && path.value != ""
  }

  /** The name part of the title: the file's base name, or "Untitled". */
  function DisplayName(path: Option<string>): string {
    if HasPath(path) then BaseName(path.value) else "Untitled"
  }

  /** updateTitle: the name followed by `*` when the document is modified. */
  function Title(path: Option<string>, modified: bool): string {
    DisplayName(path) + (if modified then "*" else "")
  }

  /** For a given file, the title tells whether the document is modified. */
  lemma TitleShowsFlag(path: Option<string>, m1: bool, m2: bool)
    ensures Title(path, m1) == Title(path, m2) <==> m1 == m2
  {
    if m1 != m2 {
      assert |Title(path, m1)| != |Title(path, m2)|;
    }
  }

  /** The star is appended to the name, never placed inside it; an unsaved
      document is called "Untitled". */
  lemma TitleParts(path: Option<string>, modified: bool)
    ensures var t := Title(path, modified);
            |t| == |DisplayName(path)| + (if modified then 1 else 0) &&
            t[..|DisplayName(path)|] == DisplayName(path) &&
            (modified ==> t[|t| - 1] == '*')
    ensures !HasPath(path) ==> DisplayName(path) == "Untitled"
    ensures HasPath(path) ==> '/' !in DisplayName(path)
  {
  }

  /** Without a file the title is "Untitled", starred when modified. */
  lemma UntitledTitle(modified: bool)
    ensures Title(None, modified) == if modified then "Untitled*" else "Untitled"
  {
    assert "Untitled" + "" == "Untitled";
  }

  /** The preview pane: LaTeX first, then Markdown, then the sanitizer. */
  function Preview(katex: Latex.Katex, markdown: string -> string, text: string): string {
    Sanitizer.Sanitize(markdown(Latex.ProcessLatex(katex, text)))
  }

  /** The preview only ever removes text from what the Markdown renderer produced. */
  lemma PreviewOnlyDeletes(katex: Latex.Katex, markdown: string -> string, text: string)
    ensures IsSubsequence(Preview(katex, markdown, text), markdown(Latex.ProcessLatex(katex, text)))
    ensures |Preview(katex, markdown, text)| <= |markdown(Latex.ProcessLatex(katex, text))|
  {
    Sanitizer.SanitizeOnlyDeletes(markdown(Latex.ProcessLatex(katex, text)));
  }

  // ---------------------------------------------------------------------------
  // Outcomes of the calls into the main process

  /** The `save-file` request: `result.success` true or false, or the call throws. */
  datatype SaveResult = Saved | NotSaved | SaveThrew

  /** The `show-save-dialog` request: canceled, a chosen path, or the call throws. */
  datatype DialogResult = Canceled | Chosen(filePath: string) | DialogThrew

  /** The path saveFileAs adopts: a chosen path that is not empty. */
  function SaveAsTarget(dialog: DialogResult): (r: Option<string>)
    ensures r.Some? ==> HasPath(r)
  {
    match dialog
    case Chosen(p) => if p != "" then Some(p) else None
    case _ => None
  }

  /** The path saveFile writes to: the current one, or else the one saveFileAs adopts. */
  function SaveTarget(path: Option<string>, dialog: DialogResult): (r: Option<string>)
    ensures r.Some? ==> HasPath(r)
    ensures HasPath(path) ==> r == path
  {
    if HasPath(path) then path else SaveAsTarget(dialog)
  }

  // ---------------------------------------------------------------------------
  // The session

  /** The renderer's module state and what the window shows. The constructor
      gives the state before start-up, where the title already shows the flag
      (TitleShown) but the preview and word count have not been computed yet, so
      Valid() does not hold. Start establishes Valid() from that state; the
      editing and document handlers re-establish it, and the save handlers keep
      the title showing the flag. */
  class DocumentSession {
    /** The preview pipeline, Preview with the session's KaTeX and Markdown renderers. */
    const render: string -> string

    var text: string              // editor.value
    var path: Option<string>      // currentFilePath
    var modified: bool            // isDocumentModified
    var title: string             // the current-file element's text
    var preview: string           // the preview pane's innerHTML
    var words: nat                // the number in the word-count element

    /** The path the title was last computed from. */
    ghost var shownPath: Option<string>
    /** Every `save-file` request sent, as (filePath, content). */
    ghost var requests: seq<(string, string)>

    /** The title shows the modified flag. */
    ghost predicate TitleShown()
      reads this
    {
      title == Title(shownPath, modified)
    }

    /** What the window shows agrees with the state. */
    ghost predicate Valid()
      reads this
    {
      TitleShown() && preview == render(text) && words == Words.WordCount(text)
    }

    /** The module state of the renderer before start-up: no path, not modified,
        the editor holding `initial`. What the page shows before the first
        updatePreview is not modelled (empty here). */
    constructor (katex: Latex.Katex, markdown: string -> string, initial: string)
      ensures forall t :: render(t) == Preview(katex, markdown, t)
      ensures text == initial && path == None && !modified
      ensures title == Title(None, false) && shownPath == None && requests == []
    {
      render := t => Preview(katex, markdown, t);
      text := initial;
      path := None;
      modified := false;
      title := Title(None, false);
      preview := "";
      words := 0;
      shownPath := None;
      requests := [];
    }

    /** Start-up: the first preview, then the welcome text if the editor is empty
        and a second preview. The window opens modified. */
    method Start(welcome: string)
      modifies this`text, this`preview, this`words, this`modified, this`title, this`shownPath
      ensures text == (if old(text) == "" then welcome else old(text))
      ensures modified && (!old(modified) ==> title == Title(path, true))
      ensures old(TitleShown()) ==> Valid()
    {
      UpdatePreview();
      if text == "" {
        text := welcome;
        UpdatePreview();
      }
    }

    /** updateTitle. */
    method UpdateTitle()
      modifies this`title, this`shownPath
      ensures title == Title(path, modified) && shownPath == path
      ensures TitleShown()
    {
      title := Title(path, modified);
      shownPath := path;
    }

    /** The first half of updatePreview: the preview pane and the word count. */
    method RefreshPreview()
      modifies this`preview, this`words
      ensures preview == render(text) && words == Words.WordCount(text)
    {
      preview := render(text);
      words := Words.WordCount(text);
    }

    /** updatePreview: recompute the preview and the word count, and mark the
        document modified, whatever caused the call. */
    method UpdatePreview()
      modifies this`preview, this`words, this`modified, this`title, this`shownPath
      ensures preview == render(text) && words == Words.WordCount(text)
      ensures modified
      ensures old(modified) ==> title == old(title) && shownPath == old(shownPath)
      ensures !old(modified) ==> title == Title(path, true) && shownPath == path
      ensures old(TitleShown()) ==> Valid()
    {
      RefreshPreview();
      if !modified {
        modified := true;
        UpdateTitle();
      }
    }

    /** The editor's input event: the text changes and the preview follows. */
    method Input(newText: string)
      modifies this`text, this`preview, this`words, this`modified, this`title, this`shownPath
      ensures text == newText && modified
      ensures old(modified) ==> title == old(title) && shownPath == old(shownPath)
      ensures !old(modified) ==> title == Title(path, true)
      ensures old(TitleShown()) ==> Valid()
    {
      text := newText;
      UpdatePreview();
    }

    /** What newDocument and the `file-opened` handler share, as written: set the
        path and the text, clear the flag, then updatePreview and updateTitle.
        updatePreview sets the flag again, so the document ends modified. */
    method Replace(content: string, p: Option<string>)
      modifies this`text, this`path, this`preview, this`words, this`modified, this`title, this`shownPath
      ensures text == content && path == p
      ensures modified && title == Title(p, true)
      ensures Valid()
    {
      path := p;
      text := content;
      modified := false;
      UpdatePreview();
      UpdateTitle();
    }

    /** newDocument, as written: the new document is modified. */
    method NewDocument()
      modifies this`text, this`path, this`preview, this`words, this`modified, this`title, this`shownPath
      ensures text == "" && path == None && words == 0
      ensures modified && title == "Untitled*"
      ensures Valid()
    {
      Replace("", None);
      Words.WordCountZeroIff(text);
      UntitledTitle(true);
    }

    /** The `file-opened` handler, as written: it too ends modified. */
    method FileOpened(filePath: string, content: string)
      modifies this`text, this`path, this`preview, this`words, this`modified, this`title, this`shownPath
      ensures text == content && path == Some(filePath)
      ensures modified && title == Title(Some(filePath), true)
      ensures Valid()
    {
      Replace(content, Some(filePath));
    }

    /** saveFile: with no path it is saveFileAs; otherwise it asks the main
        process to write the text, and only a successful write clears the flag. */
    method SaveFile(dialog: DialogResult, result: SaveResult)
      modifies this`path, this`modified, this`title, this`shownPath, this`requests
      decreases if HasPath(path) then 0 else 2
      ensures var target := SaveTarget(old(path), dialog);
              && path == (if target.Some? then target else old(path))
              && (target.Some? ==> requests == old(requests) + [(target.value, text)])
              && (target.None? ==> requests == old(requests))
              && modified == (old(modified) && !(target.Some? && result == Saved))
              && (target.Some? && result == Saved ==> title == Title(target, false) && shownPath == target)
              && (!(target.Some? && result == Saved) ==> title == old(title) && shownPath == old(shownPath))
      ensures old(TitleShown()) ==> TitleShown()
    {
      if !HasPath(path) {
        SaveFileAs(dialog, result);
        return;
      }
      requests := requests + [(path.value, text)];
      if result == Saved {
        modified := false;
        UpdateTitle();
      }
    }

    /** saveFileAs: a chosen, non-empty path becomes the current path and the
        file is saved there; a canceled or failed dialog changes nothing. */
    method SaveFileAs(dialog: DialogResult, result: SaveResult)
      modifies this`path, this`modified, this`title, this`shownPath, this`requests
      decreases 1
      ensures var target := SaveAsTarget(dialog);
              && path == (if target.Some? then target else old(path))
              && (target.Some? ==> requests == old(requests) + [(target.value, text)])
              && (target.None? ==> requests == old(requests))
              && modified == (old(modified) && !(target.Some? && result == Saved))
              && (target.Some? && result == Saved ==> title == Title(target, false) && shownPath == target)
              && (!(target.Some? && result == Saved) ==> title == old(title) && shownPath == old(shownPath))
      ensures old(TitleShown()) ==> TitleShown()
    {
      match dialog
      case Chosen(p) =>
        if p != "" {
          path := Some(p);
          SaveFile(dialog, result);
        }
      case _ =>
    }

    // -------------------------------------------------------------------------
    // Corrected transitions: a new or opened document starts unmodified.

    /** The shared steps as evidently intended: the new contents are shown and
        the document is unmodified. */
    method ReplaceClean(content: string, p: Option<string>)
      modifies this`text, this`path, this`preview, this`words, this`modified, this`title, this`shownPath
      ensures text == content && path == p
      ensures !modified && title == Title(p, false)
      ensures Valid()
    {
      path := p;
      text := content;
      modified := false;
      RefreshPreview();
      UpdateTitle();
    }

    /** newDocument as evidently intended: the empty document is unmodified. */
    method NewDocumentClean()
      modifies this`text, this`path, this`preview, this`words, this`modified, this`title, this`shownPath
      ensures text == "" && path == None && words == 0
      ensures !modified && title == "Untitled"
      ensures Valid()
    {
      ReplaceClean("", None);
      Words.WordCountZeroIff(text);
      UntitledTitle(false);
    }

    /** The `file-opened` handler as evidently intended: the opened file is unmodified. */
    method FileOpenedClean(filePath: string, content: string)
      modifies this`text, this`path, this`preview, this`words, this`modified, this`title, this`shownPath
      ensures text == content && path == Some(filePath)
      ensures !modified && title == Title(Some(filePath), false)
      ensures Valid()
    {
      ReplaceClean(content, Some(filePath));
    }
  }
}

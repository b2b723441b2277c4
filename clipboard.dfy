/** The hotkey action `auto_convert` of main.py: snapshot the clipboard,
    optionally select all, copy, give up when nothing new was copied, and
    otherwise convert, paste and put the snapshot back. The clipboard and
    the focused application are a `Desktop` object whose key combinations
    are method calls; the settle delays between them are left out. */
module Clipboard {
  import opened Wrappers
  import opened Keymap

  /** The part of the desktop `auto_convert` talks to: the system clipboard
      and the focused text field. */
  class Desktop {
    /** The system clipboard. */
    var clipboard: string
    /** The whole text of the focused field. */
    var document: string
    /** The text selected in the focused field, if any. */
    var selection: Option<string>
    /** Every text pasted into the focused field, oldest first. */
    var pasted: seq<string>

    constructor (clipboard: string, document: string, selection: Option<string>)
      ensures this.clipboard == clipboard && this.document == document
      ensures this.selection == selection && pasted == []
    {
      this.clipboard := clipboard;
      this.document := document;
      this.selection := selection;
      pasted := [];
    }

    /** `pyperclip.paste()`: the clipboard's text. */
    method ReadClipboard() returns (text: string)
      ensures text == clipboard
    {
      text := clipboard;
    }

    /** `pyperclip.copy(text)`: replaces the clipboard's text. */
    method WriteClipboard(text: string)
      modifies this`clipboard
      ensures clipboard == text
    {
      clipboard := text;
    }

    /** The select-all key combination: the whole field becomes the selection. */
    method SelectAll()
      modifies this`selection
      ensures selection == Some(document)
    {
      selection := Some(document);
    }

    /** The copy key combination: a non-empty selection replaces the
        clipboard; with nothing selected, or an empty selection (select-all
        on an empty field), the clipboard keeps its text. */
    method Copy()
      modifies this`clipboard
      ensures clipboard == if selection.Some? && selection.value != "" then selection.value else old(clipboard)
    {
      if selection.Some? && selection.value != "" {
        clipboard := selection.value;
      }
    }

    /** The paste key combination: the clipboard's text goes into the field. */
    method Paste()
      modifies this`pasted
      ensures pasted == old(pasted) + [clipboard]
    {
      pasted := pasted + [clipboard];
    }
  }

  /** What the clipboard holds after the optional select-all and the copy:
      the text then selected, or the old clipboard when that is nothing or
      empty. A copy never leaves the clipboard empty unless it was. */
  function CopiedText(selectAll: bool, clipboard: string, document: string, selection: Option<string>): (r: string)
    ensures r == clipboard || r != ""
    ensures selectAll ==> r == (if document != "" then document else clipboard)
    ensures !selectAll && selection.Some? && selection.value != "" ==> r == selection.value
    ensures !selectAll && (selection.None? || selection.value == "") ==> r == clipboard
  {
    var selected := if selectAll then Some(document) else selection;
    if selected.Some? && selected.value != "" then selected.value else clipboard
  }

  /** What `auto_convert` pastes, or None when it gives up: it gives up
      exactly when not in select-all mode and the copy left the clipboard as
      it was; otherwise it pastes the copied text converted in the direction
      the text's script selects. */
  function PastedText(selectAll: bool, clipboard: string, document: string, selection: Option<string>): (r: Option<string>)
    ensures r.None? <==> !selectAll && CopiedText(selectAll, clipboard, document, selection) == clipboard
    ensures r.Some? ==> r.value == ConvertSelection(CopiedText(selectAll, clipboard, document, selection))
  {
    var copied := CopiedText(selectAll, clipboard, document, selection);
    if copied == clipboard && !selectAll then None else Some(ConvertSelection(copied))
  }

  /** `auto_convert(select_all)`. Whatever branch it takes, the clipboard
      ends with the text it had before; it pastes exactly `PastedText`. */
  method AutoConvert(desktop: Desktop, selectAll: bool)
    modifies desktop
    ensures desktop.clipboard == old(desktop.clipboard)
    ensures desktop.document == old(desktop.document)
    ensures desktop.selection == if selectAll then Some(old(desktop.document)) else old(desktop.selection)
    ensures desktop.pasted == old(desktop.pasted) +
      match PastedText(selectAll, old(desktop.clipboard), old(desktop.document), old(desktop.selection))
      case None => []
      case Some(text) => [text]
  {
    var originalClipboard := desktop.ReadClipboard();

    if selectAll {
      desktop.SelectAll();
    }

    desktop.Copy();
    var selectedText := desktop.ReadClipboard();

    var textWasSelected := selectedText != originalClipboard;

    if !textWasSelected && !selectAll {
      desktop.WriteClipboard(originalClipboard);
      return;
    }

    var convertedText;
    if IsHebrew(selectedText) {
      convertedText := ConvertText(selectedText, HeToEn);
    } else {
      convertedText := ConvertText(selectedText, EnToHe);
    }

    desktop.WriteClipboard(convertedText);
    desktop.Paste();

    desktop.WriteClipboard(originalClipboard);
  }

  // ---------------------------------------------------------------------
  // The branches of auto_convert

  /** With nothing selected and no select-all, nothing is pasted. */
  lemma NoSelectionNoPaste(clipboard: string, document: string)
    ensures PastedText(false, clipboard, document, None) == None
  {
  }

  /** A selection that happens to equal the clipboard is taken for no
      selection: the copy cannot be told apart from the old clipboard. */
  lemma SelectionLikeClipboardNoPaste(clipboard: string, document: string)
    ensures PastedText(false, clipboard, document, Some(clipboard)) == None
  {
  }

  /** A selection that differs from the clipboard is converted and pasted,
      unless it is empty: copying an empty selection leaves the clipboard as
      it was, which reads as nothing selected. */
  lemma SelectionPastesConversion(clipboard: string, document: string, text: string)
    requires text != clipboard
    ensures PastedText(false, clipboard, document, Some(text)) ==
      if text != "" then Some(ConvertSelection(text)) else None
  {
  }

  /** In select-all mode something is always pasted: a non-empty field is
      converted even when it equals the clipboard; an empty field leaves the
      old clipboard text to be converted. */
  lemma SelectAllAlwaysPastes(clipboard: string, document: string, selection: Option<string>)
    ensures PastedText(true, clipboard, document, selection) ==
      Some(ConvertSelection(if document != "" then document else clipboard))
  {
  }

  /** In select-all mode on an empty field the copy leaves the clipboard
      alone, and since select-all skips the "nothing copied" test, the old
      clipboard text is converted and pasted. */
  lemma SelectAllEmptyFieldPastesClipboard(clipboard: string, selection: Option<string>)
    ensures PastedText(true, clipboard, "", selection) == Some(ConvertSelection(clipboard))
  {
  }

  /** The pasted text always has the copied text's length. */
  lemma PastedKeepsLength(selectAll: bool, clipboard: string, document: string, selection: Option<string>)
    ensures var r := PastedText(selectAll, clipboard, document, selection);
      r.Some? ==> |r.value| == |CopiedText(selectAll, clipboard, document, selection)|
  {
  }

  /** "akuo" typed but not selected, hotkey without modifier: the clipboard
      keeps its text and nothing is pasted. */
  method NoSelectionScenario() returns (clipboard: string, pasted: seq<string>)
    ensures clipboard == "earlier" && pasted == []
  {
    var desktop := new Desktop("earlier", "akuo", None);
    AutoConvert(desktop, false);
    clipboard, pasted := desktop.clipboard, desktop.pasted;
  }

  /** "שלום" selected, hotkey without modifier: "akuo" is pasted and the
      clipboard gets its text back. */
  method HebrewSelectionScenario() returns (clipboard: string, pasted: seq<string>)
    ensures clipboard == "earlier" && pasted == ["akuo"]
  {
    var desktop := new Desktop("earlier", "שלום", Some("שלום"));
    AutoConvert(desktop, false);
    ShalomExample();
    clipboard, pasted := desktop.clipboard, desktop.pasted;
  }

  /** Select-all on an empty field with "akuo" on the clipboard: the
      clipboard's own text is converted, "שלום" is pasted, and the clipboard
      gets "akuo" back. */
  method EmptyFieldSelectAllScenario() returns (clipboard: string, pasted: seq<string>)
    ensures clipboard == "akuo" && pasted == ["שלום"]
  {
    var desktop := new Desktop("akuo", "", None);
    AutoConvert(desktop, true);
    ShalomExample();
    clipboard, pasted := desktop.clipboard, desktop.pasted;
  }
}

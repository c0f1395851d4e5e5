/** JSearchableTextArea and its SearchKeyAdapter, with the Swing state they
    touch (the text, the selection, the editable flag) as fields. Each handler
    is proved to leave the selection that the TextSearch functions describe. */
module SearchUi {
  import opened Optional
  import opened TextSearch

  class SearchableTextArea {
    var text: string
    var selection: Selection
    var editable: bool
    var searchEnabled: bool
    /** Whether a SearchKeyAdapter has been registered as key listener. */
    var searchListening: bool

    /** The selection lies inside the text, and search is never enabled
        without a registered listener. */
    ghost predicate Valid()
      reads this
    {
      ValidIn(selection, text) && (searchEnabled ==> searchListening)
    }

    /** new JSearchableTextArea(): search enabled from the start. The text and
        the editable flag are Swing state, given here as parameters. */
    constructor (text: string, editable: bool)
      ensures Valid() && this.text == text && this.editable == editable
      ensures selection == Selection(0, 0)
      ensures searchEnabled && searchListening
    {
      this.text := text;
      this.editable := editable;
      selection := Selection(0, 0);
      searchEnabled := false;
      searchListening := false;
      new;
      SetSearchEnabled(true);
    }

    /** isSearchEnabled: while it returns true, a listener is registered. */
    function IsSearchEnabled(): (r: bool)
      reads this
      requires Valid()
      ensures r ==> searchListening
    {
      searchEnabled
    }

    /** setSearchEnabled: records the flag, and enabling registers a listener;
        disabling registers nothing and removes nothing, so a listener
        registered before keeps searching. */
    method SetSearchEnabled(enabled: bool)
      requires ValidIn(selection, text)
      modifies this`searchEnabled, this`searchListening
      ensures Valid()
      ensures IsSearchEnabled() == enabled
      ensures searchListening == (old(searchListening) || enabled)
    {
      searchEnabled := enabled;
      if searchEnabled {
        searchListening := true;
      }
    }

    /** JTextComponent.select. */
    method Select(start: int, end: int)
      requires Valid()
      modifies this`selection
      ensures Valid() && selection == SelectionOf(text, start, end)
    {
      selection := SelectionOf(text, start, end);
    }

    /** JTextComponent.getSelectedText. */
    function SelectedText(): (r: Option<string>)
      reads this
      requires Valid()
      ensures r.Some? <==> selection.start < selection.end
      ensures r.Some? ==> r.value == text[selection.start..selection.end]
    {
      SelectedPart(text, selection)
    }
  }

  class SearchKeyAdapter {
    const textArea: SearchableTextArea

    constructor (textArea: SearchableTextArea)
      ensures this.textArea == textArea
    {
      this.textArea := textArea;
    }

    /** keyPressed; answer is what the "Find..." input dialog returns (None
        when it is cancelled), used only when the handler shows the dialog. */
    method KeyPressed(e: KeyEvent, answer: Option<string>)
      requires textArea.Valid()
      modifies textArea`selection
      ensures textArea.Valid()
      ensures textArea.selection == AfterKeyPressed(textArea.text, old(textArea.selection), e, answer)
    {
      ghost var text, sel := textArea.text, textArea.selection;
      if e.keyCode == VK_F3 && e.modifiers == 0 {
        FindAgain(answer);
      }
      ghost var afterF3 := textArea.selection;
      if e.keyCode == VK_F && e.controlDown {
        Search(answer, 0);
      }
      assert textArea.selection == if e.keyCode == VK_F && e.controlDown then Searched(text, afterF3, answer, 0) else afterF3;
    }

    /** The F3 branch of keyPressed: search again for the selected text, or for
        the dialog's answer when nothing is selected, after the selection. */
    method FindAgain(answer: Option<string>)
      requires textArea.Valid()
      modifies textArea`selection
      ensures textArea.Valid()
      ensures textArea.selection == Searched(textArea.text, old(textArea.selection),
        FindAgainPattern(textArea.text, old(textArea.selection), answer), old(textArea.selection).end + 1)
    {
      var selected := textArea.SelectedText();
      var searchString := if selected == None || |selected.value| == 0 then answer else selected;
      Search(searchString, textArea.selection.end + 1);
    }

    /** keyTyped: search-as-you-type on an area that is not editable. */
    method KeyTyped(e: KeyEvent)
      requires textArea.Valid()
      modifies textArea`selection
      ensures textArea.Valid()
      ensures textArea.selection == AfterKeyTyped(textArea.text, old(textArea.selection), textArea.editable, e)
    {
      if textArea.editable {
        return;
      }
      if IsResetChar(e.keyChar) {
        textArea.Select(0, 0);
      }
      TypeAhead(e);
    }

    /** The part of keyTyped after the reset: the selected text (or "") with
        the typed character appended, unless it is an action key, searched from
        the selection's start. */
    method TypeAhead(e: KeyEvent)
      requires textArea.Valid()
      modifies textArea`selection
      ensures textArea.Valid()
      ensures textArea.selection == Searched(textArea.text, old(textArea.selection),
        Some(TypedPattern(textArea.text, old(textArea.selection), e)), old(textArea.selection).start)
    {
      var searchString := textArea.SelectedText();
      if searchString == None {
        searchString := Some("");
      }
      if !e.actionKey {
        assert "" + [e.keyChar] == [e.keyChar];
        searchString := Some(searchString.value + [e.keyChar]);
      } else {
        assert searchString.value + [] == searchString.value;
      }
      assert searchString == Some(TypedPattern(textArea.text, textArea.selection, e));
      Search(searchString, textArea.selection.start);
    }

    /** search: lower-case both strings, select the first occurrence at or
        after max(startPosition, 0), and when there is none and startPosition
        is positive, search once more from the top. */
    method Search(searchString: Option<string>, startPosition: int)
      requires textArea.Valid()
      modifies textArea`selection
      ensures textArea.Valid()
      ensures textArea.selection == Searched(textArea.text, old(textArea.selection), searchString, startPosition)
      decreases if startPosition > 0 then 1 else 0
    {
      if searchString != None && |searchString.value| > 0 {
        var s := Lower(searchString.value);
        var position := IndexOf(Lower(textArea.text), s, Max(startPosition, 0));
        if position >= 0 {
          textArea.Select(position, position + |s|);
        } else if startPosition > 0 {
          LowerIdempotent(searchString.value);
          Search(Some(s), 0);
        }
      }
    }
  }
}

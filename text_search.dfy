/** What JSearchableTextArea's search computes, as functions of the text, the
    selection and the key event: a case-insensitive String.indexOf from the
    start position, retried once from the top, and the selection each key
    handler leaves behind. */
module TextSearch {
  import opened Optional

  // Key codes and key characters of java.awt.event.KeyEvent.
  const VK_F3: int := 0x72
  const VK_F: int := 0x46
  const VK_BACK_SPACE: int := 8
  const VK_DELETE: int := 0x7F
  const VK_ENTER: int := 10
  const VK_ESCAPE: int := 0x1B

  /** The parts of a KeyEvent the handlers read. */
  datatype KeyEvent = KeyEvent(keyCode: int, modifiers: int, controlDown: bool, keyChar: char, actionKey: bool)

  /** A selection [start, end) of the text area. */
  datatype Selection = Selection(start: nat, end: nat)

  predicate ValidIn(sel: Selection, text: string)
  {
    sel.start <= sel.end <= |text|
  }

  function Max(a: int, b: int): int
  {
    if a < b then b else a
  }

  /** String.toLowerCase, restricted to ASCII letters. */
  function LowerChar(c: char): char
  {
    if 'A' <= c <= 'Z' then (c as int + 32) as char else c
  }

  function Lower(s: string): (r: string)
    ensures |r| == |s|
  {
    seq(|s|, i requires 0 <= i < |s| => LowerChar(s[i]))
  }

  /** Lowering twice is lowering once, so search's retry with the already
      lowered string looks for the same thing. */
  lemma LowerIdempotent(s: string)
    ensures Lower(Lower(s)) == Lower(s)
  {
    assert forall i :: 0 <= i < |s| ==> Lower(Lower(s))[i] == Lower(s)[i];
  }

  /** needle occurs in hay at position i. */
  predicate OccursAt(hay: string, needle: string, i: int)
  {
    0 <= i && i + |needle| <= |hay| && hay[i..i + |needle|] == needle
  }

  /** pattern occurs at position i of text, ignoring case. */
  predicate MatchAt(text: string, pattern: string, i: int)
  {
    OccursAt(Lower(text), Lower(pattern), i)
  }

  /** No case-insensitive occurrence at or after from. */
  ghost predicate NoMatchFrom(text: string, pattern: string, from: int)
  {
    forall i :: from <= i ==> !MatchAt(text, pattern, i)
  }

  /** p is the first case-insensitive occurrence at or after from. */
  ghost predicate FirstMatchFrom(text: string, pattern: string, from: int, p: int)
  {
    from <= p && MatchAt(text, pattern, p) && forall i :: from <= i < p ==> !MatchAt(text, pattern, i)
  }

  /** String.indexOf(needle, from): the first occurrence at or after from, or
      -1; an empty needle is found at from, or at the end when from is past it. */
  function IndexOf(hay: string, needle: string, from: nat): (r: int)
    ensures needle == [] ==> r == if from <= |hay| then from else |hay|
    ensures needle != [] && r >= 0 ==>
              from <= r && OccursAt(hay, needle, r) &&
              forall i :: from <= i < r ==> !OccursAt(hay, needle, i)
    ensures needle != [] && r < 0 ==> r == -1 && forall i :: from <= i ==> !OccursAt(hay, needle, i)
    decreases |hay| - from
  {
    if from + |needle| > |hay| then
      if needle == [] then |hay| else -1
    else if hay[from..from + |needle|] == needle then
      from
    else
      IndexOf(hay, needle, from + 1)
  }

  /** The position search selects: the first case-insensitive occurrence at or
      after max(start, 0); when there is none and start > 0, the first one from
      the top; nothing for an empty pattern or when there is no occurrence. */
  function FindMatch(text: string, pattern: string, start: int): (r: Option<nat>)
    ensures pattern == [] ==> r == None
    ensures pattern != [] && !NoMatchFrom(text, pattern, Max(start, 0)) ==>
              r.Some? && FirstMatchFrom(text, pattern, Max(start, 0), r.value)
    ensures pattern != [] && NoMatchFrom(text, pattern, Max(start, 0)) && start > 0 && !NoMatchFrom(text, pattern, 0) ==>
              r.Some? && FirstMatchFrom(text, pattern, 0, r.value)
    ensures pattern != [] && NoMatchFrom(text, pattern, Max(start, 0)) && (start <= 0 || NoMatchFrom(text, pattern, 0)) ==>
              r == None
    decreases if start > 0 then 1 else 0
  {
    if |pattern| == 0 then None
    else
      var s := Lower(pattern);
      var position := IndexOf(Lower(text), s, Max(start, 0));
      assert forall i :: MatchAt(text, pattern, i) == OccursAt(Lower(text), s, i);
      if position >= 0 then Some(position)
      else if start > 0 then
        LowerIdempotent(pattern);
        FindMatch(text, s, 0)
      else None
  }

  /** JTextComponent.select: both ends clamped into the text, the end no
      smaller than the start. */
  function SelectionOf(text: string, start: int, end: int): (sel: Selection)
    ensures ValidIn(sel, text)
    ensures 0 <= start <= end <= |text| ==> sel == Selection(start, end)
  {
    var s := if start < 0 then 0 else if start > |text| then |text| else start;
    var e := if end > |text| then |text| else end;
    Selection(s, if e < s then s else e)
  }

  /** getSelectedText: null when the selection is empty. */
  function SelectedPart(text: string, sel: Selection): (r: Option<string>)
    requires ValidIn(sel, text)
    ensures r.Some? <==> sel.start < sel.end
    ensures r.Some? ==> r.value == text[sel.start..sel.end] && |r.value| == sel.end - sel.start
  {
    if sel.start == sel.end then None else Some(text[sel.start..sel.end])
  }

  /** The selection after search(pattern, start): a null or empty pattern and
      a pattern with no occurrence leave it alone; otherwise it covers the
      occurrence FindMatch picks. */
  function Searched(text: string, sel: Selection, pattern: Option<string>, start: int): (r: Selection)
    requires ValidIn(sel, text)
    ensures ValidIn(r, text)
    ensures r != sel ==> pattern.Some? && MatchAt(text, pattern.value, r.start) &&
                         r.end == r.start + |pattern.value|
    ensures pattern.Some? && pattern.value != [] && FindMatch(text, pattern.value, start).Some? ==>
              r == Selection(FindMatch(text, pattern.value, start).value,
                             FindMatch(text, pattern.value, start).value + |pattern.value|)
    ensures pattern.None? || pattern.value == [] || FindMatch(text, pattern.value, start).None? ==> r == sel
  {
    if pattern.Some? && |pattern.value| > 0 then
      match FindMatch(text, pattern.value, start)
      case Some(p) => SelectionOf(text, p, p + |Lower(pattern.value)|)
      case None => sel
    else
      sel
  }

  /** The characters that restart search-as-you-type. */
  predicate IsResetChar(c: char)
    ensures IsResetChar(c) <==> c == 8 as char || c == 0x7F as char || c == '\n' || c == 0x1B as char
    ensures IsResetChar(c) ==> LowerChar(c) == c
  {
    c as int == VK_BACK_SPACE || c as int == VK_DELETE || c as int == VK_ENTER || c as int == VK_ESCAPE
  }

  /** keyPressed: F3 without modifiers searches the selected text, or the
      dialog's answer when nothing is selected, from one past the selection's
      end; Ctrl-F searches the dialog's answer from the top. */
  function AfterKeyPressed(text: string, sel: Selection, e: KeyEvent, answer: Option<string>): (r: Selection)
    requires ValidIn(sel, text)
    ensures ValidIn(r, text)
  {
    var afterF3 :=
      if e.keyCode == VK_F3 && e.modifiers == 0 then
        Searched(text, sel, FindAgainPattern(text, sel, answer), sel.end + 1)
      else
        sel;
    if e.keyCode == VK_F && e.controlDown then Searched(text, afterF3, answer, 0) else afterF3
  }

  /** The string F3 searches for: the selected text, or the dialog's answer
      when nothing is selected. */
  function FindAgainPattern(text: string, sel: Selection, answer: Option<string>): (s: Option<string>)
    requires ValidIn(sel, text)
    ensures sel.start < sel.end ==> s == Some(text[sel.start..sel.end])
    ensures sel.start == sel.end ==> s == answer
  {
    var selected := SelectedPart(text, sel);
    if selected.None? || |selected.value| == 0 then answer else selected
  }

  /** keyTyped: nothing on an editable area; otherwise a reset character first
      clears the selection, then the selected text with the typed character
      appended (unless it is an action key) is searched from the selection's
      start. */
  function AfterKeyTyped(text: string, sel: Selection, editable: bool, e: KeyEvent): (r: Selection)
    requires ValidIn(sel, text)
    ensures ValidIn(r, text)
  {
    if editable then sel
    else
      var cleared := if IsResetChar(e.keyChar) then SelectionOf(text, 0, 0) else sel;
      Searched(text, cleared, Some(TypedPattern(text, cleared, e)), cleared.start)
  }

  /** The string search-as-you-type looks for: the selected text, or "" when
      nothing is selected, followed by the typed character unless it is an
      action key. */
  function TypedPattern(text: string, sel: Selection, e: KeyEvent): (s: string)
    requires ValidIn(sel, text)
    ensures |s| == (sel.end - sel.start) + (if e.actionKey then 0 else 1)
    ensures s[..sel.end - sel.start] == text[sel.start..sel.end]
    ensures !e.actionKey ==> s[|s| - 1] == e.keyChar
  {
    var selected := SelectedPart(text, sel);
    (if selected.None? then "" else selected.value) + (if !e.actionKey then [e.keyChar] else [])
  }

  // ---------------------------------------------------------------------------
  // Properties of the search.

  /** The first occurrence after a position is unique. */
  lemma FirstMatchUnique(text: string, pattern: string, from: int, p: int, q: int)
    requires FirstMatchFrom(text, pattern, from, p) && FirstMatchFrom(text, pattern, from, q)
    ensures p == q
  {
  }

  /** Matching ignores case: two patterns that differ only in the case of their
      letters select the same occurrence. */
  lemma SearchIgnoresCase(text: string, sel: Selection, p1: string, p2: string, start: int)
    requires ValidIn(sel, text) && Lower(p1) == Lower(p2)
    ensures Searched(text, sel, Some(p1), start) == Searched(text, sel, Some(p2), start)
  {
    var r1, r2 := FindMatch(text, p1, start), FindMatch(text, p2, start);
    assert forall i :: MatchAt(text, p1, i) == MatchAt(text, p2, i);
    if r1.Some? && r2.Some? {
      if FirstMatchFrom(text, p1, Max(start, 0), r1.value) {
        FirstMatchUnique(text, p1, Max(start, 0), r1.value, r2.value);
      } else {
        FirstMatchUnique(text, p1, 0, r1.value, r2.value);
      }
    }
  }

  /** A pattern that occurs nowhere leaves the selection unchanged, whatever
      the start position. */
  lemma NoMatchLeavesSelection(text: string, sel: Selection, pattern: string, start: int)
    requires ValidIn(sel, text) && NoMatchFrom(text, pattern, 0)
    ensures Searched(text, sel, Some(pattern), start) == sel
  {
    assert NoMatchFrom(text, pattern, Max(start, 0));
  }

  /** Search-as-you-type grows the match: when the selected text followed by
      the typed character still occurs at the selection's start, the selection
      extends by that character. */
  lemma TypingExtendsMatch(text: string, sel: Selection, e: KeyEvent)
    requires ValidIn(sel, text) && sel.start < sel.end
    requires !IsResetChar(e.keyChar) && !e.actionKey
    requires MatchAt(text, text[sel.start..sel.end] + [e.keyChar], sel.start)
    ensures AfterKeyTyped(text, sel, false, e) == Selection(sel.start, sel.end + 1)
  {
    var s := text[sel.start..sel.end] + [e.keyChar];
    var p := FindMatch(text, s, sel.start);
    assert p.Some? && FirstMatchFrom(text, s, sel.start, p.value);
    FirstMatchUnique(text, s, sel.start, p.value, sel.start);
  }

  /** A reset character starts the search over from the top with that
      character alone: an action key, or a character that does not occur in
      the text, leaves the selection empty at 0; otherwise the character's
      first occurrence is selected. */
  lemma ResetCharStartsOver(text: string, sel: Selection, e: KeyEvent)
    requires ValidIn(sel, text) && IsResetChar(e.keyChar)
    ensures var r := AfterKeyTyped(text, sel, false, e);
            (e.actionKey || NoMatchFrom(text, [e.keyChar], 0) ==> r == Selection(0, 0)) &&
            (!e.actionKey && !NoMatchFrom(text, [e.keyChar], 0) ==>
               r.end == r.start + 1 && FirstMatchFrom(text, [e.keyChar], 0, r.start))
  {
    assert "" + [e.keyChar] == [e.keyChar];
    assert SelectedPart(text, Selection(0, 0)) == None;
  }

  /** Enter in a read-only area is not an action key, so after the reset it
      selects the text's first line break. */
  lemma EnterSelectsLineBreak(sel: Selection)
    requires ValidIn(sel, "a\nb")
    ensures AfterKeyTyped("a\nb", sel, false, KeyEvent(VK_ENTER, 0, false, '\n', false)) == Selection(1, 2)
  {
    var e := KeyEvent(VK_ENTER, 0, false, '\n', false);
    ResetCharStartsOver("a\nb", sel, e);
    assert Lower("a\nb") == "a\nb";
    assert Lower("\n") == "\n";
    assert MatchAt("a\nb", "\n", 1);
    assert !MatchAt("a\nb", "\n", 0);
  }

  /** F3 on a selection searches again for the selected text and wraps to the
      top when nothing follows, so the selection always stays on an
      occurrence of the selected text. */
  lemma FindAgainStaysOnOccurrence(text: string, sel: Selection, e: KeyEvent, answer: Option<string>)
    requires ValidIn(sel, text) && sel.start < sel.end
    requires e.keyCode == VK_F3 && e.modifiers == 0
    ensures var r := AfterKeyPressed(text, sel, e, answer);
            MatchAt(text, text[sel.start..sel.end], r.start) && r.end - r.start == sel.end - sel.start
  {
    var w := text[sel.start..sel.end];
    assert MatchAt(text, w, sel.start);
  }

  // ---------------------------------------------------------------------------
  // F3 starts one past the selection's end.

  /** As written, F3 skips an occurrence that starts right where the selection
      ends: in "abab" with "ab" selected at 0, the next "ab" at 2 is passed
      over and the search wraps back to 0. */
  lemma FindAgainSkipsAdjacentOccurrence(answer: Option<string>)
    ensures var r := AfterKeyPressed("abab", Selection(0, 2), KeyEvent(VK_F3, 0, false, 'x', true), answer);
            MatchAt("abab", "ab", 2) && r == Selection(0, 2)
  {
    var text := "abab";
    assert Lower(text) == "abab";
    assert Lower("ab") == "ab";
    assert MatchAt(text, "ab", 2);
    assert !MatchAt(text, "ab", 3);
    assert NoMatchFrom(text, "ab", 3);
    assert MatchAt(text, "ab", 0);
    assert SelectedPart(text, Selection(0, 2)) == Some("ab");
  }

  /** F3 as evidently intended: search from the selection's end. */
  function FindNext(text: string, sel: Selection, answer: Option<string>): (r: Selection)
    requires ValidIn(sel, text)
    ensures ValidIn(r, text)
  {
    Searched(text, sel, FindAgainPattern(text, sel, answer), sel.end)
  }

  /** The corrected F3 moves to the next occurrence: the first one that starts
      at or after the end of the selection, when there is one. */
  lemma FindNextFindsNextOccurrence(text: string, sel: Selection, p: nat)
    requires ValidIn(sel, text) && sel.start < sel.end
    requires FirstMatchFrom(text, text[sel.start..sel.end], sel.end, p)
    ensures FindNext(text, sel, None) == Selection(p, p + (sel.end - sel.start))
  {
    var w := text[sel.start..sel.end];
    var q := FindMatch(text, w, sel.end);
    assert q.Some? && FirstMatchFrom(text, w, sel.end, q.value);
    FirstMatchUnique(text, w, sel.end, p, q.value);
  }
}

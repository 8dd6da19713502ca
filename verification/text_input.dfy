/** `TextInput`: a code-point buffer with a cursor and an input-method
    composition buffer, driven by a list of window-system events. */
module TextEditing {
  import opened Bytes
  import opened Utf8

  /** The events `update` reacts to, already decoded from UTF-8. `Paste`
      stands for Ctrl+V whose clipboard read succeeds (an empty clipboard
      gives `Paste([])`); `OtherKey` for every other key press, and for
      Ctrl+V when the clipboard read fails and returns a null pointer. */
  datatype Event =
    | TextInput(cps: seq<CodePoint>)
    | Editing(cps: seq<CodePoint>)
    | Backspace
    | Return
    | Left
    | Right
    | Paste(cps: seq<CodePoint>)
    | OtherKey

  const Newline: CodePoint := 10
  const CursorMark: CodePoint := 124

  /** The three fields `update` changes. */
  datatype Editor = Editor(text: seq<CodePoint>, composition: seq<CodePoint>, cursor: nat)

  /** The cursor indexes a position of the text (possibly its end). */
  predicate Consistent(s: Editor)
  {
    s.cursor <= |s.text|
  }

  /** The state after one event and whether that event set `updated`. */
  datatype Outcome = Outcome(state: Editor, acted: bool)

  /** `cps` inserted at position `at` of `text`. */
  function InsertAt(text: seq<CodePoint>, at: nat, cps: seq<CodePoint>): seq<CodePoint>
    requires at <= |text|
  {
    text[..at] + cps + text[at..]
  }

  /** One turn of the event loop of `update`. */
  function Step(s: Editor, e: Event): (r: Outcome)
    requires Consistent(s)
    ensures Consistent(r.state)
    ensures !r.acted ==> r.state == s
  {
    match e
    case TextInput(cps) =>
      Outcome(Editor(InsertAt(s.text, s.cursor, cps), [], s.cursor + |cps|), true)
    case Editing(cps) =>
      Outcome(s.(composition := cps), true)
    case Backspace =>
      if s.cursor > 0 then
        Outcome(s.(text := s.text[..s.cursor - 1] + s.text[s.cursor..], cursor := s.cursor - 1), true)
      else Outcome(s, false)
    case Return =>
      Outcome(Editor(InsertAt(s.text, s.cursor, [Newline]), [], s.cursor + 1), true)
    case Left =>
      if s.cursor > 0 then Outcome(s.(cursor := s.cursor - 1), true) else Outcome(s, false)
    case Right =>
      if s.cursor < |s.text| then Outcome(s.(cursor := s.cursor + 1), true) else Outcome(s, false)
    case Paste(cps) =>
      Outcome(s.(text := InsertAt(s.text, s.cursor, cps), cursor := s.cursor + |cps|), true)
    case OtherKey =>
      Outcome(s, false)
  }

  /** The events processed in order; `acted` when any of them acted. */
  function Run(s: Editor, events: seq<Event>): (r: Outcome)
    requires Consistent(s)
    ensures Consistent(r.state)
    ensures !r.acted ==> r.state == s
  {
    if events == [] then Outcome(s, false)
    else
      var o := Run(s, events[..|events| - 1]);
      var t := Step(o.state, events[|events| - 1]);
      Outcome(t.state, o.acted || t.acted)
  }

  /** Typed text lands at the cursor: removing it gives the old text back,
      the cursor ends just after it and the composition is cleared. */
  lemma TypedTextInserted(s: Editor, cps: seq<CodePoint>)
    requires Consistent(s)
    ensures var t := Step(s, TextInput(cps)).state;
      && t.text[s.cursor..t.cursor] == cps
      && t.text[..s.cursor] + t.text[t.cursor..] == s.text
      && t.composition == []
  {
    var t := Step(s, TextInput(cps)).state;
    assert t.text[..s.cursor] == s.text[..s.cursor];
    assert t.text[t.cursor..] == s.text[s.cursor..];
  }

  /** Pasted text lands at the cursor like typed text, but the composition
      is kept. */
  lemma PastedTextInserted(s: Editor, cps: seq<CodePoint>)
    requires Consistent(s)
    ensures var t := Step(s, Paste(cps)).state;
      && t.text[s.cursor..t.cursor] == cps
      && t.text[..s.cursor] + t.text[t.cursor..] == s.text
      && t.composition == s.composition
  {
    var t := Step(s, Paste(cps)).state;
    assert t.text[..s.cursor] == s.text[..s.cursor];
    assert t.text[t.cursor..] == s.text[s.cursor..];
  }

  /** Return inserts one newline at the cursor and clears the composition. */
  lemma ReturnInsertsNewline(s: Editor)
    requires Consistent(s)
    ensures var t := Step(s, Return).state;
      && |t.text| == |s.text| + 1 && t.cursor == s.cursor + 1
      && t.text[s.cursor] == Newline
      && t.text[..s.cursor] + t.text[t.cursor..] == s.text
      && t.composition == []
  {
    var t := Step(s, Return).state;
    assert t.text[..s.cursor] == s.text[..s.cursor];
    assert t.text[t.cursor..] == s.text[s.cursor..];
  }

  /** Backspace removes exactly the code point before the cursor, and does
      nothing at the start of the text. */
  lemma BackspaceDeletesBeforeCursor(s: Editor)
    requires Consistent(s)
    ensures var r := Step(s, Backspace);
      && (s.cursor == 0 ==> r.state == s && !r.acted)
      && (s.cursor > 0 ==>
            && |r.state.text| == |s.text| - 1 && r.state.cursor == s.cursor - 1
            && r.state.text[..r.state.cursor] + [s.text[s.cursor - 1]] + r.state.text[r.state.cursor..] == s.text
            && r.state.composition == s.composition)
  {
    if s.cursor > 0 {
      var t := Step(s, Backspace).state;
      assert t.text[..t.cursor] == s.text[..s.cursor - 1];
      assert t.text[t.cursor..] == s.text[s.cursor..];
      assert s.text == s.text[..s.cursor - 1] + [s.text[s.cursor - 1]] + s.text[s.cursor..];
    }
  }

  /** Left and Right move the cursor by one and never leave the text; the
      text and composition stay as they were. */
  lemma ArrowsStayInBounds(s: Editor)
    requires Consistent(s)
    ensures var l := Step(s, Left);
      l.state.text == s.text && l.state.composition == s.composition &&
      l.state.cursor == (if s.cursor > 0 then s.cursor - 1 else s.cursor) && (l.acted <==> s.cursor > 0)
    ensures var r := Step(s, Right);
      r.state.text == s.text && r.state.composition == s.composition &&
      r.state.cursor == (if s.cursor < |s.text| then s.cursor + 1 else s.cursor) && (r.acted <==> s.cursor < |s.text|)
  {
  }

  /** Typing one code point and pressing Backspace restores the text and the
      cursor. */
  lemma BackspaceUndoesTyping(s: Editor, cp: CodePoint)
    requires Consistent(s)
    ensures var t := Step(Step(s, TextInput([cp])).state, Backspace).state;
      t.text == s.text && t.cursor == s.cursor
  {
    var m := Step(s, TextInput([cp])).state;
    var t := Step(m, Backspace).state;
    assert m.text[..m.cursor - 1] == s.text[..s.cursor];
    assert m.text[m.cursor..] == s.text[s.cursor..];
  }

  /** Left then Right away from the start of the text is no move at all. */
  lemma LeftThenRight(s: Editor)
    requires Consistent(s) && s.cursor > 0
    ensures Step(Step(s, Left).state, Right).state == s
  {
  }

  /** A run of events is the run of its first part followed by the rest. */
  lemma {:induction false} RunAppend(s: Editor, a: seq<Event>, b: seq<Event>)
    requires Consistent(s)
    ensures Run(s, a + b).state == Run(Run(s, a).state, b).state
    ensures Run(s, a + b).acted == (Run(s, a).acted || Run(Run(s, a).state, b).acted)
    decreases |b|
  {
    if b == [] {
      assert a + b == a;
    } else {
      var b' := b[..|b| - 1];
      assert (a + b)[..|a + b| - 1] == a + b';
      assert (a + b)[|a + b| - 1] == b[|b| - 1];
      RunAppend(s, a, b');
    }
  }

  /** `getInputTextUTF8WithCursor`'s code points: '|' inserted at the cursor
      clamped to the text. */
  function WithCursor(text: seq<CodePoint>, cursor: nat): (r: seq<CodePoint>)
    ensures |r| == |text| + 1
  {
    var at := if cursor > |text| then |text| else cursor;
    InsertAt(text, at, [CursorMark])
  }

  /** The cursor mark sits at the clamped cursor and everything else is the
      text in order. */
  lemma WithCursorShape(text: seq<CodePoint>, cursor: nat)
    ensures var at := if cursor > |text| then |text| else cursor;
      var r := WithCursor(text, cursor);
      r[at] == CursorMark && r[..at] + r[at + 1..] == text
  {
    var at := if cursor > |text| then |text| else cursor;
    var r := WithCursor(text, cursor);
    assert r[..at] == text[..at];
    assert r[at + 1..] == text[at..];
  }

  /** The object `TextInput`, starting empty with the cursor at 0. */
  class TextInput {
    var inputText: seq<CodePoint>
    var compositionText: seq<CodePoint>
    var cursorPos: nat

    function State(): Editor
      reads this
    {
      Editor(inputText, compositionText, cursorPos)
    }

    ghost predicate Valid()
      reads this
    {
      Consistent(State())
    }

    constructor ()
      ensures Valid()
      ensures inputText == [] && compositionText == [] && cursorPos == 0
    {
      inputText, compositionText, cursorPos := [], [], 0;
    }

    /** One turn of the event loop of `update`: reacts to `event` and
        tells whether it changed something. */
    method HandleEvent(event: Event) returns (acted: bool)
      requires Valid()
      modifies this
      ensures Valid()
      ensures State() == Step(old(State()), event).state
      ensures acted == Step(old(State()), event).acted
    {
      acted := false;
      match event {
        case TextInput(cps) =>
          inputText := inputText[..cursorPos] + cps + inputText[cursorPos..];
          cursorPos := cursorPos + |cps|;
          compositionText := [];
          acted := true;
        case Editing(cps) =>
          compositionText := cps;
          acted := true;
        case Backspace =>
          if cursorPos > 0 {
            inputText := inputText[..cursorPos - 1] + inputText[cursorPos..];
            cursorPos := cursorPos - 1;
            acted := true;
          }
        case Return =>
          inputText := inputText[..cursorPos] + [Newline] + inputText[cursorPos..];
          cursorPos := cursorPos + 1;
          compositionText := [];
          acted := true;
        case Left =>
          if cursorPos > 0 {
            cursorPos := cursorPos - 1;
            acted := true;
          }
        case Right =>
          if cursorPos < |inputText| {
            cursorPos := cursorPos + 1;
            acted := true;
          }
        case Paste(cps) =>
          inputText := inputText[..cursorPos] + cps + inputText[cursorPos..];
          cursorPos := cursorPos + |cps|;
          acted := true;
        case OtherKey =>
      }
    }

    /** `update`: handles the events in order; the result tells whether any
        of them changed something. */
    method Update(events: seq<Event>) returns (updated: bool)
      requires Valid()
      modifies this
      ensures Valid()
      ensures State() == Run(old(State()), events).state
      ensures updated == Run(old(State()), events).acted
    {
      ghost var s0 := State();
      updated := false;
      for i := 0 to |events|
        invariant Valid()
        invariant State() == Run(s0, events[..i]).state
        invariant updated == Run(s0, events[..i]).acted
      {
        assert events[..i + 1][..i] == events[..i];
        var acted := HandleEvent(events[i]);
        if acted {
          updated := true;
        }
      }
      assert events[..|events|] == events;
    }

    /** `getInputTextUTF8WithCursor`: the UTF-8 bytes of the text with '|'
        at the cursor; decoding them gives that text back. */
    method GetInputTextUtf8WithCursor() returns (bytes: seq<Byte>)
      ensures bytes == Encode(WithCursor(inputText, cursorPos))
      ensures Decodable(bytes) && Decode(bytes) == WithCursor(inputText, cursorPos)
      ensures |bytes| == |Encode(inputText)| + 1
    {
      var at := cursorPos;
      if at > |inputText| {
        at := |inputText|;
      }
      var copy := inputText[..at] + [CursorMark] + inputText[at..];
      bytes := UnicodeToUtf8(copy);
      ghost var pre, post := inputText[..at], inputText[at..];
      assert copy == WithCursor(inputText, cursorPos);
      EncodeAppend(pre + [CursorMark], post);
      EncodeAppend(pre, [CursorMark]);
      assert Encode([CursorMark]) == EncodeOne(CursorMark) + Encode([]);
      EncodeAppend(pre, post);
      assert pre + post == inputText;
      assert |bytes| == |Encode(pre)| + 1 + |Encode(post)|;
    }
  }
}

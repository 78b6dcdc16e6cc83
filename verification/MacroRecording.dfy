/**
  Recording terminal input as macro actions and replaying them. The reference is what replay should send:
  the input with every line ending as one carriage return and without the controls a macro has no key for.
 */
module MacroRecording {
  import opened Bytes
  import opened Wrappers
  import opened JsText
  import TerminalInput

  const MAX_MACRO_ACTIONS := 64
  const MAX_RECORDED_MACRO_TEXT_BYTES := 64 * 1024
  const MAX_MACRO_TEXT_BYTES := 64 * 1024

  const ESC: U16 := 0x1B
  const CR: U16 := 0x0D
  const LF: U16 := 0x0A
  const TAB: U16 := 0x09
  const CTRL_C: U16 := 0x03
  const CTRL_D: U16 := 0x04
  const DEL: U16 := 0x7F
  const LEFT_BRACKET: U16 := 0x5B

  datatype Key =
    | Enter | Escape | Tab | Backspace | CtrlC | CtrlD
    | ArrowUp | ArrowDown | ArrowLeft | ArrowRight

  /** The two kinds of action that recording produces. */
  datatype Action = SendText(text: Text) | SendKey(key: Key)

  datatype Recording = Recording(terminalId: string, actions: seq<Action>, textBytes: nat)

  /** `macroRecordingRef`: capturing, or stopped at the limit with what was captured before. */
  datatype Capture = Capturing(recording: Recording) | Stopped(recording: Recording)

  // ----- Tokenising -----

  /** The first entry of the key table that the data starts with, and the length of its sequence. */
  function KeyAt(data: Text): (found: Option<(Key, nat)>)
    requires data != []
    ensures found.Some? ==> 0 < found.value.1 <= |data|
  {
    var arrow := if |data| >= 3 && data[0] == ESC && data[1] == LEFT_BRACKET then data[2] else 0;
    if arrow == 0x41 then Some((ArrowUp, 3))
    else if arrow == 0x42 then Some((ArrowDown, 3))
    else if arrow == 0x44 then Some((ArrowLeft, 3))
    else if arrow == 0x43 then Some((ArrowRight, 3))
    else if |data| >= 2 && data[0] == CR && data[1] == LF then Some((Enter, 2))
    else if data[0] == CTRL_C then Some((CtrlC, 1))
    else if data[0] == CTRL_D then Some((CtrlD, 1))
    else if data[0] == DEL then Some((Backspace, 1))
    else if data[0] == ESC then Some((Escape, 1))
    else if data[0] == TAB then Some((Tab, 1))
    else if data[0] == CR || data[0] == LF then Some((Enter, 1))
    else None
  }

  /** The key table, number by number; `Replay` sends the same sequences, and a carriage return for Enter. */
  lemma KeysInNumbers(rest: Text)
    ensures KeyAt([0x1B, 0x5B, 0x41] + rest) == Some((ArrowUp, 3)) && KeyData(ArrowUp) == [0x1B, 0x5B, 0x41]
    ensures KeyAt([0x1B, 0x5B, 0x42] + rest) == Some((ArrowDown, 3)) && KeyData(ArrowDown) == [0x1B, 0x5B, 0x42]
    ensures KeyAt([0x1B, 0x5B, 0x44] + rest) == Some((ArrowLeft, 3)) && KeyData(ArrowLeft) == [0x1B, 0x5B, 0x44]
    ensures KeyAt([0x1B, 0x5B, 0x43] + rest) == Some((ArrowRight, 3)) && KeyData(ArrowRight) == [0x1B, 0x5B, 0x43]
    ensures KeyAt([0x0D, 0x0A] + rest) == Some((Enter, 2)) && KeyData(Enter) == [0x0D]
    ensures KeyAt([0x03] + rest) == Some((CtrlC, 1)) && KeyData(CtrlC) == [0x03]
    ensures KeyAt([0x04] + rest) == Some((CtrlD, 1)) && KeyData(CtrlD) == [0x04]
    ensures KeyAt([0x7F] + rest) == Some((Backspace, 1)) && KeyData(Backspace) == [0x7F]
    ensures KeyAt([0x09] + rest) == Some((Tab, 1)) && KeyData(Tab) == [0x09]
    ensures KeyAt([0x0A] + rest) == Some((Enter, 1)) && (KeyAt([0x0D] + rest) == Some((Enter, 1)) || rest[0] == 0x0A)
    ensures KeyData(Escape) == [0x1B]
    ensures KeyAt([0x1B] + rest) == Some((Escape, 1)) ||
            (|rest| >= 2 && rest[0] == 0x5B && 0x41 <= rest[1] <= 0x44)
    ensures forall u: U16 :: u >= 0x20 && u != 0x7F ==> KeyAt([u] + rest) == None
    ensures forall u: U16 :: u < 0x20 && u !in {0x03, 0x04, 0x09, 0x0A, 0x0D, 0x1B} ==> KeyAt([u] + rest) == None
  {
  }

  predicate IsControl(u: U16) {
    u < 0x20 || u == DEL
  }

  function Flush(text: Text): (actions: seq<Action>) {
    if text == [] then [] else [SendText(text)]
  }

  /** The actions of the data that follows the text collected so far. */
  function Scan(data: Text, text: Text): (actions: seq<Action>)
    decreases data
  {
    if data == [] then Flush(text)
    else match KeyAt(data)
      case Some((key, length)) => Flush(text) + [SendKey(key)] + Scan(data[length..], [])
      case None =>
        if IsControl(data[0]) then Flush(text) + Scan(data[1..], [])
        else Scan(data[1..], text + [data[0]])
  }

  /** One step of the loop. */
  lemma ScanStep(data: Text, text: Text)
    requires data != []
    ensures var control := KeyAt(data);
            Scan(data, text) ==
            if control.Some? then Flush(text) + [SendKey(control.value.0)] + Scan(data[control.value.1..], [])
            else if IsControl(data[0]) then Flush(text) + Scan(data[1..], [])
            else Scan(data[1..], text + [data[0]])
  {
    hide KeyAt, Flush, IsControl;
  }

  /** At the end of the data, of the text and of the actions there is nothing left. */
  lemma NothingLeft(text: Text, actions: seq<Action>)
    ensures Scan([], text) == Flush(text) == if text == [] then [] else [SendText(text)]
    ensures Normalize([]) == [] && Replay([]) == [] && Merge(actions, []) == actions
  {
  }

  method RecordedMacroActions(data: Text) returns (actions: seq<Action>)
    ensures actions == Scan(data, [])
    ensures Replay(actions) == Normalize(data)
  {
    hide KeyAt, Scan, Flush, Replay, Normalize;
    actions := [];
    var text: Text := [];
    var index := 0;
    while index < |data|
      invariant 0 <= index <= |data|
      invariant actions + Scan(data[index..], text) == Scan(data, [])
    {
      var rest := data[index..];
      var control := KeyAt(rest);
      ScanStep(rest, text);
      if control.Some? {
        assert data[index + control.value.1..] == rest[control.value.1..];
        var pushed := Flush(text) + [SendKey(control.value.0)];
        assert (actions + pushed) + Scan(rest[control.value.1..], []) == actions + Scan(rest, text);
        actions := actions + pushed;
        text := [];
        index := index + control.value.1;
      } else {
        assert data[index + 1..] == rest[1..];
        if IsControl(data[index]) {
          assert (actions + Flush(text)) + Scan(rest[1..], []) == actions + Scan(rest, text);
          actions := actions + Flush(text);
          text := [];
        } else {
          text := text + [data[index]];
        }
        index := index + 1;
      }
    }
    assert data[index..] == [];
    NothingLeft(text, []);
    actions := actions + Flush(text);
    ScanReplays(data, []);
    assert [] + Normalize(data) == Normalize(data);
  }

  // ----- Replaying -----

  /** What replay sends for a key. */
  function KeyData(key: Key): (data: Text) {
    match key
    case Enter => [CR]
    case Escape => [ESC]
    case Tab => [TAB]
    case Backspace => [DEL]
    case CtrlC => [CTRL_C]
    case CtrlD => [CTRL_D]
    case ArrowUp => [ESC, LEFT_BRACKET, 0x41]
    case ArrowDown => [ESC, LEFT_BRACKET, 0x42]
    case ArrowLeft => [ESC, LEFT_BRACKET, 0x44]
    case ArrowRight => [ESC, LEFT_BRACKET, 0x43]
  }

  function ActionData(action: Action): (data: Text) {
    match action
    case SendText(text) => text
    case SendKey(key) => KeyData(key)
  }

  function Replay(actions: seq<Action>): (data: Text) {
    FlatMap(ActionData, actions)
  }

  lemma OneAction(action: Action)
    ensures Replay([action]) == ActionData(action) && TotalTextBytes([action]) == TextBytes(action)
  {
    FlatMapOne(ActionData, action);
    assert [action][1..] == [];
  }

  lemma ReplayConcat(a: seq<Action>, b: seq<Action>)
    ensures Replay(a + b) == Replay(a) + Replay(b)
  {
    FlatMapConcat(ActionData, a, b);
  }

  /** Unit by unit, with no notion of keys: line endings become CR, controls without a key vanish. */
  function Normalize(data: Text): (r: Text) {
    if data == [] then []
    else if data[0] == CR && |data| >= 2 && data[1] == LF then [CR] + Normalize(data[2..])
    else if data[0] == LF then [CR] + Normalize(data[1..])
    else if data[0] < 0x20 && data[0] !in {CTRL_C, CTRL_D, TAB, CR, ESC} then Normalize(data[1..])
    else [data[0]] + Normalize(data[1..])
  }

  /** How many units the first step of normalisation consumes, and what it keeps of them. */
  function NormalLength(data: Text): (n: nat)
    requires data != []
  {
    if |data| >= 2 && data[0] == CR && data[1] == LF then 2 else 1
  }

  function NormalHead(data: Text): (head: Text)
    requires data != []
  {
    if data[0] == LF then [CR]
    else if data[0] < 0x20 && data[0] !in {CTRL_C, CTRL_D, TAB, CR, ESC} then [] else [data[0]]
  }

  lemma NormalizeStep(data: Text)
    requires data != []
    ensures Normalize(data) == NormalHead(data) + Normalize(data[NormalLength(data)..])
  {
  }

  /** The head of the data and what its key replays to, or what happens to a unit without a key. */
  lemma NormalizeHead(data: Text)
    requires data != []
    ensures KeyAt(data).Some? ==>
      var (key, length) := KeyAt(data).value; Normalize(data) == KeyData(key) + Normalize(data[length..])
    ensures KeyAt(data).None? && IsControl(data[0]) ==> Normalize(data) == Normalize(data[1..])
    ensures KeyAt(data).None? && !IsControl(data[0]) ==> Normalize(data) == [data[0]] + Normalize(data[1..])
  {
    hide Normalize;
    if |data| >= 3 && data[0] == ESC && data[1] == LEFT_BRACKET && 0x41 <= data[2] <= 0x44 {
      NormalizeArrow(data);
    } else {
      NormalizeStep(data);
    }
  }

  lemma NormalizeKept(data: Text)
    requires data != [] && (data[0] == ESC || data[0] >= 0x20)
    ensures Normalize(data) == [data[0]] + Normalize(data[1..])
  {
  }

  lemma ThreeUnits(a: U16, b: U16, c: U16, rest: Text)
    ensures [a] + ([b] + ([c] + rest)) == [a, b, c] + rest
  {
  }

  lemma NormalizeArrow(data: Text)
    requires |data| >= 3 && data[0] == ESC && data[1] >= 0x20 && data[2] >= 0x20
    ensures Normalize(data) == [ESC, data[1], data[2]] + Normalize(data[3..])
  {
    hide Normalize;
    NormalizeKept(data);
    NormalizeKept(data[1..]);
    NormalizeKept(data[2..]);
    ThreeUnits(ESC, data[1], data[2], Normalize(data[3..]));
    assert data[1..][1..] == data[2..] && data[2..][1..] == data[3..];
  }

  /** Replaying what was recorded sends the normalised input. */
  lemma {:induction false} ScanReplays(data: Text, text: Text)
    ensures Replay(Scan(data, text)) == text + Normalize(data)
    decreases data
  {
    hide KeyAt, Normalize, Replay, Scan, Flush, IsControl, KeyData;
    if data == [] {
      NothingLeft(text, []);
      FlushReplays(text);
    } else {
      NormalizeHead(data);
      ScanStep(data, text);
      match KeyAt(data)
      case Some((key, length)) =>
        ScanReplays(data[length..], []);
        KeyReplays(text, key, Scan(data[length..], []));
        assert [] + Normalize(data[length..]) == Normalize(data[length..]);
      case None =>
        if IsControl(data[0]) {
          ScanReplays(data[1..], []);
          FlushReplays(text);
          ReplayConcat(Flush(text), Scan(data[1..], []));
        } else {
          ScanReplays(data[1..], text + [data[0]]);
          assert text + [data[0]] + Normalize(data[1..]) == text + Normalize(data);
        }
    }
  }

  lemma KeyReplays(text: Text, key: Key, rest: seq<Action>)
    ensures Replay(Flush(text) + [SendKey(key)] + rest) == text + (KeyData(key) + Replay(rest))
  {
    hide Replay, Flush, KeyData;
    FlushReplays(text);
    OneAction(SendKey(key));
    ReplayConcat(Flush(text) + [SendKey(key)], rest);
    ReplayConcat(Flush(text), [SendKey(key)]);
  }

  lemma FlushReplays(text: Text)
    ensures Replay(Flush(text)) == text
  {
    if text != [] {
      OneAction(SendText(text));
    }
  }

  lemma {:induction false} NormalizedIsFixed(data: Text)
    requires forall i :: 0 <= i < |data| ==> data[i] >= 0x20 || data[i] in {CTRL_C, CTRL_D, TAB, CR, ESC}
    ensures Normalize(data) == data
  {
    if data != [] {
      NormalizedIsFixed(data[1..]);
    }
  }

  lemma {:induction false} NormalizedUnits(data: Text)
    ensures forall i :: 0 <= i < |Normalize(data)| ==>
      Normalize(data)[i] >= 0x20 || Normalize(data)[i] in {CTRL_C, CTRL_D, TAB, CR, ESC}
  {
    if data != [] {
      NormalizedUnits(data[1..]);
      if |data| >= 2 {
        NormalizedUnits(data[2..]);
      }
    }
  }

  /** Recording a replay records something that replays the same. */
  lemma RerecordingChangesNothing(data: Text)
    ensures Normalize(Normalize(data)) == Normalize(data)
    ensures Replay(Scan(Replay(Scan(data, [])), [])) == Replay(Scan(data, []))
  {
    hide Normalize, Scan, Replay;
    NormalizedUnits(data);
    NormalizedIsFixed(Normalize(data));
    ScanReplays(data, []);
    ScanReplays(Normalize(data), []);
    assert [] + Normalize(data) == Normalize(data);
  }

  predicate CutsCrlf(a: Text, b: Text) {
    a != [] && b != [] && a[|a| - 1] == CR && b[0] == LF
  }

  /** Cutting the input in two changes the replay exactly when the cut falls inside a CRLF. */
  lemma {:induction false} NormalizeConcat(a: Text, b: Text)
    ensures Normalize(a + b) == Normalize(a) + Normalize(b) <==> !CutsCrlf(a, b)
    ensures |Normalize(a + b)| + (if CutsCrlf(a, b) then 1 else 0) == |Normalize(a)| + |Normalize(b)|
  {
    hide Normalize;
    if a == [] {
      assert a + b == b;
      NothingLeft([], []);
    } else if |a| == 1 {
      assert a == [a[0]];
      NormalizeOne(a[0], b);
    } else {
      var n := if a[0] == CR && a[1] == LF then 2 else 1;
      assert (a + b)[n..] == a[n..] + b;
      NormalizeConcat(a[n..], b);
      NormalizeStep(a);
      NormalizeStep(a + b);
      var head := NormalHead(a);
      assert a[n..] == [] ==> CutsCrlf(a, b) == false;
      assert head + (Normalize(a[n..]) + Normalize(b)) == Normalize(a) + Normalize(b);
      if Normalize(a + b) == Normalize(a) + Normalize(b) {
        SamePrefix(head, Normalize(a[n..] + b), Normalize(a[n..]) + Normalize(b));
      }
    }
  }

  lemma NormalizeOne(u: U16, b: Text)
    ensures Normalize([u] + b) == Normalize([u]) + Normalize(b) <==> !CutsCrlf([u], b)
    ensures |Normalize([u] + b)| + (if CutsCrlf([u], b) then 1 else 0) == |Normalize([u])| + |Normalize(b)|
  {
    hide Normalize;
    if CutsCrlf([u], b) {
      NormalizeCut(b);
    } else {
      assert ([u] + b)[1..] == b && ([u] + b)[0] == u;
      assert [u][1..] == [];
      NothingLeft([], []);
      NormalizeStep([u]);
      NormalizeStep([u] + b);
    }
  }

  lemma NormalizeCut(b: Text)
    requires b != [] && b[0] == LF
    ensures Normalize([CR] + b) == Normalize(b) && Normalize([CR]) == [CR]
  {
    assert ([CR] + b)[2..] == b[1..];
    assert Normalize([CR]) == [CR] + Normalize([CR][1..]);
  }

  // ----- What recorded actions look like -----

  predicate Recordable(action: Action) {
    action.SendText? ==> action.text != [] && forall u | u in action.text :: !IsControl(u)
  }

  /** Every text is non-empty and printable, and no two texts are adjacent. */
  predicate Tidy(actions: seq<Action>) {
    && (forall i :: 0 <= i < |actions| ==> Recordable(actions[i]))
    && (forall i :: 0 < i < |actions| ==> !(actions[i - 1].SendText? && actions[i].SendText?))
  }

  function TextBytes(action: Action): (n: nat) {
    if action.SendText? then Utf8Length(action.text) else 0
  }

  function TotalTextBytes(actions: seq<Action>): (n: nat) {
    if actions == [] then 0 else TextBytes(actions[0]) + TotalTextBytes(actions[1..])
  }

  lemma {:induction false} TotalTextBytesConcat(a: seq<Action>, b: seq<Action>)
    ensures TotalTextBytes(a + b) == TotalTextBytes(a) + TotalTextBytes(b)
  {
    if a == [] {
      assert a + b == b;
    } else {
      assert (a + b)[1..] == a[1..] + b;
      TotalTextBytesConcat(a[1..], b);
    }
  }

  lemma {:induction false} TextWithin(actions: seq<Action>, i: nat)
    requires i < |actions|
    ensures TextBytes(actions[i]) <= TotalTextBytes(actions)
  {
    if i > 0 {
      TextWithin(actions[1..], i - 1);
    }
  }

  lemma {:induction false} ScanIsRecordable(data: Text, text: Text)
    requires forall u | u in text :: !IsControl(u)
    ensures forall action | action in Scan(data, text) :: Recordable(action)
    decreases data
  {
    hide KeyAt;
    if data != [] {
      match KeyAt(data)
      case Some((key, length)) =>
        ScanIsRecordable(data[length..], []);
      case None =>
        if IsControl(data[0]) {
          ScanIsRecordable(data[1..], []);
        } else {
          ScanIsRecordable(data[1..], text + [data[0]]);
        }
    }
  }

  lemma Utf8LengthAscii(data: Text)
    requires data != [] && data[0] < 0x80
    ensures Utf8Length(data) == 1 + Utf8Length(data[1..])
  {
  }

  /** The units of a key, and a dropped control, are ASCII, so no surrogate pair is cut there. */
  lemma HeadBytes(data: Text)
    requires data != [] && (KeyAt(data).Some? || IsControl(data[0]))
    ensures !IsLow(data[0])
    ensures KeyAt(data).Some? ==> Utf8Length(data[KeyAt(data).value.1..]) <= Utf8Length(data)
    ensures Utf8Length(data[1..]) <= Utf8Length(data)
  {
    hide Utf8Length;
    Utf8LengthAscii(data);
    if KeyAt(data).Some? && KeyAt(data).value.1 > 1 {
      Utf8LengthAscii(data[1..]);
      assert data[1..][1..] == data[2..];
      if KeyAt(data).value.1 > 2 {
        Utf8LengthAscii(data[2..]);
        assert data[2..][1..] == data[3..];
      }
    }
  }

  /** Recorded texts are never longer in UTF-8 than the input they were cut from. */
  lemma {:induction false} ScanTextBytes(data: Text, text: Text)
    ensures TotalTextBytes(Scan(data, text)) <= Utf8Length(text + data)
    decreases data
  {
    hide KeyAt, Utf8Length;
    OneAction(SendText(text));
    NothingLeft([], []);
    if data == [] {
      assert text + data == text;
    } else {
      match KeyAt(data)
      case Some((key, length)) =>
        HeadBytes(data);
        Utf8LengthConcat(text, data);
        ScanTextBytes(data[length..], []);
        assert [] + data[length..] == data[length..];
        OneAction(SendKey(key));
        TotalTextBytesConcat(Flush(text) + [SendKey(key)], Scan(data[length..], []));
        TotalTextBytesConcat(Flush(text), [SendKey(key)]);
      case None =>
        if IsControl(data[0]) {
          HeadBytes(data);
          Utf8LengthConcat(text, data);
          ScanTextBytes(data[1..], []);
          assert [] + data[1..] == data[1..];
          TotalTextBytesConcat(Flush(text), Scan(data[1..], []));
        } else {
          ScanTextBytes(data[1..], text + [data[0]]);
          assert text + [data[0]] + data[1..] == text + data;
        }
    }
  }

  // ----- Recording a replay -----

  /** What follows an escape character in the sequence of an arrow key. */
  predicate StartsArrow(data: Text) {
    |data| >= 2 && data[0] == LEFT_BRACKET && 0x41 <= data[1] <= 0x44
  }

  /** No escape key is followed by a text that makes it look like an arrow key. */
  predicate Unambiguous(actions: seq<Action>) {
    actions != [] ==>
      && !(actions[0] == SendKey(Escape) && |actions| > 1 && actions[1].SendText? && StartsArrow(actions[1].text))
      && Unambiguous(actions[1..])
  }

  lemma KeyIsFound(key: Key, rest: Text)
    requires rest != [] ==> rest[0] != LF
    ensures var found := KeyAt(KeyData(key) + rest);
            if key.Escape? && StartsArrow(rest) then found.Some? && found.value.0 != Escape
            else found == Some((key, |KeyData(key)|))
  {
  }

  lemma ReplayHead(actions: seq<Action>)
    requires actions != []
    ensures Replay(actions) == ActionData(actions[0]) + Replay(actions[1..])
  {
  }

  lemma TidyTail(actions: seq<Action>)
    requires Tidy(actions) && actions != []
    ensures Tidy(actions[1..])
    ensures actions[0].SendText? ==> actions[0].text != [] && forall u | u in actions[0].text :: !IsControl(u)
    ensures |actions| > 1 && actions[0].SendText? ==> actions[1].SendKey?
  {
  }

  /** The replay of tidy actions starts with a key's first unit or with the text. */
  lemma ReplayStart(actions: seq<Action>)
    requires Tidy(actions)
    ensures var data := Replay(actions);
            && (data == [] <==> actions == [])
            && (data != [] ==> data[0] != LF)
            && (StartsArrow(data) <==> actions != [] && actions[0].SendText? && StartsArrow(actions[0].text))
  {
    hide Replay;
    if actions == [] {
      NothingLeft([], []);
    } else {
      ReplayHead(actions);
      TidyTail(actions);
      var first := ActionData(actions[0]);
      assert first[0] in first;
      if |actions| == 1 {
        NothingLeft([], []);
      } else {
        ReplayHead(actions[1..]);
        TidyTail(actions[1..]);
        if |first| > 1 && actions[0].SendText? {
          assert first[1] in first;
        }
      }
    }
  }

  /** A key ends the text before it. */
  lemma FlushAtKey(data: Text, text: Text)
    requires data == [] || KeyAt(data).Some?
    ensures Scan(data, text) == Flush(text) + Scan(data, [])
  {
    hide KeyAt, Scan, Flush;
    NothingLeft(text, []);
    NothingLeft([], []);
    if data == [] {
      assert Flush(text) + [] == Flush(text);
    } else {
      ScanStep(data, text);
      ScanStep(data, []);
      var (key, length) := KeyAt(data).value;
      var rest := Scan(data[length..], []);
      assert Flush(text) + [SendKey(key)] + rest == Flush(text) + ([] + [SendKey(key)] + rest);
    }
  }

  lemma PrintableHasNoKey(data: Text)
    requires data != [] && !IsControl(data[0])
    ensures KeyAt(data).None?
  {
  }

  lemma {:induction false} ScanText(more: Text, rest: Text, text: Text)
    requires forall u | u in more :: !IsControl(u)
    ensures Scan(more + rest, text) == Scan(rest, text + more)
    decreases more
  {
    if more == [] {
      assert more + rest == rest && text + more == text;
    } else {
      assert more[0] in more;
      assert (more + rest)[1..] == more[1..] + rest && (more + rest)[0] == more[0];
      PrintableHasNoKey(more + rest);
      ScanStep(more + rest, text);
      ScanText(more[1..], rest, text + [more[0]]);
      assert text + [more[0]] + more[1..] == text + more;
    }
  }

  lemma ScanKey(key: Key, rest: Text)
    requires KeyAt(KeyData(key) + rest) == Some((key, |KeyData(key)|))
    ensures Scan(KeyData(key) + rest, []) == [SendKey(key)] + Scan(rest, [])
  {
    hide KeyAt, KeyData;
    assert (KeyData(key) + rest)[|KeyData(key)|..] == rest;
  }

  /**
    Recording is the inverse of replaying: tidy actions, replayed, are recorded as the very same actions,
    if and only if no escape key is followed by text that completes an arrow key's sequence.
   */
  lemma {:induction false} RecordingInvertsReplay(actions: seq<Action>)
    requires Tidy(actions)
    ensures Scan(Replay(actions), []) == actions <==> Unambiguous(actions)
  {
    hide KeyAt, KeyData, Scan, Replay, Tidy, Recordable, Flush, StartsArrow;
    if actions == [] {
      NothingLeft([], []);
    } else {
      var rest := actions[1..];
      var data := Replay(rest);
      TidyTail(actions);
      ReplayHead(actions);
      ReplayStart(rest);
      RecordingInvertsReplay(rest);
      assert actions == [actions[0]] + rest;
      match actions[0]
      case SendKey(key) =>
        KeyIsFound(key, data);
        if key.Escape? && StartsArrow(data) {
          NothingLeft([], []);
          ScanStep(KeyData(key) + data, []);
        } else {
          ScanKey(key, data);
          SamePrefix([actions[0]], Scan(data, []), rest);
        }
      case SendText(text) =>
        ScanText(text, data, []);
        assert [] + text == text;
        if rest != [] {
          TidyTail(rest);
          ReplayHead(rest);
          ReplayStart(rest[1..]);
          KeyIsFound(rest[0].key, Replay(rest[1..]));
        }
        FlushAtKey(data, text);
        NothingLeft(text, []);
        SamePrefix([actions[0]], Scan(data, []), rest);
    }
  }

  // ----- Appending to a recording -----

  function Last(actions: seq<Action>): (last: Option<Action>) {
    if actions == [] then None else Some(actions[|actions| - 1])
  }

  function Push(actions: seq<Action>, action: Action): (r: seq<Action>) {
    match (Last(actions), action)
    case (Some(SendText(previous)), SendText(text)) => actions[..|actions| - 1] + [SendText(previous + text)]
    case _ => actions + [action]
  }

  function Merge(actions: seq<Action>, more: seq<Action>): (r: seq<Action>)
    decreases more
  {
    if more == [] then actions else Merge(Push(actions, more[0]), more[1..])
  }

  function Append(recording: Recording, data: Text): (next: Option<Recording>) {
    var actions := Scan(data, []);
    if actions == [] then Some(recording)
    else
      var merged := Merge(recording.actions, actions);
      var textBytes := recording.textBytes + Utf8Length(data);
      if |merged| > MAX_MACRO_ACTIONS || textBytes > MAX_RECORDED_MACRO_TEXT_BYTES then None
      else Some(recording.(actions := merged, textBytes := textBytes))
  }

  method AppendMacroRecordingInput(recording: Recording, data: Text) returns (next: Option<Recording>)
    ensures next == Append(recording, data)
    ensures Valid(recording) && next.Some? ==>
      Valid(next.value) && Replay(next.value.actions) == Replay(recording.actions) + Normalize(data)
  {
    hide Scan, Push, Replay, Normalize;
    if Valid(recording) {
      AppendKeeps(recording, data);
    }
    var actions := RecordedMacroActions(data);
    if actions == [] {
      return Some(recording);
    }
    var textBytes := recording.textBytes + Utf8Length(data);
    var merged := recording.actions;
    for i := 0 to |actions|
      invariant Merge(merged, actions[i..]) == Merge(recording.actions, actions)
    {
      assert actions[i..][0] == actions[i] && actions[i..][1..] == actions[i + 1..];
      merged := Push(merged, actions[i]);
    }
    if |merged| > MAX_MACRO_ACTIONS || textBytes > MAX_RECORDED_MACRO_TEXT_BYTES {
      return None;
    }
    next := Some(recording.(actions := merged, textBytes := textBytes));
  }

  predicate Valid(recording: Recording) {
    && Tidy(recording.actions)
    && |recording.actions| <= MAX_MACRO_ACTIONS
    && TotalTextBytes(recording.actions) <= recording.textBytes <= MAX_RECORDED_MACRO_TEXT_BYTES
  }

  lemma PushKeepsTidy(actions: seq<Action>, action: Action)
    requires Tidy(actions) && Recordable(action)
    ensures Tidy(Push(actions, action))
  {
  }

  lemma PushKeeps(actions: seq<Action>, action: Action)
    ensures Tidy(actions) && Recordable(action) ==> Tidy(Push(actions, action))
    ensures Replay(Push(actions, action)) == Replay(actions) + ActionData(action)
    ensures TotalTextBytes(Push(actions, action)) <= TotalTextBytes(actions) + TextBytes(action)
    ensures |actions| <= |Push(actions, action)|
  {
    hide Utf8Length, Replay, Tidy, Recordable, TotalTextBytes;
    if Tidy(actions) && Recordable(action) {
      PushKeepsTidy(actions, action);
    }
    OneAction(action);
    if actions != [] && Last(actions).value.SendText? && action.SendText? {
      var front := actions[..|actions| - 1];
      assert actions == front + [Last(actions).value];
      ExtendText(front, Last(actions).value.text, action.text);
    } else {
      ReplayConcat(actions, [action]);
      TotalTextBytesConcat(actions, [action]);
    }
  }

  lemma ExtendText(front: seq<Action>, previous: Text, text: Text)
    ensures Replay(front + [SendText(previous + text)]) == Replay(front + [SendText(previous)]) + text
    ensures TotalTextBytes(front + [SendText(previous + text)]) <=
      TotalTextBytes(front + [SendText(previous)]) + Utf8Length(text)
  {
    hide Utf8Length, Replay, TotalTextBytes;
    OneAction(SendText(previous));
    OneAction(SendText(previous + text));
    ReplayConcat(front, [SendText(previous)]);
    ReplayConcat(front, [SendText(previous + text)]);
    TotalTextBytesConcat(front, [SendText(previous)]);
    TotalTextBytesConcat(front, [SendText(previous + text)]);
    Utf8LengthConcat(previous, text);
  }

  lemma {:induction false} MergeKeeps(actions: seq<Action>, more: seq<Action>)
    ensures Tidy(actions) && (forall action | action in more :: Recordable(action)) ==> Tidy(Merge(actions, more))
    ensures Replay(Merge(actions, more)) == Replay(actions) + Replay(more)
    ensures TotalTextBytes(Merge(actions, more)) <= TotalTextBytes(actions) + TotalTextBytes(more)
    ensures |actions| <= |Merge(actions, more)|
    decreases more
  {
    hide Tidy, Recordable, TextBytes, Push;
    if more != [] {
      PushKeeps(actions, more[0]);
      MergeKeeps(Push(actions, more[0]), more[1..]);
      assert more == [more[0]] + more[1..];
      assert Replay(more) == ActionData(more[0]) + Replay(more[1..]);
    }
  }

  lemma AppendKeeps(recording: Recording, data: Text)
    requires Valid(recording)
    ensures Append(recording, data).Some? ==>
      var next := Append(recording, data).value;
      Valid(next) && Replay(next.actions) == Replay(recording.actions) + Normalize(data)
  {
    hide Scan, Merge, Tidy, Recordable, Utf8Length, Normalize;
    ScanReplays(data, []);
    ScanIsRecordable(data, []);
    ScanTextBytes(data, []);
    assert [] + data == data && [] + Normalize(data) == Normalize(data);
    MergeKeeps(recording.actions, Scan(data, []));
  }

  // ----- Whole recordings -----

  function Begin(terminalId: string): (recording: Recording) {
    Recording(terminalId, [], 0)
  }

  /** `recordTerminalInput` for a run of inputs: at the limit the capture ends and keeps what it had. */
  function Record(recording: Recording, inputs: seq<Text>): (capture: Capture)
    decreases inputs
  {
    if inputs == [] then Capturing(recording)
    else match Append(recording, inputs[0])
      case None => Stopped(recording)
      case Some(next) => Record(next, inputs[1..])
  }

  function NormalizeAll(inputs: seq<Text>): (data: Text) {
    FlatMap(Normalize, inputs)
  }

  lemma {:induction false} RecordFrom(recording: Recording, inputs: seq<Text>) returns (k: nat)
    requires Valid(recording)
    ensures Valid(Record(recording, inputs).recording)
    ensures k <= |inputs|
    ensures Replay(Record(recording, inputs).recording.actions) ==
      Replay(recording.actions) + NormalizeAll(inputs[..k])
    ensures Record(recording, inputs).Capturing? ==> k == |inputs|
    ensures Record(recording, inputs).Stopped? ==>
      k < |inputs| && Append(Record(recording, inputs).recording, inputs[k]).None?
    decreases inputs
  {
    hide Append, Replay, Normalize, Valid;
    k := 0;
    if inputs != [] {
      AppendKeeps(recording, inputs[0]);
      match Append(recording, inputs[0])
      case None =>
      case Some(next) =>
        var rest := RecordFrom(next, inputs[1..]);
        k := rest + 1;
        assert inputs[..k][0] == inputs[0] && inputs[..k][1..] == inputs[1..][..rest];
    }
  }

  /** However long and however cut the input, what was captured replays the inputs before the limit, is
      tidy, and passes the native action checks unless it is empty. */
  lemma RecordingReplaysItsInput(terminalId: string, inputs: seq<Text>) returns (k: nat)
    ensures var capture := Record(Begin(terminalId), inputs);
      && Tidy(capture.recording.actions)
      && k <= |inputs| && (capture.Capturing? ==> k == |inputs|)
      && Replay(capture.recording.actions) == NormalizeAll(inputs[..k])
      && (capture.Stopped? ==> k < |inputs| && Append(capture.recording, inputs[k]).None?)
      && (Validate(capture.recording.actions).Valid? <==> capture.recording.actions != [])
  {
    hide Record, Append, Normalize, Validate;
    k := RecordFrom(Begin(terminalId), inputs);
    RecordedPassesNativeChecks(Record(Begin(terminalId), inputs).recording);
  }

  function Actions(data: Text): (actions: seq<Action>) {
    Scan(data, [])
  }

  /** Inputs without an action are not counted. */
  function CountedBytes(inputs: seq<Text>): (n: nat) {
    if inputs == [] then 0
    else (if Actions(inputs[0]) == [] then 0 else Utf8Length(inputs[0])) + CountedBytes(inputs[1..])
  }

  lemma {:induction false} MergeConcat(actions: seq<Action>, a: seq<Action>, b: seq<Action>)
    ensures Merge(actions, a + b) == Merge(Merge(actions, a), b)
    decreases a
  {
    hide Push;
    if a == [] {
      assert a + b == b;
    } else {
      assert (a + b)[1..] == a[1..] + b;
      MergeConcat(Push(actions, a[0]), a[1..], b);
    }
  }

  /** The capture stops exactly when the actions of all inputs together, merged once, or the bytes of all
      inputs with an action pass a limit: the limits are never applied early or late. */
  lemma {:induction false} StopsExactlyAtTheLimit(recording: Recording, inputs: seq<Text>)
    requires Valid(recording)
    ensures var all := Merge(recording.actions, FlatMap(Actions, inputs));
      var bytes := recording.textBytes + CountedBytes(inputs);
      && (Record(recording, inputs).Capturing? <==>
            |all| <= 64 && bytes <= 65536)
      && (Record(recording, inputs).Capturing? ==>
            Record(recording, inputs).recording == recording.(actions := all, textBytes := bytes))
    decreases inputs
  {
    hide Scan, Merge, Valid, Utf8Length;
    NothingLeft([], recording.actions);
    ValidWithin(recording);
    if inputs != [] {
      AppendKeeps(recording, inputs[0]);
      var first, rest := Actions(inputs[0]), FlatMap(Actions, inputs[1..]);
      MergeConcat(recording.actions, first, rest);
      MergeKeeps(Merge(recording.actions, first), rest);
      if Append(recording, inputs[0]).Some? {
        StopsExactlyAtTheLimit(Append(recording, inputs[0]).value, inputs[1..]);
      }
    }
  }

  lemma ValidWithin(recording: Recording)
    requires Valid(recording)
    ensures |recording.actions| <= MAX_MACRO_ACTIONS && recording.textBytes <= MAX_RECORDED_MACRO_TEXT_BYTES
  {
  }

  predicate NoCrlfIsCut(inputs: seq<Text>) {
    inputs != [] ==> !CutsCrlf(inputs[0], Flatten(inputs[1..])) && NoCrlfIsCut(inputs[1..])
  }

  /** How the keystrokes were grouped into inputs matters exactly when a CRLF was cut in two. */
  lemma {:induction false} GroupingMattersExactlyWhen(inputs: seq<Text>)
    ensures NormalizeAll(inputs) == Normalize(Flatten(inputs)) <==> NoCrlfIsCut(inputs)
    ensures |Normalize(Flatten(inputs))| <= |NormalizeAll(inputs)|
  {
    hide Normalize, CutsCrlf;
    if inputs == [] {
      NothingLeft([], []);
    } else {
      GroupingMattersExactlyWhen(inputs[1..]);
      NormalizeConcat(inputs[0], Flatten(inputs[1..]));
      if NormalizeAll(inputs) == Normalize(Flatten(inputs)) && !CutsCrlf(inputs[0], Flatten(inputs[1..])) {
        SamePrefix(Normalize(inputs[0]), NormalizeAll(inputs[1..]), Normalize(Flatten(inputs[1..])));
      }
      assert NormalizeAll(inputs) == Normalize(inputs[0]) + NormalizeAll(inputs[1..]);
    }
  }

  // ----- The native checks -----

  datatype Verdict = Valid | InvalidActionCount | EmptyText | TextTooLong | NulByte

  function ValidateText(text: Text): (verdict: Verdict) {
    if text == [] then EmptyText
    else if Utf8Length(text) > MAX_MACRO_TEXT_BYTES then TextTooLong
    else if 0 in text then NulByte
    else Verdict.Valid
  }

  function ValidateActions(actions: seq<Action>): (verdict: Verdict) {
    if actions == [] then Verdict.Valid
    else
      var first := if actions[0].SendText? then ValidateText(actions[0].text) else Verdict.Valid;
      if first.Valid? then ValidateActions(actions[1..]) else first
  }

  function Validate(actions: seq<Action>): (verdict: Verdict) {
    if 1 <= |actions| <= MAX_MACRO_ACTIONS then ValidateActions(actions) else InvalidActionCount
  }

  lemma {:induction false} ValidateActionsAll(actions: seq<Action>)
    requires forall i :: 0 <= i < |actions| ==> actions[i].SendText? ==> ValidateText(actions[i].text).Valid?
    ensures ValidateActions(actions).Valid?
  {
    hide ValidateText;
    if actions != [] {
      ValidateActionsAll(actions[1..]);
    }
  }

  /** What passes the native checks: 1 to 64 actions, every text non-empty, within 64 KiB and without NUL. */
  lemma PassesExactlyWhen(actions: seq<Action>)
    ensures Validate(actions).Valid? <==>
      && 1 <= |actions| <= 64
      && forall action | action in actions && action.SendText? ::
           action.text != [] && Utf8Length(action.text) <= 65536 && 0 !in action.text
    ensures Validate(actions) == InvalidActionCount <==> !(1 <= |actions| <= 64)
  {
    EachActionIsChecked(actions);
  }

  lemma {:induction false} EachActionIsChecked(actions: seq<Action>)
    ensures ValidateActions(actions).Valid? <==>
      forall action | action in actions && action.SendText? ::
        action.text != [] && Utf8Length(action.text) <= 65536 && 0 !in action.text
    ensures ValidateActions(actions) != InvalidActionCount
  {
    hide Utf8Length;
    if actions != [] {
      EachActionIsChecked(actions[1..]);
      assert actions == [actions[0]] + actions[1..];
    }
  }

  lemma RecordedPassesNativeChecks(recording: Recording)
    requires Valid(recording)
    ensures Validate(recording.actions).Valid? <==> recording.actions != []
  {
    hide Utf8Length;
    var actions := recording.actions;
    forall i | 0 <= i < |actions| && actions[i].SendText? ensures ValidateText(actions[i].text).Valid? {
      TextWithin(actions, i);
      assert Recordable(actions[i]);
    }
    ValidateActionsAll(actions);
  }

  // ----- Targets -----

  /** `new Set(ids)`: the first occurrence of every id, in order. */
  function Unique(ids: seq<TerminalInput.Id>): (unique: seq<TerminalInput.Id>) {
    if ids == [] then []
    else
      var last, before := ids[|ids| - 1], Unique(ids[..|ids| - 1]);
      if last in before then before else before + [last]
  }

  lemma {:induction false} UniqueIsASet(ids: seq<TerminalInput.Id>)
    ensures forall id :: id in Unique(ids) <==> id in ids
    ensures forall i, j :: 0 <= i < j < |Unique(ids)| ==> Unique(ids)[i] != Unique(ids)[j]
  {
    if ids != [] {
      var front, last := ids[..|ids| - 1], ids[|ids| - 1];
      UniqueIsASet(front);
      assert ids == front + [last];
    }
  }

  /** `pinMacroTargets`: one pin for every target, repeated ids counting once. */
  method PinMacroTargets(ids: seq<TerminalInput.Id>, b: TerminalInput.Bindings)
    returns (pins: Option<seq<TerminalInput.Pin>>)
    ensures pins.Some? <==> ids != [] && forall id | id in ids :: TerminalInput.PinTarget(b, id).Some?
    ensures pins.Some? ==> PinsOf(ids, pins.value, b)
  {
    UniqueIsASet(ids);
    var bindings: seq<TerminalInput.Pin> := [];
    ghost var done: seq<TerminalInput.Id> := [];
    var seen: set<TerminalInput.Id> := {};
    for i := 0 to |ids|
      invariant done == Unique(ids[..i]) && forall id :: id in seen <==> id in done
      invariant |bindings| == |done| && (i > 0 ==> done != [])
      invariant forall k :: 0 <= k < |done| ==> TerminalInput.PinTarget(b, done[k]) == Some(bindings[k])
    {
      assert ids[..i + 1][..i] == ids[..i];
      if ids[i] in seen {
        continue;
      }
      var pin := TerminalInput.PinTarget(b, ids[i]);
      if pin.None? {
        assert ids[i] in ids;
        return None;
      }
      bindings := bindings + [pin.value];
      seen := seen + {ids[i]};
      done := done + [ids[i]];
    }
    assert ids[..|ids|] == ids;
    pins := if bindings == [] then None else Some(bindings);
    forall id | pins.Some? && id in ids ensures TerminalInput.PinTarget(b, id).Some? {
      var k :| 0 <= k < |done| && done[k] == id;
    }
  }

  /** The pins of these ids, as they are taken at `b`. */
  ghost predicate PinsOf(ids: seq<TerminalInput.Id>, pins: seq<TerminalInput.Pin>, b: TerminalInput.Bindings) {
    && |pins| == |Unique(ids)|
    && forall i :: 0 <= i < |pins| ==> TerminalInput.PinTarget(b, Unique(ids)[i]) == Some(pins[i])
  }

  predicate TargetsStillBound(pins: seq<TerminalInput.Pin>, b: TerminalInput.Bindings) {
    pins != [] && forall i :: 0 <= i < |pins| ==> TerminalInput.StillBound(pins[i], b)
  }

  /** Pins taken earlier still hold exactly when pinning the same targets now would give the same pins. */
  lemma PinsHoldExactlyWhileUnchanged(ids: seq<TerminalInput.Id>, pins: seq<TerminalInput.Pin>,
                                      before: TerminalInput.Bindings, now: TerminalInput.Bindings)
    requires ids != [] && PinsOf(ids, pins, before)
    ensures TargetsStillBound(pins, now) <==>
      forall id | id in ids :: TerminalInput.PinTarget(now, id) == TerminalInput.PinTarget(before, id)
  {
    UniqueIsASet(ids);
    var unique := Unique(ids);
    assert ids[0] in unique;
    forall i | 0 <= i < |unique|
      ensures TerminalInput.StillBound(pins[i], now) <==>
        TerminalInput.PinTarget(now, unique[i]) == TerminalInput.PinTarget(before, unique[i])
    {
    }
    assert forall i :: 0 <= i < |unique| ==> unique[i] in ids;
    if TargetsStillBound(pins, now) {
      forall id | id in ids ensures TerminalInput.PinTarget(now, id) == TerminalInput.PinTarget(before, id) {
        var i :| 0 <= i < |unique| && unique[i] == id;
      }
    }
  }
}

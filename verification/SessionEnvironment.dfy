/**
  The NAME=value editor format of a session's environment: the desktop's parser and printer, the native
  validator, and the one condition on a list of entries that both of them enforce.
 */
module SessionEnvironment {
  import opened Bytes
  import opened JsText

  const MAX_ENTRIES := 64
  const MAX_NAME_BYTES := 128
  const MAX_VALUE_BYTES := 4096
  const MAX_TOTAL_BYTES := 64 * 1024

  const EQUALS: U16 := 0x3D
  const LF: U16 := 0x0A
  const CR: U16 := 0x0D
  const UNDERSCORE: U16 := 0x5F

  datatype Entry = Entry(name: Text, value: Text)

  datatype ParseError = NotNameValue | UnsafeName | DuplicateName | NameTooLong | InvalidValue | TooLarge

  datatype Parsed = Ok(entries: seq<Entry>) | Err(error: ParseError)

  datatype Verdict =
    | Valid
    | TooManyEnvironmentVariables | InvalidEnvironmentName | InvalidEnvironmentValue | EnvironmentTooLarge

  // ----- Characters -----

  predicate IsLetter(u: U16) {
    0x41 <= u <= 0x5A || 0x61 <= u <= 0x7A
  }

  predicate IsDigit(u: U16) {
    0x30 <= u <= 0x39
  }

  predicate IsControl(u: U16) {
    u <= 0x1F || 0x7F <= u <= 0x9F
  }

  /** White space and line terminators of ECMAScript, which `trim` removes. */
  predicate IsSpace(u: U16) {
    || 0x09 <= u <= 0x0D || u == 0x20 || u == 0xA0 || u == 0x1680 || 0x2000 <= u <= 0x200A
    || u == 0x2028 || u == 0x2029 || u == 0x202F || u == 0x205F || u == 0x3000 || u == 0xFEFF
  }

  predicate ContainsControl(t: Text) {
    exists i :: 0 <= i < |t| && IsControl(t[i])
  }

  predicate IsName(t: Text) {
    && t != [] && (IsLetter(t[0]) || t[0] == UNDERSCORE)
    && forall i :: 0 <= i < |t| ==> IsLetter(t[i]) || IsDigit(t[i]) || t[i] == UNDERSCORE
  }

  function Trim(t: Text): (r: Text)
    ensures t != [] && !IsSpace(t[0]) ==> r != []
    ensures t != [] && !IsSpace(t[0]) && !IsSpace(t[|t| - 1]) ==> r == t
  {
    if t != [] && IsSpace(t[0]) then Trim(t[1..])
    else if t != [] && IsSpace(t[|t| - 1]) then Trim(t[..|t| - 1])
    else t
  }

  /** The position of the first `u`, or the length when there is none. */
  function IndexOf(t: Text, u: U16): (i: nat)
    ensures i <= |t|
    ensures i < |t| ==> t[i] == u
    ensures forall k :: 0 <= k < i ==> t[k] != u
  {
    if t == [] || t[0] == u then 0 else 1 + IndexOf(t[1..], u)
  }

  // ----- Lines -----

  /** `split(/\r?\n/)`. */
  function Lines(input: Text): (lines: seq<Text>)
    ensures lines != []
  {
    var i := IndexOf(input, LF);
    if i == |input| then [input]
    else [if i > 0 && input[i - 1] == CR then input[..i - 1] else input[..i]] + Lines(input[i + 1..])
  }

  function Join(lines: seq<Text>): (t: Text) {
    if lines == [] then []
    else if |lines| == 1 then lines[0]
    else lines[0] + [LF] + Join(lines[1..])
  }

  function Print(e: Entry): (line: Text) {
    e.name + [EQUALS] + e.value
  }

  /** `formatSessionEnvironment`. */
  function Format(entries: seq<Entry>): (t: Text) {
    Join(seq(|entries|, i requires 0 <= i < |entries| => Print(entries[i])))
  }

  /** Splitting undoes joining as long as no line holds a line feed or ends in a carriage return. */
  lemma {:induction false} LinesOfJoin(lines: seq<Text>)
    requires lines != []
    requires forall i :: 0 <= i < |lines| ==> LF !in lines[i] && CR !in lines[i]
    ensures Lines(Join(lines)) == lines
  {
    if |lines| == 1 {
      assert Lines(lines[0]) == [lines[0]];
      assert lines == [lines[0]];
    } else {
      var first, t := lines[0], Join(lines);
      assert t[|first|] == LF && t[..|first|] == first && t[|first| + 1..] == Join(lines[1..]);
      FirstIndex(t, LF, |first|);
      assert |first| > 0 ==> t[|first| - 1] == first[|first| - 1];
      LinesOfJoin(lines[1..]);
    }
  }

  /** These equations determine the lines: a break is a line feed, with the carriage return before it, if any. */
  lemma LinesAtBreaks(line: Text, rest: Text)
    requires 0x0A !in line
    ensures Lines(line) == [line]
    ensures Lines(line + [0x0D, 0x0A] + rest) == [line] + Lines(rest)
    ensures line == [] || line[|line| - 1] != 0x0D ==> Lines(line + [0x0A] + rest) == [line] + Lines(rest)
  {
    var unix, dos := line + [0x0A] + rest, line + [0x0D, 0x0A] + rest;
    assert unix[..|line|] == line && unix[|line|] == LF && unix[|line| + 1..] == rest;
    assert dos[..|line|] == line && dos[..|line| + 1] == line + [0x0D] && dos[|line| + 2..] == rest;
    FirstIndex(unix, LF, |line|);
    FirstIndex(dos, LF, |line| + 1);
    assert IndexOf(line, LF) == |line| by {
      if IndexOf(line, LF) < |line| {
        assert line[IndexOf(line, LF)] in line;
      }
    }
    assert |line| > 0 ==> unix[|line| - 1] == line[|line| - 1];
  }

  lemma FirstIndex(t: Text, u: U16, i: nat)
    requires i < |t| && t[i] == u && u !in t[..i]
    ensures IndexOf(t, u) == i
  {
    forall k | 0 <= k < i ensures t[k] != u {
      assert t[k] == t[..i][k];
    }
  }

  // ----- What both sides enforce -----

  predicate ValidEntry(e: Entry) {
    && IsName(e.name) && Utf8Length(e.name) <= MAX_NAME_BYTES
    && Utf8Length(e.value) <= MAX_VALUE_BYTES && !ContainsControl(e.value)
  }

  function TotalBytes(entries: seq<Entry>): (n: nat) {
    if entries == [] then 0
    else TotalBytes(entries[..|entries| - 1])
         + (Utf8Length(entries[|entries| - 1].name) + Utf8Length(entries[|entries| - 1].value))
  }

  predicate Named(entries: seq<Entry>, name: Text) {
    exists i :: 0 <= i < |entries| && entries[i].name == name
  }

  predicate Acceptable(entries: seq<Entry>) {
    && |entries| <= MAX_ENTRIES
    && (forall i :: 0 <= i < |entries| ==> ValidEntry(entries[i]))
    && (forall i, j :: 0 <= i < j < |entries| ==> entries[i].name != entries[j].name)
    && TotalBytes(entries) <= MAX_TOTAL_BYTES
  }

  /** Whether one more entry keeps the list acceptable. */
  predicate Fits(entries: seq<Entry>, e: Entry) {
    && ValidEntry(e) && !Named(entries, e.name) && |entries| < MAX_ENTRIES
    && TotalBytes(entries) + (Utf8Length(e.name) + Utf8Length(e.value)) <= MAX_TOTAL_BYTES
  }

  lemma AcceptableSnoc(entries: seq<Entry>, e: Entry)
    ensures Acceptable(entries + [e]) <==> Acceptable(entries) && Fits(entries, e)
  {
    hide ValidEntry, Utf8Length;
    var all := entries + [e];
    assert all[..|entries|] == entries;
    assert forall i :: 0 <= i < |entries| ==> all[i] == entries[i];
    assert all[|entries|] == e;
  }

  lemma {:induction false} AcceptablePrefix(entries: seq<Entry>, more: seq<Entry>)
    requires Acceptable(entries + more)
    ensures Acceptable(entries)
    decreases more
  {
    hide Acceptable;
    if more == [] {
      assert entries + more == entries;
    } else {
      var front, e := more[..|more| - 1], more[|more| - 1];
      assert entries + more == (entries + front) + [e];
      AcceptableSnoc(entries + front, e);
      AcceptablePrefix(entries, front);
    }
  }

  // ----- The same in numbers -----

  /** A letter or underscore, then letters, digits and underscores. */
  predicate NameInNumbers(name: Text) {
    && name != [] && !(0x30 <= name[0] <= 0x39)
    && forall u | u in name :: 0x30 <= u <= 0x39 || 0x41 <= u <= 0x5A || 0x61 <= u <= 0x7A || u == 0x5F
  }

  predicate ValueInNumbers(value: Text) {
    forall u | u in value :: 0x20 <= u < 0x7F || u > 0x9F
  }

  lemma CharactersInNumbers(t: Text)
    ensures IsName(t) <==> NameInNumbers(t)
    ensures ContainsControl(t) <==> !ValueInNumbers(t)
  {
    assert forall i :: 0 <= i < |t| ==> t[i] in t;
    assert t != [] ==> t[0] in t;
  }

  /** The condition on a list in numbers: 64 entries, names of 128 bytes, values of 4096, 64 KiB in all. */
  lemma AcceptableInNumbers(entries: seq<Entry>)
    ensures Acceptable(entries) <==>
            && |entries| <= 64 && TotalBytes(entries) <= 65536
            && (forall i, j :: 0 <= i < j < |entries| ==> entries[i].name != entries[j].name)
            && forall e | e in entries ::
                 && NameInNumbers(e.name) && Utf8Length(e.name) <= 128
                 && ValueInNumbers(e.value) && Utf8Length(e.value) <= 4096
  {
    hide IsName, ContainsControl, NameInNumbers, ValueInNumbers, Utf8Length;
    forall e | e in entries
      ensures (IsName(e.name) <==> NameInNumbers(e.name)) && (ContainsControl(e.value) <==> !ValueInNumbers(e.value))
    {
      CharactersInNumbers(e.name);
      CharactersInNumbers(e.value);
    }
    assert forall i :: 0 <= i < |entries| ==> entries[i] in entries;
  }

  // ----- The native validator -----

  function ValidateFrom(environment: seq<Entry>, index: nat, total: nat): (verdict: Verdict)
    requires index <= |environment|
    decreases |environment| - index
  {
    if index == |environment| then Valid
    else
      var e := environment[index];
      var after := total + Utf8Length(e.name) + Utf8Length(e.value);
      if e.name == [] || Utf8Length(e.name) > MAX_NAME_BYTES || !IsName(e.name) || Named(environment[..index], e.name)
      then InvalidEnvironmentName
      else if Utf8Length(e.value) > MAX_VALUE_BYTES || 0 in e.value || ContainsControl(e.value)
      then InvalidEnvironmentValue
      else if after > MAX_TOTAL_BYTES then EnvironmentTooLarge
      else ValidateFrom(environment, index + 1, after)
  }

  function Validate(environment: seq<Entry>): (verdict: Verdict) {
    if |environment| > MAX_ENTRIES then TooManyEnvironmentVariables else ValidateFrom(environment, 0, 0)
  }

  method ValidateSessionEnvironment(environment: seq<Entry>) returns (verdict: Verdict)
    ensures verdict == Validate(environment)
    ensures verdict.Valid? <==> Acceptable(environment)
  {
    hide Acceptable, Utf8Length, IsName, ContainsControl;
    ValidatorIsExact(environment);
    if |environment| > MAX_ENTRIES {
      return TooManyEnvironmentVariables;
    }
    var totalBytes: nat := 0;
    for index := 0 to |environment|
      invariant ValidateFrom(environment, index, totalBytes) == Validate(environment)
    {
      var e := environment[index];
      var named := HasName(environment[..index], e.name);
      if e.name == [] || Utf8Length(e.name) > MAX_NAME_BYTES || !IsName(e.name) || named {
        return InvalidEnvironmentName;
      }
      if Utf8Length(e.value) > MAX_VALUE_BYTES || 0 in e.value || ContainsControl(e.value) {
        return InvalidEnvironmentValue;
      }
      totalBytes := totalBytes + Utf8Length(e.name) + Utf8Length(e.value);
      if totalBytes > MAX_TOTAL_BYTES {
        return EnvironmentTooLarge;
      }
    }
    verdict := Valid;
  }

  method HasName(entries: seq<Entry>, name: Text) returns (found: bool)
    ensures found <==> Named(entries, name)
  {
    for i := 0 to |entries|
      invariant forall k :: 0 <= k < i ==> entries[k].name != name
    {
      if entries[i].name == name {
        return true;
      }
    }
    found := false;
  }

  lemma NulIsControl(value: Text)
    ensures 0 in value ==> ContainsControl(value)
  {
    if 0 in value {
      var i :| 0 <= i < |value| && value[i] == 0;
      assert IsControl(value[i]);
    }
  }

  lemma {:induction false} ValidateFromIsExact(environment: seq<Entry>, index: nat)
    requires index <= |environment| <= MAX_ENTRIES && Acceptable(environment[..index])
    ensures ValidateFrom(environment, index, TotalBytes(environment[..index])).Valid? <==> Acceptable(environment)
    decreases |environment| - index
  {
    hide Acceptable, Utf8Length, IsName, ContainsControl, Named;
    if index == |environment| {
      assert environment[..index] == environment;
    } else {
      var before, e := environment[..index], environment[index];
      assert environment[..index + 1] == before + [e];
      assert (before + [e])[..index] == before;
      NulIsControl(e.value);
      AcceptableSnoc(before, e);
      if IsName(e.name) {
        NameFacts(e.name);
      }
      if Fits(before, e) {
        ValidateFromIsExact(environment, index + 1);
      } else {
        assert environment == (before + [e]) + environment[index + 1..];
        if Acceptable(environment) {
          AcceptablePrefix(before + [e], environment[index + 1..]);
          assert false;
        }
      }
    }
  }

  /** The native validator accepts exactly the acceptable lists. */
  lemma ValidatorIsExact(environment: seq<Entry>)
    ensures Validate(environment).Valid? <==> Acceptable(environment)
  {
    if |environment| <= MAX_ENTRIES {
      assert environment[..0] == [];
      ValidateFromIsExact(environment, 0);
    }
  }

  lemma {:induction false} ValidateReaches(environment: seq<Entry>, k: nat)
    requires k <= |environment| <= 64 && Acceptable(environment[..k])
    ensures Validate(environment) == ValidateFrom(environment, k, TotalBytes(environment[..k]))
    decreases k
  {
    if k == 0 {
      assert environment[..0] == [];
    } else {
      var before, e := environment[..k - 1], environment[k - 1];
      assert environment[..k] == before + [e];
      assert (before + [e])[..k - 1] == before;
      AcceptableSnoc(before, e);
      NulIsControl(e.value);
      ValidateReaches(environment, k - 1);
      hide Acceptable, Utf8Length, ContainsControl, Named;
    }
  }

  /** The verdict is that of the first entry that makes the list unacceptable: its name, its value, or the total. */
  lemma FirstBadEntryDecides(environment: seq<Entry>, k: nat)
    requires k < |environment| <= 64 && Acceptable(environment[..k]) && !Acceptable(environment[..k + 1])
    ensures var e := environment[k];
            Validate(environment) ==
            if !NameInNumbers(e.name) || Utf8Length(e.name) > 128
               || exists other | other in environment[..k] :: other.name == e.name
            then InvalidEnvironmentName
            else if !ValueInNumbers(e.value) || Utf8Length(e.value) > 4096 then InvalidEnvironmentValue
            else EnvironmentTooLarge
  {
    var before, e := environment[..k], environment[k];
    assert environment[..k + 1] == before + [e];
    ValidateReaches(environment, k);
    AcceptableSnoc(before, e);
    CharactersInNumbers(e.name);
    CharactersInNumbers(e.value);
    NulIsControl(e.value);
    hide Acceptable, Utf8Length, ContainsControl, IsName, NameInNumbers, ValueInNumbers, TotalBytes;
    assert Named(before, e.name) <==> exists other | other in before :: other.name == e.name by {
      if other :| other in before && other.name == e.name {
        var i :| 0 <= i < |before| && before[i] == other;
      }
    }
    assert NameInNumbers(e.name) ==> e.name != [] by { EmptyIsNoName(e.name); }
  }

  lemma EmptyIsNoName(name: Text)
    ensures NameInNumbers(name) ==> name != []
  {
  }

  // ----- The parser -----

  function Blank(line: Text): (r: bool) {
    Trim(line) == []
  }

  /** The entry that a line would be, cut at its first equals sign. */
  function EntryOf(line: Text): (e: Entry) {
    var i := IndexOf(line, EQUALS);
    Entry(line[..i], if i < |line| then line[i + 1..] else [])
  }

  /** What one line does to the entries so far. */
  function AddLine(entries: seq<Entry>, line: Text): (r: Parsed) {
    if Blank(line) then Ok(entries)
    else
      var separator := IndexOf(line, EQUALS);
      var e := EntryOf(line);
      if separator == |line| || separator == 0 then Err(NotNameValue)
      else if Trim(e.name) != e.name || !IsName(Trim(e.name)) then Err(UnsafeName)
      else if Named(entries, e.name) then Err(DuplicateName)
      else if Utf8Length(e.name) > MAX_NAME_BYTES then Err(NameTooLong)
      else if Utf8Length(e.value) > MAX_VALUE_BYTES || ContainsControl(e.value) then Err(InvalidValue)
      else if
        || |entries| + 1 > MAX_ENTRIES
        || TotalBytes(entries) + (Utf8Length(e.name) + Utf8Length(e.value)) > MAX_TOTAL_BYTES
      then Err(TooLarge)
      else Ok(entries + [e])
  }

  function ParseLines(entries: seq<Entry>, lines: seq<Text>): (r: Parsed)
    decreases lines
  {
    if lines == [] then Ok(entries)
    else match AddLine(entries, lines[0])
      case Ok(more) => ParseLines(more, lines[1..])
      case Err(error) => Err(error)
  }

  function Parse(input: Text): (r: Parsed) {
    ParseLines([], Lines(input))
  }

  ghost predicate NamesAre(names: set<Text>, entries: seq<Entry>) {
    forall name :: name in names <==> Named(entries, name)
  }

  lemma NamesSnoc(names: set<Text>, entries: seq<Entry>, e: Entry)
    requires NamesAre(names, entries)
    ensures NamesAre(names + {e.name}, entries + [e])
  {
    var all := entries + [e];
    forall name ensures name in names + {e.name} <==> Named(all, name) {
      if Named(entries, name) {
        var i :| 0 <= i < |entries| && entries[i].name == name;
        assert all[i].name == name;
      }
      assert all[|entries|] == e;
    }
  }

  lemma NamesHave(names: set<Text>, entries: seq<Entry>, name: Text)
    requires NamesAre(names, entries)
    ensures name in names <==> Named(entries, name)
  {
  }

  lemma TotalSnoc(entries: seq<Entry>, e: Entry)
    ensures TotalBytes(entries + [e]) == TotalBytes(entries) + (Utf8Length(e.name) + Utf8Length(e.value))
  {
    hide Utf8Length;
    assert (entries + [e])[..|entries|] == entries;
  }

  lemma ParseUnfolds(input: Text, entries: seq<Entry>, lines: seq<Text>)
    ensures Parse(input) == ParseLines([], Lines(input))
    ensures ParseLines(entries, lines) ==
            if lines == [] then Ok(entries)
            else
              var added := AddLine(entries, lines[0]);
              if added.Ok? then ParseLines(added.entries, lines[1..]) else added
  {
    hide AddLine, Lines;
  }

  method ParseSessionEnvironment(input: Text) returns (r: Parsed)
    ensures r == Parse(input)
    ensures r.Ok? ==> Acceptable(r.entries)
  {
    hide Lines, Blank, Trim, IndexOf, IsName, Utf8Length, ContainsControl, Named, Acceptable;
    hide Parse, ParseLines, TotalBytes, NamesAre;
    ParsedIsAcceptable(input);
    var entries: seq<Entry> := [];
    var names: set<Text> := {};
    var totalBytes := 0;
    var lines := Lines(input);
    NothingParsed();
    ParseUnfolds(input, entries, lines);
    for k := 0 to |lines|
      invariant ParseLines(entries, lines[k..]) == Parse(input)
      invariant NamesAre(names, entries) && totalBytes == TotalBytes(entries)
    {
      var line := lines[k];
      assert lines[k..][0] == line && lines[k..][1..] == lines[k + 1..];
      ParseUnfolds(input, entries, lines[k..]);
      if Blank(line) {
        continue;
      }
      var separator := IndexOf(line, EQUALS);
      if separator == |line| || separator == 0 {
        return Err(NotNameValue);
      }
      var rawName := line[..separator];
      var name := Trim(rawName);
      var value := line[separator + 1..];
      if name != rawName || !IsName(name) {
        return Err(UnsafeName);
      }
      NamesHave(names, entries, name);
      if name in names {
        return Err(DuplicateName);
      }
      if Utf8Length(name) > MAX_NAME_BYTES {
        return Err(NameTooLong);
      }
      if Utf8Length(value) > MAX_VALUE_BYTES || ContainsControl(value) {
        return Err(InvalidValue);
      }
      NamesSnoc(names, entries, Entry(name, value));
      TotalSnoc(entries, Entry(name, value));
      names := names + {name};
      entries := entries + [Entry(name, value)];
      totalBytes := totalBytes + (Utf8Length(name) + Utf8Length(value));
      if |entries| > MAX_ENTRIES || totalBytes > MAX_TOTAL_BYTES {
        return Err(TooLarge);
      }
    }
    ParseUnfolds(input, entries, lines[|lines|..]);
    r := Ok(entries);
  }

  // ----- What is parsed -----

  predicate IsEntryLine(line: Text) {
    !Blank(line) ==> IndexOf(line, EQUALS) < |line| && IsName(EntryOf(line).name)
  }

  /** Where nothing was typed, there is one blank line and there are no entries. */
  lemma NothingParsed()
    ensures Acceptable([]) && NamesAre({}, []) && AreEntryLines([])
    ensures TotalBytes([]) == 0
    ensures Lines([]) == [[]] && Blank([]) && IsEntryLine([]) && AreEntryLines([[]]) && Listed([[]]) == []
  {
    var lines: seq<Text> := [[]];
    assert lines[1..] == [];
  }

  predicate AreEntryLines(lines: seq<Text>) {
    forall i :: 0 <= i < |lines| ==> IsEntryLine(lines[i])
  }

  /** The entries of the lines that are not blank. */
  function Listed(lines: seq<Text>): (entries: seq<Entry>) {
    if lines == [] then []
    else (if Blank(lines[0]) then [] else [EntryOf(lines[0])]) + Listed(lines[1..])
  }

  lemma NameFacts(name: Text)
    requires IsName(name)
    ensures name != [] && Trim(name) == name
  {
  }

  lemma AddLineIsExact(entries: seq<Entry>, line: Text)
    requires Acceptable(entries) && !Blank(line)
    ensures AddLine(entries, line).Ok? <==> IsEntryLine(line) && Acceptable(entries + [EntryOf(line)])
    ensures AddLine(entries, line).Ok? ==> AddLine(entries, line).entries == entries + [EntryOf(line)]
  {
    hide Acceptable, Utf8Length, Trim, Blank, IsName, Named, ContainsControl;
    var e := EntryOf(line);
    AcceptableSnoc(entries, e);
    if IsName(e.name) {
      NameFacts(e.name);
    }
  }

  lemma {:induction false} ParseLinesIsExact(entries: seq<Entry>, lines: seq<Text>)
    requires Acceptable(entries)
    ensures ParseLines(entries, lines).Ok? <==>
      AreEntryLines(lines) && Acceptable(entries + Listed(lines))
    ensures ParseLines(entries, lines).Ok? ==> ParseLines(entries, lines).entries == entries + Listed(lines)
    decreases lines
  {
    hide Acceptable, Blank, EntryOf, AddLine, AreEntryLines, IsEntryLine;
    if lines == [] {
      NothingParsed();
      assert entries + Listed(lines) == entries;
    } else {
      var first, rest := lines[0], lines[1..];
      AllSplit(lines);
      if Blank(first) {
        assert Listed(lines) == Listed(rest);
        AddBlank(entries, first);
        ParseLinesIsExact(entries, rest);
      } else {
        var more := entries + [EntryOf(first)];
        AddLineIsExact(entries, first);
        assert more + Listed(rest) == entries + Listed(lines);
        if AddLine(entries, first).Ok? {
          ParseLinesIsExact(more, rest);
        } else if Acceptable(entries + Listed(lines)) {
          AcceptablePrefix(more, Listed(rest));
        }
      }
    }
  }

  lemma AllSplit(lines: seq<Text>)
    requires lines != []
    ensures AreEntryLines(lines) <==> IsEntryLine(lines[0]) && AreEntryLines(lines[1..])
  {
    hide IsEntryLine;
    if IsEntryLine(lines[0]) && AreEntryLines(lines[1..]) {
      forall i | 0 <= i < |lines| ensures IsEntryLine(lines[i]) {
        if i > 0 {
          assert lines[i] == lines[1..][i - 1];
        }
      }
    }
  }

  /** White space of ECMAScript and nothing else. */
  predicate SpacesInNumbers(line: Text) {
    forall u | u in line ::
      || 0x09 <= u <= 0x0D || u == 0x20 || u == 0xA0 || u == 0x1680 || 0x2000 <= u <= 0x200A
      || u == 0x2028 || u == 0x2029 || u == 0x202F || u == 0x205F || u == 0x3000 || u == 0xFEFF
  }

  lemma SpacesSplit(a: Text, b: Text)
    ensures SpacesInNumbers(a + b) <==> SpacesInNumbers(a) && SpacesInNumbers(b)
    ensures |a| == 1 ==> (SpacesInNumbers(a) <==> IsSpace(a[0]))
  {
    assert forall u :: u in a + b <==> u in a || u in b;
    assert |a| == 1 ==> a == [a[0]] && a[0] in a;
  }

  lemma {:induction false} BlankInNumbers(line: Text)
    ensures Blank(line) <==> SpacesInNumbers(line)
    decreases |line|
  {
    if line != [] {
      var first, last := [line[0]], [line[|line| - 1]];
      assert line == first + line[1..] && line == line[..|line| - 1] + last;
      SpacesSplit(first, line[1..]);
      SpacesSplit(line[..|line| - 1], last);
      SpacesSplit(last, []);
      hide SpacesInNumbers, IsSpace;
      assert last + [] == last;
      if IsSpace(line[0]) {
        BlankInNumbers(line[1..]);
      } else if IsSpace(line[|line| - 1]) {
        BlankInNumbers(line[..|line| - 1]);
      }
    }
  }

  /** The error of a line, in the order of the checks: its form, its name, a repetition, and the sizes. */
  lemma FirstErrorIsReported(entries: seq<Entry>, line: Text)
    requires !Blank(line)
    ensures var e := EntryOf(line);
      AddLine(entries, line) ==
      if 0x3D !in line || line[0] == 0x3D then Err(NotNameValue)
      else if !NameInNumbers(e.name) then Err(UnsafeName)
      else if exists other | other in entries :: other.name == e.name then Err(DuplicateName)
      else if Utf8Length(e.name) > 128 then Err(NameTooLong)
      else if Utf8Length(e.value) > 4096 || !ValueInNumbers(e.value) then Err(InvalidValue)
      else if |entries| >= 64 || TotalBytes(entries) + Utf8Length(e.name) + Utf8Length(e.value) > 65536
      then Err(TooLarge)
      else Ok(entries + [e])
  {
    hide Utf8Length, Trim, IsName, NameInNumbers, ContainsControl, ValueInNumbers, TotalBytes, Blank;
    var e := EntryOf(line);
    CharactersInNumbers(e.name);
    CharactersInNumbers(e.value);
    if IsName(e.name) {
      NameFacts(e.name);
    }
    assert 0x3D in line <==> IndexOf(line, EQUALS) < |line|;
    assert Named(entries, e.name) <==> exists other | other in entries :: other.name == e.name by {
      if other :| other in entries && other.name == e.name {
        var i :| 0 <= i < |entries| && entries[i] == other;
      }
    }
  }

  lemma AddBlank(entries: seq<Entry>, line: Text)
    requires Blank(line)
    ensures AddLine(entries, line) == Ok(entries) && IsEntryLine(line)
  {
  }

  /** Parsing succeeds exactly when every line that is not blank is NAME=value and the entries pass the
      native validator, and then returns those entries in order. */
  lemma ParserAndValidatorAgree(input: Text)
    ensures Parse(input).Ok? <==>
      AreEntryLines(Lines(input)) && Validate(Listed(Lines(input))).Valid?
    ensures Parse(input).Ok? ==> Parse(input).entries == Listed(Lines(input))
  {
    hide Lines, Acceptable, Listed, AreEntryLines, Validate;
    NothingParsed();
    ParseLinesIsExact([], Lines(input));
    assert [] + Listed(Lines(input)) == Listed(Lines(input));
    ValidatorIsExact(Listed(Lines(input)));
  }

  lemma ParsedIsAcceptable(input: Text)
    ensures Parse(input).Ok? ==> Validate(Parse(input).entries).Valid? && Acceptable(Parse(input).entries)
  {
    hide Lines, Acceptable, Listed, AreEntryLines, Validate, Parse;
    ParserAndValidatorAgree(input);
    ValidatorIsExact(Listed(Lines(input)));
  }

  // ----- Printing and parsing back -----

  lemma PrintedLine(e: Entry)
    requires ValidEntry(e)
    ensures !Blank(Print(e)) && IsEntryLine(Print(e)) && EntryOf(Print(e)) == e
    ensures LF !in Print(e) && CR !in Print(e)
  {
    hide Utf8Length;
    var line := Print(e);
    assert line[..|e.name|] == e.name && line[|e.name|] == EQUALS && line[|e.name| + 1..] == e.value;
    FirstIndex(line, EQUALS, |e.name|);
    assert line[0] == e.name[0];
  }

  lemma {:induction false} ListedPrinted(entries: seq<Entry>, lines: seq<Text>)
    requires |lines| == |entries|
    requires forall i :: 0 <= i < |lines| ==>
               lines[i] == Print(entries[i]) && !Blank(lines[i]) && EntryOf(lines[i]) == entries[i]
    ensures Listed(lines) == entries
  {
    hide Print, Blank, EntryOf;
    if lines != [] {
      ListedPrinted(entries[1..], lines[1..]);
      assert entries == [entries[0]] + entries[1..];
    }
  }

  /** Printing and parsing back returns the same entries exactly for the lists the native validator
      accepts, the empty list included. */
  lemma PrintThenParse(entries: seq<Entry>)
    ensures Parse(Format(entries)) == Ok(entries) <==> Validate(entries).Valid?
  {
    hide Acceptable, ValidEntry, Lines, Listed, IsEntryLine, Validate, Parse, Blank, EntryOf, Print;
    ParserAndValidatorAgree(Format(entries));
    ValidatorIsExact(entries);
    if Acceptable(entries) {
      var lines := seq(|entries|, i requires 0 <= i < |entries| => Print(entries[i]));
      forall i | 0 <= i < |entries|
        ensures !Blank(lines[i]) && IsEntryLine(lines[i]) && EntryOf(lines[i]) == entries[i]
        ensures LF !in lines[i] && CR !in lines[i]
      {
        AcceptableEntry(entries, i);
        PrintedLine(entries[i]);
      }
      if entries == [] {
        NothingParsed();
      } else {
        LinesOfJoin(lines);
        ListedPrinted(entries, lines);
      }
    }
  }

  lemma AcceptableEntry(entries: seq<Entry>, i: nat)
    requires Acceptable(entries) && i < |entries|
    ensures ValidEntry(entries[i])
  {
  }

  /** What the editor accepted survives being shown and saved again. */
  lemma ParseThenPrint(input: Text)
    requires Parse(input).Ok?
    ensures Parse(Format(Parse(input).entries)) == Parse(input)
  {
    hide Parse, Format, Validate;
    ParsedIsAcceptable(input);
    PrintThenParse(Parse(input).entries);
  }
}

/** Text forms of dynamic records and record sets: printing, and the parsers that fill a receiver field by field
    (dynamic_resolver.go). The parser of the record itself is a parameter. */
module DynamicText {
  import opened Strings
  import opened Records
  import opened DynamicRecords
  import opened Semicolons

  type RecordParser = string -> Outcome<Record>

  // ---------------------------------------------------------------- printing

  function Annotations(d: DynamicRecord): seq<string> {
    (if d.id.Some? then ["ID:" + Itoa(d.id.value)] else []) + (if d.volatile then ["Volatile"] else [])
  }

  /** The record and its annotations. */
  function Body(d: DynamicRecord): string {
    if Annotations(d) == [] then Text(d.record) else Join([Text(d.record), ";"] + Annotations(d), " ")
  }

  function LineText(d: DynamicRecord): string {
    if d.disabled then ";" + Body(d) else Body(d)
  }

  /** How a dynamic record is printed. */
  lemma LineFields(d: DynamicRecord)
    ensures LineText(d) ==
      (if d.disabled then ";" else "") + Text(d.record) +
      (if d.id.Some? || d.volatile then " ;" else "") +
      (if d.id.Some? then " ID:" + Itoa(d.id.value) else "") +
      (if d.volatile then " Volatile" else "")
  {
    hide Text, Itoa, Notes, Annotations, Body;
    NotesFields(d);
    if d.id.Some? || d.volatile {
      BodyShape(d);
      assert Text(d.record) + " " + [';'] == Text(d.record) + " ;";
    }
  }

  lemma NotesFields(d: DynamicRecord)
    ensures Annotations(d) != [] <==> d.id.Some? || d.volatile
    ensures Annotations(d) == [] ==> Body(d) == Text(d.record)
    ensures Annotations(d) != [] ==>
      Notes(d) == (if d.id.Some? then " ID:" + Itoa(d.id.value) else "") + (if d.volatile then " Volatile" else "")
  {
    hide Text, Itoa;
    if d.id.Some? && d.volatile {
      assert Annotations(d)[1..] == ["Volatile"];
      assert Join(Annotations(d), " ") == "ID:" + Itoa(d.id.value) + " " + "Volatile";
    }
  }

  /** DynamicRecord.String. */
  method ToString(d: DynamicRecord) returns (result: string)
    ensures result == LineText(d)
  {
    var annotates: seq<string> := [];
    if d.id.Some? {
      annotates := annotates + ["ID:" + Itoa(d.id.value)];
    }
    if d.volatile {
      annotates := annotates + ["Volatile"];
    }
    assert annotates == Annotations(d);
    result := Text(d.record);
    if |annotates| > 0 {
      result := Join([result, ";"] + annotates, " ");
    }
    if d.disabled {
      result := ";" + result;
    }
  }

  function LineTexts(ds: seq<DynamicRecord>): (lines: seq<string>)
    ensures |lines| == |ds| && forall i :: 0 <= i < |ds| ==> lines[i] == LineText(ds[i])
  {
    seq(|ds|, i requires 0 <= i < |ds| => LineText(ds[i]))
  }

  /** DynamicRecordSet.MarshalText: one more element than records, so that the text ends in a newline. */
  method MarshalSet(ds: seq<DynamicRecord>) returns (text: string)
    ensures text == Join(LineTexts(ds) + [""], "\n")
  {
    hide Join, LineText;
    var bs := new string[|ds| + 1](_ => "");
    for i := 0 to |ds|
      invariant forall k :: 0 <= k < i ==> bs[k] == LineText(ds[k])
      invariant bs[|ds|] == ""
    {
      bs[i] := ToString(ds[i]);
    }
    assert bs[..] == LineTexts(ds) + [""];
    text := Join(bs[..], "\n");
  }

  // ----------------------------------------------------------------- parsing

  /** bytes.TrimLeft by one character. */
  function TrimLeftChar(s: string, c: char): (t: string)
    ensures t == [] || t[0] != c
  {
    if s != [] && s[0] == c then TrimLeftChar(s[1..], c) else s
  }

  /** The fields of a receiver; the record is nil before one was parsed. */
  datatype Fields = Fields(record: Option<Record>, id: Option<int>, volatile: bool, disabled: bool)

  const BLANK := Fields(None, None, false, false)

  /** One annotation: what it leaves in the receiver, and whether it is valid. */
  function Annotate(f: Fields, x: string): (Fields, bool) {
    var (key, value) := Cut(x, ':');
    var word := Upper(TrimSpace(key));
    if word == "ID" then
      if value.None? then (f, false)
      else
        match Atoi(TrimSpace(value.value))
        case None => (f, false)
        case Some(n) => (f.(id := Some(n)), true)
    else if word == "VOLATILE" then (if value.Some? then (f, false) else (f.(volatile := true), true))
    else (f, true)
  }

  lemma KeyedAnnotation(f: Fields, key: string, value: string)
    requires Trimmed(key) && ':' !in key
    ensures Annotate(f, key + ":" + value) ==
      if Upper(key) == "ID" then
        (if Atoi(TrimSpace(value)).Some? then (f.(id := Atoi(TrimSpace(value))), true) else (f, false))
      else (f, Upper(key) != "VOLATILE")
  {
    hide TrimSpace, Cut, Upper, Atoi;
    assert key + ":" + value == key + [':'] + value;
    CutAt(key, ':', value);
    TrimTrimmed(key);
  }

  lemma BareAnnotation(f: Fields, word: string)
    requires Trimmed(word) && ':' !in word
    ensures Annotate(f, word) ==
      if Upper(word) == "VOLATILE" then (f.(volatile := true), true) else (f, Upper(word) != "ID")
  {
    hide TrimSpace, Cut, Upper, Atoi;
    CutNone(word, ':');
    TrimTrimmed(word);
  }

  /** Annotations are read in any case; those with other names are passed over. */
  lemma AnnotationCases(f: Fields)
    ensures Annotate(f, "Id:5") == (f.(id := Some(5)), true) && Annotate(f, "VOLATILE") == (f.(volatile := true), true)
    ensures Annotate(f, "dummy:aa") == (f, true) && Annotate(f, "ID") == (f, false)
    ensures Annotate(f, "ID:foobar") == (f, false) && Annotate(f, "volatile:1") == (f, false)
  {
    hide Annotate, TrimSpace, Atoi, Upper;
    UpperCases();
    KeyedAnnotation(f, "Id", "5");
    KeyedAnnotation(f, "dummy", "aa");
    KeyedAnnotation(f, "ID", "foobar");
    KeyedAnnotation(f, "volatile", "1");
    BareAnnotation(f, "VOLATILE");
    BareAnnotation(f, "ID");
    assert "Id" + ":" + "5" == "Id:5" && "dummy" + ":" + "aa" == "dummy:aa";
    assert "ID" + ":" + "foobar" == "ID:foobar" && "volatile" + ":" + "1" == "volatile:1";
    TrimTrimmed("5");
    TrimTrimmed("foobar");
    SmallNumbers();
  }

  lemma UpperCases()
    ensures Upper("Id") == "ID" && Upper("ID") == "ID"
    ensures Upper("VOLATILE") == "VOLATILE" && Upper("volatile") == "VOLATILE"
    ensures Upper("dummy") != "ID" && Upper("dummy") != "VOLATILE"
  {
  }

  lemma SmallNumbers()
    ensures Atoi("5") == Some(5) && Atoi("foobar") == None
  {
    assert "5" == Itoa(5);
    ItoaAtoi(5);
    assert !IsDigit("foobar"[0]);
  }

  /** Annotations from left to right, up to the first that is not valid. */
  function AnnotateAll(f: Fields, xs: seq<string>): (Fields, bool) {
    if xs == [] then (f, true)
    else
      var (front, ok) := AnnotateAll(f, xs[..|xs| - 1]);
      if ok then Annotate(front, xs[|xs| - 1]) else (front, false)
  }

  function ReadAnnotations(f: Fields, text: string): (Fields, bool) {
    AnnotateAll(f.(id := None, volatile := false), Split(TrimSpace(text), ' '))
  }

  /** A text of one line with something to see on it, or of several lines. */
  predicate Readable(text: string) {
    '\n' in text || !AllSpace(text)
  }

  /** How UnmarshalText ends. */
  datatype Ending = Success | Failure | Panic

  /** What UnmarshalText leaves in the receiver, and how it ends. */
  function Read(parse: RecordParser, f: Fields, text: string): (Fields, Ending)
    requires Readable(text)
  {
    TrimBlank(text);
    if '\n' in text then (f, Failure)
    else
      var line := TrimSpace(text);
      var off := line[0] == ';';
      var (head, notes) := Cut(if off then TrimSpace(TrimLeftChar(line, ';')) else line, ';');
      var g := f.(disabled := off);
      var (h, ok) := if notes.None? then (g.(id := None), true) else ReadAnnotations(g, notes.value);
      if !ok then (h, Failure)
      else
        match parse(head)
        case Ok(r) => (h.(record := Some(r)), Success)
        case Panicked => (h, Panic)
        case _ => (h.(record := None), Failure)
  }

  /** The receiver of UnmarshalText. */
  class Receiver {
    var record: Option<Record>
    var id: Option<int>
    var volatile: bool
    var disabled: bool

    ghost function State(): Fields
      reads this
    {
      Fields(record, id, volatile, disabled)
    }

    constructor ()
      ensures State() == BLANK
    {
      record, id, volatile, disabled := None, None, false, false;
    }

    /** unmarshalAnnotation. */
    method UnmarshalAnnotation(text: string) returns (ok: bool)
      modifies this
      ensures (State(), ok) == ReadAnnotations(old(State()), text)
    {
      hide TrimSpace, Atoi, Upper, Split, Cut;
      id := None;
      volatile := false;
      var xs := Split(TrimSpace(text), ' ');
      ghost var start := State();
      for i := 0 to |xs|
        invariant (State(), true) == AnnotateAll(start, xs[..i])
      {
        assert xs[..i + 1][..i] == xs[..i];
        AnnotateStops(start, xs, i + 1);
        var (key, value) := Cut(xs[i], ':');
        var word := Upper(TrimSpace(key));
        if word == "ID" {
          if value.None? {
            return false;
          }
          var n := Atoi(TrimSpace(value.value));
          if n.None? {
            return false;
          }
          id := n;
        } else if word == "VOLATILE" {
          if value.Some? {
            return false;
          }
          volatile := true;
        }
      }
      assert xs[..|xs|] == xs;
      return true;
    }

    /** UnmarshalText; a blank line is the caller's to keep away. */
    method UnmarshalText(parse: RecordParser, text: string) returns (ending: Ending)
      requires Readable(text)
      modifies this
      ensures (State(), ending) == Read(parse, old(State()), text)
    {
      hide TrimSpace, TrimLeftChar, Cut, ReadAnnotations;
      if '\n' in text {
        return Failure;
      }
      var line := TrimSpace(text);
      TrimBlank(text);
      disabled := false;
      if line[0] == ';' {
        disabled := true;
        line := TrimSpace(TrimLeftChar(line, ';'));
      }
      var (head, notes) := Cut(line, ';');
      if notes.None? {
        id := None;
      } else {
        var ok := UnmarshalAnnotation(notes.value);
        if !ok {
          return Failure;
        }
      }
      match parse(head) {
        case Ok(r) =>
          record := Some(r);
          return Success;
        case Panicked =>
          return Panic;
        case _ =>
          record := None;
          return Failure;
      }
    }
  }

  lemma {:induction false} AnnotateStops(f: Fields, xs: seq<string>, n: nat)
    requires n <= |xs|
    ensures !AnnotateAll(f, xs[..n]).1 ==> AnnotateAll(f, xs) == AnnotateAll(f, xs[..n])
  {
    if n < |xs| {
      var front := xs[..|xs| - 1];
      AnnotateStops(f, front, n);
      assert front[..n] == xs[..n];
    } else {
      assert xs[..n] == xs;
    }
  }

  // ------------------------------------------------------------- record sets

  /** What one line of a record set is: nothing, a record, an error that still adds a half-filled record, or the end
      of everything. */
  datatype Reading = Nothing | Good(fields: Fields) | Bad(fields: Fields) | Crash

  function ReadLine(parse: RecordParser, text: string): Reading {
    var line := TrimSpace(text);
    if line == [] then Nothing
    else
      TrimTwice(text);
      var (f, ending) := Read(parse, BLANK, line);
      match ending
      case Success => Good(f)
      case Panic => Crash
      case Failure => if line[0] == ';' then Nothing else Bad(f)
  }

  /** The records of a set and the numbers of the lines in error, unless a line stopped it all. */
  datatype Unmarshalled = Unmarshalled(records: seq<Fields>, errors: seq<nat>) | Crashed

  /** What the next line, of number `n`, adds. */
  function Extended(u: Unmarshalled, reading: Reading, n: nat): Unmarshalled {
    if u.Crashed? then u
    else
      match reading
      case Nothing => u
      case Good(f) => u.(records := u.records + [f])
      case Bad(f) => Unmarshalled(u.records + [f], u.errors + [n])
      case Crash => Crashed
  }

  function Collect(parse: RecordParser, lines: seq<string>): Unmarshalled {
    if lines == [] then Unmarshalled([], [])
    else Extended(Collect(parse, lines[..|lines| - 1]), ReadLine(parse, lines[|lines| - 1]), |lines|)
  }

  /** The errors of a set are the numbers of its bad lines, counted from one. */
  lemma {:induction false} ErrorsAreNumbers(parse: RecordParser, lines: seq<string>)
    requires Collect(parse, lines).Unmarshalled?
    ensures forall n :: n in Collect(parse, lines).errors <==>
              1 <= n <= |lines| && ReadLine(parse, lines[n - 1]).Bad?
  {
    hide ReadLine;
    if lines != [] {
      ErrorsAreNumbers(parse, lines[..|lines| - 1]);
    }
  }

  /** A line without annotations forgets the number of the line before, and keeps its Volatile flag. */
  lemma StaysVolatile(parse: RecordParser, f: Fields, line: string)
    requires Trimmed(line) && ';' !in line && '\n' !in line
    ensures var (g, ending) := Read(parse, f, line);
            g.volatile == f.volatile && g.id == None && !g.disabled &&
            (ending.Success? <==> parse(line).Ok?) && (ending.Success? ==> g.record == Some(parse(line).value))
  {
    hide TrimSpace, Cut;
    TrimBlank(line);
    TrimTrimmed(line);
    CutNone(line, ';');
    assert line[0] in line;
  }

  /** DynamicRecordSet.UnmarshalText. */
  method UnmarshalSet(parse: RecordParser, text: string)
    returns (records: seq<Fields>, errors: seq<nat>, crashed: bool)
    ensures (if crashed then Crashed else Unmarshalled(records, errors)) == Collect(parse, Split(text, '\n'))
  {
    hide TrimSpace, Split, Read;
    var lines := Split(text, '\n');
    records, errors := [], [];
    for i := 0 to |lines|
      invariant Unmarshalled(records, errors) == Collect(parse, lines[..i])
    {
      assert lines[..i + 1][..i] == lines[..i];
      var line := TrimSpace(lines[i]);
      if |line| == 0 {
        continue;
      }
      TrimTwice(lines[i]);
      var r := new Receiver();
      var ending := r.UnmarshalText(parse, line);
      if ending.Panic? {
        CrashStays(parse, lines, i + 1);
        return records, errors, true;
      }
      if ending.Failure? {
        if line[0] == ';' {
          continue;
        } else {
          errors := errors + [i + 1];
        }
      }
      records := records + [Fields(r.record, r.id, r.volatile, r.disabled)];
    }
    assert lines[..|lines|] == lines;
    return records, errors, false;
  }

  lemma {:induction false} CrashStays(parse: RecordParser, lines: seq<string>, n: nat)
    requires n <= |lines| && Collect(parse, lines[..n]).Crashed?
    ensures Collect(parse, lines).Crashed?
  {
    hide ReadLine;
    if n == |lines| {
      assert lines[..n] == lines;
    } else {
      var front := lines[..|lines| - 1];
      assert front[..n] == lines[..n];
      CrashStays(parse, front, n);
    }
  }

  lemma TrimTwice(s: string)
    ensures TrimSpace(TrimSpace(s)) == TrimSpace(s)
    ensures TrimSpace(s) != [] ==> Trimmed(TrimSpace(s)) && !AllSpace(TrimSpace(s))
  {
    hide TrimLeft, TrimRight, IsSpace;
    var l := TrimLeft(s);
    var t := TrimRight(l);
    assert TrimSpace(s) == t;
    if t == [] {
      TrimBlank([]);
    } else {
      assert t[0] == l[0];
      TrimTrimmed(t);
    }
  }

  // ---------------------------------------------------------------- round trip

  /** A parser that inverts printing, with and without the blank that annotations put behind a record. */
  predicate Inverts(parse: RecordParser, r: Record) {
    Trimmed(Text(r)) && parse(Text(r)) == Ok(r) && parse(Text(r) + " ") == Ok(r)
  }

  /** IDs are integers of 64 bits. */
  predicate HasGoodId(d: DynamicRecord) {
    d.id.Some? ==> IsInt64(d.id.value)
  }

  function FieldsOf(d: DynamicRecord): Fields {
    Fields(Some(d.record), d.id, d.volatile, d.disabled)
  }

  lemma UpperWords()
    ensures Upper("ID") == "ID" && Upper("Volatile") == "VOLATILE"
    ensures ':' !in "ID" && ':' !in "Volatile"
    ensures Trimmed("ID") && Trimmed("Volatile")
  {
  }

  lemma IdAnnotation(f: Fields, n: int)
    requires IsInt64(n)
    ensures Annotate(f, "ID:" + Itoa(n)) == (f.(id := Some(n)), true)
  {
    hide TrimSpace, Cut, Itoa, Atoi, Upper;
    UpperWords();
    assert "ID:" + Itoa(n) == "ID" + [':'] + Itoa(n);
    CutAt("ID", ':', Itoa(n));
    TrimTrimmed("ID");
    ItoaVisible(n);
    TrimTrimmed(Itoa(n));
    ItoaAtoi(n);
  }

  lemma VolatileAnnotation(f: Fields)
    ensures Annotate(f, "Volatile") == (f.(volatile := true), true)
  {
    hide TrimSpace, Cut, Atoi, Upper;
    UpperWords();
    CutNone("Volatile", ':');
    TrimTrimmed("Volatile");
  }

  lemma ItoaVisible(n: int)
    ensures Trimmed(Itoa(n)) && ' ' !in Itoa(n)
  {
  }

  lemma AnnotationsVisible(d: DynamicRecord)
    ensures forall x :: x in Annotations(d) ==> Trimmed(x) && ' ' !in x
  {
    if d.id.Some? {
      ItoaVisible(d.id.value);
      var x := "ID:" + Itoa(d.id.value);
      assert x[0] == 'I' && x[|x| - 1] == Itoa(d.id.value)[|Itoa(d.id.value)| - 1];
      assert Trimmed(x) && ' ' !in x;
    }
    assert Trimmed("Volatile") && ' ' !in "Volatile";
  }

  lemma AnnotateAllOne(f: Fields, x: string, y: string)
    ensures AnnotateAll(f, [x]) == Annotate(f, x)
    ensures Annotate(f, x).1 ==> AnnotateAll(f, [x, y]) == Annotate(Annotate(f, x).0, y)
  {
    hide Annotate;
    assert [x][..0] == [] && [x, y][..1] == [x];
  }

  /** Reading the annotations of a record sets its ID and Volatile flag, whatever they were before. */
  lemma AnnotationsRead(f: Fields, d: DynamicRecord)
    requires HasGoodId(d)
    ensures AnnotateAll(f.(id := None, volatile := false), Annotations(d))
         == (f.(id := d.id, volatile := d.volatile), true)
  {
    hide Annotate;
    var g := f.(id := None, volatile := false);
    if d.id.Some? {
      IdAnnotation(g, d.id.value);
    }
    VolatileAnnotation(g.(id := d.id));
    AnnotateAllOne(g, if d.id.Some? then "ID:" + Itoa(d.id.value) else "Volatile", "Volatile");
  }

  /** The notes after the semicolon, as they are printed. */
  function Notes(d: DynamicRecord): string {
    " " + Join(Annotations(d), " ")
  }

  lemma BodyShape(d: DynamicRecord)
    requires Annotations(d) != []
    ensures Body(d) == Text(d.record) + " " + [';'] + Notes(d)
  {
    hide Text, Annotations;
    var text, notes := Text(d.record), Annotations(d);
    var xs := [text, ";"] + notes;
    assert xs[1..] == [";"] + notes && xs[1..][1..] == notes;
    assert Join(xs[1..], " ") == ";" + " " + Join(notes, " ");
    assert Join(xs, " ") == text + " " + (";" + " " + Join(notes, " "));
    assert text + " " + (";" + " " + Join(notes, " ")) == text + " " + [';'] + (" " + Join(notes, " "));
  }

  lemma NotesVisible(d: DynamicRecord)
    requires Annotations(d) != []
    ensures Trimmed(Join(Annotations(d), " "))
  {
    var xs := Annotations(d);
    AnnotationsVisible(d);
    forall i | 0 <= i < |xs| ensures Trimmed(xs[i]) {
      assert xs[i] in xs;
    }
    JoinEnds(xs, " ");
  }

  lemma NotesRead(f: Fields, d: DynamicRecord)
    requires HasGoodId(d) && Annotations(d) != []
    ensures ReadAnnotations(f, Notes(d)) == (f.(id := d.id, volatile := d.volatile), true)
    ensures Trimmed(Join(Annotations(d), " "))
  {
    hide AnnotateAll;
    AnnotationsVisible(d);
    NotesVisible(d);
    var notes := Join(Annotations(d), " ");
    TrimPadded(" ", notes, "");
    assert " " + notes + "" == Notes(d);
    SplitJoin(Annotations(d), ' ');
    AnnotationsRead(f, d);
  }

  /** What the first semicolon of a body cuts off. */
  lemma BodyCut(d: DynamicRecord)
    requires ';' !in Text(d.record)
    ensures Cut(Body(d), ';') ==
      if Annotations(d) == [] then (Text(d.record), None) else (Text(d.record) + " ", Some(Notes(d)))
  {
    hide Text;
    if Annotations(d) == [] {
      CutNone(Text(d.record), ';');
    } else {
      BodyShape(d);
      CutAt(Text(d.record) + " ", ';', Notes(d));
    }
  }

  lemma BodyEnds(d: DynamicRecord)
    requires Trimmed(Text(d.record))
    ensures Trimmed(Body(d)) && Body(d)[0] == Text(d.record)[0]
  {
    hide Text, Annotations, Join;
    if Annotations(d) != [] {
      BodyShape(d);
      NotesVisible(d);
      LastOf(Text(d.record) + " " + [';'] + " ", Join(Annotations(d), " "));
      assert Body(d) == Text(d.record) + " " + [';'] + " " + Join(Annotations(d), " ");
    }
  }

  lemma SemicolonIsVisible()
    ensures !IsSpace(';')
  {
  }

  lemma TrimLeftOne(s: string)
    requires s != [] && s[0] != ';'
    ensures TrimLeftChar(";" + s, ';') == s
  {
    assert (";" + s)[1..] == s;
  }

  /** The line of a record read up to the cut at the first semicolon. */
  lemma LineStart(d: DynamicRecord)
    requires Trimmed(Text(d.record)) && Text(d.record)[0] != ';'
    ensures var line := LineText(d);
            TrimSpace(line) == line && Trimmed(line) && (line[0] == ';' <==> d.disabled) &&
            Body(d) == if d.disabled then TrimSpace(TrimLeftChar(line, ';')) else line
  {
    hide Text, Body, TrimSpace, IsSpace;
    BodyEnds(d);
    SemicolonIsVisible();
    if d.disabled {
      LastOf(";", Body(d));
      TrimLeftOne(Body(d));
    }
    TrimTrimmed(LineText(d));
    TrimTrimmed(Body(d));
  }

  /** A record whose text the format can carry. */
  predicate Carried(parse: RecordParser, d: DynamicRecord) {
    Inverts(parse, d.record) && HasGoodId(d) && ';' !in Text(d.record) && '\n' !in Text(d.record)
  }

  /** A printed record without a semicolon of its own is read back with its ID and flags, by a fresh receiver. */
  lemma LineRoundTrip(parse: RecordParser, d: DynamicRecord)
    requires Carried(parse, d)
    ensures ReadLine(parse, LineText(d)) == Good(FieldsOf(d))
  {
    hide Text, Body, LineText, TrimSpace, TrimLeftChar, Cut, ReadAnnotations;
    assert Text(d.record)[0] in Text(d.record);
    LineStart(d);
    LineHasNoNewline(d);
    BodyCut(d);
    if Annotations(d) != [] {
      NotesRead(BLANK.(disabled := d.disabled), d);
    }
  }

  /** Annotations bring neither newlines nor dollar signs. */
  lemma NotesHaveNo(d: DynamicRecord, c: char)
    requires c == '\n' || c == '$'
    ensures c !in Notes(d)
  {
    forall x | x in Annotations(d) ensures c !in x {
    }
    JoinContains(Annotations(d), " ", c);
  }

  lemma LineHasNoNewline(d: DynamicRecord)
    requires '\n' !in Text(d.record)
    ensures '\n' !in LineText(d)
  {
    hide Text, Annotations, Join;
    if Annotations(d) != [] {
      BodyShape(d);
      NotesHaveNo(d, '\n');
    }
    assert '\n' !in Body(d);
  }

  // ------------------------------------------------------------ whole sets

  lemma {:induction false} CollectAppend(parse: RecordParser, lines: seq<string>, line: string)
    ensures Collect(parse, lines + [line]) == Extended(Collect(parse, lines), ReadLine(parse, line), |lines| + 1)
  {
    assert (lines + [line])[..|lines|] == lines;
  }

  function AllFields(ds: seq<DynamicRecord>): (fs: seq<Fields>)
    ensures |fs| == |ds| && forall i :: 0 <= i < |ds| ==> fs[i] == FieldsOf(ds[i])
  {
    seq(|ds|, i requires 0 <= i < |ds| => FieldsOf(ds[i]))
  }

  lemma {:induction false} CollectPrinted(parse: RecordParser, ds: seq<DynamicRecord>)
    requires forall i :: 0 <= i < |ds| ==> Carried(parse, ds[i])
    ensures Collect(parse, LineTexts(ds)) == Unmarshalled(AllFields(ds), [])
  {
    hide ReadLine, LineText, Carried, FieldsOf;
    if ds != [] {
      var n := |ds| - 1;
      CollectPrinted(parse, ds[..n]);
      LineRoundTrip(parse, ds[n]);
      CollectAppend(parse, LineTexts(ds[..n]), LineText(ds[n]));
      assert LineTexts(ds) == LineTexts(ds[..n]) + [LineText(ds[n])];
      assert AllFields(ds) == AllFields(ds[..n]) + [FieldsOf(ds[n])];
    }
  }

  lemma SplitPrinted(ds: seq<DynamicRecord>)
    requires forall i :: 0 <= i < |ds| ==> '\n' !in Text(ds[i].record)
    ensures Split(Join(LineTexts(ds) + [""], "\n"), '\n') == LineTexts(ds) + [""]
  {
    hide Text, LineText;
    forall i | 0 <= i < |ds| ensures '\n' !in LineText(ds[i]) {
      LineHasNoNewline(ds[i]);
    }
    SplitJoin(LineTexts(ds) + [""], '\n');
  }

  /** Unmarshalling a marshalled set gives the same records with their IDs and flags, in their order. */
  lemma SetRoundTrip(parse: RecordParser, ds: seq<DynamicRecord>)
    requires forall i :: 0 <= i < |ds| ==> Carried(parse, ds[i])
    ensures Collect(parse, Split(Join(LineTexts(ds) + [""], "\n"), '\n')) == Unmarshalled(AllFields(ds), [])
  {
    SplitPrinted(ds);
    CollectPrinted(parse, ds);
    CollectAppend(parse, LineTexts(ds), "");
  }

  /** A line that leaves no record and no error. */
  predicate IsNoise(parse: RecordParser, line: string) {
    ReadLine(parse, line).Nothing?
  }

  /** Which lines are noise: white space throughout, or a semicolon first and something the parser refuses behind. */
  lemma NoiseMeaning(parse: RecordParser, line: string)
    ensures IsNoise(parse, line) <==>
      AllSpace(line) || (TrimSpace(line) != [] && TrimSpace(line)[0] == ';' && Refuses(parse, line))
  {
    hide Read, TrimSpace;
    TrimBlank(line);
    TrimTwice(line);
  }

  /** A fresh receiver ends with an error on the line. */
  predicate Refuses(parse: RecordParser, line: string) {
    TrimTwice(line);
    TrimSpace(line) != [] && Read(parse, BLANK, TrimSpace(line)).1.Failure?
  }

  /** The same records, and errors in both or in none; or a panic in both. */
  predicate SameSet(a: Unmarshalled, b: Unmarshalled) {
    if a.Crashed? then b.Crashed?
    else b.Unmarshalled? && a.records == b.records && (a.errors == [] <==> b.errors == [])
  }

  /** Noise changes nothing, wherever it stands: what is read are the lines that are left without it. */
  lemma {:induction false} NoiseIsInvisible(parse: RecordParser, lines: seq<string>)
    ensures SameSet(Collect(parse, lines), Collect(parse, Filter(lines, (line: string) => !IsNoise(parse, line))))
  {
    hide ReadLine;
    if lines != [] {
      var n := |lines| - 1;
      var p := (line: string) => !IsNoise(parse, line);
      NoiseIsInvisible(parse, lines[..n]);
      if p(lines[n]) {
        CollectAppend(parse, Filter(lines[..n], p), lines[n]);
      }
    }
  }

  // ------------------------------------------------------ lines that stop it all

  /** A set panics exactly when one of its lines does. */
  lemma {:induction false} SetPanics(parse: RecordParser, lines: seq<string>)
    ensures Collect(parse, lines).Crashed? <==> exists i :: 0 <= i < |lines| && ReadLine(parse, lines[i]).Crash?
  {
    hide ReadLine;
    if lines != [] {
      var n := |lines| - 1;
      SetPanics(parse, lines[..n]);
      assert forall i :: 0 <= i < n ==> lines[..n][i] == lines[i];
    }
  }

  /** A line without the semicolons that comment it out. */
  function Uncommented(line: string): string {
    var t := TrimSpace(line);
    if t != [] && t[0] == ';' then TrimSpace(TrimLeftChar(t, ';')) else t
  }

  /** What a line has for a record, and for annotations. */
  function Head(line: string): string {
    Cut(Uncommented(line), ';').0
  }

  predicate NotesAreValid(line: string) {
    var notes := Cut(Uncommented(line), ';').1;
    notes.Some? ==> ReadAnnotations(BLANK, notes.value).1
  }

  /** A comment with nothing in it, or nothing before a second comment. */
  predicate IsBareComment(line: string) {
    TrimSpace(line) != [] && TrimSpace(line)[0] == ';' && (Uncommented(line) == [] || Uncommented(line)[0] == ';')
  }

  lemma {:induction false} AnnotateKeepsFlag(f: Fields, g: Fields, xs: seq<string>)
    requires f.(disabled := g.disabled) == g
    ensures AnnotateAll(f, xs).1 == AnnotateAll(g, xs).1
    ensures AnnotateAll(f, xs).0.(disabled := g.disabled) == AnnotateAll(g, xs).0
  {
    hide Cut, TrimSpace, Upper, Atoi;
    if xs != [] {
      AnnotateKeepsFlag(f, g, xs[..|xs| - 1]);
    }
  }

  lemma {:induction false} TrimLeftCharEnds(s: string, c: char)
    requires s != []
    ensures TrimLeftChar(s, c) != [] ==> TrimLeftChar(s, c)[|TrimLeftChar(s, c)| - 1] == s[|s| - 1]
    ensures forall x :: x in TrimLeftChar(s, c) ==> x in s
  {
    if s[0] == c && |s| > 1 {
      TrimLeftCharEnds(s[1..], c);
    }
  }

  lemma TrimKeepsOut(s: string, c: char)
    requires c !in s
    ensures c !in TrimSpace(s)
  {
    var t := TrimLeft(s);
    assert forall x :: x in t ==> x in s;
    assert forall x :: x in TrimRight(t) ==> x in t;
  }

  /** How a line that is not blank is read, from its parts. */
  lemma ReadParts(parse: RecordParser, line: string)
    requires '\n' !in line && !AllSpace(line)
    ensures ReadLine(parse, line).Crash? <==> NotesAreValid(line) && parse(Head(line)).Panicked?
  {
    hide TrimSpace, TrimLeftChar, Cut, AnnotateAll, Split;
    TrimBlank(line);
    TrimTwice(line);
    TrimKeepsOut(line, '\n');
    var notes := Cut(Uncommented(line), ';').1;
    if notes.Some? {
      AnnotateKeepsFlag(BLANK, BLANK.(disabled := true), Split(TrimSpace(notes.value), ' '));
    }
  }

  /** What stands before a semicolon in a text that starts visibly is blank only if it is nothing. */
  lemma HeadBlank(text: string)
    requires text == [] || !IsSpace(text[0])
    ensures AllBlank(Cut(text, ';').0) <==> text == [] || text[0] == ';'
  {
    var head := Cut(text, ';').0;
    BlankIsSpace();
    if text != [] && text[0] != ';' {
      assert head[0] == text[0];
    }
  }

  lemma UncommentedStarts(line: string)
    ensures Uncommented(line) == [] || !IsSpace(Uncommented(line)[0])
    ensures Uncommented(line) != [] && Uncommented(line)[0] == ';' ==>
      TrimSpace(line) != [] && TrimSpace(line)[0] == ';'
    ensures Uncommented(line) == [] ==> TrimSpace(line) == [] || TrimSpace(line)[0] == ';'
  {
    hide TrimSpace, TrimLeftChar, IsSpace;
    TrimTwice(line);
    TrimTwice(TrimLeftChar(TrimSpace(line), ';'));
  }

  lemma TrimBlanksBlank(s: string)
    ensures TrimBlanks(s) == [] <==> AllBlank(s)
  {
    assert s == s[..|TrimBlanks(s)|] + s[|TrimBlanks(s)|..];
  }

  /** Which lines panic: their annotations are valid, if they have any, and they are a comment with nothing in it, or
      set a default for the lines behind them, or are a TXT record without a text. */
  lemma PanicMeaning(line: string)
    requires '\n' !in line
    ensures ReadLine(NewRecord, line).Crash? <==>
      NotesAreValid(line) &&
      (IsBareComment(line) || SetsDefault(TrimBlanks(Head(line))) || LacksText(TrimBlanks(Head(line))))
  {
    hide TrimSpace, TrimBlanks, SetsDefault, LacksText, ParseLine, Uncommented, ReadAnnotations, AllBlank;
    TrimBlank(line);
    UncommentedStarts(line);
    HeadBlank(Uncommented(line));
    TrimBlanksBlank(Head(line));
    if AllSpace(line) {
      BlankLine(line);
    } else {
      hide Cut, AllSpace, IsSpace;
      ReadParts(NewRecord, line);
    }
  }

  lemma BlankLine(line: string)
    requires AllSpace(line)
    ensures ReadLine(NewRecord, line).Nothing? && !IsBareComment(line)
    ensures !SetsDefault(TrimBlanks(Head(line))) && !LacksText(TrimBlanks(Head(line)))
  {
    TrimBlank(line);
    assert Head(line) == "" && TrimBlanks("") == "";
  }

  /** The shortest such line: a semicolon alone stops the whole set, whatever stands before and behind it. */
  lemma SemicolonPanics(before: seq<string>, behind: seq<string>)
    ensures ReadLine(NewRecord, ";") == Crash && Collect(NewRecord, before + [";"] + behind) == Crashed
  {
    hide ReadLine, NewRecord;
    SemicolonAlone();
    var lines := before + [";"] + behind;
    assert lines[|before|] == ";";
    SetPanics(NewRecord, lines);
  }

  lemma SemicolonAlone()
    ensures ReadLine(NewRecord, ";") == Crash
  {
    hide ReadLine, NewRecord, SetsDefault, LacksText, TrimBlanks, TrimSpace, ReadAnnotations, Head;
    SemicolonIsVisible();
    TrimTrimmed(";");
    TrimBlank("");
    assert TrimLeftChar(";", ';') == TrimLeftChar("", ';') == "" by {
      assert ";"[1..] == "";
    }
    PanicMeaning(";");
  }

  // ------------------------------------------- exactly what the format carries

  lemma NewRecordInverts(r: Record)
    requires WellFormed(r)
    ensures Inverts(NewRecord, r)
  {
    hide NewRecord, Text, WellFormed;
    TextTrimmed(r);
    ParseText(r);
    NewRecordText(r, " ");
  }

  lemma BodyAfterText(d: DynamicRecord) returns (tail: string)
    ensures Body(d) == Text(d.record) + tail
  {
    hide Text, Annotations, Notes, Join;
    if Annotations(d) == [] {
      tail := "";
      assert Text(d.record) + "" == Text(d.record);
    } else {
      tail := " " + [';'] + Notes(d);
      BodyShape(d);
      assert Text(d.record) + " " + [';'] + Notes(d) == Text(d.record) + tail;
    }
  }

  /** A printed record is read back exactly when it is not a TXT record with a semicolon in it. */
  lemma LineRoundTripIff(d: DynamicRecord)
    requires WellFormed(d.record) && HasGoodId(d)
    ensures ReadLine(NewRecord, LineText(d)) == Good(FieldsOf(d)) <==> !HoldsSemicolon(d.record)
  {
    hide NewRecord, Text, WellFormed, ReadLine;
    NewRecordInverts(d.record);
    TextIsClean(d.record);
    if HoldsSemicolon(d.record) {
      ReadStopsAtSemicolon(d);
    } else {
      LineRoundTrip(NewRecord, d);
    }
  }

  /** A printed TXT record with a semicolon in it is an error when it is enabled and no record at all when it is
      disabled. */
  lemma ReadStopsAtSemicolon(d: DynamicRecord)
    requires WellFormed(d.record) && HoldsSemicolon(d.record)
    ensures if d.disabled then ReadLine(NewRecord, LineText(d)).Nothing? else ReadLine(NewRecord, LineText(d)).Bad?
  {
    hide NewRecord, Text, WellFormed, LineText, Cut, TrimSpace, TrimLeftChar, ReadAnnotations, Body, IsPlainName, Line;
    TextTrimmed(d.record);
    LineStart(d);
    var tail := BodyAfterText(d);
    CutTextIsBroken(d.record, tail);
  }

  lemma {:induction false} CollectShort(parse: RecordParser, lines: seq<string>)
    ensures Collect(parse, lines).Unmarshalled? ==> |Collect(parse, lines).records| <= |lines|
  {
    hide ReadLine;
    if lines != [] {
      CollectShort(parse, lines[..|lines| - 1]);
    }
  }

  lemma WholeExtended(u: Unmarshalled, reading: Reading, n: nat, front: seq<Fields>, f: Fields)
    requires Extended(u, reading, n) == Unmarshalled(front + [f], [])
    requires u.Unmarshalled? ==> |u.records| <= |front|
    ensures u == Unmarshalled(front, []) && reading == Good(f)
  {
    var all := front + [f];
    assert all[..|front|] == front && all[|front|] == f;
    if reading.Good? {
      assert (u.records + [reading.fields])[..|front|] == u.records;
    }
  }

  /** A set read back whole was read back line by line. */
  lemma {:induction false} WholeMeansEach(parse: RecordParser, ds: seq<DynamicRecord>)
    requires Collect(parse, LineTexts(ds)) == Unmarshalled(AllFields(ds), [])
    ensures forall i :: 0 <= i < |ds| ==> ReadLine(parse, LineText(ds[i])) == Good(FieldsOf(ds[i]))
  {
    hide ReadLine, LineText, FieldsOf, Collect, Extended;
    if ds != [] {
      var n := |ds| - 1;
      var front := LineTexts(ds[..n]);
      CollectShort(parse, front);
      CollectAppend(parse, front, LineText(ds[n]));
      assert LineTexts(ds) == front + [LineText(ds[n])];
      assert AllFields(ds) == AllFields(ds[..n]) + [FieldsOf(ds[n])];
      WholeExtended(Collect(parse, front), ReadLine(parse, LineText(ds[n])), |front| + 1,
                    AllFields(ds[..n]), FieldsOf(ds[n]));
      WholeMeansEach(parse, ds[..n]);
    }
  }

  /** Marshalling a set and unmarshalling it gives the set back exactly when no TXT record in it holds a
      semicolon. */
  lemma SetRoundTripIff(ds: seq<DynamicRecord>)
    requires forall i :: 0 <= i < |ds| ==> WellFormed(ds[i].record) && HasGoodId(ds[i])
    ensures Collect(NewRecord, Split(Join(LineTexts(ds) + [""], "\n"), '\n')) == Unmarshalled(AllFields(ds), []) <==>
      forall i :: 0 <= i < |ds| ==> !HoldsSemicolon(ds[i].record)
  {
    hide NewRecord, Text, WellFormed, ReadLine, LineText;
    forall i | 0 <= i < |ds|
      ensures '\n' !in Text(ds[i].record)
      ensures ReadLine(NewRecord, LineText(ds[i])) == Good(FieldsOf(ds[i])) <==> !HoldsSemicolon(ds[i].record)
      ensures !HoldsSemicolon(ds[i].record) ==> Carried(NewRecord, ds[i])
    {
      LineRoundTripIff(ds[i]);
      NewRecordInverts(ds[i].record);
      TextIsClean(ds[i].record);
    }
    SplitPrinted(ds);
    CollectAppend(NewRecord, LineTexts(ds), "");
    EmptyLine(NewRecord);
    if Collect(NewRecord, LineTexts(ds)) == Unmarshalled(AllFields(ds), []) {
      WholeMeansEach(NewRecord, ds);
    } else if forall i :: 0 <= i < |ds| ==> Carried(NewRecord, ds[i]) {
      CollectPrinted(NewRecord, ds);
    }
  }

  lemma EmptyLine(parse: RecordParser)
    ensures ReadLine(parse, "") == Nothing
  {
  }
}

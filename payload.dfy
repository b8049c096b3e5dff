/** The QR payload: three `Label: value` lines that carry a student's name,
    branch/division and roll number (main.py:137-145, main.py:205-207). */
module Payload {
  import opened Wrappers
  import opened Text

  /** The identity key of a student; the payload carries nothing else. */
  datatype Identity = Identity(name: string, branch: string, rollNumber: string)

  const NameLabel: string := "Name:"
  const BranchLabel: string := "Branch/Division:"
  const RollLabel: string := "Roll Number:"

  /** The payload text the generator page puts in a QR code: the lines
      `Name: {name}`, `Branch/Division: {branch}` and `Roll Number: {roll}`
      joined by newlines. */
  function Encode(id: Identity): string {
    Join([EncodedLine(id, NameField), EncodedLine(id, BranchField), EncodedLine(id, RollField)], '\n')
  }

  /** The line of the payload that carries field `f`. */
  function EncodedLine(id: Identity, f: Field): string {
    Label(f) + " " + Get(id, f)
  }

  /** The generator page: a payload only when all three inputs are non-empty. */
  function Generate(name: string, branch: string, rollNumber: string): (r: Option<string>)
    ensures r.Some? <==> name != [] && branch != [] && rollNumber != []
    ensures r.Some? ==> (Decode(r.value) == Identity(name, branch, rollNumber)
                         <==> Clean(name) && Clean(branch) && Clean(rollNumber))
  {
    if name != [] && branch != [] && rollNumber != [] then
      RoundTrip(Identity(name, branch, rollNumber));
      Some(Encode(Identity(name, branch, rollNumber)))
    else None
  }

  /** The value a labelled line carries: the text after its first `':'`,
      stripped of surrounding whitespace. */
  function LineValue(line: string): string {
    Strip(AfterFirst(line, ':'))
  }

  /** One iteration of the decoding loop: the first label the line starts
      with selects the field it overwrites; other lines change nothing. */
  function Step(id: Identity, line: string): Identity {
    if NameLabel <= line then id.(name := LineValue(line))
    else if BranchLabel <= line then id.(branch := LineValue(line))
    else if RollLabel <= line then id.(rollNumber := LineValue(line))
    else id
  }

  /** The decoding loop run over the lines, starting from three empty fields. */
  function DecodeLines(lines: seq<string>): Identity {
    if lines == [] then Identity("", "", "")
    else Step(DecodeLines(lines[..|lines| - 1]), lines[|lines| - 1])
  }

  /** What the scan page decodes from a payload. */
  function Decode(data: string): Identity {
    DecodeLines(Split(data, '\n'))
  }

  /** The decoding loop of the scan page, over the lines of the payload. */
  method DecodePayload(data: string) returns (id: Identity)
    ensures id == Decode(data)
  {
    var info := Split(data, '\n');
    var name, branch, rollNumber := "", "", "";
    for i := 0 to |info|
      invariant Identity(name, branch, rollNumber) == DecodeLines(info[..i])
    {
      var item := info[i];
      assert info[..i + 1][..i] == info[..i];
      if NameLabel <= item {
        name := LineValue(item);
      } else if BranchLabel <= item {
        branch := LineValue(item);
      } else if RollLabel <= item {
        rollNumber := LineValue(item);
      }
    }
    assert info[..|info|] == info;
    id := Identity(name, branch, rollNumber);
  }

  /** The three fields, to state once what holds of each. */
  datatype Field = NameField | BranchField | RollField

  function Label(f: Field): string {
    match f
    case NameField => NameLabel
    case BranchField => BranchLabel
    case RollField => RollLabel
  }

  function Get(id: Identity, f: Field): string {
    match f
    case NameField => id.name
    case BranchField => id.branch
    case RollField => id.rollNumber
  }

  /** No line starts with two labels, so the order of the tests in the loop
      does not matter: a line sets the field whose label it starts with and
      keeps every other field. */
  lemma StepField(id: Identity, line: string, f: Field)
    ensures Get(Step(id, line), f) == if Label(f) <= line then LineValue(line) else Get(id, f)
  {
    if NameLabel <= line {
      assert line[0] == 'N';
    } else if BranchLabel <= line {
      assert line[0] == 'B';
    } else if RollLabel <= line {
      assert line[0] == 'R';
    }
  }

  /** A line that starts with a label yields the text after the label,
      trimmed; colons after the label's own are kept. */
  lemma LabelledLineValue(f: Field, t: string)
    ensures LineValue(Label(f) + t) == Strip(t)
  {
    var x := Label(f)[..|Label(f)| - 1];
    assert Label(f) + t == x + [':'] + t;
    AfterFirstLabel(x, ':', t);
  }

  /** The last line changes only the field whose label it starts with. */
  lemma DecodeLastLine(lines: seq<string>, f: Field)
    requires lines != []
    ensures var n := |lines| - 1;
      Get(DecodeLines(lines), f)
      == if Label(f) <= lines[n] then LineValue(lines[n]) else Get(DecodeLines(lines[..n]), f)
  {
    var n := |lines| - 1;
    StepField(DecodeLines(lines[..n]), lines[n], f);
  }

  /** The last line starting with a field's label decides that field. */
  lemma {:induction false} DecodeLast(lines: seq<string>, f: Field, i: nat)
    requires i < |lines| && Label(f) <= lines[i]
    requires forall j :: i < j < |lines| ==> !(Label(f) <= lines[j])
    ensures Get(DecodeLines(lines), f) == LineValue(lines[i])
  {
    var n := |lines| - 1;
    var prefix := lines[..n];
    DecodeLastLine(lines, f);
    if i < n {
      assert prefix[i] == lines[i];
      forall j | i < j < n
        ensures !(Label(f) <= prefix[j])
      {
        assert prefix[j] == lines[j];
      }
      DecodeLast(prefix, f, i);
    }
  }

  /** A field whose label starts no line decodes to the empty string. */
  lemma {:induction false} DecodeAbsent(lines: seq<string>, f: Field)
    requires forall j :: 0 <= j < |lines| ==> !(Label(f) <= lines[j])
    ensures Get(DecodeLines(lines), f) == ""
  {
    if lines != [] {
      var n := |lines| - 1;
      StepField(DecodeLines(lines[..n]), lines[n], f);
      DecodeAbsent(lines[..n], f);
    }
  }

  /** A line that starts with no label can be dropped from anywhere in the
      payload without changing what is decoded. */
  lemma {:induction false} UnlabelledLineIgnored(before: seq<string>, line: string, after: seq<string>)
    requires !(NameLabel <= line) && !(BranchLabel <= line) && !(RollLabel <= line)
    ensures DecodeLines(before + [line] + after) == DecodeLines(before + after)
  {
    if after == [] {
      assert (before + [line] + after)[..|before|] == before;
      assert before + after == before;
    } else {
      var n := |after| - 1;
      assert (before + [line] + after)[..|before| + 1 + n] == before + [line] + after[..n];
      assert (before + after)[..|before| + n] == before + after[..n];
      UnlabelledLineIgnored(before, line, after[..n]);
    }
  }

  /** A value the codec can carry: one line, no surrounding whitespace. */
  predicate Clean(v: string) {
    '\n' !in v && Trimmed(v)
  }

  /** Every field the decoder produces is clean, whatever the payload. */
  lemma {:induction false} DecodeLinesClean(lines: seq<string>, f: Field)
    requires forall k :: 0 <= k < |lines| ==> '\n' !in lines[k]
    ensures Clean(Get(DecodeLines(lines), f))
  {
    if lines != [] {
      var n := |lines| - 1;
      StepField(DecodeLines(lines[..n]), lines[n], f);
      DecodeLinesClean(lines[..n], f);
      AfterFirstSpec(lines[n], ':');
      StripKeepsCharsOf(AfterFirst(lines[n], ':'), '\n');
      var _, _ := StripSpec(AfterFirst(lines[n], ':'));
    }
  }

  /** The payload is the three field lines joined by newlines; when no field
      holds a newline, splitting the payload gives back exactly those lines. */
  lemma EncodeSplits(id: Identity)
    requires '\n' !in id.name && '\n' !in id.branch && '\n' !in id.rollNumber
    ensures Split(Encode(id), '\n') == [EncodedLine(id, NameField), EncodedLine(id, BranchField), EncodedLine(id, RollField)]
  {
    var l0, l1, l2 := EncodedLine(id, NameField), EncodedLine(id, BranchField), EncodedLine(id, RollField);
    LineHasNoNewline(id, NameField);
    LineHasNoNewline(id, BranchField);
    LineHasNoNewline(id, RollField);
    assert [l0, l1, l2][1..] == [l1, l2] && [l1, l2][1..] == [l2];
    assert Join([l1, l2], '\n') == l1 + ['\n'] + l2;
    assert Join([l0, l1, l2], '\n') == l0 + ['\n'] + (l1 + ['\n'] + l2);
    SplitFirst(l0, '\n', l1 + ['\n'] + l2);
    SplitFirst(l1, '\n', l2);
    SplitNone(l2, '\n');
  }

  lemma LineHasNoNewline(id: Identity, f: Field)
    requires '\n' !in Get(id, f)
    ensures '\n' !in EncodedLine(id, f)
  {
    assert '\n' !in Label(f);
  }

  /** Each field line gives back its clean value. */
  lemma EncodedLineValue(id: Identity, f: Field)
    requires Clean(Get(id, f))
    ensures LineValue(EncodedLine(id, f)) == Get(id, f)
  {
    assert EncodedLine(id, f) == Label(f) + ([' '] + Get(id, f));
    LabelledLineValue(f, [' '] + Get(id, f));
    StripSkipsLeadingSpace(' ', Get(id, f));
    StripFixesTrimmed(Get(id, f));
  }

  /** Decoding the three field lines gives back the identity whose fields
      are all clean. */
  lemma {:induction false} DecodeEncodedLines(id: Identity)
    requires Clean(id.name) && Clean(id.branch) && Clean(id.rollNumber)
    ensures DecodeLines([EncodedLine(id, NameField), EncodedLine(id, BranchField), EncodedLine(id, RollField)]) == id
  {
    var lines := [EncodedLine(id, NameField), EncodedLine(id, BranchField), EncodedLine(id, RollField)];
    assert lines[0][0] == 'N' && lines[1][0] == 'B' && lines[2][0] == 'R';
    DecodeLast(lines, NameField, 0);
    DecodeLast(lines, BranchField, 1);
    DecodeLast(lines, RollField, 2);
    EncodedLineValue(id, NameField);
    EncodedLineValue(id, BranchField);
    EncodedLineValue(id, RollField);
  }

  /** Whatever the payload, every decoded field is clean. */
  lemma DecodeClean(data: string)
    ensures Clean(Decode(data).name) && Clean(Decode(data).branch) && Clean(Decode(data).rollNumber)
  {
    var lines := Split(data, '\n');
    DecodeLinesClean(lines, NameField);
    DecodeLinesClean(lines, BranchField);
    DecodeLinesClean(lines, RollField);
  }

  /** Decoding an encoded identity gives it back exactly when every field is
      clean: a newline splits a field across lines and surrounding whitespace
      is stripped. */
  lemma RoundTrip(id: Identity)
    ensures Decode(Encode(id)) == id <==> Clean(id.name) && Clean(id.branch) && Clean(id.rollNumber)
  {
    DecodeClean(Encode(id));
    if Clean(id.name) && Clean(id.branch) && Clean(id.rollNumber) {
      EncodeSplits(id);
      DecodeEncodedLines(id);
    }
  }

  /** The lines of the example payload decode to its three fields. */
  lemma DecodeExample()
    ensures DecodeLines(["Name: Asha", "Branch/Division: CS", "Roll Number: 17"]) == Identity("Asha", "CS", "17")
  {
    var id := Identity("Asha", "CS", "17");
    assert EncodedLine(id, NameField) == "Name: Asha";
    assert EncodedLine(id, BranchField) == "Branch/Division: CS";
    assert EncodedLine(id, RollField) == "Roll Number: 17";
    DecodeEncodedLines(id);
  }
}

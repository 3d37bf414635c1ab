/**
 * The stub rewriter of tag.go: one forward pass over the generated Go source,
 * line by line, that splices the harvested tag into every field line of a
 * struct the table knows.
 */
module Rewrite {
  import opened GoStrings
  import opened Descriptor
  import opened Names

  /** The two variables the pass carries: inside a block comment, and the struct being tagged ("" for none). */
  datatype RewriteState = RewriteState(comment: bool, structName: string)

  const Start: RewriteState := RewriteState(false, "")

  /** The trimmed line starts a block comment. */
  predicate OpensComment(line: string) {
    HasPrefix(TrimSpace(line), "/*")
  }

  /** The line holds the end of a block comment. */
  predicate ClosesComment(line: string) {
    Contains(line, "*/")
  }

  /** The trimmed line closes a struct body. */
  predicate ClosesStruct(line: string) {
    HasPrefix(TrimSpace(line), "}")
  }

  /** `comments[structName][field]` in Go: the empty string when either key is missing. */
  function Lookup(comments: CommentMap, structName: string, field: string): (tag: string)
    ensures NoDollar(comments) ==> '$' !in tag
  {
    if structName in comments && field in comments[structName] then comments[structName][field] else ""
  }

  /** The tag spliced into a field line of struct `structName`: the entry of its lower-cased-first field name. */
  function FieldLineTag(comments: CommentMap, structName: string, line: string): string {
    Lookup(comments, structName, ToLowerFirst(FieldName(line)))
  }

  /** The line is a field line of the struct being tagged: it is the only kind of line that is rewritten. */
  predicate Tagged(st: RewriteState, line: string) {
    !st.comment && !OpensComment(line) && st.structName != "" && !ClosesStruct(line)
  }

  /** The state after `line`, as the loop's branches update it. */
  function Next(comments: CommentMap, st: RewriteState, line: string): RewriteState {
    var comment := st.comment || OpensComment(line);
    if comment && ClosesComment(line) then RewriteState(false, st.structName)
    else if comment then RewriteState(true, st.structName)
    else if st.structName == "" then
      var name := StructName(line);
      RewriteState(false, if name in comments then name else "")
    else if ClosesStruct(line) then RewriteState(false, "")
    else st
  }

  /**
   * One iteration of the loop: the state after `line`, and the line written
   * out (without its newline).  Every branch but the last writes the line as
   * it came; the last, reached exactly on a tagged line, writes it with its tag.
   */
  function Step(comments: CommentMap, st: RewriteState, line: string): (RewriteState, string)
    requires NoDollar(comments)
  {
    (Next(comments, st, line),
     if Tagged(st, line) then InsertTag(line, FieldLineTag(comments, st.structName, line)) else line)
  }

  /** The state before line `i`. */
  function StateAt(comments: CommentMap, lines: seq<string>, i: nat): RewriteState
    requires i <= |lines|
  {
    if i == 0 then Start else Next(comments, StateAt(comments, lines, i - 1), lines[i - 1])
  }

  /** The line written out for input line `i`. */
  function OutLine(comments: CommentMap, lines: seq<string>, i: nat): string
    requires NoDollar(comments) && i < |lines|
  {
    Step(comments, StateAt(comments, lines, i), lines[i]).1
  }

  /** The rewritten lines, one for each input line. */
  function RewriteLines(comments: CommentMap, lines: seq<string>): (out: seq<string>)
    requires NoDollar(comments)
    ensures |out| == |lines|
  {
    seq(|lines|, i requires 0 <= i < |lines| => OutLine(comments, lines, i))
  }

  /** Each line followed by a newline. */
  function Emit(lines: seq<string>): string
    decreases |lines|
  {
    if lines == [] then "" else Emit(lines[..|lines| - 1]) + lines[|lines| - 1] + "\n"
  }

  /** The new stub: every line followed by a newline, and one more newline at the end of the input. */
  function Render(lines: seq<string>): string {
    Emit(lines) + "\n"
  }

  /** The rewrite loop of Generate. */
  method RewriteStub(comments: CommentMap, lines: seq<string>) returns (out: string)
    requires NoDollar(comments)
    ensures out == Render(RewriteLines(comments, lines))
  {
    var comment := false;
    var structName := "";
    out := "";
    ghost var written := RewriteLines(comments, lines);
    for i := 0 to |lines|
      invariant RewriteState(comment, structName) == StateAt(comments, lines, i)
      invariant out == Emit(written[..i])
    {
      assert written[..i + 1][..i] == written[..i];
      var line := lines[i];
      if HasPrefix(TrimSpace(line), "/*") {
        comment := true;
      }
      if comment && Contains(line, "*/") {
        comment := false;
        out := out + line + "\n";
        continue;
      }
      if comment {
        out := out + line + "\n";
        continue;
      }
      if structName == "" {
        structName := StructName(line);
        if structName !in comments {
          structName := "";
        }
        out := out + line + "\n";
        continue;
      }
      if HasPrefix(TrimSpace(line), "}") {
        structName := "";
        out := out + line + "\n";
        continue;
      }
      var fieldName := FieldName(line);
      var tagComment := Lookup(comments, structName, ToLowerFirst(fieldName));
      var newLine := InsertTag(line, tagComment);
      out := out + newLine + "\n";
    }
    assert written[..|lines|] == written;
    out := out + "\n";
  }

  // ---------------------------------------------------------------------------
  // What the pass guarantees
  // ---------------------------------------------------------------------------

  /**
   * Lines in or opening a block comment, lines outside a tracked struct (the
   * header lines among them) and closing braces are written out as they came;
   * only the remaining lines, the field lines of a tracked struct, pass through
   * insertTag.
   */
  lemma OutLineVerbatimUnlessTagged(comments: CommentMap, lines: seq<string>, i: nat)
    requires NoDollar(comments) && i < |lines|
    ensures var st := StateAt(comments, lines, i);
            var line := lines[i];
            (st.comment || OpensComment(line) || st.structName == "" || ClosesStruct(line))
            ==> OutLine(comments, lines, i) == line
    ensures var st := StateAt(comments, lines, i);
            var line := lines[i];
            !st.comment && !OpensComment(line) && st.structName != "" && !ClosesStruct(line)
            ==> OutLine(comments, lines, i) == InsertTag(line, FieldLineTag(comments, st.structName, line))
  {
  }

  /** The struct being tagged is always one the table has an entry for. */
  lemma {:induction false} TrackedStructIsKnown(comments: CommentMap, lines: seq<string>, i: nat)
    requires i <= |lines|
    ensures var st := StateAt(comments, lines, i);
            st.structName == "" || st.structName in comments
  {
    if i > 0 {
      TrackedStructIsKnown(comments, lines, i - 1);
      StepKeepsStructKnown(comments, StateAt(comments, lines, i - 1), lines[i - 1]);
    }
  }

  lemma StepKeepsStructKnown(comments: CommentMap, st: RewriteState, line: string)
    requires st.structName == "" || st.structName in comments
    ensures var next := Next(comments, st, line);
            next.structName == "" || next.structName in comments
  {
  }

  /**
   * A line that is in or opens a block comment leaves the struct being
   * tagged as it was, also when it closes the comment: tagging resumes after it.
   */
  lemma CommentKeepsStruct(comments: CommentMap, st: RewriteState, line: string)
    requires NoDollar(comments)
    requires st.comment || OpensComment(line)
    ensures Step(comments, st, line).0.structName == st.structName
    ensures Step(comments, st, line).0.comment == !ClosesComment(line)
    ensures Step(comments, st, line).1 == line
  {
  }

  /** A tagged field line whose field has no entry gains a lone space before its backtick. */
  lemma MissingEntryGivesLoneSpace(comments: CommentMap, st: RewriteState, line: string)
    requires NoDollar(comments) && Tagged(st, line) && EndsWithBacktick(line)
    requires !(st.structName in comments && ToLowerFirst(FieldName(line)) in comments[st.structName])
    ensures Step(comments, st, line).1 == line[..|line| - 1] + " `"
  {
    TaggedStep(comments, st, line);
    assert FieldLineTag(comments, st.structName, line) == "";
    InsertEmptyTag(line);
  }

  lemma InsertEmptyTag(line: string)
    requires EndsWithBacktick(line)
    ensures InsertTag(line, "") == line[..|line| - 1] + " `"
  {
    var head := line[..|line| - 1];
    assert " " + "" + "`" == " `";
    assert head + " " + "" + "`" == head + (" " + "" + "`");
  }

  /** When no header line names a struct of the table, the pass writes every line out unchanged. */
  lemma {:induction false} UnknownStructsUnchanged(comments: CommentMap, lines: seq<string>)
    requires NoDollar(comments)
    requires forall line :: line in lines ==> StructName(line) !in comments || StructName(line) == ""
    ensures RewriteLines(comments, lines) == lines
    ensures Render(RewriteLines(comments, lines)) == Emit(lines) + "\n"
  {
    forall i | 0 <= i <= |lines| ensures StateAt(comments, lines, i).structName == "" {
      NoStructTracked(comments, lines, i);
    }
  }

  lemma {:induction false} NoStructTracked(comments: CommentMap, lines: seq<string>, i: nat)
    requires i <= |lines|
    requires forall line :: line in lines ==> StructName(line) !in comments || StructName(line) == ""
    ensures StateAt(comments, lines, i).structName == ""
  {
    if i > 0 {
      NoStructTracked(comments, lines, i - 1);
      assert lines[i - 1] in lines;
      StepOutsideUnknown(comments, StateAt(comments, lines, i - 1), lines[i - 1]);
    }
  }

  lemma StepOutsideUnknown(comments: CommentMap, st: RewriteState, line: string)
    requires st.structName == ""
    requires StructName(line) !in comments || StructName(line) == ""
    ensures Next(comments, st, line).structName == ""
  {
  }

  /** Emitting two runs of lines one after the other emits their concatenation. */
  lemma {:induction false} EmitAppend(a: seq<string>, b: seq<string>)
    ensures Emit(a + b) == Emit(a) + Emit(b)
    decreases |b|
  {
    if b == [] {
      assert a + b == a;
    } else {
      var n := |b| - 1;
      assert (a + b)[..|a + b| - 1] == a + b[..n];
      assert (a + b)[|a + b| - 1] == b[n];
      EmitAppend(a, b[..n]);
    }
  }

  /** Every output line is followed by exactly one newline: the new stub is the lines, one by one. */
  lemma {:induction false} EmitLines(lines: seq<string>)
    ensures |Emit(lines)| == |lines| + SumLengths(lines)
    ensures lines != [] ==> Emit(lines) == lines[0] + "\n" + Emit(lines[1..])
    decreases |lines|
  {
    if lines != [] {
      EmitAppend([lines[0]], lines[1..]);
      assert [lines[0]] + lines[1..] == lines;
      assert Emit([lines[0]]) == lines[0] + "\n" by {
        assert [lines[0]][..0] == [];
      }
      EmitLines(lines[1..]);
    }
  }

  function SumLengths(lines: seq<string>): nat {
    if lines == [] then 0 else |lines[0]| + SumLengths(lines[1..])
  }

  /** A line whose first non-blank character is at `k` trims to a text starting with that character. */
  lemma TrimSpaceStart(line: string, k: nat)
    requires k < |line| && !IsSpace(line[k])
    requires forall i :: 0 <= i < k ==> IsSpace(line[i])
    ensures TrimSpace(line) != [] && TrimSpace(line)[0] == line[k]
  {
    var lead := LeadingSpaces(line);
    assert lead == k;
  }

  /** A field line of the struct being tagged keeps the state and is written out with its tag. */
  lemma TaggedStep(comments: CommentMap, st: RewriteState, line: string)
    requires NoDollar(comments) && Tagged(st, line)
    ensures Step(comments, st, line) == (st, InsertTag(line, FieldLineTag(comments, st.structName, line)))
  {
  }

  // ---------------------------------------------------------------------------
  // The three kinds of line the generator writes for a message
  // ---------------------------------------------------------------------------

  /** Outside a struct, the header `type <name> struct {` of a struct in the table starts tagging it. */
  lemma HeaderStep(comments: CommentMap, name: string)
    requires NoDollar(comments) && name != "" && name in comments
    ensures var line := "type " + name + " struct {";
            Step(comments, Start, line) == (RewriteState(false, name), line)
  {
    var line := "type " + name + " struct {";
    assert line[0] == 't';
    TrimSpaceStart(line, 0);
    assert !OpensComment(line);
    StructNameOfHeader(name);
    assert StructName(line) == name;
  }

  /**
   * Inside struct `name`, the generated field line tab, field, tab, type, tab,
   * backtick-quoted tag gets " " and the table's entry for the lower-cased-first
   * field name spliced in before its closing backtick.
   */
  lemma FieldStep(comments: CommentMap, name: string, field: string, typ: string, tag: string)
    requires NoDollar(comments) && name != ""
    requires field != [] && 'A' <= field[0] <= 'Z'
    requires typ != [] && '\t' !in typ && '\t' !in tag
    ensures var line := "\t" + field + "\t" + typ + "\t`" + tag + "`";
            var st := RewriteState(false, name);
            Step(comments, st, line)
            == (st, "\t" + field + "\t" + typ + "\t`" + tag + " " + Lookup(comments, name, ToLowerFirst(field)) + "`")
  {
    var line := "\t" + field + "\t" + typ + "\t`" + tag + "`";
    var st := RewriteState(false, name);
    FieldLine(field, typ, tag);
    assert Tagged(st, line);
    TaggedStep(comments, st, line);
  }

  /** The field line protoc-gen-go writes opens no comment, closes no struct and names its field. */
  lemma FieldLine(field: string, typ: string, tag: string)
    requires field != [] && 'A' <= field[0] <= 'Z' && typ != [] && '\t' !in typ && '\t' !in tag
    ensures var line := "\t" + field + "\t" + typ + "\t`" + tag + "`";
            !OpensComment(line) && !ClosesStruct(line) && FieldName(line) == field
            && EndsWithBacktick(line) && line[..|line| - 1] == "\t" + field + "\t" + typ + "\t`" + tag
  {
    var line := "\t" + field + "\t" + typ + "\t`" + tag + "`";
    FieldLineTrims(line, field[0]);
    assert line == "\t" + field + "\t" + typ + "\t" + ("`" + tag + "`");
    FieldNameOfDeclaration(field, typ, "`" + tag + "`");
    assert line[..|line| - 1] == "\t" + field + "\t" + typ + "\t`" + tag;
  }

  /** A line of a tab and then an upper-case letter neither opens a comment nor closes a struct. */
  lemma FieldLineTrims(line: string, c: char)
    requires |line| >= 2 && line[0] == '\t' && line[1] == c && 'A' <= c <= 'Z'
    ensures !OpensComment(line) && !ClosesStruct(line)
  {
    TrimSpaceStart(line, 1);
  }

  /** Inside a struct, the closing brace ends tagging. */
  lemma CloseStep(comments: CommentMap, name: string)
    requires NoDollar(comments) && name != ""
    ensures Step(comments, RewriteState(false, name), "}") == (Start, "}")
  {
    TrimSpaceStart("}", 0);
  }

  // ---------------------------------------------------------------------------
  // The Person example
  // ---------------------------------------------------------------------------

  /** The trailing comment of Person's `name` field. */
  const Required: string := "valid:\"required\""

  const PersonTags: CommentMap := map["Person" := map["name" := Required, "age" := DefaultTag]]

  /** The generated stub of `message Person { string name = 1; int32 age = 2; }`. */
  const PersonStub: seq<string> := [
    "type " + "Person" + " struct {",
    "\t" + "Name" + "\t" + "string" + "\t`" + "json:\"name\"" + "`",
    "\t" + "Age" + "\t" + "int32" + "\t`" + "json:\"age\"" + "`",
    "}"
  ]

  /** The same stub with the tags spliced in. */
  const PersonTagged: seq<string> := [
    PersonStub[0],
    "\t" + "Name" + "\t" + "string" + "\t`" + "json:\"name\"" + " " + Required + "`",
    "\t" + "Age" + "\t" + "int32" + "\t`" + "json:\"age\"" + " " + DefaultTag + "`",
    PersonStub[3]
  ]

  const Tracking: RewriteState := RewriteState(false, "Person")

  lemma PersonTagsNoDollar()
    ensures NoDollar(PersonTags)
  {
    assert PersonTags["Person"].Keys == {"name", "age"};
  }

  lemma PersonKeys()
    ensures ToLowerFirst("Name") == "name" && ToLowerFirst("Age") == "age"
  {
    assert ToLower('N') == 'n';
    assert ToLowerFirst("Name") == ['n'] + "ame";
    assert ToLower('A') == 'a';
    assert ToLowerFirst("Age") == ['a'] + "ge";
  }

  lemma PersonLookups()
    ensures Lookup(PersonTags, "Person", ToLowerFirst("Name")) == Required
    ensures Lookup(PersonTags, "Person", ToLowerFirst("Age")) == DefaultTag
  {
    PersonKeys();
  }

  lemma PersonNameLine()
    requires NoDollar(PersonTags)
    ensures Step(PersonTags, Tracking, PersonStub[1]) == (Tracking, PersonTagged[1])
  {
    PersonLookups();
    FieldStep(PersonTags, "Person", "Name", "string", "json:\"name\"");
  }

  lemma PersonAgeLine()
    requires NoDollar(PersonTags)
    ensures Step(PersonTags, Tracking, PersonStub[2]) == (Tracking, PersonTagged[2])
  {
    PersonLookups();
    FieldStep(PersonTags, "Person", "Age", "int32", "json:\"age\"");
  }

  lemma SameFourLines(a: seq<string>, b: seq<string>)
    requires |a| == 4 && |b| == 4
    requires a[0] == b[0] && a[1] == b[1] && a[2] == b[2] && a[3] == b[3]
    ensures a == b
  {
  }

  /** Tracking starts at the header and lasts to the closing brace. */
  lemma PersonStates()
    requires NoDollar(PersonTags)
    ensures StateAt(PersonTags, PersonStub, 1) == Tracking
    ensures StateAt(PersonTags, PersonStub, 2) == Tracking
    ensures StateAt(PersonTags, PersonStub, 3) == Tracking
  {
    HeaderStep(PersonTags, "Person");
    PersonNameLine();
    PersonAgeLine();
  }

  lemma PersonLines()
    requires NoDollar(PersonTags)
    ensures OutLine(PersonTags, PersonStub, 0) == PersonTagged[0]
    ensures OutLine(PersonTags, PersonStub, 1) == PersonTagged[1]
    ensures OutLine(PersonTags, PersonStub, 2) == PersonTagged[2]
    ensures OutLine(PersonTags, PersonStub, 3) == PersonTagged[3]
  {
    PersonStates();
    HeaderStep(PersonTags, "Person");
    PersonNameLine();
    PersonAgeLine();
    CloseStep(PersonTags, "Person");
  }

  /**
   * Struct Person with the tag `valid:"required"` for `name` and the default
   * tag for `age`: the header and the closing brace are copied, each field line
   * gets its tag before the closing backtick.
   */
  lemma PersonRewrite()
    ensures NoDollar(PersonTags)
    ensures RewriteLines(PersonTags, PersonStub) == PersonTagged
  {
    PersonTagsNoDollar();
    PersonLines();
    var out := RewriteLines(PersonTags, PersonStub);
    assert out[0] == OutLine(PersonTags, PersonStub, 0);
    assert out[1] == OutLine(PersonTags, PersonStub, 1);
    assert out[2] == OutLine(PersonTags, PersonStub, 2);
    assert out[3] == OutLine(PersonTags, PersonStub, 3);
    SameFourLines(out, PersonTagged);
  }
}

/**
 * The line-level string helpers of tag.go: the two name-extracting regular
 * expressions, written out as matchers, the lower-casing of a field name and
 * the splicing of a tag before a line's closing backtick.
 *
 * Lines never contain a newline, so the regular expressions' `.` matches any
 * character of a line.
 */
module Names {
  import opened GoStrings

  /** Where a regular expression matched: the match begins at `at`, its capture group ends at `end`. */
  datatype Span = NoMatch | Match(at: nat, end: nat)

  // ---------------------------------------------------------------------------
  // getStructName: the pattern `type (.+) struct {`
  // ---------------------------------------------------------------------------

  /** ` struct {` occurs in `line` at offset `j`. */
  predicate StructKeywordAt(line: string, j: int) {
    0 <= j && j + 9 <= |line| && line[j..j + 9] == " struct {"
  }

  /** `type (.+) struct {` matches `line` with `type ` at `i` and ` struct {` at `j`. */
  predicate HeaderAt(line: string, i: int, j: int) {
    0 <= i && i + 5 < j && StructKeywordAt(line, j) && line[i..i + 5] == "type "
  }

  /**
   * The match a Go regexp reports: the one that starts leftmost, and among
   * those the one whose greedy `(.+)` is longest.
   */
  ghost predicate HeaderMatch(line: string, i: int, j: int) {
    HeaderAt(line, i, j)
    && (forall i', j' :: 0 <= i' < i ==> !HeaderAt(line, i', j'))
    && (forall j' :: j < j' ==> !HeaderAt(line, i, j'))
  }

  /** The largest `j` in `lo..hi` at which ` struct {` occurs, or -1. */
  function LastStructKeyword(line: string, lo: int, hi: int): (j: int)
    ensures j == -1 || (lo <= j <= hi && StructKeywordAt(line, j))
    ensures j == -1 ==> forall j' :: lo <= j' <= hi ==> !StructKeywordAt(line, j')
    ensures j != -1 ==> forall j' :: j < j' <= hi ==> !StructKeywordAt(line, j')
    decreases hi - lo + 1
  {
    if hi < lo || hi < 0 then -1
    else if StructKeywordAt(line, hi) then hi
    else LastStructKeyword(line, lo, hi - 1)
  }

  /** The header match of `line` among those starting at or after `from`. */
  function FindHeader(line: string, from: nat): (m: Span)
    ensures m.NoMatch? ==> forall i, j :: from <= i ==> !HeaderAt(line, i, j)
    ensures m.Match? ==> from <= m.at && HeaderAt(line, m.at, m.end)
    ensures m.Match? ==> forall i, j :: from <= i < m.at ==> !HeaderAt(line, i, j)
    ensures m.Match? ==> forall j :: m.end < j ==> !HeaderAt(line, m.at, j)
    decreases |line| - from
  {
    if |line| < from + 5 then NoMatch
    else
      var j := if line[from..from + 5] == "type " then LastStructKeyword(line, from + 6, |line| - 9) else -1;
      if j != -1 then Match(from, j) else FindHeader(line, from + 1)
  }

  /** getStructName: the capture group of `type (.+) struct {` in `line`, or "" when it does not match. */
  function StructName(line: string): (name: string)
    ensures name == "" <==> forall i, j :: !HeaderAt(line, i, j)
    ensures name != "" ==> exists i, j :: HeaderMatch(line, i, j) && name == line[i + 5..j]
  {
    match FindHeader(line, 0)
    case NoMatch => ""
    case Match(i, j) => assert HeaderMatch(line, i, j); line[i + 5..j]
  }

  /** A generated struct header `type <name> struct {` yields `name`, whatever `name` holds. */
  lemma {:induction false} StructNameOfHeader(name: string)
    requires name != []
    ensures StructName("type " + name + " struct {") == name
  {
    var line := "type " + name + " struct {";
    var j := |name| + 5;
    assert line[0..5] == "type ";
    assert line[j..j + 9] == " struct {";
    assert HeaderAt(line, 0, j);
    var r := StructName(line);
    var i, e :| HeaderMatch(line, i, e) && r == line[i + 5..e];
    assert i == 0;
    assert e == j;
    assert line[5..j] == name;
  }

  lemma PersonHeader()
    ensures StructName("type Person struct {") == "Person"
  {
    assert "type Person struct {" == "type " + "Person" + " struct {";
    StructNameOfHeader("Person");
  }

  // ---------------------------------------------------------------------------
  // getFieldName: the pattern `\t(.+)\t.+\t.+`
  // ---------------------------------------------------------------------------

  /** After the tab at `k` there is a character and then a tab followed by a character. */
  predicate FieldTailAt(line: string, k: int) {
    0 <= k && k + 3 <= |line| && line[k] == '\t' && '\t' in line[k + 2..|line| - 1]
  }

  /** `\t(.+)\t.+\t.+` matches `line` with the first tab at `i` and the capture ending at `k`. */
  predicate FieldAt(line: string, i: int, k: int) {
    0 <= i && i + 2 <= k && FieldTailAt(line, k) && line[i] == '\t'
  }

  /** The leftmost match, and among those the one with the longest capture. */
  ghost predicate FieldMatch(line: string, i: int, k: int) {
    FieldAt(line, i, k)
    && (forall i', k' :: 0 <= i' < i ==> !FieldAt(line, i', k'))
    && (forall k' :: k < k' ==> !FieldAt(line, i, k'))
  }

  /** The largest `k` in `lo..hi` at which a field tail starts, or -1. */
  function LastFieldTail(line: string, lo: int, hi: int): (k: int)
    ensures k == -1 || (lo <= k <= hi && FieldTailAt(line, k))
    ensures k == -1 ==> forall k' :: lo <= k' <= hi ==> !FieldTailAt(line, k')
    ensures k != -1 ==> forall k' :: k < k' <= hi ==> !FieldTailAt(line, k')
    decreases hi - lo + 1
  {
    if hi < lo || hi < 0 then -1
    else if FieldTailAt(line, hi) then hi
    else LastFieldTail(line, lo, hi - 1)
  }

  /** The field match of `line` among those starting at or after `from`. */
  function FindField(line: string, from: nat): (m: Span)
    ensures m.NoMatch? ==> forall i, k :: from <= i ==> !FieldAt(line, i, k)
    ensures m.Match? ==> from <= m.at && FieldAt(line, m.at, m.end)
    ensures m.Match? ==> forall i, k :: from <= i < m.at ==> !FieldAt(line, i, k)
    ensures m.Match? ==> forall k :: m.end < k ==> !FieldAt(line, m.at, k)
    decreases |line| - from
  {
    if |line| <= from then NoMatch
    else
      var k := if line[from] == '\t' then LastFieldTail(line, from + 2, |line| - 3) else -1;
      if k != -1 then Match(from, k) else FindField(line, from + 1)
  }

  /** getFieldName: the capture group of `\t(.+)\t.+\t.+` in `line`, or "" when it does not match. */
  function FieldName(line: string): (name: string)
    ensures name == "" <==> forall i, k :: !FieldAt(line, i, k)
    ensures name != "" ==> exists i, k :: FieldMatch(line, i, k) && name == line[i + 1..k]
  {
    match FindField(line, 0)
    case NoMatch => ""
    case Match(i, k) => assert FieldMatch(line, i, k); line[i + 1..k]
  }

  /** In a line laid out as tab, name, tab, type, tab, tag, no field tail starts after the name. */
  lemma {:induction false} NoLaterFieldTail(line: string, k: nat, m: nat)
    requires k < m < |line| && line[m] == '\t'
    requires '\t' !in line[k + 1..m] && '\t' !in line[m + 1..]
    ensures forall k' :: k < k' ==> !FieldTailAt(line, k')
  {
    forall k' | k < k' ensures !FieldTailAt(line, k') {
      if k' < m {
        assert line[k'] == line[k + 1..m][k' - k - 1];
      } else if k' == m && m + 3 <= |line| {
        assert line[m + 2..|line| - 1] == line[m + 1..][1..|line| - m - 2];
      } else if m < k' < |line| {
        assert line[k'] == line[m + 1..][k' - m - 1];
      }
    }
  }

  /**
   * A generated field line, a tab, the name, a tab, the type, a tab and the tag,
   * yields the name when neither the type nor the tag contains a tab.
   */
  lemma {:induction false} FieldNameOfDeclaration(name: string, typ: string, tag: string)
    requires name != [] && typ != [] && tag != []
    requires '\t' !in typ && '\t' !in tag
    ensures FieldName("\t" + name + "\t" + typ + "\t" + tag) == name
  {
    var line := "\t" + name + "\t" + typ + "\t" + tag;
    var k := |name| + 1;
    var m := |name| + |typ| + 2;
    assert line[k] == '\t' && line[m] == '\t';
    assert line[1..k] == name && line[k + 1..m] == typ && line[m + 1..] == tag;
    assert line[k + 2..|line| - 1][m - k - 2] == '\t';
    assert FieldAt(line, 0, k);
    NoLaterFieldTail(line, k, m);
    var r := FieldName(line);
    var i, e :| FieldMatch(line, i, e) && r == line[i + 1..e];
    assert i == 0;
    assert e == k;
  }

  lemma PersonNameField()
    ensures FieldName("\tName\tstring\t`json:\"name\"`") == "Name"
  {
    assert "\tName\tstring\t`json:\"name\"`" == "\t" + "Name" + "\t" + "string" + "\t" + "`json:\"name\"`";
    FieldNameOfDeclaration("Name", "string", "`json:\"name\"`");
  }

  // ---------------------------------------------------------------------------
  // toLowerFirst and insertTag
  // ---------------------------------------------------------------------------

  /** toLowerFirst: the field name with its first letter lower-cased, as the stub's struct fields are looked up. */
  function ToLowerFirst(s: string): (r: string)
    ensures |r| == |s|
    ensures s == [] ==> r == []
    ensures s != [] ==> r[0] == ToLower(s[0]) && r[1..] == s[1..]
  {
    if s == [] then s else [ToLower(s[0])] + s[1..]
  }

  lemma ToLowerFirstIdempotent(s: string)
    ensures ToLowerFirst(ToLowerFirst(s)) == ToLowerFirst(s)
  {
  }

  /** A name already starting with a lower-case letter (or not with an upper-case one) is its own lookup key. */
  lemma ToLowerFirstFixed(s: string)
    ensures ToLowerFirst(s) == s <==> s == [] || !('A' <= s[0] <= 'Z')
  {
    if s != [] && 'A' <= s[0] <= 'Z' {
      assert ToLowerFirst(s)[0] != s[0];
    }
  }

  /** The line ends with a backtick, the close of a Go struct tag. */
  predicate EndsWithBacktick(line: string) {
    line != [] && line[|line| - 1] == '`'
  }

  /**
   * insertTag: `line` with " " + `tag` spliced in before its final backtick,
   * or `line` itself when it does not end with one.
   */
  function InsertTag(line: string, tag: string): (r: string)
    requires '$' !in tag
    ensures EndsWithBacktick(line) ==> r == line[..|line| - 1] + " " + tag + "`"
    ensures !EndsWithBacktick(line) ==> r == line
  {
    if EndsWithBacktick(line) then line[..|line| - 1] + " " + tag + "`" else line
  }

  /** Taking `" " + tag` back out of a tagged line gives the line again; other lines are left alone. */
  lemma InsertTagRoundTrip(line: string, tag: string)
    requires '$' !in tag
    ensures var r := InsertTag(line, tag);
            EndsWithBacktick(line) ==> |r| == |line| + |tag| + 1 && r[..|r| - |tag| - 2] + "`" == line
    ensures !EndsWithBacktick(line) ==> InsertTag(line, tag) == line
  {
    if EndsWithBacktick(line) {
      var r := InsertTag(line, tag);
      var head := line[..|line| - 1];
      assert r == head + (" " + tag + "`");
      assert r[..|r| - |tag| - 2] == head;
      assert head + "`" == line;
    }
  }

  /** A tagged line keeps everything of the original before its backtick and ends in the tag and a backtick. */
  lemma InsertTagShape(line: string, tag: string)
    requires '$' !in tag
    requires EndsWithBacktick(line)
    ensures |InsertTag(line, tag)| == |line| + |tag| + 1
    ensures InsertTag(line, tag)[..|line| - 1] == line[..|line| - 1]
    ensures InsertTag(line, tag)[|line| - 1..] == " " + tag + "`"
    ensures EndsWithBacktick(InsertTag(line, tag))
  {
  }
}

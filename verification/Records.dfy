/** The lines of results.txt: what run_tests prints for a test, and what run.py reads back. */
module Records {
  import opened Wrappers
  import opened ByteOrder
  import opened Text

  // ------------------------------------------------------------------ integers in text

  function Digit(d: nat): char
    requires d < 10
  {
    "0123456789"[d]
  }

  function DigitValue(c: char): Option<nat> {
    if '0' <= c <= '9' then Some(c as int - '0' as int) else None
  }

  function Decimal(n: nat): (s: string)
    ensures s != ""
  {
    if n < 10 then [Digit(n)] else Decimal(n / 10) + [Digit(n % 10)]
  }

  /** The conversion %d. */
  function PrintInt(x: int): string {
    if x < 0 then "-" + Decimal(-x) else Decimal(x)
  }

  /** Printed numbers, for example. */
  lemma PrintIntExamples()
    ensures PrintInt(0) == "0" && PrintInt(7) == "7" && PrintInt(120) == "120" && PrintInt(-35) == "-35"
    ensures PrintInt(9_876_543_210) == "9876543210"
  {
    assert Decimal(12) == Decimal(1) + ['2'];
    assert Decimal(120) == Decimal(12) + ['0'];
    assert Decimal(35) == Decimal(3) + ['5'];
  }

  function ParseNat(s: string): Option<nat> {
    if s == "" then None
    else
      var d := DigitValue(s[|s| - 1]);
      if |s| == 1 || d.None? then d
      else
        var high := ParseNat(s[..|s| - 1]);
        if high.None? then None else Some(10 * high.value + d.value)
  }

  /** int() on the decimal numbers that %d prints. */
  function ParseInt(s: string): Option<int> {
    if s != "" && s[0] == '-' then
      var n := ParseNat(s[1..]);
      if n.None? then None else Some(0 - (n.value as int))
    else
      var n := ParseNat(s);
      if n.None? then None else Some(n.value)
  }

  predicate Numeral(s: string) {
    forall c :: c in s ==> '0' <= c <= '9'
  }

  lemma {:induction false} ParseDecimal(n: nat)
    ensures ParseNat(Decimal(n)) == Some(n) && Numeral(Decimal(n))
  {
    if n >= 10 {
      ParseDecimal(n / 10);
      var high, s := Decimal(n / 10), Decimal(n);
      assert s[..|s| - 1] == high;
    }
  }

  lemma ParsePrintInt(x: int)
    ensures ParseInt(PrintInt(x)) == Some(x)
    ensures OneField(PrintInt(x))
  {
    ParseDecimal(if x < 0 then -x else x);
    if x < 0 {
      assert PrintInt(x)[1..] == Decimal(-x);
    } else {
      assert Decimal(x)[0] in Decimal(x);
    }
  }

  // ------------------------------------------------------------------ lines

  /** The line boundaries of str.splitlines, after the newline translation of a text file. */
  predicate LineBreak(c: char) {
    c == '\n' || c == '\U{0B}' || c == '\U{0C}' || c == '\U{1C}' || c == '\U{1D}' || c == '\U{1E}'
    || c == '\U{85}' || c == '\U{2028}' || c == '\U{2029}'
  }

  /** Text that reading keeps on one line and unchanged: no boundary, and no carriage return to translate. */
  predicate OneLine(s: string) {
    forall c :: c in s ==> !LineBreak(c) && c != '\r'
  }

  predicate OneField(s: string) {
    OneLine(s) && Free(s, '#')
  }

  function SplitLines(s: string): seq<string> {
    if s == "" then []
    else if LineBreak(s[0]) then [""] + SplitLines(s[1..])
    else
      var rest := SplitLines(s[1..]);
      if rest == [] then [s] else [[s[0]] + rest[0]] + rest[1..]
  }

  lemma {:induction false} FirstLine(line: string, rest: string)
    requires OneLine(line)
    ensures SplitLines(line + "\n" + rest) == [line] + SplitLines(rest)
  {
    var s := line + "\n" + rest;
    if line == "" {
      assert s[1..] == rest;
    } else {
      FirstLine(line[1..], rest);
      assert s[1..] == line[1..] + "\n" + rest;
      assert [line[0]] + line[1..] == line;
    }
  }

  // ------------------------------------------------------------------ records

  /** What a test leaves behind: its metadata, its verdict, its tags and its messages. */
  datatype Record = Record(problem: string, passed: bool, descr: string, weight: uint32,
                           tags: seq<string>, msgs: seq<string>)

  function Code(passed: bool): string {
    if passed then "SUCCESS" else "FAIL"
  }

  function Header(r: Record): string {
    r.problem + "#" + Code(r.passed) + "#" + r.descr + "#" + PrintInt(Int32(r.weight)) + "#"
  }

  function Messages(msgs: seq<string>): string {
    if msgs == [] then "" else "#" + msgs[0] + Messages(msgs[1..])
  }

  /** The line that run_tests prints, without its newline. */
  function Line(r: Record): string {
    Header(r) + Join(r.tags, ',') + Messages(r.msgs)
  }

  /** A record as run.py holds it. */
  datatype Result = Result(pid: string, code: string, desc: string, weight: int,
                           tags: seq<string>, infoMsgs: seq<string>)

  /** A line read back; None where run.py would raise an IndexError or a ValueError. */
  function ParseLine(line: string): Option<Result> {
    var r := Split(line, '#');
    if |r| < 5 then None
    else
      var weight := ParseInt(r[3]);
      if weight.None? then None
      else Some(Result(r[0], r[1], r[2], weight.value, Split(r[4], ','), r[5..]))
  }

  /** The tags that the feedback loop sets: the non-empty ones. */
  function NonEmpty(tags: seq<string>): seq<string> {
    if tags == [] then []
    else if tags[0] == "" then NonEmpty(tags[1..])
    else [tags[0]] + NonEmpty(tags[1..])
  }

  /** The empty tags go, and only they; the others keep their order. */
  lemma {:induction false} NonEmptyMeans(tags: seq<string>)
    ensures "" !in NonEmpty(tags)
    ensures forall t :: t != "" ==> multiset(NonEmpty(tags))[t] == multiset(tags)[t]
    ensures "" !in tags ==> NonEmpty(tags) == tags
  {
    if tags != [] {
      NonEmptyMeans(tags[1..]);
      assert tags == [tags[0]] + tags[1..];
    }
  }

  predicate TagChar(c: char) {
    'a' <= c <= 'z' || 'A' <= c <= 'Z' || '0' <= c <= '9' || c == '-' || c == '_'
  }

  predicate TagText(tag: string) {
    forall c :: c in tag ==> TagChar(c)
  }

  /** The characters of a tag by their codes: digits, capital and small letters, hyphen and underscore. */
  lemma TagCharacters(c: char)
    ensures TagChar(c) <==> var n := c as int; 48 <= n <= 57 || 65 <= n <= 90 || 97 <= n <= 122 || n == 45 || n == 95
    ensures TagText("double_free") && !TagText("a b") && !TagText("a,b") && !TagText("a#b")
  {
    assert ' ' in "a b" && ',' in "a,b" && '#' in "a#b";
  }

  /** Problem and description are single fields; tags and messages passed the filters of set_tag and push_info_msg. */
  ghost predicate Printable(r: Record) {
    && OneField(r.problem) && OneField(r.descr)
    && (forall t :: t in r.tags ==> TagText(t))
    && (forall m :: m in r.msgs ==> OneField(m))
  }

  function Fields(r: Record): seq<string> {
    [r.problem, Code(r.passed), r.descr, PrintInt(Int32(r.weight)), Join(r.tags, ',')] + r.msgs
  }

  lemma {:induction false} MessagesAreJoined(first: string, msgs: seq<string>)
    ensures first + Messages(msgs) == Join([first] + msgs, '#')
    decreases |msgs|
  {
    if msgs != [] {
      MessagesAreJoined(msgs[0], msgs[1..]);
      assert [msgs[0]] + msgs[1..] == msgs;
      assert ([first] + msgs)[1..] == msgs;
    }
  }

  lemma JoinFirst(a: string, parts: seq<string>)
    requires parts != []
    ensures Join([a] + parts, '#') == a + "#" + Join(parts, '#')
  {
    assert ([a] + parts)[1..] == parts;
  }

  lemma LineIsJoined(r: Record)
    ensures Line(r) == Join(Fields(r), '#')
  {
    var tags := Join(r.tags, ',');
    var weight := PrintInt(Int32(r.weight));
    var tail := [tags] + r.msgs;
    MessagesAreJoined(tags, r.msgs);
    JoinFirst(weight, tail);
    JoinFirst(r.descr, [weight] + tail);
    JoinFirst(Code(r.passed), [r.descr] + ([weight] + tail));
    JoinFirst(r.problem, [Code(r.passed)] + ([r.descr] + ([weight] + tail)));
    assert Fields(r) == [r.problem] + ([Code(r.passed)] + ([r.descr] + ([weight] + tail)));
    assert Line(r) == Header(r) + (tags + Messages(r.msgs));
    Regroup6(r.problem, Code(r.passed), r.descr, weight, Join(tail, '#'));
  }

  lemma Regroup6(a: string, b: string, c: string, d: string, e: string)
    ensures a + "#" + b + "#" + c + "#" + d + "#" + e == a + "#" + (b + "#" + (c + "#" + (d + "#" + e)))
  {
  }

  lemma {:induction false} JoinedTags(tags: seq<string>)
    requires forall t :: t in tags ==> TagText(t)
    ensures OneField(Join(tags, ','))
  {
    if tags != [] {
      assert TagText(tags[0]);
      JoinedTags(tags[1..]);
      assert |tags| > 1 ==> Join(tags, ',') == tags[0] + [','] + Join(tags[1..], ',');
    }
  }

  lemma FieldsAreFree(r: Record)
    requires Printable(r)
    ensures AllFree(Fields(r), '#')
    ensures forall f :: f in Fields(r) ==> OneLine(f)
  {
    ParsePrintInt(Int32(r.weight));
    JoinedTags(r.tags);
    assert OneField(Code(r.passed));
  }

  lemma {:induction false} JoinedOnOneLine(parts: seq<string>)
    requires forall p :: p in parts ==> OneLine(p)
    ensures OneLine(Join(parts, '#'))
  {
    if parts != [] {
      assert OneLine(parts[0]);
      JoinedOnOneLine(parts[1..]);
      assert |parts| > 1 ==> Join(parts, '#') == parts[0] + ['#'] + Join(parts[1..], '#');
    }
  }

  /** Splitting the printed tags gives back the non-empty ones, in order. */
  lemma TagsRoundTrip(tags: seq<string>)
    requires forall t :: t in tags ==> TagText(t)
    ensures NonEmpty(Split(Join(tags, ','), ',')) == NonEmpty(tags)
  {
    if tags != [] {
      forall t | t in tags
        ensures Free(t, ',')
      {
        assert TagText(t);
      }
      SplitJoin(tags, ',');
    }
  }

  /** What run.py gets from a line agrees with the record: fields, non-empty tags in order, messages in push order. */
  ghost predicate ReadBack(r: Record, result: Result) {
    && result.pid == r.problem && result.code == Code(r.passed) && result.desc == r.descr
    && result.weight == Int32(r.weight)
    && NonEmpty(result.tags) == NonEmpty(r.tags)
    && result.infoMsgs == r.msgs
  }

  lemma LineRoundTrip(r: Record)
    requires Printable(r)
    ensures OneLine(Line(r))
    ensures ParseLine(Line(r)).Some? && ReadBack(r, ParseLine(Line(r)).value)
  {
    LineIsJoined(r);
    FieldsAreFree(r);
    SplitJoin(Fields(r), '#');
    JoinedOnOneLine(Fields(r));
    ParsePrintInt(Int32(r.weight));
    TagsRoundTrip(r.tags);
    assert Fields(r)[5..] == r.msgs;
  }

  // ------------------------------------------------------------------ the whole file

  function File(records: seq<Record>): string {
    if records == [] then "" else Line(records[0]) + "\n" + File(records[1..])
  }

  /** The list comprehensions over the lines of the file. */
  function ParseLines(lines: seq<string>): Option<seq<Result>> {
    if lines == [] then Some([])
    else
      var first, rest := ParseLine(lines[0]), ParseLines(lines[1..]);
      if first.None? || rest.None? then None else Some([first.value] + rest.value)
  }

  function ParseFile(text: string): Option<seq<Result>> {
    ParseLines(SplitLines(text))
  }

  /** Round trip: reading back what was printed recovers every record, in order. */
  lemma {:induction false} FileRoundTrip(records: seq<Record>)
    requires forall r :: r in records ==> Printable(r)
    ensures ParseFile(File(records)).Some?
    ensures var results := ParseFile(File(records)).value;
            |results| == |records| && forall i :: 0 <= i < |records| ==> ReadBack(records[i], results[i])
  {
    if records != [] {
      LineRoundTrip(records[0]);
      FirstLine(Line(records[0]), File(records[1..]));
      FileRoundTrip(records[1..]);
      var lines := SplitLines(File(records));
      assert lines[1..] == SplitLines(File(records[1..]));
      var results, rest := ParseFile(File(records)).value, ParseFile(File(records[1..])).value;
      assert forall i :: 0 < i < |records| ==> records[i] == records[1..][i - 1] && results[i] == rest[i - 1];
    }
  }

  lemma OneRecordFile(r: Record)
    requires Printable(r)
    ensures var results := ParseFile(Line(r) + "\n");
            results.Some? && |results.value| == 1 && ReadBack(r, results.value[0])
  {
    FileRoundTrip([r]);
    assert File([r]) == Line(r) + "\n";
  }

  /** The weight survives iff it is below 2^31: larger ones come back negative, since %d is used for an unsigned int. */
  lemma WeightSurvives(r: Record)
    requires Printable(r)
    ensures ParseLine(Line(r)).Some?
    ensures ParseLine(Line(r)).value.weight == r.weight <==> r.weight < 0x8000_0000
    ensures r.weight >= 0x8000_0000 ==> ParseLine(Line(r)).value.weight < 0
  {
    LineRoundTrip(r);
  }
}

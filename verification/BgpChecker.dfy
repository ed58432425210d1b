/** The checker of the BGP routing exercises: which answers it accepts. */
module BgpChecker {
  import opened Wrappers
  import opened Text

  // ------------------------------------------------------------------ the renaming of ASes

  /** One entry of the exercise data: the name under which an AS is shown for a role used in the solution. */
  datatype Binding = Binding(role: string, name: string)

  type Mapping = map<string, string>

  /** From roles to names. */
  function Names(data: seq<Binding>): Mapping {
    if data == [] then map[]
    else Names(data[..|data| - 1])[data[|data| - 1].role := data[|data| - 1].name]
  }

  /** From names to roles; the last entry wins. */
  function Roles(data: seq<Binding>): Mapping {
    if data == [] then map[]
    else Roles(data[..|data| - 1])[data[|data| - 1].name := data[|data| - 1].role]
  }

  /** No role and no name occurs twice. */
  ghost predicate Injective(data: seq<Binding>) {
    data != [] ==>
      var front, last := data[..|data| - 1], data[|data| - 1];
      last.role !in Names(front) && last.name !in Roles(front) && Injective(front)
  }

  method GetMapping(data: seq<Binding>) returns (d: Mapping)
    ensures d == Roles(data)
  {
    d := map[];
    var i := 0;
    while i < |data|
      invariant i <= |data|
      invariant d == Roles(data[..i])
    {
      assert data[..i + 1][..i] == data[..i];
      d := d[data[i].name := data[i].role];
      i := i + 1;
    }
    assert data[..i] == data;
  }

  ghost predicate Inverse(names: Mapping, roles: Mapping) {
    && (forall role :: role in names ==> names[role] in roles && roles[names[role]] == role)
    && (forall name :: name in roles ==> roles[name] in names && names[roles[name]] == name)
  }

  /** For an injective renaming each map holds every entry of the data. */
  lemma {:induction false} MappingMeans(data: seq<Binding>, b: Binding)
    requires Injective(data) && b in data
    ensures b.role in Names(data) && Names(data)[b.role] == b.name
    ensures b.name in Roles(data) && Roles(data)[b.name] == b.role
  {
    var front, last := data[..|data| - 1], data[|data| - 1];
    assert data == front + [last];
    if b != last {
      MappingMeans(front, b);
    }
  }

  /** For an injective renaming the two maps are inverse to each other. */
  lemma {:induction false} MappingIsInverse(data: seq<Binding>)
    requires Injective(data)
    ensures Inverse(Names(data), Roles(data))
  {
    if data != [] {
      MappingIsInverse(data[..|data| - 1]);
    }
  }

  // ------------------------------------------------------------------ the format of an answer

  /** The characters that str.strip removes. */
  predicate Blank(c: char) {
    c == ' ' || '\t' <= c <= '\r' || '\U{1C}' <= c <= '\U{1F}' || c == '\U{85}' || c == '\U{A0}' || c == '\U{1680}'
    || '\U{2000}' <= c <= '\U{200A}' || c == '\U{2028}' || c == '\U{2029}' || c == '\U{202F}'
    || c == '\U{205F}' || c == '\U{3000}'
  }

  /** The same by their codes: white space, separators, no-break, figure and ideographic spaces. */
  lemma BlankCodes(c: char)
    ensures Blank(c) <==> var n := c as int;
            || 9 <= n <= 13 || 28 <= n <= 32 || n == 133 || n == 160 || n == 5760 || 8192 <= n <= 8202
            || n == 8232 || n == 8233 || n == 8239 || n == 8287 || n == 12288
  {
  }

  function StripLeft(s: string): string {
    if s == "" || !Blank(s[0]) then s else StripLeft(s[1..])
  }

  function StripRight(s: string): string {
    if s == "" || !Blank(s[|s| - 1]) then s else StripRight(s[..|s| - 1])
  }

  function Strip(s: string): string {
    StripRight(StripLeft(s))
  }

  /** replace(" ", "") */
  function NoSpaces(s: string): string {
    if s == "" then "" else (if s[0] == ' ' then "" else [s[0]]) + NoSpaces(s[1..])
  }

  lemma {:induction false} NoSpacesAppend(s: string, t: string)
    ensures NoSpaces(s + t) == NoSpaces(s) + NoSpaces(t)
  {
    if s == "" {
      assert s + t == t;
    } else {
      NoSpacesAppend(s[1..], t);
      assert (s + t)[1..] == s[1..] + t;
      Regroup(if s[0] == ' ' then "" else [s[0]], NoSpaces(s[1..]), NoSpaces(t));
    }
  }

  /** Exactly the spaces go: none is left, a text without them stays, and where one stood does not matter. */
  lemma NoSpacesMeans(s: string, t: string)
    ensures Free(NoSpaces(s), ' ') && (Free(s, ' ') ==> NoSpaces(s) == s)
    ensures NoSpaces(s + t) == NoSpaces(s) + NoSpaces(t)
    ensures NoSpaces(s + " " + t) == NoSpaces(s + t)
  {
    NoSpacesOf(s);
    NoSpacesAppend(s, t);
    NoSpacesInsert(s, t);
  }

  lemma NoSpacesInsert(s: string, t: string)
    ensures NoSpaces(s + " " + t) == NoSpaces(s) + NoSpaces(t)
  {
    NoSpacesAppend(s + " ", t);
    NoSpacesAppend(s, " ");
    var space := NoSpaces(" ");
    assert space == "";
    assert NoSpaces(s) + space == NoSpaces(s);
  }

  lemma {:induction false} NoSpacesOf(s: string)
    ensures Free(NoSpaces(s), ' ') && (Free(s, ' ') ==> NoSpaces(s) == s)
  {
    if s != "" {
      NoSpacesOf(s[1..]);
      assert s == [s[0]] + s[1..];
    }
  }

  ghost predicate AllBlank(s: string) {
    forall c :: c in s ==> Blank(c)
  }

  lemma {:induction false} StripLeftMeans(s: string) returns (left: string)
    ensures s == left + StripLeft(s) && AllBlank(left)
    ensures StripLeft(s) != "" ==> !Blank(StripLeft(s)[0])
  {
    if s == "" || !Blank(s[0]) {
      left := "";
    } else {
      left := StripLeftMeans(s[1..]);
      left := [s[0]] + left;
    }
  }

  lemma {:induction false} StripRightMeans(s: string) returns (right: string)
    ensures s == StripRight(s) + right && AllBlank(right)
    ensures StripRight(s) != "" ==> !Blank(StripRight(s)[|StripRight(s)| - 1])
  {
    if s == "" || !Blank(s[|s| - 1]) {
      right := "";
    } else {
      right := StripRightMeans(s[..|s| - 1]);
      right := right + [s[|s| - 1]];
    }
  }

  /** strip takes blanks from both ends, all of them, and nothing else. */
  lemma StripMeans(s: string) returns (left: string, right: string)
    ensures s == left + Strip(s) + right && AllBlank(left) && AllBlank(right)
    ensures Strip(s) != "" ==> !Blank(Strip(s)[0]) && !Blank(Strip(s)[|Strip(s)| - 1])
  {
    left := StripLeftMeans(s);
    right := StripRightMeans(StripLeft(s));
    assert Strip(s) != "" ==> Strip(s)[0] == StripLeft(s)[0];
  }

  /** The roles of a path of names, or None if one is unknown. */
  function MapPath(doms: seq<string>, roles: Mapping): Option<seq<string>> {
    if doms == [] then Some([])
    else if doms[0] !in roles then None
    else
      var rest := MapPath(doms[1..], roles);
      if rest.None? then None else Some([roles[doms[0]]] + rest.value)
  }

  /** The paths of an answer, each with roles for names. */
  function MapPaths(elems: seq<string>, roles: Mapping): Option<seq<string>> {
    if elems == [] then Some([])
    else
      var first, rest := MapPath(Split(elems[0], ':'), roles), MapPaths(elems[1..], roles);
      if first.None? then None else Prepend([Join(first.value, ':')], rest)
  }

  function Formatted(answer: string, roles: Mapping): Option<seq<string>> {
    if Strip(answer) == "0" then Some(["0"]) else MapPaths(Split(NoSpaces(answer), ','), roles)
  }

  lemma {:induction false} MapPathUpTo(doms: seq<string>, roles: Mapping, i: nat)
    requires i < |doms|
    ensures var front, all := MapPath(doms[..i], roles), MapPath(doms[..i + 1], roles);
            all == if front.None? || doms[i] !in roles then None else Some(front.value + [roles[doms[i]]])
  {
    if i > 0 {
      MapPathUpTo(doms[1..], roles, i - 1);
      assert doms[..i][1..] == doms[1..][..i - 1] && doms[..i + 1][1..] == doms[1..][..i];
      var front := MapPath(doms[1..][..i - 1], roles);
      if front.Some? && doms[0] in roles && doms[i] in roles {
        assert [roles[doms[0]]] + (front.value + [roles[doms[i]]]) == [roles[doms[0]]] + front.value + [roles[doms[i]]];
      }
    } else {
      assert doms[..1] == [doms[0]] && doms[..1][1..] == [] && doms[..0] == [];
      assert doms[0] in roles ==> [roles[doms[0]]] + [] == [] + [roles[doms[0]]];
    }
  }

  lemma {:induction false} MapPathFails(doms: seq<string>, roles: Mapping, i: nat)
    requires i < |doms| && doms[i] !in roles
    ensures MapPath(doms, roles).None?
  {
    if i > 0 {
      MapPathFails(doms[1..], roles, i - 1);
    }
  }

  /** The inner loop of checkFormat, with its exception for an unknown name. */
  method ToRoles(doms: seq<string>, roles: Mapping) returns (mapped: Option<seq<string>>)
    ensures mapped == MapPath(doms, roles)
  {
    var asMapped: seq<string> := [];
    var i := 0;
    while i < |doms|
      invariant i <= |doms|
      invariant MapPath(doms[..i], roles) == Some(asMapped)
    {
      if doms[i] !in roles {
        MapPathFails(doms, roles, i);
        return None;
      }
      MapPathUpTo(doms, roles, i);
      asMapped := asMapped + [roles[doms[i]]];
      i := i + 1;
    }
    assert doms[..i] == doms;
    mapped := Some(asMapped);
  }

  /** checkFormat; the empty list stands for a wrong format. */
  method CheckFormat(answer: string, roles: Mapping) returns (mapped: seq<string>)
    ensures mapped == if Formatted(answer, roles).Some? then Formatted(answer, roles).value else []
    ensures mapped == [] <==> Formatted(answer, roles).None?
  {
    if Strip(answer) == "0" {
      return ["0"];
    }
    var student := Split(NoSpaces(answer), ',');
    mapped := [];
    var i := 0;
    PrependNothing(MapPaths(student, roles));
    assert student[0..] == student;
    while i < |student|
      invariant i <= |student| && |mapped| == i
      invariant MapPaths(student, roles) == Prepend(mapped, MapPaths(student[i..], roles))
    {
      assert student[i..][1..] == student[i + 1..];
      var path := ToRoles(Split(student[i], ':'), roles);
      if path.None? {
        return [];
      }
      PrependTwice(mapped, [Join(path.value, ':')], MapPaths(student[i + 1..], roles));
      mapped := mapped + [Join(path.value, ':')];
      i := i + 1;
    }
    assert mapped + [] == mapped;
  }

  function Prepend(front: seq<string>, rest: Option<seq<string>>): Option<seq<string>> {
    if rest.None? then None else Some(front + rest.value)
  }

  lemma PrependNothing(rest: Option<seq<string>>)
    ensures Prepend([], rest) == rest
  {
    if rest.Some? {
      assert [] + rest.value == rest.value;
    }
  }

  lemma PrependTwice(a: seq<string>, b: seq<string>, rest: Option<seq<string>>)
    ensures Prepend(a, Prepend(b, rest)) == Prepend(a + b, rest)
  {
    if rest.Some? {
      assert a + (b + rest.value) == (a + b) + rest.value;
    }
  }

  // ------------------------------------------------------------------ the comparison

  datatype Feedback = Success | MissingPaths | TooManyPaths | NoRoute | RouteExists
                    | WrongEnd(i: nat) | WrongPath(i: nat) | WrongFormat | IndexError

  /** What is said about the first path that differs. */
  function Difference(student: string, correct: string, i: nat): Feedback {
    if correct == "0" then NoRoute
    else if student == "0" then RouteExists
    else
      if LastAS(student) != LastAS(correct) then WrongEnd(i) else WrongPath(i)
  }

  /** The AS at the end of a path. */
  function LastAS(path: string): string {
    var p := Split(path, ':');
    p[|p| - 1]
  }

  lemma {:induction false} JoinAppend(parts: seq<string>, last: string, sep: char)
    requires parts != []
    ensures Join(parts + [last], sep) == Join(parts, sep) + [sep] + last
  {
    if |parts| > 1 {
      JoinAppend(parts[1..], last, sep);
      assert (parts + [last])[1..] == parts[1..] + [last];
      Regroup(parts[0] + [sep], Join(parts[1..], sep) + [sep], last);
      Regroup(parts[0] + [sep], Join(parts[1..], sep), [sep]);
    } else {
      assert parts == [parts[0]] && (parts + [last])[1..] == [last];
    }
  }

  /** It is what follows the last colon, or all when there is none. */
  lemma LastASMeans(front: string, last: string)
    requires Free(last, ':')
    ensures LastAS(last) == last && LastAS(front + ":" + last) == last
  {
    SplitOfFree(last, ':');
    var parts := Split(front, ':');
    JoinSplit(front, ':');
    JoinAppend(parts, last, ':');
    SplitJoin(parts + [last], ':');
  }

  /** What is said about a path that differs: no route exists, or one does; or where it ends; or that it is wrong. */
  ghost predicate Explains(o: Feedback, student: string, correct: string, i: nat) {
    && (o == NoRoute <==> correct == "0")
    && (o == RouteExists <==> correct != "0" && student == "0")
    && (o == WrongEnd(i) <==> correct != "0" && student != "0" && LastAS(student) != LastAS(correct))
    && (o == WrongPath(i) <==> correct != "0" && student != "0" && LastAS(student) == LastAS(correct))
  }

  /** checkAnswer. A short answer that starts with "0" can run out of paths inside the loop. */
  method CheckAnswer(student: seq<string>, correct: seq<string>) returns (o: Feedback)
    requires student != []
    ensures Compared(student, correct, o)
  {
    if |student| < |correct| && student[0] != "0" {
      return MissingPaths;
    }
    if |student| > |correct| {
      return TooManyPaths;
    }
    var i := 0;
    while i < |correct|
      invariant i <= |student| && i <= |correct| && student[..i] == correct[..i]
    {
      if i == |student| {
        return IndexError;
      }
      if student[i] != correct[i] {
        FirstDifference(student, correct, i);
        return Difference(student[i], correct[i], i);
      }
      i := i + 1;
    }
    o := Success;
  }

  ghost predicate Compared(student: seq<string>, correct: seq<string>, o: Feedback)
    requires student != []
  {
    && o != WrongFormat && (o == Success <==> student == correct)
    && (o == MissingPaths <==> |student| < |correct| && student[0] != "0")
    && (o == TooManyPaths <==> |student| > |correct|)
    && (o == IndexError <==> |student| < |correct| && student[0] == "0" && student == correct[..|student|])
    && (o != MissingPaths && o != TooManyPaths ==>
          forall i :: 0 <= i < |student| && student[..i] == correct[..i] && student[i] != correct[i] ==>
                        Explains(o, student[i], correct[i], i))
  }

  /** Two sequences have at most one first difference. */
  lemma FirstDifference(a: seq<string>, b: seq<string>, i: nat)
    requires i < |a| <= |b| && a[..i] == b[..i] && a[i] != b[i]
    ensures forall j :: 0 <= j < |a| && a[..j] == b[..j] && a[j] != b[j] ==> j == i
    ensures a != b && a != b[..|a|]
  {
    assert b[..|a|][i] == b[i];
    forall j | i < j < |a|
      ensures a[..j] != b[..j]
    {
      assert a[..j][i] != b[..j][i];
    }
    forall j | 0 <= j < i
      ensures a[j] == b[j]
    {
      assert a[..i][j] == b[..i][j];
    }
  }

  method Check(answer: string, roles: Mapping, correct: seq<string>) returns (o: Feedback)
    ensures o == Success <==> Formatted(answer, roles) == Some(correct)
    ensures o == WrongFormat <==> Formatted(answer, roles).None?
    ensures Formatted(answer, roles).Some? ==>
              Formatted(answer, roles).value != [] && Compared(Formatted(answer, roles).value, correct, o)
  {
    var student := CheckFormat(answer, roles);
    if student == [] {
      return WrongFormat;
    }
    o := CheckAnswer(student, correct);
  }

  // ------------------------------------------------------------------ which answers are accepted

  ghost predicate KnownRoles(path: seq<string>, names: Mapping) {
    forall role :: role in path ==> role in names
  }

  /** The names of a path of roles. */
  ghost function NamesOf(path: seq<string>, names: Mapping): (r: seq<string>)
    requires KnownRoles(path, names)
    ensures |r| == |path|
  {
    if path == [] then [] else [names[path[0]]] + NamesOf(path[1..], names)
  }

  /** The correct paths as the checker stores them. */
  function Stored(paths: seq<seq<string>>): (r: seq<string>)
    ensures |r| == |paths|
  {
    if paths == [] then [] else [Join(paths[0], ':')] + Stored(paths[1..])
  }

  ghost predicate Known(paths: seq<seq<string>>, names: Mapping) {
    paths != [] ==> paths[0] != [] && KnownRoles(paths[0], names) && Known(paths[1..], names)
  }

  /** The correct paths as a student has to write them. */
  ghost function Shown(paths: seq<seq<string>>, names: Mapping): (r: seq<string>)
    requires Known(paths, names)
    ensures |r| == |paths|
  {
    if paths == [] then [] else [Join(NamesOf(paths[0], names), ':')] + Shown(paths[1..], names)
  }

  /** Roles and names can be told apart in a text: no role contains ':', no name contains ':' or ','. */
  ghost predicate SeparatorFree(names: Mapping) {
    && (forall role :: role in names ==> Free(role, ':'))
    && (forall role :: role in names ==> Free(names[role], ':') && Free(names[role], ','))
  }

  /** The roles of a path of names are a given path iff the names are its names. */
  lemma {:induction false} MapPathIsExact(doms: seq<string>, path: seq<string>, names: Mapping, roles: Mapping)
    requires Inverse(names, roles) && KnownRoles(path, names)
    ensures MapPath(doms, roles) == Some(path) <==> doms == NamesOf(path, names)
  {
    if doms != [] && path != [] {
      MapPathIsExact(doms[1..], path[1..], names, roles);
      assert doms == [doms[0]] + doms[1..] && path == [path[0]] + path[1..];
    }
  }

  lemma {:induction false} NamesAreFree(path: seq<string>, names: Mapping)
    requires SeparatorFree(names) && KnownRoles(path, names)
    ensures AllFree(NamesOf(path, names), ':') && AllFree(NamesOf(path, names), ',')
  {
    if path != [] {
      NamesAreFree(path[1..], names);
    }
  }

  lemma {:induction false} MappedRoles(doms: seq<string>, names: Mapping, roles: Mapping)
    requires Inverse(names, roles) && SeparatorFree(names) && MapPath(doms, roles).Some?
    ensures AllFree(MapPath(doms, roles).value, ':') && |MapPath(doms, roles).value| == |doms|
  {
    if doms != [] {
      MappedRoles(doms[1..], names, roles);
    }
  }

  /** One path of an answer is stored as the correct one iff it is written as the correct one. */
  lemma OnePathIsExact(elem: string, path: seq<string>, names: Mapping, roles: Mapping)
    requires Inverse(names, roles) && SeparatorFree(names)
    requires path != [] && KnownRoles(path, names)
    ensures var mapped := MapPath(Split(elem, ':'), roles);
            (mapped.Some? && Join(mapped.value, ':') == Join(path, ':')) <==> elem == Join(NamesOf(path, names), ':')
  {
    var doms := Split(elem, ':');
    var mapped := MapPath(doms, roles);
    JoinSplit(elem, ':');
    MapPathIsExact(doms, path, names, roles);
    NamesAreFree(path, names);
    SplitJoin(NamesOf(path, names), ':');
    if mapped.Some? {
      MappedRoles(doms, names, roles);
      JoinInjective(mapped.value, path, ':');
    }
  }

  lemma {:induction false} PathsAreExact(elems: seq<string>, paths: seq<seq<string>>, names: Mapping, roles: Mapping)
    requires Inverse(names, roles) && SeparatorFree(names) && Known(paths, names)
    ensures MapPaths(elems, roles) == Some(Stored(paths)) <==> elems == Shown(paths, names)
  {
    if elems != [] && paths != [] {
      OnePathIsExact(elems[0], paths[0], names, roles);
      PathsAreExact(elems[1..], paths[1..], names, roles);
      assert elems == [elems[0]] + elems[1..];
      var first, rest := MapPath(Split(elems[0], ':'), roles), MapPaths(elems[1..], roles);
      if first.Some? && rest.Some? {
        assert MapPaths(elems, roles).value == [Join(first.value, ':')] + rest.value;
        assert MapPaths(elems, roles).value[1..] == rest.value;
        assert Stored(paths)[1..] == Stored(paths[1..]);
      }
      assert Shown(paths, names)[1..] == Shown(paths[1..], names);
    }
  }

  lemma {:induction false} JoinFree(parts: seq<string>, sep: char, other: char)
    requires AllFree(parts, other) && sep != other
    ensures Free(Join(parts, sep), other)
  {
    if parts != [] {
      assert Free(parts[0], other);
      JoinFree(parts[1..], sep, other);
      assert |parts| > 1 ==> Join(parts, sep) == parts[0] + [sep] + Join(parts[1..], sep);
    }
  }

  lemma {:induction false} ShownAreFree(paths: seq<seq<string>>, names: Mapping)
    requires SeparatorFree(names) && Known(paths, names)
    ensures AllFree(Shown(paths, names), ',')
  {
    if paths != [] {
      NamesAreFree(paths[0], names);
      JoinFree(NamesOf(paths[0], names), ':', ',');
      ShownAreFree(paths[1..], names);
    }
  }

  /** The only spelling of the correct answer, up to spaces. */
  ghost function Spelling(paths: seq<seq<string>>, names: Mapping): string
    requires Known(paths, names)
  {
    Join(Shown(paths, names), ',')
  }

  /** A correct answer: no route at all, which is stored as the single path 0, or paths of roles. */
  datatype Correct = Unreachable | Paths(paths: seq<seq<string>>)

  function StoredCorrect(correct: Correct): seq<string> {
    if correct.Unreachable? then ["0"] else Stored(correct.paths)
  }

  /** Paths use known roles. A role named 0 would make the stored form ambiguous. */
  ghost predicate KnownCorrect(correct: Correct, names: Mapping) {
    match correct
    case Unreachable => "0" !in names
    case Paths(paths) => paths != [] && Known(paths, names)
  }

  /** Only the role 0 is stored as the path 0. */
  lemma StoredAsZero(path: seq<string>)
    requires path != [] && AllFree(path, ':')
    ensures Join(path, ':') == "0" <==> path == ["0"]
  {
    SplitJoin(path, ':');
    SplitOfFree("0", ':');
    assert Join(["0"], ':') == "0";
  }

  lemma StoredAsNoRoute(paths: seq<seq<string>>, names: Mapping)
    requires SeparatorFree(names) && paths != [] && Known(paths, names)
    ensures Stored(paths) == ["0"] <==> paths == [["0"]]
  {
    assert KnownRoles(paths[0], names);
    StoredAsZero(paths[0]);
    assert Stored(paths)[0] == Join(paths[0], ':');
    assert |paths| == 1 ==> paths == [paths[0]] && Stored(paths) == [Stored(paths)[0]];
  }

  lemma MappedIsNotZero(doms: seq<string>, names: Mapping, roles: Mapping)
    requires Inverse(names, roles) && "0" !in names && doms != [] && MapPath(doms, roles).Some?
    ensures MapPath(doms, roles).value != ["0"]
  {
    assert MapPath(doms, roles).value[0] == roles[doms[0]];
    assert roles[doms[0]] in names;
  }

  /** Without a role named 0, no written path is stored as the path 0. */
  lemma NoRouteIsExact(answer: string, names: Mapping, roles: Mapping)
    requires Inverse(names, roles) && SeparatorFree(names) && "0" !in names
    ensures Formatted(answer, roles) == Some(["0"]) <==> Strip(answer) == "0"
  {
    var elems := Split(NoSpaces(answer), ',');
    var doms := Split(elems[0], ':');
    var mapped := MapPath(doms, roles);
    if mapped.Some? {
      MappedRoles(doms, names, roles);
      MappedIsNotZero(doms, names, roles);
      StoredAsZero(mapped.value);
      assert MapPaths(elems, roles).Some? ==> MapPaths(elems, roles).value[0] == Join(mapped.value, ':');
    }
  }

  /** The answers that mean correct. A bare 0 also stands for the path of a role named 0. */
  ghost predicate RightAnswer(answer: string, correct: Correct, names: Mapping)
    requires KnownCorrect(correct, names)
  {
    match correct
    case Unreachable => Strip(answer) == "0"
    case Paths(paths) => if Strip(answer) == "0" then paths == [["0"]] else NoSpaces(answer) == Spelling(paths, names)
  }

  /**
   Exactly one spelling. When the correct answer is that there is no route, a bare 0 is accepted and nothing else. When
   it is a list of paths, an answer that is not a bare 0 is accepted iff, without its spaces, it is that list written
   in the names shown.
   */
  lemma OneSpelling(answer: string, data: seq<Binding>, correct: Correct)
    requires Injective(data) && SeparatorFree(Names(data)) && KnownCorrect(correct, Names(data))
    ensures Formatted(answer, Roles(data)) == Some(StoredCorrect(correct))
       <==> RightAnswer(answer, correct, Names(data))
  {
    var names, roles := Names(data), Roles(data);
    MappingIsInverse(data);
    if correct.Unreachable? {
      NoRouteIsExact(answer, names, roles);
    } else {
      var paths := correct.paths;
      PathsAreExact(Split(NoSpaces(answer), ','), paths, names, roles);
      JoinSplit(NoSpaces(answer), ',');
      ShownAreFree(paths, names);
      SplitJoin(Shown(paths, names), ',');
      StoredAsNoRoute(paths, names);
    }
  }

  // ------------------------------------------------------------------ without the special case

  function IfVisible(c: char): string {
    if Blank(c) then "" else [c]
  }

  function Visible(s: string): string {
    if s == "" then "" else IfVisible(s[0]) + Visible(s[1..])
  }

  lemma {:induction false} VisibleAppend(a: string, b: string)
    ensures Visible(a + b) == Visible(a) + Visible(b)
  {
    if a == "" {
      assert a + b == b;
    } else {
      VisibleAppend(a[1..], b);
      assert (a + b)[1..] == a[1..] + b;
      Regroup(IfVisible(a[0]), Visible(a[1..]), Visible(b));
    }
  }

  lemma {:induction false} StripLeftKeepsVisible(s: string)
    ensures Visible(StripLeft(s)) == Visible(s)
  {
    if s != "" && Blank(s[0]) {
      StripLeftKeepsVisible(s[1..]);
    }
  }

  lemma {:induction false} StripRightKeepsVisible(s: string)
    ensures Visible(StripRight(s)) == Visible(s)
  {
    if s != "" && Blank(s[|s| - 1]) {
      StripRightKeepsVisible(s[..|s| - 1]);
      assert s == s[..|s| - 1] + [s[|s| - 1]];
      VisibleAppend(s[..|s| - 1], [s[|s| - 1]]);
    }
  }

  lemma {:induction false} NoSpacesKeepsVisible(s: string)
    ensures Visible(NoSpaces(s)) == Visible(s)
  {
    if s != "" {
      NoSpacesKeepsVisible(s[1..]);
      VisibleAppend(if s[0] == ' ' then "" else [s[0]], NoSpaces(s[1..]));
    }
  }

  predicate BlankFree(s: string) {
    forall c :: c in s ==> !Blank(c)
  }

  lemma {:induction false} BlankFreeIsVisible(s: string)
    requires BlankFree(s)
    ensures Visible(s) == s
  {
    if s != "" {
      BlankFreeIsVisible(s[1..]);
      assert [s[0]] + s[1..] == s;
    }
  }

  lemma {:induction false} JoinBlankFree(parts: seq<string>, sep: char)
    requires !Blank(sep) && forall p :: p in parts ==> BlankFree(p)
    ensures BlankFree(Join(parts, sep))
  {
    if parts != [] {
      assert BlankFree(parts[0]);
      JoinBlankFree(parts[1..], sep);
      assert |parts| > 1 ==> Join(parts, sep) == parts[0] + [sep] + Join(parts[1..], sep);
    }
  }

  lemma {:induction false} AllBlankIsInvisible(s: string)
    requires AllBlank(s)
    ensures Visible(s) == ""
  {
    if s != "" {
      AllBlankIsInvisible(s[1..]);
    }
  }

  lemma {:induction false} OneVisible(s: string)
    requires |s| >= 1 && !Blank(s[0]) && !Blank(s[|s| - 1])
    ensures Visible(s) == "0" ==> s == "0"
  {
    assert s == [s[0]] + s[1..];
    if |s| > 1 {
      var middle, last := s[1..|s| - 1], [s[|s| - 1]];
      assert s[1..] == middle + last;
      VisibleAppend(middle, last);
    }
  }

  /** A bare 0 is a text whose only character that is not blank is 0. */
  lemma BareZero(s: string)
    ensures Strip(s) == "0" <==> Visible(s) == "0"
  {
    var left, right := StripMeans(s);
    AllBlankIsInvisible(left);
    AllBlankIsInvisible(right);
    VisibleAppend(left + Strip(s), right);
    VisibleAppend(left, Strip(s));
    if Strip(s) != "" {
      OneVisible(Strip(s));
    }
    BlankFreeIsVisible("0");
  }

  /** A space anywhere in an answer changes nothing. */
  lemma SpacesDoNotMatter(s: string, t: string, roles: Mapping)
    ensures Formatted(s + " " + t, roles) == Formatted(s + t, roles)
  {
    NoSpacesMeans(s, t);
    BareZero(s + t);
    BareZero(s + " " + t);
    VisibleAppend(s, t);
    VisibleAppend(s + " ", t);
    VisibleAppend(s, " ");
  }

  /** The format of an answer with a space in it and without it. */
  method CheckFormatSpaced(s: string, t: string, roles: Mapping) returns (spaced: seq<string>, plain: seq<string>)
    ensures spaced == plain
  {
    SpacesDoNotMatter(s, t, roles);
    spaced := CheckFormat(s + " " + t, roles);
    plain := CheckFormat(s + t, roles);
  }

  /** Names are written without blanks, and none of them is 0. */
  ghost predicate ProperNames(names: Mapping) {
    forall role :: role in names ==> BlankFree(names[role]) && names[role] != "0"
  }

  lemma {:induction false} NamesAreProper(path: seq<string>, names: Mapping)
    requires ProperNames(names) && KnownRoles(path, names)
    ensures forall n :: n in NamesOf(path, names) ==> BlankFree(n) && n != "0"
  {
    if path != [] {
      NamesAreProper(path[1..], names);
    }
  }

  lemma {:induction false} ShownAreProper(paths: seq<seq<string>>, names: Mapping)
    requires ProperNames(names) && SeparatorFree(names) && Known(paths, names)
    ensures forall p :: p in Shown(paths, names) ==> BlankFree(p) && p != "0"
  {
    if paths != [] {
      var path := NamesOf(paths[0], names);
      NamesAreProper(paths[0], names);
      JoinBlankFree(path, ':');
      NamesAreFree(paths[0], names);
      SplitJoin(path, ':');
      SplitOfFree("0", ':');
      assert path[0] in path;
      ShownAreProper(paths[1..], names);
    }
  }

  lemma SpellingIsNotZero(answer: string, paths: seq<seq<string>>, names: Mapping)
    requires ProperNames(names) && SeparatorFree(names) && Known(paths, names) && paths != []
    requires Strip(answer) == "0"
    ensures NoSpaces(answer) != Spelling(paths, names)
  {
    var shown := Shown(paths, names);
    ShownAreProper(paths, names);
    JoinBlankFree(shown, ',');
    BlankFreeIsVisible(Spelling(paths, names));
    ShownAreFree(paths, names);
    SplitJoin(shown, ',');
    SplitOfFree("0", ',');
    assert shown[0] in shown;
    StripLeftKeepsVisible(answer);
    StripRightKeepsVisible(StripLeft(answer));
    NoSpacesKeepsVisible(answer);
    BlankFreeIsVisible("0");
  }

  /** The one spelling of a correct answer, up to spaces (and other blanks around a bare 0). */
  ghost predicate Spelled(answer: string, correct: Correct, names: Mapping)
    requires KnownCorrect(correct, names)
  {
    match correct
    case Unreachable => Strip(answer) == "0"
    case Paths(paths) => NoSpaces(answer) == Spelling(paths, names)
  }

  /** With proper names an answer is accepted iff it is the one spelling; only a role named 0 has a second, a bare 0. */
  lemma OneSpellingPlain(answer: string, data: seq<Binding>, correct: Correct)
    requires Injective(data) && SeparatorFree(Names(data)) && ProperNames(Names(data))
    requires KnownCorrect(correct, Names(data))
    ensures Formatted(answer, Roles(data)) == Some(StoredCorrect(correct))
       <==> Spelled(answer, correct, Names(data)) || (correct == Paths([["0"]]) && Strip(answer) == "0")
  {
    OneSpelling(answer, data, correct);
    if correct.Paths? && Strip(answer) == "0" {
      SpellingIsNotZero(answer, correct.paths, Names(data));
    }
  }

  /** One question of an exercise, from the data to the verdict; in the exercises no role is named 0. */
  method CheckQuestion(answer: string, data: seq<Binding>, correct: Correct) returns (o: Feedback)
    requires Injective(data) && SeparatorFree(Names(data)) && ProperNames(Names(data))
    requires KnownCorrect(correct, Names(data))
    ensures o == Success
       <==> Spelled(answer, correct, Names(data)) || (correct == Paths([["0"]]) && Strip(answer) == "0")
    ensures correct.Paths? && Free(answer, ' ') && Strip(answer) != "0" ==>
              (o == Success <==> answer == Spelling(correct.paths, Names(data)))
    ensures correct.Unreachable? ==> (o == Success <==> Visible(answer) == "0")
  {
    OneSpellingPlain(answer, data, correct);
    NoSpacesMeans(answer, "");
    BareZero(answer);
    var mapping := GetMapping(data);
    o := Check(answer, mapping, StoredCorrect(correct));
  }
}

/** How the Java generator reads a Slice doc comment (splitComment and
    parseDocComment): the comment is cut into lines; the lines before the
    first line starting with '@' form the overview; @param, @throws (or
    @exception), @return and @deprecated lines open a section that the
    following untagged lines continue; other '@' lines and untagged lines
    outside a section go to the miscellaneous text. */
module DocComments {
  import opened Wrappers
  import opened Text
  import Metadata

  /** The blanks between a tag, its name and its description. */
  const Blanks: set<char> := {' ', '\t'}

  /** The characters that make a last line empty for splitComment. */
  const LineBlanks: set<char> := {' ', '\t', '\n', '\r'}

  // ---------------------------------------------------------------------
  // splitComment
  // ---------------------------------------------------------------------

  /** The lines of a comment: the pieces between newlines, the last piece
      only when it holds something other than blanks. */
  function SplitComment(comment: string): (lines: seq<string>)
    ensures forall k | 0 <= k < |lines| :: Lacks(lines[k], '\n')
  {
    SplitLacks(comment, '\n', 0);
    var parts := Split(comment, '\n', 0);
    var last := parts[|parts| - 1];
    parts[..|parts| - 1] + (if FindFirstNotOf(last, LineBlanks, 0).Some? then [last] else [])
  }

  /** What splitComment drops: the last piece when it is blank. */
  function DroppedTail(comment: string): seq<string>
  {
    var parts := Split(comment, '\n', 0);
    var last := parts[|parts| - 1];
    if FindFirstNotOf(last, LineBlanks, 0).Some? then [] else [last]
  }

  /** The lines, with the dropped blank tail put back, join to the comment:
      nothing but a blank last line is lost. */
  lemma SplitCommentLosesOnlyBlankTail(comment: string)
    ensures Join(SplitComment(comment) + DroppedTail(comment), "\n") == comment
    ensures DroppedTail(comment) == [] || FindFirstNotOf(DroppedTail(comment)[0], LineBlanks, 0).None?
  {
    var parts := Split(comment, '\n', 0);
    assert SplitComment(comment) + DroppedTail(comment) == parts;
    JoinSplit(comment, '\n', 0);
    assert comment[0..] == comment;
  }

  /** After the last newline: the pieces found so far are all but the
      last, and the rest of the comment is the last. */
  lemma SplitFinish(comment: string, pos: nat, result: seq<string>)
    requires pos <= |comment| && FindFirstOf(comment, {'\n'}, pos) == None
    requires result + Split(comment, '\n', pos) == Split(comment, '\n', 0)
    ensures SplitComment(comment)
      == result + (if FindFirstNotOf(comment[pos..], LineBlanks, 0).Some? then [comment[pos..]] else [])
  {
    var parts := Split(comment, '\n', 0);
    assert parts[..|parts| - 1] == result;
  }

  /** splitComment: cuts at each newline with find_first_of, then keeps the
      rest when it is not blank. */
  method SplitCommentLines(comment: string) returns (result: seq<string>)
    ensures result == SplitComment(comment)
  {
    ghost var parts := Split(comment, '\n', 0);
    result := [];
    var pos := 0;
    var nextPos := FindFirstOf(comment, {'\n'}, pos);
    while nextPos.Some?
      invariant pos <= |comment|
      invariant nextPos == FindFirstOf(comment, {'\n'}, pos)
      invariant result + Split(comment, '\n', pos) == parts
      decreases |comment| - pos
    {
      var line := comment[pos..nextPos.value];
      SplitNext(comment, '\n', pos, nextPos.value);
      assert result + Split(comment, '\n', pos) == (result + [line]) + Split(comment, '\n', nextPos.value + 1);
      result := result + [line];
      pos := nextPos.value + 1;
      nextPos := FindFirstOf(comment, {'\n'}, pos);
    }
    SplitFinish(comment, pos, result);
    var lastLine := comment[pos..];
    if FindFirstNotOf(lastLine, LineBlanks, 0).Some? {
      result := result + [lastLine];
    }
  }

  // ---------------------------------------------------------------------
  // The parsed comment
  // ---------------------------------------------------------------------

  datatype DocComment = DocComment(
    deprecated: bool,
    deprecateReason: string,
    overview: string,
    params: map<string, string>,
    exceptions: map<string, string>,
    returnText: string,
    misc: string)

  /** The section that untagged lines continue. */
  datatype State = StateMisc | StateParam | StateThrows | StateReturn | StateDeprecated

  /** The parser between two lines: the comment so far, the open section
      and the parameter or exception it belongs to. */
  datatype Parser = Parser(c: DocComment, state: State, name: string)

  /** A text with one more line: a newline goes between two lines, not in
      front of the first. */
  function AppendLine(text: string, l: string): string
  {
    if text == "" then l else text + "\n" + l
  }

  /** The lines appended one after the other. */
  function AppendLines(text: string, ls: seq<string>): string
    decreases |ls|
  {
    if ls == [] then text else AppendLine(AppendLines(text, ls[..|ls| - 1]), ls[|ls| - 1])
  }

  /** Appending to a text that is not empty is joining with newlines. */
  lemma {:induction false} AppendLinesJoin(text: string, ls: seq<string>)
    requires text != ""
    ensures AppendLines(text, ls) == Join([text] + ls, "\n")
    decreases |ls|
  {
    if ls != [] {
      var init := ls[..|ls| - 1];
      AppendLinesJoin(text, init);
      JoinSnoc([text] + init, ls[|ls| - 1], "\n");
      assert [text] + ls == ([text] + init) + [ls[|ls| - 1]];
    }
  }

  /** IceUtilInternal::trim: the text without leading and trailing spaces,
      tabs, carriage returns and newlines. */
  function Trim(s: string): (r: string)
    ensures |r| <= |s|
    ensures r != [] ==> r[0] !in LineBlanks && r[|r| - 1] !in LineBlanks
    decreases |s|
  {
    if s == [] then s
    else if s[0] in LineBlanks then Trim(s[1..])
    else if s[|s| - 1] in LineBlanks then Trim(s[..|s| - 1])
    else s
  }

  /** The comment before any line is read: only the "deprecate" metadata
      counts; "deprecate:reason" (more than the ten characters of the
      prefix) gives the trimmed reason. */
  function FromMetaData(metaData: seq<string>): (c: DocComment)
    ensures c.deprecated <==> Metadata.FirstWithPrefix("deprecate", metaData).Some?
    ensures c.overview == "" && c.params == map[] && c.exceptions == map[] && c.returnText == "" && c.misc == ""
  {
    var md := Metadata.FirstWithPrefix("deprecate", metaData);
    var reason :=
      if md.Some? && StartsWith(md.value, "deprecate:") && |md.value| > 10 then Trim(md.value[10..]) else "";
    DocComment(md.Some?, reason, "", map[], map[], "", "")
  }

  /** A line that ends the overview: it starts with '@'. */
  predicate IsTagLine(l: string)
  {
    |l| > 0 && l[0] == '@'
  }

  /** The index of the first line that starts with '@', or the number of
      lines. */
  function FirstTag(lines: seq<string>): (k: nat)
    ensures k <= |lines|
    ensures forall j | 0 <= j < k :: !IsTagLine(lines[j])
    ensures k < |lines| ==> IsTagLine(lines[k])
    decreases |lines|
  {
    if lines == [] || IsTagLine(lines[0]) then 0 else 1 + FirstTag(lines[1..])
  }

  /** The name and, when there is one, the first description line of a
      @param or @throws line whose tag has the given length; None when the
      line is malformed: nothing after the tag, or a name with no blank
      after it. */
  function NamedTag(l: string, tagLength: nat): (r: Option<(string, Option<string>)>)
    ensures r.Some? ==> r.value.0 != "" && forall k | 0 <= k < |r.value.0| :: r.value.0[k] !in Blanks
    ensures r.Some? && r.value.1.Some? ==> r.value.1.value != "" && r.value.1.value[0] !in Blanks
  {
    match FindFirstNotOf(l, Blanks, tagLength)
    case None => None
    case Some(n) =>
      match FindFirstOf(l, Blanks, n)
      case None => None
      case Some(end) =>
        var description := match FindFirstNotOf(l, Blanks, end)
          case None => None
          case Some(d) => Some(l[d..]);
        Some((l[n..end], description))
  }

  /** The text of the open section. */
  function Section(p: Parser): string
  {
    match p.state
    case StateMisc => p.c.misc
    case StateParam => if p.name in p.c.params then p.c.params[p.name] else ""
    case StateThrows => if p.name in p.c.exceptions then p.c.exceptions[p.name] else ""
    case StateReturn => p.c.returnText
    case StateDeprecated => p.c.deprecateReason
  }

  /** An untagged line (or an unknown tag) added to the section of state. */
  function AddToSection(c: DocComment, state: State, name: string, l: string): DocComment
  {
    var text := Section(Parser(c, state, name));
    match state
    case StateMisc => c.(misc := AppendLine(text, l))
    case StateParam => c.(params := c.params[name := AppendLine(text, l)])
    case StateThrows => c.(exceptions := c.exceptions[name := AppendLine(text, l)])
    case StateReturn => c.(returnText := AppendLine(text, l))
    case StateDeprecated => c.(deprecateReason := AppendLine(text, l))
  }

  /** One line after the overview: it never touches the overview. */
  function Step(p: Parser, l: string): (q: Parser)
    ensures q.c.overview == p.c.overview
  {
    if StartsWith(l, "@param") then
      match NamedTag(l, 6)
      case None => Parser(p.c, StateMisc, "")
      case Some((name, description)) =>
        var c := if description.Some? then p.c.(params := p.c.params[name := description.value]) else p.c;
        Parser(c, StateParam, name)
    else if StartsWith(l, "@throws") || StartsWith(l, "@exception") then
      match NamedTag(l, if StartsWith(l, "@throws") then 7 else 10)
      case None => Parser(p.c, StateMisc, "")
      case Some((name, description)) =>
        var c := if description.Some? then p.c.(exceptions := p.c.exceptions[name := description.value]) else p.c;
        Parser(c, StateThrows, name)
    else if StartsWith(l, "@return") then
      match FindFirstNotOf(l, Blanks, 7)
      case None => Parser(p.c, StateMisc, "")
      case Some(n) => Parser(p.c.(returnText := l[n..]), StateReturn, "")
    else if StartsWith(l, "@deprecated") then
      var reason := match FindFirstNotOf(l, Blanks, 11)
        case None => p.c.deprecateReason
        case Some(n) => l[n..];
      Parser(p.c.(deprecated := true, deprecateReason := reason), StateDeprecated, "")
    else if l == "" then p
    else
      var state := if l[0] == '@' then StateMisc else p.state;
      Parser(AddToSection(p.c, state, p.name, l), state, p.name)
  }

  /** The lines after the overview, read one by one. */
  function Steps(p: Parser, lines: seq<string>): Parser
    decreases |lines|
  {
    if lines == [] then p else Step(Steps(p, lines[..|lines| - 1]), lines[|lines| - 1])
  }

  /** The overview text after the given lines. */
  function OverviewText(lines: seq<string>): string
  {
    AppendLines("", lines)
  }

  /** parseDocComment's result for the lines of a comment: none when there
      are no lines and no "deprecate" metadata. */
  function Parse(metaData: seq<string>, lines: seq<string>): Option<DocComment>
  {
    var c := FromMetaData(metaData);
    if lines == [] then (if c.deprecated then Some(c) else None)
    else
      var k := FirstTag(lines);
      Some(Steps(Parser(c.(overview := OverviewText(lines[..k])), StateMisc, ""), lines[k..]).c)
  }

  // ---------------------------------------------------------------------
  // parseDocComment
  // ---------------------------------------------------------------------

  /** parseDocComment's first loop: the lines up to the first one that
      starts with '@' make the overview; k is where it stopped. */
  method ReadOverview(lines: seq<string>) returns (overview: string, k: nat)
    ensures k == FirstTag(lines)
    ensures overview == OverviewText(lines[..k])
  {
    overview := "";
    k := 0;
    while k < |lines|
      invariant k <= |lines|
      invariant forall j | 0 <= j < k :: !IsTagLine(lines[j])
      invariant overview == OverviewText(lines[..k])
    {
      var l := lines[k];
      if |l| > 0 && l[0] == '@' {
        FirstTagAt(lines, k);
        return;
      }
      assert lines[..k + 1][..k] == lines[..k];
      overview := AppendLine(overview, l);
      k := k + 1;
    }
    FirstTagAt(lines, k);
  }

  /** The first tag line is at k when no line before k is one and line k
      is one, or there are only k lines. */
  lemma FirstTagAt(lines: seq<string>, k: nat)
    requires k <= |lines| && forall j | 0 <= j < k :: !IsTagLine(lines[j])
    requires k < |lines| ==> IsTagLine(lines[k])
    ensures FirstTag(lines) == k
  {
  }

  /** One more line read: the parser after lines k to i is the step on
      line i from the parser after lines k to i - 1. */
  lemma StepsExtend(p0: Parser, lines: seq<string>, k: nat, i: nat)
    requires k <= i < |lines|
    ensures Steps(p0, lines[k..i + 1]) == Step(Steps(p0, lines[k..i]), lines[i])
  {
    var s := lines[k..i + 1];
    assert s[..|s| - 1] == lines[k..i];
  }

  /** parseDocComment's second loop: every line from k on, one by one. */
  method ReadSections(p0: Parser, lines: seq<string>, k: nat) returns (p: Parser)
    requires k <= |lines|
    ensures p == Steps(p0, lines[k..])
  {
    p := p0;
    var i := k;
    while i < |lines|
      invariant k <= i <= |lines|
      invariant p == Steps(p0, lines[k..i])
    {
      StepsExtend(p0, lines, k, i);
      p := Step(p, lines[i]);
      i := i + 1;
    }
    assert lines[k..i] == lines[k..];
  }

  /** parseDocComment: the "deprecate" metadata, the lines, the overview,
      then the sections. */
  method ParseDocComment(metaData: seq<string>, comment: string) returns (r: Option<DocComment>)
    ensures r == Parse(metaData, SplitComment(comment))
  {
    var md := Metadata.FindMetaData("deprecate", metaData);
    var c := DocComment(false, "", "", map[], map[], "", "");
    if md.Some? {
      c := c.(deprecated := true);
      if StartsWith(md.value, "deprecate:") && |md.value| > 10 {
        c := c.(deprecateReason := Trim(md.value[10..]));
      }
    }
    assert c == FromMetaData(metaData);
    var lines := SplitCommentLines(comment);
    if lines == [] {
      return if c.deprecated then Some(c) else None;
    }
    var overview, k := ReadOverview(lines);
    var p := ReadSections(Parser(c.(overview := overview), StateMisc, ""), lines, k);
    r := Some(p.c);
  }

  // ---------------------------------------------------------------------
  // Properties
  // ---------------------------------------------------------------------

  /** The lines with the leading empty ones removed. */
  function DropLeadingEmpty(lines: seq<string>): (r: seq<string>)
    ensures r == [] || r[0] != ""
    decreases |lines|
  {
    if lines != [] && lines[0] == "" then DropLeadingEmpty(lines[1..]) else lines
  }

  /** A text built line by line from nothing is the lines joined with
      newlines, except that empty lines before the first non-empty one
      leave no trace. */
  lemma {:induction false} OverviewIsJoin(lines: seq<string>)
    ensures OverviewText(lines) == Join(DropLeadingEmpty(lines), "\n")
    decreases |lines|
  {
    if lines != [] {
      var init := lines[..|lines| - 1];
      var last := lines[|lines| - 1];
      OverviewIsJoin(init);
      DropLeadingEmptySnoc(init, last);
      var d := DropLeadingEmpty(init);
      if d != [] {
        JoinSnoc(d, last, "\n");
        JoinNonEmpty(d);
      }
      assert lines == init + [last];
    }
  }

  lemma {:induction false} DropLeadingEmptySnoc(init: seq<string>, last: string)
    ensures var d := DropLeadingEmpty(init);
      DropLeadingEmpty(init + [last]) == (if d == [] && last == "" then [] else d + [last])
    decreases |init|
  {
    if init != [] && init[0] == "" {
      assert (init + [last])[1..] == init[1..] + [last];
      DropLeadingEmptySnoc(init[1..], last);
    } else if init == [] {
      if last == "" {
        assert ([] + [last])[1..] == [];
      }
    }
  }

  lemma {:induction false} JoinNonEmpty(parts: seq<string>)
    requires parts != [] && parts[0] != ""
    ensures Join(parts, "\n") != ""
  {
  }

  /** The overview is made of the lines before the first '@' line. */
  lemma ParseOverview(metaData: seq<string>, lines: seq<string>)
    requires lines != []
    ensures Parse(metaData, lines).Some?
    ensures Parse(metaData, lines).value.overview
      == Join(DropLeadingEmpty(lines[..FirstTag(lines)]), "\n")
  {
    var k := FirstTag(lines);
    OverviewIsJoin(lines[..k]);
    StepsKeepOverview(Parser(FromMetaData(metaData).(overview := OverviewText(lines[..k])), StateMisc, ""), lines[k..]);
  }

  lemma {:induction false} StepsKeepOverview(p: Parser, lines: seq<string>)
    ensures Steps(p, lines).c.overview == p.c.overview
    decreases |lines|
  {
    if lines != [] {
      StepsKeepOverview(p, lines[..|lines| - 1]);
    }
  }

  /** There is a doc comment unless the comment has no lines and there is no
      "deprecate" metadata. */
  lemma ParseNone(metaData: seq<string>, lines: seq<string>)
    ensures Parse(metaData, lines).None?
      <==> lines == [] && Metadata.FirstWithPrefix("deprecate", metaData).None?
  {
  }

  /** A line that neither starts with '@' nor is empty. */
  predicate IsPlainLine(l: string)
  {
    l != "" && l[0] != '@'
  }

  /** Untagged lines continue the open section: its text gets them, one
      per line, and the section stays open. */
  lemma {:induction false} PlainLinesContinue(p: Parser, lines: seq<string>)
    requires forall j | 0 <= j < |lines| :: IsPlainLine(lines[j])
    ensures Steps(p, lines).state == p.state && Steps(p, lines).name == p.name
    ensures Section(Steps(p, lines)) == AppendLines(Section(p), lines)
    decreases |lines|
  {
    if lines != [] {
      var init := lines[..|lines| - 1];
      var l := lines[|lines| - 1];
      PlainLinesContinue(p, init);
      PlainStep(Steps(p, init), l);
    }
  }

  /** A line that starts with some other character than the tag's '@' does
      not start with the tag. */
  lemma NotTag(l: string, tag: string)
    requires IsPlainLine(l) && |tag| > 0 && tag[0] == '@'
    ensures !StartsWith(l, tag)
  {
    assert |tag| <= |l| ==> l[..|tag|][0] == l[0];
  }

  /** An untagged line goes to the open section and keeps it open. */
  lemma PlainStep(p: Parser, l: string)
    requires IsPlainLine(l)
    ensures Step(p, l) == Parser(AddToSection(p.c, p.state, p.name, l), p.state, p.name)
    ensures Section(Step(p, l)) == AppendLine(Section(p), l)
  {
    NotTag(l, "@param");
    NotTag(l, "@throws");
    NotTag(l, "@exception");
    NotTag(l, "@return");
    NotTag(l, "@deprecated");
  }

  /** A well-formed @return line opens the return section with its first
      description line, and the untagged lines after it extend that text. */
  lemma ReturnSection(p: Parser, l: string, n: nat, rest: seq<string>)
    requires StartsWith(l, "@return") && FindFirstNotOf(l, Blanks, 7) == Some(n)
    requires forall j | 0 <= j < |rest| :: IsPlainLine(rest[j])
    ensures Steps(p, [l] + rest).state == StateReturn
    ensures Steps(p, [l] + rest).c.returnText == Join([l[n..]] + rest, "\n")
  {
    assert l[1] == 'r';
    assert !StartsWith(l, "@param") && !StartsWith(l, "@throws") && !StartsWith(l, "@exception") by {
      assert l[1] == 'r';
    }
    var q := Step(p, l);
    assert q == Parser(p.c.(returnText := l[n..]), StateReturn, "");
    StepsCons(p, l, rest);
    PlainLinesContinue(q, rest);
    AppendLinesJoin(l[n..], rest);
  }

  /** A well-formed @param line opens the section of its parameter with the
      first description line, and the untagged lines after it extend that
      parameter's text. */
  lemma ParamSection(p: Parser, l: string, name: string, description: string, rest: seq<string>)
    requires StartsWith(l, "@param") && NamedTag(l, 6) == Some((name, Some(description)))
    requires forall j | 0 <= j < |rest| :: IsPlainLine(rest[j])
    ensures Steps(p, [l] + rest).state == StateParam
    ensures name in Steps(p, [l] + rest).c.params
    ensures Steps(p, [l] + rest).c.params[name] == Join([description] + rest, "\n")
  {
    var q := Step(p, l);
    assert q == Parser(p.c.(params := p.c.params[name := description]), StateParam, name);
    StepsCons(p, l, rest);
    PlainLinesContinue(q, rest);
    AppendLinesJoin(description, rest);
    StepsKeepName(q, rest, name);
  }

  /** While the parameter section stays open, its entry stays in the map. */
  lemma {:induction false} StepsKeepName(p: Parser, lines: seq<string>, name: string)
    requires p.state == StateParam && p.name == name && name in p.c.params
    requires forall j | 0 <= j < |lines| :: IsPlainLine(lines[j])
    ensures name in Steps(p, lines).c.params
    ensures Steps(p, lines).c.params[name] == Section(Steps(p, lines))
    decreases |lines|
  {
    PlainLinesContinue(p, lines);
    if lines != [] {
      StepsKeepName(p, lines[..|lines| - 1], name);
      PlainStep(Steps(p, lines[..|lines| - 1]), lines[|lines| - 1]);
    }
  }

  lemma {:induction false} StepsCons(p: Parser, l: string, rest: seq<string>)
    ensures Steps(p, [l] + rest) == Steps(Step(p, l), rest)
    decreases |rest|
  {
    if rest == [] {
      assert ([l] + rest)[..0] == [];
    } else {
      var init := rest[..|rest| - 1];
      StepsCons(p, l, init);
      assert ([l] + rest)[..|rest|] == [l] + init;
    }
  }

  /** A @param, @throws or @exception line without a name, or whose name
      runs to the end of the line, is skipped: the comment is unchanged and
      following untagged lines go to the miscellaneous text. */
  lemma MalformedTagSkipped(p: Parser, l: string)
    requires StartsWith(l, "@param") || StartsWith(l, "@throws") || StartsWith(l, "@exception")
    requires NamedTag(l, if StartsWith(l, "@param") then 6 else if StartsWith(l, "@throws") then 7 else 10).None?
    ensures Step(p, l) == Parser(p.c, StateMisc, "")
  {
    if StartsWith(l, "@param") {
      assert !StartsWith(l, "@throws") && !StartsWith(l, "@exception") by {
        assert l[1] == 'p';
      }
    } else if StartsWith(l, "@throws") {
      assert !StartsWith(l, "@exception") by {
        assert l[1] == 't';
      }
    }
  }

  /** A well-formed @throws or @exception line opens the section of its
      exception with the first description line, and the untagged lines
      after it extend that exception's text. */
  lemma ThrowsSection(p: Parser, l: string, name: string, description: string, rest: seq<string>)
    requires StartsWith(l, "@throws") || StartsWith(l, "@exception")
    requires NamedTag(l, if StartsWith(l, "@throws") then 7 else 10) == Some((name, Some(description)))
    requires forall j | 0 <= j < |rest| :: IsPlainLine(rest[j])
    ensures Steps(p, [l] + rest).state == StateThrows
    ensures name in Steps(p, [l] + rest).c.exceptions
    ensures Steps(p, [l] + rest).c.exceptions[name] == Join([description] + rest, "\n")
  {
    assert !StartsWith(l, "@param") by {
      assert l[1] == 't' || l[1] == 'e';
    }
    var q := Step(p, l);
    assert q == Parser(p.c.(exceptions := p.c.exceptions[name := description]), StateThrows, name);
    StepsCons(p, l, rest);
    PlainLinesContinue(q, rest);
    AppendLinesJoin(description, rest);
    StepsKeepException(q, rest, name);
  }

  /** While an exception section stays open, its entry stays in the map. */
  lemma {:induction false} StepsKeepException(p: Parser, lines: seq<string>, name: string)
    requires p.state == StateThrows && p.name == name && name in p.c.exceptions
    requires forall j | 0 <= j < |lines| :: IsPlainLine(lines[j])
    ensures name in Steps(p, lines).c.exceptions
    ensures Steps(p, lines).c.exceptions[name] == Section(Steps(p, lines))
    decreases |lines|
  {
    PlainLinesContinue(p, lines);
    if lines != [] {
      StepsKeepException(p, lines[..|lines| - 1], name);
      PlainStep(Steps(p, lines[..|lines| - 1]), lines[|lines| - 1]);
    }
  }

  /** Untagged lines never change whether the entity is deprecated. */
  lemma {:induction false} PlainLinesKeepDeprecated(p: Parser, lines: seq<string>)
    requires forall j | 0 <= j < |lines| :: IsPlainLine(lines[j])
    ensures Steps(p, lines).c.deprecated == p.c.deprecated
    decreases |lines|
  {
    if lines != [] {
      PlainLinesKeepDeprecated(p, lines[..|lines| - 1]);
      PlainStep(Steps(p, lines[..|lines| - 1]), lines[|lines| - 1]);
    }
  }

  /** A @deprecated line marks the entity deprecated and opens the
      deprecation section: with text after the tag, that text replaces the
      reason, otherwise the reason so far (from metadata, say) is kept; the
      untagged lines after it extend the reason. */
  lemma DeprecatedSection(p: Parser, l: string, rest: seq<string>)
    requires StartsWith(l, "@deprecated")
    requires forall j | 0 <= j < |rest| :: IsPlainLine(rest[j])
    ensures Steps(p, [l] + rest).state == StateDeprecated
    ensures Steps(p, [l] + rest).c.deprecated
    ensures FindFirstNotOf(l, Blanks, 11).None? ==>
      Steps(p, [l] + rest).c.deprecateReason == AppendLines(p.c.deprecateReason, rest)
    ensures FindFirstNotOf(l, Blanks, 11).Some? ==>
      Steps(p, [l] + rest).c.deprecateReason == Join([l[FindFirstNotOf(l, Blanks, 11).value..]] + rest, "\n")
  {
    assert !StartsWith(l, "@param") && !StartsWith(l, "@throws") && !StartsWith(l, "@exception") by {
      assert l[1] == 'd';
    }
    assert !StartsWith(l, "@return") by {
      assert l[1] == 'd';
    }
    var q := Step(p, l);
    StepsCons(p, l, rest);
    PlainLinesContinue(q, rest);
    PlainLinesKeepDeprecated(q, rest);
    match FindFirstNotOf(l, Blanks, 11)
    case None =>
    case Some(n) =>
      AppendLinesJoin(l[n..], rest);
  }

  /** A @return line with nothing after the tag is skipped: the comment is
      unchanged and following untagged lines go to the miscellaneous text. */
  lemma MalformedReturnSkipped(p: Parser, l: string)
    requires StartsWith(l, "@return") && FindFirstNotOf(l, Blanks, 7).None?
    ensures Step(p, l) == Parser(p.c, StateMisc, "")
  {
    assert !StartsWith(l, "@param") && !StartsWith(l, "@throws") && !StartsWith(l, "@exception") by {
      assert l[1] == 'r';
    }
  }

  /** A line starting with any other '@' tag goes to the miscellaneous
      text and closes the open section. */
  lemma OtherTagToMisc(p: Parser, l: string)
    requires IsTagLine(l)
    requires !StartsWith(l, "@param") && !StartsWith(l, "@throws") && !StartsWith(l, "@exception")
    requires !StartsWith(l, "@return") && !StartsWith(l, "@deprecated")
    ensures Step(p, l).state == StateMisc
    ensures Step(p, l).c == p.c.(misc := AppendLine(p.c.misc, l))
  {
  }
}

/**
 * The documentation generator of contrib/docs/generate_command_docs.py:
 * it parses the one-line command summaries and the detailed help blocks,
 * renders them as markdown, groups the commands into the user guide's
 * categories and splices the summary into the guide. Python's string
 * operations are written out; an exception the script would raise is a
 * `Failure` carrying the exception's name.
 */
module CommandDocs {
  import opened Wrappers
  import opened Text
  import SyncIgnore

  // ---------------------------------------------------------------- Python string operations

  /** The ASCII characters `str.strip` removes. */
  predicate IsPyWhitespace(c: char)
  {
    c == ' ' || c == '\t' || c == '\n' || c == '\r' || c as int == 0x0b || c as int == 0x0c ||
    0x1c <= c as int <= 0x1f
  }

  function LStrip(s: string): (r: string)
    ensures |r| <= |s| && r == s[|s| - |r|..]
    ensures r == [] || !IsPyWhitespace(r[0])
    ensures forall k :: 0 <= k < |s| - |r| ==> IsPyWhitespace(s[k])
  {
    if |s| > 0 && IsPyWhitespace(s[0]) then LStrip(s[1..]) else s
  }

  function RStrip(s: string): (r: string)
    ensures |r| <= |s| && r == s[..|r|]
    ensures r == [] || !IsPyWhitespace(r[|r| - 1])
    ensures forall k :: |r| <= k < |s| ==> IsPyWhitespace(s[k])
  {
    if |s| > 0 && IsPyWhitespace(s[|s| - 1]) then RStrip(s[..|s| - 1]) else s
  }

  /** `str.strip()`. */
  function Strip(s: string): (r: string)
    ensures r == [] || (!IsPyWhitespace(r[0]) && !IsPyWhitespace(r[|r| - 1]))
  {
    RStrip(LStrip(s))
  }

  /** `s.split(c, maxsplit=1)` for one character: the part before the first c and, when c occurs, the rest. */
  function SplitOnce(s: string, c: char): (r: (string, Option<string>))
    ensures r.1.None? ==> c !in s && r.0 == s
    ensures r.1.Some? ==> s == r.0 + [c] + r.1.value && c !in r.0
  {
    match FindChar(s, c)
    case None => (s, None)
    case Some(p) =>
      assert s == s[..p] + [c] + s[p + 1..];
      (s[..p], Some(s[p + 1..]))
  }

  /** `s.split('\n', maxsplit)`: at most maxsplit + 1 parts; only the last may hold a newline. */
  function SplitLines(s: string, maxsplit: nat): (r: seq<string>)
    ensures 1 <= |r| <= maxsplit + 1
    ensures forall i :: 0 <= i < |r| - 1 ==> '\n' !in r[i]
    ensures |r| <= maxsplit ==> '\n' !in r[|r| - 1]
  {
    if maxsplit == 0 then [s]
    else
      match SplitOnce(s, '\n')
      case (head, None) => [head]
      case (head, Some(rest)) => [head] + SplitLines(rest, maxsplit - 1)
  }

  /** `s.replace(pat, rep)` from index start: left to right, never rescanning inserted text. */
  function ReplaceFrom(s: string, pat: string, rep: string, start: nat): string
    requires |pat| > 0 && start <= |s|
    decreases |s| - start
  {
    match Find(s, pat, start)
    case None => s[start..]
    case Some(p) => s[start..p] + rep + ReplaceFrom(s, pat, rep, p + |pat|)
  }

  function PyReplace(s: string, pat: string, rep: string): string
    requires |pat| > 0
  {
    ReplaceFrom(s, pat, rep, 0)
  }

  /** `s.split(sep)` from index start. */
  function SplitFrom(s: string, sep: string, start: nat): (r: seq<string>)
    requires |sep| > 0 && start <= |s|
    ensures |r| >= 1
    decreases |s| - start
  {
    match Find(s, sep, start)
    case None => [s[start..]]
    case Some(p) => [s[start..p]] + SplitFrom(s, sep, p + |sep|)
  }

  function PySplit(s: string, sep: string): (r: seq<string>)
    requires |sep| > 0
    ensures |r| >= 1
  {
    SplitFrom(s, sep, 0)
  }

  /** The positions where pat occurs in s are exactly those given. */
  ghost predicate OccursOnlyAt(s: string, pat: string, positions: set<int>)
  {
    (forall k :: k in positions ==> OccursAt(s, pat, k)) &&
    (forall k :: OccursAt(s, pat, k) ==> k in positions)
  }

  /** With no occurrence from start on, replacing keeps the rest, and splitting gives it as the only part. */
  lemma NoOccurrenceFrom(s: string, pat: string, rep: string, start: nat)
    requires |pat| > 0 && start <= |s|
    requires forall k :: start <= k ==> !OccursAt(s, pat, k)
    ensures ReplaceFrom(s, pat, rep, start) == s[start..]
    ensures SplitFrom(s, pat, start) == [s[start..]]
  {
  }

  /** A pattern occurring exactly once is replaced exactly there. */
  lemma ReplaceOnce(a: string, pat: string, b: string, rep: string)
    requires |pat| > 0 && OccursOnlyAt(a + pat + b, pat, {|a|})
    ensures PyReplace(a + pat + b, pat, rep) == a + rep + b
  {
    var s := a + pat + b;
    assert s[|a|..|a| + |pat|] == pat;
    assert OccursAt(s, pat, |a|);
    NoOccurrenceFrom(s, pat, rep, |a| + |pat|);
    assert s[..|a|] == a && s[|a| + |pat|..] == b;
  }

  /** The first occurrence from start on is the one at p when none lies between. */
  lemma FindAt(s: string, pat: string, start: nat, p: nat)
    requires start <= p && OccursAt(s, pat, p)
    requires forall k :: start <= k < p ==> !OccursAt(s, pat, k)
    ensures Find(s, pat, start) == Some(p)
  {
  }

  /** A separator occurring exactly twice, without overlap, splits the text into three. */
  lemma SplitTwice(s: string, sep: string, p: nat, q: nat)
    requires |sep| > 0 && p + |sep| <= q && OccursOnlyAt(s, sep, {p, q})
    ensures PySplit(s, sep) == [s[..p], s[p + |sep|..q], s[q + |sep|..]]
  {
    FindAt(s, sep, 0, p);
    FindAt(s, sep, p + |sep|, q);
    NoOccurrenceFrom(s, sep, "", q + |sep|);
    assert SplitFrom(s, sep, p + |sep|) == [s[p + |sep|..q]] + [s[q + |sep|..]];
    assert s[0..p] == s[..p];
  }

  // ---------------------------------------------------------------- summaries

  datatype CommandSummary = CommandSummary(name: string, args: string, description: string)

  /** `CommandSummary.get_markdown_format`: the args appear, in backticks, only when there are any. */
  function SummaryMarkdown(cs: CommandSummary): (r: string)
    ensures var link := "* [`" + cs.name + "`](contrib/docs/commands/" + cs.name + ".md)";
      (cs.args == "" ==> r == link + " " + cs.description) &&
      (cs.args != "" ==> r == link + "`" + cs.args + "` " + cs.description)
  {
    var args := if cs.args != "" then "`" + cs.args + "`" else "";
    "* [`" + cs.name + "`](contrib/docs/commands/" + cs.name + ".md)" + args + " " + cs.description
  }

  /**
   * `add_command_summary`'s parse: the line splits at its first ':' into a head
   * and the description, and the head at its first space into the name and
   * the args. A line with no ':' raises IndexError.
   */
  function ParseSummary(line: string): (r: Result<CommandSummary, string>)
    ensures r.Failure? <==> ':' !in line
  {
    match SplitOnce(line, ':')
    case (_, None) => Failure("IndexError")
    case (head, Some(description)) =>
      match SplitOnce(head, ' ')
      case (name, None) => Success(CommandSummary(Strip(name), "", Strip(description)))
      case (name, Some(args)) => Success(CommandSummary(Strip(name), Strip(args), Strip(description)))
  }

  /** The parse recovers the parts it was given: "name args: description" with plain parts gives them back. */
  lemma ParseSummaryRoundTrip(name: string, args: string, description: string)
    requires name != [] && ' ' !in name && ':' !in name && Strip(name) == name
    requires ':' !in args && Strip(args) == args
    requires Strip(description) == description
    ensures args != "" ==> ParseSummary(name + " " + args + ":" + description) == Success(CommandSummary(name, args, description))
    ensures ParseSummary(name + ":" + description) == Success(CommandSummary(name, "", description))
  {
    var line := name + " " + args + ":" + description;
    var head := name + " " + args;
    assert line == head + [':'] + description;
    FirstOccurrence(line, ':', head, description);
    assert head == name + [' '] + args;
    FirstOccurrence(head, ' ', name, args);
    var line2 := name + ":" + description;
    assert line2 == name + [':'] + description;
    FirstOccurrence(line2, ':', name, description);
  }

  /** Splitting at a character that the head does not contain gives head and tail back. */
  lemma FirstOccurrence(s: string, c: char, head: string, tail: string)
    requires s == head + [c] + tail && c !in head
    ensures SplitOnce(s, c) == (head, Some(tail))
  {
    assert s[|head|] == c;
    assert s[..|head|] == head;
  }

  // ---------------------------------------------------------------- details

  datatype CommandDetail = CommandDetail(name: string, summary: string, usage: string, description: string)

  /** `CommandDetail.get_markdown_format`: the `<pre>` block appears only for a non-empty description. */
  function DetailMarkdown(cd: CommandDetail): (r: string)
    ensures var head := "### " + cd.name + "\n" + cd.summary + "\n\nUsage: `" + cd.usage + "`";
      (cd.description == "" ==> r == head) &&
      (cd.description != "" ==> r == head + "\n<pre>\n" + cd.description + "\n</pre>")
  {
    var description := if cd.description != "" then "\n<pre>\n" + cd.description + "\n</pre>" else "";
    "### " + cd.name + "\n" + cd.summary + "\n\nUsage: `" + cd.usage + "`" + description
  }

  /** A character of Python's `[\w-]` in ASCII. */
  predicate IsNameChar(c: char)
  {
    ('a' <= c <= 'z') || ('A' <= c <= 'Z') || ('0' <= c <= '9') || c == '_' || c == '-'
  }

  /** The end of the run of name characters starting at i. */
  function NameRunEnd(s: string, i: nat): (j: nat)
    requires i <= |s|
    ensures i <= j <= |s| && (j < |s| ==> !IsNameChar(s[j]))
    ensures forall k :: i <= k < j ==> IsNameChar(s[k])
    decreases |s| - i
  {
    if i < |s| && IsNameChar(s[i]) then NameRunEnd(s, i + 1) else i
  }

  /**
   * `re.match(r'<[\w-]+>', line)` followed by the search for its group:
   * the line must start with '<', a non-empty run of name characters and '>'.
   */
  function TagName(line: string): (r: Option<string>)
    ensures r.Some? ==> |line| >= |r.value| + 2 && line[..|r.value| + 2] == "<" + r.value + ">" &&
                        r.value != [] && forall k :: 0 <= k < |r.value| ==> IsNameChar(r.value[k])
  {
    if |line| == 0 || line[0] != '<' then None
    else
      var j := NameRunEnd(line, 1);
      if j > 1 && j < |line| && line[j] == '>' then
        assert line[..j + 1] == "<" + line[1..j] + ">";
        Some(line[1..j])
      else None
  }

  /** `re.search(r'Usage: (.+)', line).group(1)`: the rest of the line after the first "Usage: ", which must not be empty. */
  function UsageOf(line: string): (r: Option<string>)
    ensures r.Some? ==> r.value != [] && exists p :: OccursAt(line, "Usage: ", p) && r.value == line[p + 7..]
  {
    match Find(line, "Usage: ", 0)
    case None => None
    case Some(p) => if p + 7 < |line| then Some(line[p + 7..]) else None
  }

  /** What `add_command_detail` does with one help block. */
  datatype DetailOutcome = NotACommand | SkippedEcho | Parsed(detail: CommandDetail) | Raised(error: string)

  function ParseDetail(block: string): (r: DetailOutcome)
    ensures r.Parsed? ==> r.detail.name != "echo" && r.detail.name != []
    ensures TagName(SplitLines(block, 3)[0]).None? <==> r == NotACommand
  {
    var lines := SplitLines(block, 3);
    match TagName(lines[0])
    case None => NotACommand
    case Some(name) => if name == "echo" then SkippedEcho else DetailFromLines(name, lines)
  }

  /** The rest of `add_command_detail` once the name is known: the usage line, the summary line and the optional description. */
  function DetailFromLines(name: string, lines: seq<string>): (r: DetailOutcome)
    requires name != [] && forall k :: 0 <= k < |name| ==> IsNameChar(name[k])
    ensures r.Parsed? ==> r.detail.name == name
    ensures r.Parsed? <==> |lines| >= 3 && UsageOf(lines[1]).Some?
    ensures !r.Parsed? ==> r.Raised?
  {
    if |lines| < 2 then Raised("IndexError")
    else
      match UsageOf(lines[1])
      case None => Raised("AttributeError")
      case Some(usage) =>
        if |lines| < 3 then Raised("IndexError")
        else
          var description := if |lines| > 3 then lines[3] else "";
          StripKeepsPlain(name);
          Parsed(CommandDetail(Strip(name), Strip(lines[2]), Strip(usage), Strip(description)))
  }

  /** Stripping a name leaves it unchanged. */
  lemma StripKeepsPlain(s: string)
    requires forall k :: 0 <= k < |s| ==> IsNameChar(s[k])
    ensures Strip(s) == s
  {
  }

  // ---------------------------------------------------------------- the table

  /**
   * `CommandTable`; in the script both dictionaries are class attributes,
   * so every instance shares them; one object stands for that shared state.
   */
  class CommandTable {
    var commandSummaries: map<string, CommandSummary>
    var commandDetails: map<string, CommandDetail>

    constructor ()
      ensures commandSummaries == map[] && commandDetails == map[]
    {
      commandSummaries := map[];
      commandDetails := map[];
    }

    /** `add_command_summary`: a parsed line is stored under its name, replacing any earlier one. */
    method AddCommandSummary(line: string) returns (raised: Option<string>)
      modifies this
      ensures ParseSummary(line).Failure? ==> raised == Some(ParseSummary(line).error) && commandSummaries == old(commandSummaries)
      ensures ParseSummary(line).Success? ==>
                raised.None? && commandSummaries == old(commandSummaries)[ParseSummary(line).value.name := ParseSummary(line).value]
      ensures commandDetails == old(commandDetails)
    {
      var r := ParseSummary(line);
      if r.Failure? {
        return Some(r.error);
      }
      commandSummaries := commandSummaries[r.value.name := r.value];
      raised := None;
    }

    /** `add_command_detail`: only a parsed block other than "echo" is stored. */
    method AddCommandDetail(block: string) returns (outcome: DetailOutcome)
      modifies this
      ensures outcome == ParseDetail(block)
      ensures outcome.Parsed? ==> commandDetails == old(commandDetails)[outcome.detail.name := outcome.detail]
      ensures !outcome.Parsed? ==> commandDetails == old(commandDetails)
      ensures commandSummaries == old(commandSummaries)
    {
      outcome := ParseDetail(block);
      if outcome.Parsed? {
        commandDetails := commandDetails[outcome.detail.name := outcome.detail];
      }
    }

    /**
     * `parse_commands_brief`'s loop over the lines after "Commands:": each
     * line is stripped, and only one starting with a lower-case letter is
     * parsed. An exception stops the loop, keeping what was added before it.
     */
    method ParseBriefLines(lines: seq<string>) returns (raised: Option<string>)
      modifies this
      ensures raised.None? ==> commandSummaries == BriefSummaries(old(commandSummaries), lines)
      ensures raised.Some? ==> exists i :: 0 <= i < |lines| && IsCommandLine(Strip(lines[i])) && ParseSummary(Strip(lines[i])).Failure?
      ensures commandDetails == old(commandDetails)
    {
      var i := 0;
      while i < |lines|
        invariant 0 <= i <= |lines|
        invariant commandSummaries == BriefSummaries(old(commandSummaries), lines[..i])
        invariant commandDetails == old(commandDetails)
      {
        assert lines[..i + 1] == lines[..i] + [lines[i]];
        var line := Strip(lines[i]);
        if IsCommandLine(line) {
          raised := AddCommandSummary(line);
          if raised.Some? {
            return;
          }
        }
        assert commandSummaries == StoreLine(BriefSummaries(old(commandSummaries), lines[..i]), lines[i]);
        i := i + 1;
      }
      assert lines[..i] == lines;
      raised := None;
    }

    /**
     * `parse_commands_detail`'s loop over the blocks between the dash rules:
     * each block is stripped, an empty one is skipped and the rest go to
     * `add_command_detail`. An exception stops the loop, keeping what was
     * added before it.
     */
    method ParseDetailBlocks(blocks: seq<string>) returns (raised: Option<string>)
      modifies this
      ensures raised.None? ==> commandDetails == DetailsFrom(old(commandDetails), blocks)
      ensures raised.Some? ==> exists i :: 0 <= i < |blocks| && BlockRaises(blocks[i])
      ensures commandSummaries == old(commandSummaries)
    {
      var i := 0;
      while i < |blocks|
        invariant 0 <= i <= |blocks|
        invariant commandDetails == DetailsFrom(old(commandDetails), blocks[..i])
        invariant commandSummaries == old(commandSummaries)
      {
        assert blocks[..i + 1] == blocks[..i] + [blocks[i]];
        var block := Strip(blocks[i]);
        if block != "" {
          var outcome := AddCommandDetail(block);
          if outcome.Raised? {
            assert BlockRaises(blocks[i]);
            return Some(outcome.error);
          }
        }
        assert commandDetails == StoreBlock(DetailsFrom(old(commandDetails), blocks[..i]), blocks[i]);
        i := i + 1;
      }
      assert blocks[..i] == blocks;
      raised := None;
    }
  }

  /** A help block that makes `add_command_detail` raise once stripped. */
  predicate BlockRaises(block: string)
  {
    Strip(block) != "" && ParseDetail(Strip(block)).Raised?
  }

  /** One block's effect on the details: stored under its name when it parses, otherwise nothing. */
  function StoreBlock(m: map<string, CommandDetail>, block: string): map<string, CommandDetail>
  {
    var b := Strip(block);
    if b != "" && ParseDetail(b).Parsed? then m[ParseDetail(b).detail.name := ParseDetail(b).detail] else m
  }

  /** The details after the detail loop when no block raises. */
  function DetailsFrom(m: map<string, CommandDetail>, blocks: seq<string>): map<string, CommandDetail>
  {
    if |blocks| == 0 then m else StoreBlock(DetailsFrom(m, blocks[..|blocks| - 1]), blocks[|blocks| - 1])
  }

  lemma {:induction false} DetailsSkipEcho(m: map<string, CommandDetail>, blocks: seq<string>)
    requires "echo" !in m
    requires forall n :: n in m ==> m[n].name == n
    ensures "echo" !in DetailsFrom(m, blocks)
    ensures forall n :: n in DetailsFrom(m, blocks) ==> DetailsFrom(m, blocks)[n].name == n
  {
    if |blocks| > 0 {
      DetailsSkipEcho(m, blocks[..|blocks| - 1]);
    }
  }

  /** A stripped help line that names a command: non-empty and starting with a lower-case ASCII letter. */
  predicate IsCommandLine(line: string)
  {
    |line| > 0 && 'a' <= line[0] <= 'z'
  }

  /** The summaries after the brief loop when no line raises. */
  function BriefSummaries(m: map<string, CommandSummary>, lines: seq<string>): map<string, CommandSummary>
  {
    if |lines| == 0 then m else StoreLine(BriefSummaries(m, lines[..|lines| - 1]), lines[|lines| - 1])
  }

  /** One help line's effect on the summaries: stored under its name when it is a command line that parses. */
  function StoreLine(m: map<string, CommandSummary>, line: string): map<string, CommandSummary>
  {
    var l := Strip(line);
    if IsCommandLine(l) && ParseSummary(l).Success? then m[ParseSummary(l).value.name := ParseSummary(l).value] else m
  }

  /** A command's summary survives the loop unless a later command line reuses its name. */
  lemma {:induction false} BriefKeepsCommands(m: map<string, CommandSummary>, lines: seq<string>, name: string)
    requires name in m
    requires forall i :: 0 <= i < |lines| && IsCommandLine(Strip(lines[i])) && ParseSummary(Strip(lines[i])).Success? ==>
               ParseSummary(Strip(lines[i])).value.name != name
    ensures name in BriefSummaries(m, lines) && BriefSummaries(m, lines)[name] == m[name]
  {
    if |lines| > 0 {
      var init := lines[..|lines| - 1];
      forall i | 0 <= i < |init| && IsCommandLine(Strip(init[i])) && ParseSummary(Strip(init[i])).Success?
        ensures ParseSummary(Strip(init[i])).value.name != name
      {
        assert init[i] == lines[i];
      }
      BriefKeepsCommands(m, init, name);
    }
  }

  // ---------------------------------------------------------------- categories

  /** The fixed categories of `get_commands_by_category`, in order. */
  const CATEGORIES: seq<(string, seq<string>)> := [
    ("Account / Contacts", ["signup", "confirm", "invite", "showpcr", "ipc", "users", "userattr", "passwd", "masterkey"]),
    ("Login / Logout", ["login", "logout", "whoami", "session", "killsession"]),
    ("Browse", ["cd", "lcd", "ls", "pwd", "lpwd", "attr", "du", "find", "mount"]),
    ("Moving / Copying files", ["mkdir", "cp", "put", "get", "preview", "thumbnail", "mv", "rm", "transfers", "speedlimit",
                                "sync", "sync-issues", "sync-ignore", "sync-config", "exclude", "backup"]),
    ("Sharing (your own files, of course, without infringing any copyright)", ["export", "import", "share", "webdav"]),
    ("FUSE (mount your cloud folder to the local system)", ["fuse-add", "fuse-remove", "fuse-enable", "fuse-disable", "fuse-show", "fuse-config"])
  ]

  /** Every command some fixed category lists. */
  function Listed(): set<string>
  {
    set i, c | 0 <= i < |CATEGORIES| && c in CATEGORIES[i].1 :: c
  }

  /** "Misc.": the summarised commands no category lists, sorted. */
  method MiscCommands(summarised: set<string>) returns (misc: seq<string>)
    ensures SyncIgnore.Sorted(misc)
    ensures forall c :: c in misc <==> c in summarised && c !in Listed()
  {
    var listed := Listed();
    var rest := summarised - listed;
    misc := [];
    while rest != {}
      invariant SyncIgnore.Sorted(misc)
      invariant forall c :: c in misc <==> c in summarised && c !in listed && c !in rest
      invariant rest <= summarised - listed
      decreases |rest|
    {
      var c :| c in rest;
      SyncIgnore.InsertProperties(misc, c);
      misc := SyncIgnore.Insert(misc, c);
      rest := rest - {c};
    }
  }

  /** `get_commands_by_category`: the fixed categories, then "Misc.". */
  method CommandsByCategory(summarised: set<string>) returns (categories: seq<(string, seq<string>)>)
    ensures |categories| == |CATEGORIES| + 1 && categories[..|CATEGORIES|] == CATEGORIES
    ensures categories[|CATEGORIES|].0 == "Misc." && SyncIgnore.Sorted(categories[|CATEGORIES|].1)
    ensures forall c :: c in summarised ==> exists i :: 0 <= i < |categories| && c in categories[i].1
  {
    var misc := MiscCommands(summarised);
    categories := CATEGORIES + [("Misc.", misc)];
    forall c | c in summarised
      ensures exists i :: 0 <= i < |categories| && c in categories[i].1
    {
      if c in Listed() {
        var i, d :| 0 <= i < |CATEGORIES| && d in CATEGORIES[i].1 && d == c;
        assert categories[i] == CATEGORIES[i];
      } else {
        assert categories[|CATEGORIES|].1 == misc;
      }
    }
  }

  /** Every command the categories list has a summary, so no lookup raises KeyError. */
  predicate AllSummarised(summaries: map<string, CommandSummary>, categories: seq<(string, seq<string>)>)
  {
    forall i, c :: 0 <= i < |categories| && c in categories[i].1 ==> c in summaries
  }

  /** The markdown lines of the commands, in order. */
  function CommandLines(summaries: map<string, CommandSummary>, commands: seq<string>): (r: seq<string>)
    requires forall c :: c in commands ==> c in summaries
    ensures |r| == |commands| && forall k :: 0 <= k < |commands| ==> r[k] == SummaryMarkdown(summaries[commands[k]])
  {
    if |commands| == 0 then []
    else CommandLines(summaries, commands[..|commands| - 1]) + [SummaryMarkdown(summaries[commands[|commands| - 1]])]
  }

  /** The lines of the summary: per category its heading, one line per command, and a blank line. */
  function SummaryLines(summaries: map<string, CommandSummary>, categories: seq<(string, seq<string>)>): seq<string>
    requires AllSummarised(summaries, categories)
  {
    if |categories| == 0 then []
    else
      var init, last := categories[..|categories| - 1], categories[|categories| - 1];
      assert categories == init + [last];
      AllSummarisedSnoc(summaries, init, last);
      SummaryLines(summaries, init) + ["### " + last.0] + CommandLines(summaries, last.1) + [""]
  }

  /** Adding a category keeps the earlier ones summarised exactly when its own commands are. */
  lemma AllSummarisedSnoc(summaries: map<string, CommandSummary>, init: seq<(string, seq<string>)>, last: (string, seq<string>))
    ensures AllSummarised(summaries, init + [last]) <==> AllSummarised(summaries, init) && forall c :: c in last.1 ==> c in summaries
  {
    var all := init + [last];
    assert forall i :: 0 <= i < |init| ==> all[i] == init[i];
    assert all[|init|] == last;
  }

  /** `"\n".join(lines)`. */
  function JoinLines(lines: seq<string>): (r: string)
    ensures |lines| == 1 ==> r == lines[0]
  {
    if |lines| == 0 then ""
    else if |lines| == 1 then lines[0]
    else JoinLines(lines[..|lines| - 1]) + "\n" + lines[|lines| - 1]
  }

  /** Every listed command's markdown line is among the summary's lines. */
  lemma {:induction false} SummaryListsCommand(summaries: map<string, CommandSummary>, categories: seq<(string, seq<string>)>, i: int, c: string)
    requires AllSummarised(summaries, categories)
    requires 0 <= i < |categories| && c in categories[i].1
    ensures c in summaries && SummaryMarkdown(summaries[c]) in SummaryLines(summaries, categories)
  {
    var n := |categories| - 1;
    var init := categories[..n];
    var last := categories[n];
    var cl := CommandLines(summaries, last.1);
    assert SummaryLines(summaries, categories) == SummaryLines(summaries, init) + ["### " + last.0] + cl + [""];
    if i == n {
      var k :| 0 <= k < |last.1| && last.1[k] == c;
      assert cl[k] == SummaryMarkdown(summaries[c]);
    } else {
      assert init[i] == categories[i];
      SummaryListsCommand(summaries, init, i, c);
    }
  }

  /**
   * `generate_user_guide_summary`: the categories, then every command's
   * markdown line under its category's heading; a listed command without a
   * summary raises KeyError.
   */
  method GenerateUserGuideSummary(summaries: map<string, CommandSummary>)
    returns (categories: seq<(string, seq<string>)>, r: Result<string, string>)
    ensures |categories| == |CATEGORIES| + 1 && categories[..|CATEGORIES|] == CATEGORIES
    ensures categories[|CATEGORIES|].0 == "Misc." && SyncIgnore.Sorted(categories[|CATEGORIES|].1)
    ensures forall c :: c in summaries ==> exists i :: 0 <= i < |categories| && c in categories[i].1
    ensures r.Success? <==> AllSummarised(summaries, categories)
    ensures r.Success? ==> r.value == JoinLines(SummaryLines(summaries, categories)) + "\n"
  {
    categories := CommandsByCategory(summaries.Keys);
    var lines: seq<string> := [];
    var i := 0;
    while i < |categories|
      invariant 0 <= i <= |categories|
      invariant AllSummarised(summaries, categories[..i])
      invariant lines == SummaryLines(summaries, categories[..i])
    {
      var (name, commands) := categories[i];
      assert categories[..i + 1] == categories[..i] + [categories[i]];
      AllSummarisedSnoc(summaries, categories[..i], categories[i]);
      var ok, commandLines := AppendCommands(summaries, commands);
      if !ok {
        return categories, Failure("KeyError");
      }
      lines := lines + ["### " + name] + commandLines + [""];
      i := i + 1;
    }
    assert categories[..i] == categories;
    r := Success(JoinLines(lines) + "\n");
  }

  /** The inner loop of `generate_user_guide_summary`: one markdown line per command, stopping at the first without a summary. */
  method AppendCommands(summaries: map<string, CommandSummary>, commands: seq<string>) returns (ok: bool, lines: seq<string>)
    ensures ok <==> forall c :: c in commands ==> c in summaries
    ensures ok ==> lines == CommandLines(summaries, commands)
  {
    lines := [];
    var j := 0;
    while j < |commands|
      invariant 0 <= j <= |commands|
      invariant forall c :: c in commands[..j] ==> c in summaries
      invariant lines == CommandLines(summaries, commands[..j])
    {
      if commands[j] !in summaries {
        return false, lines;
      }
      assert commands[..j + 1] == commands[..j] + [commands[j]];
      assert commands[..j + 1][..j] == commands[..j];
      lines := lines + [SummaryMarkdown(summaries[commands[j]])];
      j := j + 1;
    }
    assert commands[..j] == commands;
    ok := true;
  }

  /**
   * A successful summary names every summarised command: each has its line in
   * it. With the categories `get_commands_by_category` produces, success only
   * needs the fixed categories' commands to be summarised.
   */
  lemma SummaryCoversAll(summaries: map<string, CommandSummary>, categories: seq<(string, seq<string>)>, c: string)
    requires AllSummarised(summaries, categories)
    requires c in summaries && exists i :: 0 <= i < |categories| && c in categories[i].1
    ensures SummaryMarkdown(summaries[c]) in SummaryLines(summaries, categories)
  {
    var i :| 0 <= i < |categories| && c in categories[i].1;
    SummaryListsCommand(summaries, categories, i, c);
  }

  // ---------------------------------------------------------------- the user guide

  const SECTION_START: string := "### Account / Contacts\n"
  const SECTION_END: string := "## Examples"
  const ANCHOR: string := "<<<<<<<<<<<<<<<<ANCHOR>>>>>>>>>>>>>>>>"

  /**
   * `write_to_user_guide`'s splice of the summary: both markers become the
   * anchor (the end marker is kept after it), the text is split at the
   * anchor, and the first and third parts frame the summary. Fewer than
   * three parts raise IndexError.
   */
  function Splice(contents: string, summary: string): Result<string, string>
  {
    var marked := PyReplace(PyReplace(contents, SECTION_START, ANCHOR), SECTION_END, ANCHOR + SECTION_END);
    var parts := PySplit(marked, ANCHOR);
    if |parts| < 3 then Failure("IndexError") else Success(parts[0] + summary + parts[2])
  }

  /**
   * With each marker occurring once, in order, and the anchor arising only
   * from them, exactly the text from the start marker up to the end marker
   * is replaced by the summary.
   */
  lemma SpliceReplacesSection(pre: string, mid: string, post: string, summary: string)
    requires OccursOnlyAt(pre + SECTION_START + mid + SECTION_END + post, SECTION_START, {|pre|})
    requires OccursOnlyAt(pre + ANCHOR + mid + SECTION_END + post, SECTION_END, {|pre| + |ANCHOR| + |mid|})
    requires OccursOnlyAt(pre + ANCHOR + mid + ANCHOR + SECTION_END + post, ANCHOR, {|pre|, |pre| + |ANCHOR| + |mid|})
    ensures Splice(pre + SECTION_START + mid + SECTION_END + post, summary) == Success(pre + summary + SECTION_END + post)
  {
    var c := pre + SECTION_START + mid + SECTION_END + post;
    MarkStart(pre, mid, post);
    MarkEnd(pre, mid, post);
    SplitMarked(pre, mid, post);
    assert Splice(c, summary) == Success(pre + summary + (SECTION_END + post));
    assert pre + summary + (SECTION_END + post) == pre + summary + SECTION_END + post;
  }

  /** The first step of the splice: the start marker becomes the anchor. */
  lemma MarkStart(pre: string, mid: string, post: string)
    requires OccursOnlyAt(pre + SECTION_START + mid + SECTION_END + post, SECTION_START, {|pre|})
    ensures PyReplace(pre + SECTION_START + mid + SECTION_END + post, SECTION_START, ANCHOR) == pre + ANCHOR + mid + SECTION_END + post
  {
    assert pre + SECTION_START + mid + SECTION_END + post == pre + SECTION_START + (mid + SECTION_END + post);
    ReplaceOnce(pre, SECTION_START, mid + SECTION_END + post, ANCHOR);
  }

  /** The second step: the anchor is put before the end marker. */
  lemma MarkEnd(pre: string, mid: string, post: string)
    requires OccursOnlyAt(pre + ANCHOR + mid + SECTION_END + post, SECTION_END, {|pre| + |ANCHOR| + |mid|})
    ensures PyReplace(pre + ANCHOR + mid + SECTION_END + post, SECTION_END, ANCHOR + SECTION_END) ==
            pre + ANCHOR + mid + ANCHOR + SECTION_END + post
  {
    assert |pre + ANCHOR + mid| == |pre| + |ANCHOR| + |mid|;
    ReplaceOnce(pre + ANCHOR + mid, SECTION_END, post, ANCHOR + SECTION_END);
  }

  /** The third step: the text splits at the two anchors. */
  lemma SplitMarked(pre: string, mid: string, post: string)
    requires OccursOnlyAt(pre + ANCHOR + mid + ANCHOR + SECTION_END + post, ANCHOR, {|pre|, |pre| + |ANCHOR| + |mid|})
    ensures PySplit(pre + ANCHOR + mid + ANCHOR + SECTION_END + post, ANCHOR) == [pre, mid, SECTION_END + post]
  {
    var s := pre + ANCHOR + mid + ANCHOR + SECTION_END + post;
    SplitTwice(s, ANCHOR, |pre|, |pre| + |ANCHOR| + |mid|);
    Slices(pre, ANCHOR, mid, SECTION_END, post);
  }

  /** The three pieces between two copies of x. */
  lemma Slices(a: string, x: string, b: string, y: string, c: string)
    ensures var s := a + x + b + x + y + c; var q := |a| + |x| + |b|;
      s[..|a|] == a && s[|a| + |x|..q] == b && s[q + |x|..] == y + c
  {
  }

  /** A guide with neither marker nor anchor cannot be spliced: the script raises. */
  lemma SpliceNeedsMarkers(contents: string, summary: string)
    requires forall k :: !OccursAt(contents, SECTION_START, k) && !OccursAt(contents, SECTION_END, k) && !OccursAt(contents, ANCHOR, k)
    ensures Splice(contents, summary) == Failure("IndexError")
  {
    NoOccurrenceFrom(contents, SECTION_START, ANCHOR, 0);
    NoOccurrenceFrom(contents, SECTION_END, ANCHOR + SECTION_END, 0);
    NoOccurrenceFrom(contents, ANCHOR, "", 0);
  }
}

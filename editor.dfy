/**
 * The ticket template parser of `src/editor.rs`.
 *
 * An edited template is read line by line. The first line starting with
 * `---` opens the header, where `Title:` and `Priority:` lines set the
 * title and the priority; the second `---` line closes the header and
 * opens the body, which is every later line that is neither a comment
 * (`#`) nor a `---` line.
 *
 * The parser itself (`ParseTicketTemplate`) is the source's loop over two
 * flags. It is specified by `Parse`, which says the same thing in terms of
 * the number of `---` lines seen before a line (its depth): header lines
 * are at depth 1 and body lines at depth 2 or more.
 */
module Editor {

  import opened Wrappers
  import opened AsciiText
  import P = Priorities

  const Delimiter: string := "---"
  const TitleKey: string := "Title:"
  const PriorityKey: string := "Priority:"
  const CommentMark: string := "#"
  const AbortMessage: string := "Aborting due to empty ticket message"

  /** What the parser returns: the title, the optional body and the priority. */
  datatype Ticket = Ticket(title: string, body: Option<string>, priority: P.Priority)

  predicate IsDelimiter(line: string) {
    StartsWith(line, Delimiter)
  }

  /** The number of `---` lines in `lines`. */
  function Depth(lines: seq<string>): nat
    decreases |lines|
  {
    if lines == [] then 0
    else Depth(lines[..|lines| - 1]) + (if IsDelimiter(lines[|lines| - 1]) then 1 else 0)
  }

  /**
   * The depth of a concatenation is the sum of the depths: `---` lines are
   * counted wherever they stand, so the depth never decreases as lines are
   * read.
   */
  lemma {:induction false} DepthAppend(a: seq<string>, b: seq<string>)
    ensures Depth(a + b) == Depth(a) + Depth(b)
    decreases |b|
  {
    if b != [] {
      assert (a + b)[..|a + b| - 1] == a + b[..|b| - 1];
      DepthAppend(a, b[..|b| - 1]);
    } else {
      assert a + b == a;
    }
  }

  /** Line `i` lies in the header: after the first `---` and before the second. */
  predicate InHeaderAt(lines: seq<string>, i: nat)
    requires i < |lines|
  {
    !IsDelimiter(lines[i]) && Depth(lines[..i]) == 1
  }

  /** Line `i` is a `Title:` line of the header. */
  predicate IsTitleLine(lines: seq<string>, i: nat)
    requires i < |lines|
  {
    InHeaderAt(lines, i) && StartsWith(lines[i], TitleKey)
  }

  /** Line `i` is a `Priority:` line of the header. */
  predicate IsPriorityLine(lines: seq<string>, i: nat)
    requires i < |lines|
  {
    InHeaderAt(lines, i) && !StartsWith(lines[i], TitleKey) && StartsWith(lines[i], PriorityKey)
  }

  /** The title a `Title:` line gives: the rest of the line, trimmed. */
  function TitleValue(line: string): (t: string)
    ensures StartsWith(line, TitleKey) ==> t == Trim(line[|TitleKey|..])
    ensures !StartsWith(line, TitleKey) ==> t == ""
  {
    var rest := match StripPrefix(line, TitleKey) case Some(r) => r case None => "";
    Trim(rest)
  }

  /**
   * The title of a `Title:` line neither starts nor ends with whitespace,
   * and it is empty exactly when the rest of the line is all whitespace.
   */
  lemma TitleValueMeaning(line: string)
    requires StartsWith(line, TitleKey)
    ensures var t := TitleValue(line);
      && (t == [] || (!IsWhitespace(t[0]) && !IsWhitespace(t[|t| - 1])))
      && (t == [] <==> AllWhitespace(line[|TitleKey|..]))
  {
    var rest := StripPrefix(line, TitleKey).value;
    assert TitleKey + rest == line;
    assert line[|TitleKey|..] == (TitleKey + rest)[|TitleKey|..] == rest;
  }

  /** The priority a `Priority:` value names. */
  function PriorityFromText(text: string): (p: P.Priority)
    ensures AllWhitespace(text) ==> p == P.None
    ensures p != P.None ==> |Trim(text)| == 1
  {
    var key := ToLower(Trim(text));
    if key == "a" then P.A
    else if key == "b" then P.B
    else if key == "c" then P.C
    else if key == "z" then P.Z
    else P.None
  }

  /**
   * A `Priority:` value names a priority when its trimmed text is a single
   * letter `a`, `b`, `c` or `z` in either case, and then the priority is
   * the one whose wire byte is that letter; anything else, the empty text
   * included, is `Priority::None`.
   */
  lemma PriorityFromTextMeaning(text: string)
    ensures var p := PriorityFromText(text);
      && (p != P.None <==> |Trim(text)| == 1 && ToLowerChar(Trim(text)[0]) in "abcz")
      && (p != P.None ==> P.Encode(p) as int == ToLowerChar(Trim(text)[0]) as int)
  {
  }

  /** The priority a `Priority:` line gives. */
  function PriorityValue(line: string): (p: P.Priority)
    ensures StartsWith(line, PriorityKey) ==> p == PriorityFromText(line[|PriorityKey|..])
    ensures !StartsWith(line, PriorityKey) ==> p == P.None
  {
    var rest := match StripPrefix(line, PriorityKey) case Some(r) => r case None => "";
    PriorityFromText(rest)
  }

  /** The title after `lines`: set by each header `Title:` line, `""` before any. */
  function TitleOf(lines: seq<string>): string
    decreases |lines|
  {
    if lines == [] then ""
    else if IsTitleLine(lines, |lines| - 1) then TitleValue(lines[|lines| - 1])
    else TitleOf(lines[..|lines| - 1])
  }

  /** The priority after `lines`: set by each header `Priority:` line, `z` before any. */
  function PriorityOf(lines: seq<string>): P.Priority
    decreases |lines|
  {
    if lines == [] then P.Z
    else if IsPriorityLine(lines, |lines| - 1) then PriorityValue(lines[|lines| - 1])
    else PriorityOf(lines[..|lines| - 1])
  }

  /** A line after the second `---` that belongs to the body: not a comment, not a `---` line. */
  predicate IsBodyLine(line: string) {
    !IsDelimiter(line) && !StartsWith(line, CommentMark)
  }

  /** The body lines of `lines`: the lines at depth 2 or more that `IsBodyLine` keeps. */
  function BodyLinesOf(lines: seq<string>): (r: seq<string>)
    ensures |r| <= |lines|
    ensures forall k :: 0 <= k < |r| ==> IsBodyLine(r[k])
    decreases |lines|
  {
    if lines == [] then []
    else if Depth(lines[..|lines| - 1]) >= 2 && IsBodyLine(lines[|lines| - 1])
    then BodyLinesOf(lines[..|lines| - 1]) + [lines[|lines| - 1]]
    else BodyLinesOf(lines[..|lines| - 1])
  }

  /** The lines of `lines` that `IsBodyLine` keeps, in order. */
  function KeptLines(lines: seq<string>): (r: seq<string>)
    ensures |r| <= |lines|
    ensures forall k :: 0 <= k < |r| ==> IsBodyLine(r[k])
    ensures (forall k :: 0 <= k < |lines| ==> IsBodyLine(lines[k])) ==> r == lines
    ensures |lines| == 1 ==> r == (if IsBodyLine(lines[0]) then lines else [])
    decreases |lines|
  {
    if lines == [] then []
    else
      var init := lines[..|lines| - 1];
      assert forall k :: 0 <= k < |init| ==> init[k] == lines[k];
      if IsBodyLine(lines[|lines| - 1]) then
        assert init + [lines[|lines| - 1]] == lines;
        KeptLines(init) + [lines[|lines| - 1]]
      else KeptLines(init)
  }

  /**
   * Filtering distributes over concatenation: the kept lines of `a + b` are
   * those of `a` followed by those of `b`, so every qualifying line is kept
   * and the order is preserved.
   */
  lemma {:induction false} KeptLinesAppend(a: seq<string>, b: seq<string>)
    ensures KeptLines(a + b) == KeptLines(a) + KeptLines(b)
    decreases |b|
  {
    if b != [] {
      assert (a + b)[..|a + b| - 1] == a + b[..|b| - 1];
      KeptLinesAppend(a, b[..|b| - 1]);
    } else {
      assert a + b == a;
    }
  }

  /**
   * The body: the body lines joined with newlines, absent when that text
   * is empty or whitespace only.
   */
  function BodyText(bodyLines: seq<string>): (b: Option<string>)
    ensures b.None? <==> forall i :: 0 <= i < |bodyLines| ==> AllWhitespace(bodyLines[i])
    ensures b.Some? ==> b.value == Join(bodyLines, "\n") && Trim(b.value) != []
  {
    var text := Join(bodyLines, "\n");
    JoinAllWhitespace(bodyLines, "\n");
    if Trim(text) == [] then None else Some(text)
  }

  /** What parsing `lines` yields. */
  function Parse(lines: seq<string>): Ticket {
    Ticket(TitleOf(lines), BodyText(BodyLinesOf(lines)), PriorityOf(lines))
  }

  /** Reading a `---` line deepens the template and changes nothing else. */
  lemma ReadDelimiter(lines: seq<string>, i: nat)
    requires i < |lines| && IsDelimiter(lines[i])
    ensures Depth(lines[..i + 1]) == Depth(lines[..i]) + 1
    ensures TitleOf(lines[..i + 1]) == TitleOf(lines[..i])
    ensures PriorityOf(lines[..i + 1]) == PriorityOf(lines[..i])
    ensures BodyLinesOf(lines[..i + 1]) == BodyLinesOf(lines[..i])
  {
    assert lines[..i + 1][..i] == lines[..i];
  }

  /** Reading a line before the first `---` changes nothing. */
  lemma ReadPreambleLine(lines: seq<string>, i: nat)
    requires i < |lines| && !IsDelimiter(lines[i]) && Depth(lines[..i]) == 0
    ensures Depth(lines[..i + 1]) == Depth(lines[..i])
    ensures TitleOf(lines[..i + 1]) == TitleOf(lines[..i])
    ensures PriorityOf(lines[..i + 1]) == PriorityOf(lines[..i])
    ensures BodyLinesOf(lines[..i + 1]) == BodyLinesOf(lines[..i])
  {
    assert lines[..i + 1][..i] == lines[..i];
  }

  /** Reading a header line may set the title or the priority, and nothing else. */
  lemma ReadHeaderLine(lines: seq<string>, i: nat)
    requires i < |lines| && !IsDelimiter(lines[i]) && Depth(lines[..i]) == 1
    ensures Depth(lines[..i + 1]) == Depth(lines[..i])
    ensures TitleOf(lines[..i + 1]) ==
      if StartsWith(lines[i], TitleKey) then TitleValue(lines[i]) else TitleOf(lines[..i])
    ensures PriorityOf(lines[..i + 1]) ==
      if !StartsWith(lines[i], TitleKey) && StartsWith(lines[i], PriorityKey)
      then PriorityValue(lines[i]) else PriorityOf(lines[..i])
    ensures BodyLinesOf(lines[..i + 1]) == BodyLinesOf(lines[..i])
  {
    assert lines[..i + 1][..i] == lines[..i];
  }

  /** Reading a line after the header may extend the body, and changes nothing else. */
  lemma ReadBodyLine(lines: seq<string>, i: nat)
    requires i < |lines| && !IsDelimiter(lines[i]) && Depth(lines[..i]) >= 2
    ensures Depth(lines[..i + 1]) == Depth(lines[..i])
    ensures TitleOf(lines[..i + 1]) == TitleOf(lines[..i])
    ensures PriorityOf(lines[..i + 1]) == PriorityOf(lines[..i])
    ensures BodyLinesOf(lines[..i + 1]) ==
      if StartsWith(lines[i], CommentMark) then BodyLinesOf(lines[..i])
      else BodyLinesOf(lines[..i]) + [lines[i]]
  {
    assert lines[..i + 1][..i] == lines[..i];
  }

  /**
   * `parse_ticket_template`: one pass over the lines with the flags
   * `inHeader` and `inBody`. It never fails; checking the title is left
   * to the caller.
   */
  method ParseTicketTemplate(lines: seq<string>) returns (r: Result<Ticket, string>)
    ensures r.Ok?
    ensures r.value == Parse(lines)
  {
    var title := "";
    var priority := P.Z;
    var inHeader := false;
    var inBody := false;
    var body: seq<string> := [];
    ghost var depth := 0;
    for i := 0 to |lines|
      invariant depth == Depth(lines[..i])
      invariant inHeader <==> depth % 2 == 1
      invariant inBody <==> depth >= 2
      invariant title == TitleOf(lines[..i])
      invariant priority == PriorityOf(lines[..i])
      invariant body == BodyLinesOf(lines[..i])
    {
      var line := lines[i];
      if StartsWith(line, Delimiter) {
        ReadDelimiter(lines, i);
        depth := depth + 1;
        if !inHeader {
          inHeader := true;
        } else {
          inHeader := false;
          inBody := true;
        }
        continue;
      }
      if inBody {
        ReadBodyLine(lines, i);
        if !StartsWith(line, CommentMark) {
          body := body + [line];
        }
      } else if inHeader {
        ReadHeaderLine(lines, i);
        if StartsWith(line, TitleKey) {
          title := TitleValue(line);
        } else if StartsWith(line, PriorityKey) {
          priority := PriorityValue(line);
        }
      } else {
        ReadPreambleLine(lines, i);
      }
    }
    assert lines[..|lines|] == lines;
    r := Ok(Ticket(title, BodyText(body), priority));
  }

  /**
   * The part of `open_editor_for_ticket` after the editor has run: parse
   * the edited lines and abort when the title is empty.
   */
  method OpenEditorForTicket(edited: seq<string>) returns (r: Result<Ticket, string>)
    ensures r.Ok? <==> Parse(edited).title != ""
    ensures r.Ok? ==> r.value == Parse(edited) && r.value.title != []
    ensures r.Err? ==> r.error == AbortMessage
  {
    var parsed := ParseTicketTemplate(edited);
    var ticket := parsed.value;
    if ticket.title == "" {
      return Err(AbortMessage);
    }
    r := Ok(ticket);
  }
}

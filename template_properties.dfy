/**
 * What the ticket template parser promises, proved about its
 * specification `Editor.Parse`, which `Editor.ParseTicketTemplate`
 * computes.
 */
module TemplateProperties {

  import opened Wrappers
  import opened AsciiText
  import opened Editor
  import P = Priorities

  /** Reading a prefix of the lines sees the same lines, at the same depths. */
  lemma LineInPrefix(lines: seq<string>, n: nat, i: nat)
    requires i < n <= |lines|
    ensures lines[..n][..i] == lines[..i] && lines[..n][i] == lines[i]
    ensures IsTitleLine(lines[..n], i) == IsTitleLine(lines, i)
    ensures IsPriorityLine(lines[..n], i) == IsPriorityLine(lines, i)
  {
    assert lines[..n][..i] == lines[..i];
  }

  /** Splitting off the last line of a concatenation. */
  lemma LastOfConcat(p: seq<string>, q: seq<string>)
    requires q != []
    ensures (p + q)[..|p + q| - 1] == p + q[..|q| - 1]
    ensures (p + q)[|p + q| - 1] == q[|q| - 1]
  {
    assert (p + q)[..|p + q| - 1] == p + q[..|q| - 1];
  }

  /** Without a `Title:` line in the header the title is empty. */
  lemma {:induction false} NoTitleLine(lines: seq<string>)
    requires forall i :: 0 <= i < |lines| ==> !IsTitleLine(lines, i)
    ensures TitleOf(lines) == ""
    decreases |lines|
  {
    if lines != [] {
      var init := lines[..|lines| - 1];
      forall i | 0 <= i < |init| ensures !IsTitleLine(init, i) {
        LineInPrefix(lines, |lines| - 1, i);
      }
      NoTitleLine(init);
    }
  }

  /**
   * The title is the trimmed remainder of the last header `Title:` line:
   * later `Title:` lines overwrite earlier ones.
   */
  lemma {:induction false} LastTitleLineWins(lines: seq<string>, i: nat)
    requires i < |lines| && IsTitleLine(lines, i)
    requires forall j :: i < j < |lines| ==> !IsTitleLine(lines, j)
    ensures TitleOf(lines) == TitleValue(lines[i])
    decreases |lines|
  {
    if i < |lines| - 1 {
      LastTitleLineInInit(lines, i);
      LastTitleLineWins(lines[..|lines| - 1], i);
    }
  }

  lemma LastTitleLineInInit(lines: seq<string>, i: nat)
    requires i < |lines| - 1 && IsTitleLine(lines, i)
    requires forall j :: i < j < |lines| ==> !IsTitleLine(lines, j)
    ensures var init := lines[..|lines| - 1];
      && TitleOf(lines) == TitleOf(init)
      && IsTitleLine(init, i) && init[i] == lines[i]
      && forall j :: i < j < |init| ==> !IsTitleLine(init, j)
  {
    var init := lines[..|lines| - 1];
    assert !IsTitleLine(lines, |lines| - 1);
    LineInPrefix(lines, |lines| - 1, i);
    forall j | i < j < |init| ensures !IsTitleLine(init, j) {
      LineInPrefix(lines, |lines| - 1, j);
    }
  }

  /** Without a `Priority:` line in the header the priority is `z`. */
  lemma {:induction false} NoPriorityLine(lines: seq<string>)
    requires forall i :: 0 <= i < |lines| ==> !IsPriorityLine(lines, i)
    ensures PriorityOf(lines) == P.Z
    decreases |lines|
  {
    if lines != [] {
      var init := lines[..|lines| - 1];
      forall i | 0 <= i < |init| ensures !IsPriorityLine(init, i) {
        LineInPrefix(lines, |lines| - 1, i);
      }
      NoPriorityLine(init);
    }
  }

  /** The priority is the one named by the last header `Priority:` line. */
  lemma {:induction false} LastPriorityLineWins(lines: seq<string>, i: nat)
    requires i < |lines| && IsPriorityLine(lines, i)
    requires forall j :: i < j < |lines| ==> !IsPriorityLine(lines, j)
    ensures PriorityOf(lines) == PriorityValue(lines[i])
    decreases |lines|
  {
    if i < |lines| - 1 {
      LastPriorityLineInInit(lines, i);
      LastPriorityLineWins(lines[..|lines| - 1], i);
    }
  }

  lemma LastPriorityLineInInit(lines: seq<string>, i: nat)
    requires i < |lines| - 1 && IsPriorityLine(lines, i)
    requires forall j :: i < j < |lines| ==> !IsPriorityLine(lines, j)
    ensures var init := lines[..|lines| - 1];
      && PriorityOf(lines) == PriorityOf(init)
      && IsPriorityLine(init, i) && init[i] == lines[i]
      && forall j :: i < j < |init| ==> !IsPriorityLine(init, j)
  {
    var init := lines[..|lines| - 1];
    assert !IsPriorityLine(lines, |lines| - 1);
    LineInPrefix(lines, |lines| - 1, i);
    forall j | i < j < |init| ensures !IsPriorityLine(init, j) {
      LineInPrefix(lines, |lines| - 1, j);
    }
  }

  /**
   * A line that is not `---` has no effect when it comes before the first
   * `---`, or when it is a header line that is neither `Title:` nor
   * `Priority:`.
   */
  lemma {:induction false} IgnoredLine(p: seq<string>, x: string, q: seq<string>)
    requires !IsDelimiter(x)
    requires Depth(p) == 0 || (Depth(p) == 1 && !StartsWith(x, TitleKey) && !StartsWith(x, PriorityKey))
    ensures Depth(p + [x] + q) == Depth(p + q)
    ensures TitleOf(p + [x] + q) == TitleOf(p + q)
    ensures PriorityOf(p + [x] + q) == PriorityOf(p + q)
    ensures BodyLinesOf(p + [x] + q) == BodyLinesOf(p + q)
    decreases |q|
  {
    if q == [] {
      assert p + [x] + q == p + [x] && p + q == p;
      LastOfConcat(p, [x]);
    } else {
      var q' := q[..|q| - 1];
      IgnoredLine(p, x, q');
      LastOfConcat(p + [x], q);
      LastOfConcat(p, q);
    }
  }

  /** Everything before the first `---` line is ignored. */
  lemma {:induction false} PreambleIgnored(p: seq<string>, q: seq<string>)
    requires Depth(p) == 0
    ensures Parse(p + q) == Parse(q)
    ensures Depth(p + q) == Depth(q) && TitleOf(p + q) == TitleOf(q)
    ensures PriorityOf(p + q) == PriorityOf(q) && BodyLinesOf(p + q) == BodyLinesOf(q)
    decreases |p|
  {
    if p == [] {
      assert p + q == q;
    } else {
      var p', x := p[..|p| - 1], p[|p| - 1];
      assert p == p' + [x];
      IgnoredLine(p', x, q);
      PreambleIgnored(p', q);
    }
  }

  /** Before the second `---` line there is no body. */
  lemma {:induction false} NoBodyInHeader(lines: seq<string>)
    requires Depth(lines) < 2
    ensures BodyLinesOf(lines) == []
    decreases |lines|
  {
    if lines != [] {
      NoBodyInHeader(lines[..|lines| - 1]);
    }
  }

  /**
   * Once the second `---` line has been read, the title and the priority
   * are settled (`Title:` and `Priority:` lines are body text from then on)
   * and every later line that is neither a comment nor `---` is appended
   * to the body, in order.
   */
  lemma {:induction false} AfterHeader(head: seq<string>, q: seq<string>)
    requires Depth(head) >= 2
    ensures Depth(head + q) >= 2
    ensures TitleOf(head + q) == TitleOf(head)
    ensures PriorityOf(head + q) == PriorityOf(head)
    ensures BodyLinesOf(head + q) == BodyLinesOf(head) + KeptLines(q)
    decreases |q|
  {
    if q == [] {
      assert head + q == head;
    } else {
      var q' := q[..|q| - 1];
      AfterHeader(head, q');
      LastOfConcat(head, q);
    }
  }

  /**
   * For a template whose header closes with `head`'s last line, the body
   * is built from exactly the kept lines after it, and the title and the
   * priority come from `head` alone.
   */
  lemma BodyIsKeptLines(head: seq<string>, q: seq<string>)
    requires head != [] && IsDelimiter(head[|head| - 1]) && Depth(head) == 2
    ensures Parse(head + q) == Ticket(TitleOf(head), BodyText(KeptLines(q)), PriorityOf(head))
  {
    var init := head[..|head| - 1];
    NoBodyInHeader(init);
    assert BodyLinesOf(head) == BodyLinesOf(init) == [];
    AfterHeader(head, q);
    assert BodyLinesOf(head + q) == KeptLines(q);
  }

  /** The body, when present, is never empty or whitespace only. */
  lemma BodyNeverBlank(lines: seq<string>)
    ensures Parse(lines).body.Some? ==> Trim(Parse(lines).body.value) != ""
    ensures Parse(lines).body.None? <==>
      forall i :: 0 <= i < |BodyLinesOf(lines)| ==> AllWhitespace(BodyLinesOf(lines)[i])
  {
  }

  /** A `Title:` line holding only whitespace gives the empty title. */
  lemma BlankTitleValue(w: string)
    requires AllWhitespace(w)
    ensures TitleValue(TitleKey + w) == ""
  {
    assert (TitleKey + w)[|TitleKey|..] == w;
    TitleValueMeaning(TitleKey + w);
  }

  /**
   * When the last header `Title:` line holds only whitespace, the title is
   * empty, so opening the editor for a ticket aborts.
   */
  lemma BlankTitleAborts(lines: seq<string>, i: nat, w: string)
    requires i < |lines| && IsTitleLine(lines, i) && lines[i] == TitleKey + w
    requires forall j :: i < j < |lines| ==> !IsTitleLine(lines, j)
    requires AllWhitespace(w)
    ensures Parse(lines).title == ""
  {
    LastTitleLineWins(lines, i);
    BlankTitleValue(w);
  }

  /**
   * A `Priority:` value is matched whatever its case: the letter of a
   * priority's wire byte, in either case and with whitespace around it,
   * names that priority.
   */
  lemma PriorityLetterEitherCase(p: P.Priority, before: string, after: string)
    requires p != P.None && AllWhitespace(before) && AllWhitespace(after)
    ensures PriorityFromText(before + [P.Encode(p) as char] + after) == p
    ensures PriorityFromText(before + [(P.Encode(p) as int - 32) as char] + after) == p
  {
    PriorityLetter(p, before, P.Encode(p) as char, after);
    PriorityLetter(p, before, (P.Encode(p) as int - 32) as char, after);
  }

  lemma PriorityLetter(p: P.Priority, before: string, c: char, after: string)
    requires p != P.None && AllWhitespace(before) && AllWhitespace(after)
    requires ToLowerChar(c) as int == P.Encode(p) as int
    ensures PriorityFromText(before + [c] + after) == p
  {
    TrimOfPadded(before, c, after);
    PriorityFromTextMeaning(before + [c] + after);
    var r := PriorityFromText(before + [c] + after);
    assert ToLowerChar(c) in "abcz";
    P.EncodeInjective(r, p);
  }

  lemma TrimOfPadded(before: string, c: char, after: string)
    requires AllWhitespace(before) && AllWhitespace(after) && !IsWhitespace(c)
    ensures Trim(before + [c] + after) == [c]
  {
    var s := before + [c] + after;
    assert s[|before|] == c;
    assert forall k :: 0 <= k < |before| ==> s[k] == before[k];
    assert forall k :: |before| < k < |s| ==> s[k] == after[k - |before| - 1];
  }
}

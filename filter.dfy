/**
 * The body of `main` (rzcf.py:72-129): every line is parsed into a comment
 * record, checked against the command-line criteria, formatted, and buffered;
 * the buffer is appended to the output file whenever it holds 100 entries,
 * and once more at the end.
 */
module Filter {
  import opened Wrappers
  import opened Seqs
  import opened Text
  import Decoder
  import Lines

  /**
   * The fields of a comment record the filter and the formatter read. The
   * date is the UTC day number of `created_utc`; `None` is a missing
   * `permalink` or `link_id`. `record` is the stripped line the comment was
   * parsed from: it carries every other key (and which keys are absent), all
   * of which the serialised entry of rzcf.py:114 holds.
   */
  datatype Comment = Comment(
    author: string,
    body: string,
    subreddit: string,
    day: int,
    permalink: Option<string>,
    linkId: Option<string>,
    record: string)

  /**
   * The command-line options. An empty user, subreddit or keyword is an
   * option not given (Python treats both `None` and "" as false); a date is
   * a day number.
   */
  datatype Criteria = Criteria(
    user: string,
    subreddit: string,
    date: Option<int>,
    rangeStart: Option<int>,
    rangeEnd: Option<int>,
    keyword: string,
    commentOnly: bool,
    link: bool)

  /** Bodies of comments that were deleted or removed. */
  predicate Tombstone(body: string) {
    body in ["[deleted]", "[removed]"]
  }

  /**
   * rzcf.py:78-97: the chain of `continue` tests, in the order the code runs
   * them, with `lower` standing for `str.lower`.
   */
  predicate Keep(c: Comment, crit: Criteria, lower: string -> string) {
    if lower(c.author) == "automoderator" || Tombstone(c.body) then false
    else if crit.user != "" && c.author != crit.user then false
    else if crit.subreddit != "" && c.subreddit != crit.subreddit then false
    else if crit.date.Some? && c.day != crit.date.value then false
    else if crit.rangeStart.Some? && crit.rangeEnd.Some?
            && (c.day < crit.rangeStart.value || c.day > crit.rangeEnd.value) then false
    else if crit.keyword != "" && !Contains(lower(c.body), lower(crit.keyword)) then false
    else true
  }

  /**
   * A comment is kept exactly when every test passes: not by automoderator
   * (in any case), not deleted or removed, by the given user, in the given
   * subreddit, on the given day, within both bounds of the range (inclusive,
   * and only when both are given), and containing the keyword when both are
   * lowered.
   */
  lemma KeepExactly(c: Comment, crit: Criteria, lower: string -> string)
    ensures Keep(c, crit, lower) <==>
      && lower(c.author) != "automoderator"
      && c.body != "[deleted]" && c.body != "[removed]"
      && (crit.user != "" ==> c.author == crit.user)
      && (crit.subreddit != "" ==> c.subreddit == crit.subreddit)
      && (crit.date.Some? ==> c.day == crit.date.value)
      && (crit.rangeStart.Some? && crit.rangeEnd.Some? ==>
            crit.rangeStart.value <= c.day <= crit.rangeEnd.value)
      && (crit.keyword != "" ==>
            exists i :: 0 <= i <= |lower(c.body)| && IsPrefix(lower(crit.keyword), lower(c.body)[i..]))
  {
  }

  /** The options with no filter given: only automoderator and deleted or removed comments are skipped. */
  function NoFilter(commentOnly: bool, link: bool): (crit: Criteria)
    ensures crit.commentOnly == commentOnly && crit.link == link
  {
    Criteria("", "", None, None, None, "", commentOnly, link)
  }

  lemma NoFilterKeepsAllOthers(c: Comment, commentOnly: bool, link: bool, lower: string -> string)
    ensures Keep(c, NoFilter(commentOnly, link), lower) <==> lower(c.author) != "automoderator" && !Tombstone(c.body)
  {
  }

  /** A range with only one bound given filters nothing. */
  lemma HalfRangeIgnored(c: Comment, crit: Criteria, lower: string -> string)
    requires crit.rangeStart.None? || crit.rangeEnd.None?
    ensures Keep(c, crit, lower) == Keep(c, crit.(rangeStart := None, rangeEnd := None), lower)
  {
  }

  /** Each criterion only removes comments: dropping one keeps everything kept before. */
  lemma CriteriaOnlyNarrow(c: Comment, crit: Criteria, lower: string -> string)
    requires Keep(c, crit, lower)
    ensures Keep(c, crit.(user := ""), lower)
    ensures Keep(c, crit.(subreddit := ""), lower)
    ensures Keep(c, crit.(date := None), lower)
    ensures Keep(c, crit.(rangeStart := None), lower)
    ensures Keep(c, crit.(keyword := ""), lower)
  {
  }

  /**
   * The keyword test is case-insensitive: a keyword and a body are compared
   * only through `lower`, so changing either to one with the same lowering
   * changes nothing.
   */
  lemma KeywordCaseInsensitive(c: Comment, crit: Criteria, keyword: string, body: string, lower: string -> string)
    requires lower(keyword) == lower(crit.keyword) && (keyword == "" <==> crit.keyword == "")
    requires lower(body) == lower(c.body) && Tombstone(body) == Tombstone(c.body)
    ensures Keep(c.(body := body), crit.(keyword := keyword), lower) == Keep(c, crit, lower)
  {
  }

  /** The link prefix of rzcf.py:104 and rzcf.py:109. */
  const SITE := "\nLink: https://www.reddit.com"

  /**
   * rzcf.py:102-109: a non-empty permalink is appended to the site address;
   * otherwise a `link_id` of the form "t3_<id>" gives the thread address;
   * otherwise nothing is appended.
   */
  function LinkSuffix(c: Comment): (r: string)
    ensures r == "" || IsPrefix(SITE, r)
  {
    if c.permalink.Some? && c.permalink.value != "" then
      SITE + c.permalink.value
    else if c.linkId.Some? && c.linkId.value != "" && IsPrefix("t3_", c.linkId.value) then
      SITE + "/comments/" + c.linkId.value[3..] + "/"
    else
      ""
  }

  /** Which of the three cases applies, and what it appends. */
  lemma LinkSuffixCases(c: Comment)
    ensures c.permalink.Some? && c.permalink.value != "" ==> LinkSuffix(c) == SITE + c.permalink.value
    ensures (c.permalink.None? || c.permalink.value == "") ==>
              forall id :: c.linkId == Some("t3_" + id) ==> LinkSuffix(c) == SITE + "/comments/" + id + "/"
    ensures LinkSuffix(c) == "" <==>
              (c.permalink.None? || c.permalink.value == "")
              && (c.linkId.None? || !IsPrefix("t3_", c.linkId.value))
  {
    forall id | (c.permalink.None? || c.permalink.value == "") && c.linkId == Some("t3_" + id)
      ensures LinkSuffix(c) == SITE + "/comments/" + id + "/"
    {
      assert IsPrefix("t3_", "t3_" + id);
      assert ("t3_" + id)[3..] == id;
    }
    if LinkSuffix(c) != "" {
      assert |SITE| <= |LinkSuffix(c)|;
    }
  }

  /**
   * rzcf.py:99-114: the stored entry is the body, followed by the link when
   * asked for, or else the whole record serialised by `dumps` (standing for
   * `json.dumps(..., ensure_ascii=False)`, which reads every key through
   * `record`).
   */
  function Entry(c: Comment, crit: Criteria, dumps: Comment -> string): (e: string)
    ensures crit.commentOnly ==> IsPrefix(c.body, e)
    ensures crit.commentOnly && !crit.link ==> e == c.body
    ensures crit.commentOnly && crit.link ==> e == c.body + LinkSuffix(c)
    ensures !crit.commentOnly ==> e == dumps(c)
  {
    if crit.commentOnly then
      if crit.link then c.body + LinkSuffix(c) else c.body
    else dumps(c)
  }

  /** Buffered entries are appended to the output file 100 at a time (rzcf.py:118). */
  const FLUSH_AT: nat := 100

  /**
   * `buffered_comments` and the output file it is flushed to. `flushed` is
   * every entry already written, and `written` what the file holds: each
   * entry followed by "\n".
   */
  class OutputBuffer {
    var buffered: seq<string>
    var written: string
    ghost var flushed: seq<string>

    ghost predicate Valid()
      reads this
    {
      && |buffered| < FLUSH_AT
      && |flushed| % FLUSH_AT == 0
      && written == Terminated(flushed)
    }

    /** Every entry appended so far, written or still buffered. */
    ghost function Entries(): seq<string>
      reads this
    {
      flushed + buffered
    }

    constructor ()
      ensures Valid() && buffered == [] && flushed == [] && written == ""
    {
      buffered := [];
      written := "";
      flushed := [];
    }

    /**
     * rzcf.py:110-121: append one entry; when the buffer reaches 100 entries
     * they are written joined by "\n" with one more "\n" after them, and the
     * buffer is emptied.
     */
    method Add(entry: string)
      requires Valid()
      modifies this
      ensures Valid()
      ensures Entries() == old(Entries()) + [entry]
      ensures |old(buffered)| + 1 == FLUSH_AT ==>
                buffered == [] && written == old(written) + Join(old(buffered) + [entry]) + "\n"
      ensures |old(buffered)| + 1 < FLUSH_AT ==>
                buffered == old(buffered) + [entry] && written == old(written)
    {
      buffered := buffered + [entry];
      if |buffered| >= FLUSH_AT {
        Flush();
      }
    }

    /** Write out the buffered entries and empty the buffer. */
    method Flush()
      requires buffered != [] && written == Terminated(flushed)
      modifies this
      ensures buffered == [] && flushed == old(flushed + buffered)
      ensures written == old(written) + Join(old(buffered)) + "\n"
      ensures written == Terminated(flushed)
    {
      JoinThenNewline(buffered);
      AppendAssoc(written, Join(buffered), "\n");
      TerminatedConcat(flushed, buffered);
      written := written + Join(buffered) + "\n";
      flushed := flushed + buffered;
      buffered := [];
    }

    /** rzcf.py:127-129: write what is left; afterwards every entry is in the file, in order. */
    method Finish()
      requires Valid()
      modifies this
      ensures buffered == [] && flushed == old(Entries())
      ensures written == Terminated(old(Entries()))
    {
      if buffered != [] {
        Flush();
      } else {
        assert flushed + [] == flushed;
      }
    }
  }

  /**
   * What the loop of rzcf.py:74-121 stores for the lines from `lines` on:
   * each line is stripped and parsed (`None` is a line the code fails on,
   * which ends the loop through the outer `try`); a kept comment adds its
   * entry.
   */
  function Selected(lines: seq<string>, parse: string -> Option<Comment>, crit: Criteria,
                    lower: string -> string, dumps: Comment -> string): (entries: seq<string>)
    ensures |entries| <= |lines|
  {
    if lines == [] then []
    else match parse(Strip(lines[0]))
      case None => []
      case Some(c) =>
        (if Keep(c, crit, lower) then [Entry(c, crit, dumps)] else [])
        + Selected(lines[1..], parse, crit, lower, dumps)
  }

  /**
   * rzcf.py:72-129 over the lines read: the output file ends up holding the
   * entry of every kept comment, in order, each followed by "\n"; the count
   * is the number of those entries and `found` says whether there was one.
   */
  method FilterComments(lines: seq<string>, parse: string -> Option<Comment>, crit: Criteria,
                        lower: string -> string, dumps: Comment -> string)
    returns (output: string, count: nat, found: bool)
    ensures output == Terminated(Selected(lines, parse, crit, lower, dumps))
    ensures count == |Selected(lines, parse, crit, lower, dumps)|
    ensures found <==> count > 0
  {
    var out := new OutputBuffer();
    count := 0;
    found := false;
    var i := 0;
    while i < |lines|
      invariant 0 <= i <= |lines|
      invariant out.Valid()
      invariant out.Entries() + Selected(lines[i..], parse, crit, lower, dumps)
                == Selected(lines, parse, crit, lower, dumps)
      invariant count == |out.Entries()|
      invariant found <==> count > 0
    {
      SelectedStep(lines, i, parse, crit, lower, dumps);
      var record := parse(Strip(lines[i]));
      if record.None? {
        break;
      }
      var c := record.value;
      if Keep(c, crit, lower) {
        var entry := Entry(c, crit, dumps);
        AppendAssoc(out.Entries(), [entry], Selected(lines[i + 1..], parse, crit, lower, dumps));
        out.Add(entry);
        count := count + 1;
        found := true;
      } else {
        assert [] + Selected(lines[i + 1..], parse, crit, lower, dumps) == Selected(lines[i + 1..], parse, crit, lower, dumps);
      }
      i := i + 1;
    }
    assert out.Entries() + [] == out.Entries();
    out.Finish();
    output := out.written;
  }

  /**
   * rzcf.py:72-129 over an archive: the loop consumes the lines
   * read_lines_zst yields with the shipped configuration. A decoding error
   * raised after at least one line leaves the loop through the same outer
   * `try` as the end of the stream does, and the buffer is still written, so
   * the error changes nothing in the file. One raised before the first line
   * makes the handler itself fail (`line` is unbound at rzcf.py:124), so no
   * file is written, and nothing was selected either.
   */
  method Run(reader: Decoder.Reader, parse: string -> Option<Comment>, crit: Criteria,
             lower: string -> string, dumps: Comment -> string)
    returns (output: string, count: nat, found: bool)
    requires reader.Valid()
    modifies reader
    ensures output == Terminated(Selected(Lines.ReadLinesSpec(old(reader.Remaining()), Decoder.SHIPPED).lines,
                                          parse, crit, lower, dumps))
    ensures count == |Selected(Lines.ReadLinesSpec(old(reader.Remaining()), Decoder.SHIPPED).lines,
                               parse, crit, lower, dumps)|
    ensures found <==> count > 0
  {
    var lines, error := Lines.ReadLines(reader, Decoder.SHIPPED);
    output, count, found := FilterComments(lines, parse, crit, lower, dumps);
  }

  /** One iteration: what the line at `i` contributes, then the lines after it. */
  lemma SelectedStep(lines: seq<string>, i: nat, parse: string -> Option<Comment>, crit: Criteria,
                     lower: string -> string, dumps: Comment -> string)
    requires i < |lines|
    ensures parse(Strip(lines[i])).None? ==> Selected(lines[i..], parse, crit, lower, dumps) == []
    ensures parse(Strip(lines[i])).Some? ==>
              var c := parse(Strip(lines[i])).value;
              Selected(lines[i..], parse, crit, lower, dumps)
              == (if Keep(c, crit, lower) then [Entry(c, crit, dumps)] else [])
                 + Selected(lines[i + 1..], parse, crit, lower, dumps)
  {
    assert lines[i..][0] == lines[i];
    assert lines[i..][1..] == lines[i + 1..];
  }

  /**
   * A line the code fails on ends the loop (rzcf.py:123-124): nothing after it
   * is stored, only what was kept before it.
   */
  lemma {:induction false} FailureEndsLoop(lines: seq<string>, parse: string -> Option<Comment>, crit: Criteria,
                                            lower: string -> string, dumps: Comment -> string, k: nat)
    requires k < |lines| && parse(Strip(lines[k])).None?
    ensures Selected(lines, parse, crit, lower, dumps) == Selected(lines[..k], parse, crit, lower, dumps)
    decreases k
  {
    if k > 0 && parse(Strip(lines[0])).Some? {
      var rest := lines[1..];
      assert rest[k - 1] == lines[k];
      FailureEndsLoop(rest, parse, crit, lower, dumps, k - 1);
      assert lines[..k][1..] == rest[..k - 1];
    }
  }
}

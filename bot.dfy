/**
 * The decision logic of pcpphelperbot.py: whether a post has an
 * identifiable list link, which reader runs on a submission, whether the
 * bot replies, and how the reply message is assembled from the templates.
 * Reddit, the reply database and the HTML link parser are outside the
 * model: a submission arrives as plain values, the links as their
 * `is_anon` flags, and the templates as strings.
 */
module Bot {
  import opened Text
  import opened Tables
  import opened Outcomes
  import MarkdownReader
  import CopyPaste
  import CopyPasteTable

  // ---------------------------------------------------------------------
  // Inputs

  /** What the bot looks at in a submission.  `alreadyReplied` stands for
      the answer the reply database would give for the submission's name;
      it is only consulted when the bot is live. */
  datatype Submission = Submission(
    flair: Option<string>,
    isSelf: bool,
    selftext: string,
    linksAnon: seq<bool>,
    alreadyReplied: bool)

  /** The three message templates read from disk at start-up. */
  datatype Templates = Templates(reply: string, identifiable: string, table: string)

  /** The flairs whose text posts are read; `None` is a post with no flair. */
  const PertinentFlairs: seq<Option<string>> :=
    [Some("Build Complete"), Some("Build Upgrade"), Some("Build Help"), Some("Build Ready"), None]

  const MessagePlaceholder := ":message:"
  const TablePlaceholder := ":table:"
  const PartSeparator := "\n\n"

  // ---------------------------------------------------------------------
  // `has_iden_pcpp_link`

  /** Some list link in the post is not anonymous. */
  predicate AnyIdentifiable(linksAnon: seq<bool>)
  {
    exists i :: 0 <= i < |linksAnon| && !linksAnon[i]
  }

  /** `has_iden_pcpp_link`: walks the links and stops at the first one that
      is not anonymous. */
  method HasIdenPcppLink(linksAnon: seq<bool>) returns (r: bool)
    ensures r <==> AnyIdentifiable(linksAnon)
  {
    var i := 0;
    while i < |linksAnon|
      invariant 0 <= i <= |linksAnon|
      invariant forall j :: 0 <= j < i ==> linksAnon[j]
    {
      if !linksAnon[i] {
        return true;
      }
      i := i + 1;
    }
    return false;
  }

  // ---------------------------------------------------------------------
  // `read_submission`

  /** The flair filter of `read_submission`: a text post with a pertinent flair. */
  predicate IsPertinent(sub: Submission)
  {
    sub.flair in PertinentFlairs && sub.isSelf
  }

  /** `read_submission` as a function.  The local `table` is bound only in
      the branch that reads the post; in the other two branches the final
      `return table` raises, which is `Fail(TableUnassigned)` here. */
  function ReadSubmissionSpec(isLive: bool, sub: Submission, fixDoubleLink: string -> string)
    : Result<Option<TableValue>>
  {
    if isLive && sub.alreadyReplied then Fail(TableUnassigned)
    else if IsPertinent(sub) then
      if MarkdownReader.HasTableMd(sub.selftext) then
        Ok(MarkdownReader.ReadMd(sub.selftext, fixDoubleLink))
      else if CopyPaste.HasCopyPasteTable(sub.selftext) then
        CopyPasteTable.ReadCopyPasteSpec(sub.selftext)
      else Ok(None)
    else Fail(TableUnassigned)
  }

  /** `read_submission`. */
  method ReadSubmission(isLive: bool, sub: Submission, fixDoubleLink: string -> string)
    returns (r: Result<Option<Table>>)
    ensures r.Fail? <==> ReadSubmissionSpec(isLive, sub, fixDoubleLink).Fail?
    ensures r.Fail? ==> r.failure == ReadSubmissionSpec(isLive, sub, fixDoubleLink).failure
    ensures r.Ok? ==> (r.value.Some? <==> ReadSubmissionSpec(isLive, sub, fixDoubleLink).value.Some?)
    ensures r.Ok? && r.value.Some? ==>
      fresh(r.value.value) && r.value.value.Valid() &&
      r.value.value.Value() == ReadSubmissionSpec(isLive, sub, fixDoubleLink).value.value
  {
    if isLive && sub.alreadyReplied {
      return Fail(TableUnassigned);
    } else if IsPertinent(sub) {
      if MarkdownReader.HasTableMd(sub.selftext) {
        var table := MarkdownReader.ReadMdTable(sub.selftext, fixDoubleLink);
        return Ok(table);
      } else if CopyPaste.HasCopyPasteTable(sub.selftext) {
        r := CopyPasteTable.ReadCopyPaste(sub.selftext);
        return r;
      }
      return Ok(None);
    }
    return Fail(TableUnassigned);
  }

  /** The unbound-`table` error comes up exactly in the already-replied
      branch and when the flair filter fails; neither reader raises it. */
  lemma ReadSubmissionUnassigned(isLive: bool, sub: Submission, fixDoubleLink: string -> string)
    ensures ReadSubmissionSpec(isLive, sub, fixDoubleLink) == Fail(TableUnassigned) <==>
      (isLive && sub.alreadyReplied) || !IsPertinent(sub)
  {
    CopyPasteTable.ReadCopyPasteFailures(sub.selftext);
  }

  /** When the markdown reader runs, the copy-paste reader does not: the
      outcome never raises and is the markdown reader's table. */
  lemma MarkdownPostNeverRaises(isLive: bool, sub: Submission, fixDoubleLink: string -> string)
    requires !(isLive && sub.alreadyReplied) && IsPertinent(sub)
    requires MarkdownReader.HasTableMd(sub.selftext)
    ensures ReadSubmissionSpec(isLive, sub, fixDoubleLink).Ok?
    ensures ReadSubmissionSpec(isLive, sub, fixDoubleLink).value.Some? <==>
      MarkdownReader.ReadMd(sub.selftext, fixDoubleLink).Some?
  {
  }

  /** When the markdown reader does not run, the double-link fix (used only
      by it) has no influence on the outcome. */
  lemma OtherPostsIgnoreMarkdownReader(isLive: bool, sub: Submission, f: string -> string, g: string -> string)
    requires !MarkdownReader.HasTableMd(sub.selftext)
    ensures ReadSubmissionSpec(isLive, sub, f) == ReadSubmissionSpec(isLive, sub, g)
  {
  }

  /** A post with neither kind of table yields no table and no error. */
  lemma NoTableTextNoTable(isLive: bool, sub: Submission, fixDoubleLink: string -> string)
    requires !(isLive && sub.alreadyReplied) && IsPertinent(sub)
    requires !MarkdownReader.HasTableMd(sub.selftext) && !CopyPaste.HasCopyPasteTable(sub.selftext)
    ensures ReadSubmissionSpec(isLive, sub, fixDoubleLink) == Ok(None)
  {
  }

  /** Whichever reader ran, a returned table is one worth fixing: it has
      rows and at least one error. */
  lemma ReturnedTableIsBad(isLive: bool, sub: Submission, fixDoubleLink: string -> string)
    requires ReadSubmissionSpec(isLive, sub, fixDoubleLink).Ok?
    requires ReadSubmissionSpec(isLive, sub, fixDoubleLink).value.Some?
    ensures ReadSubmissionSpec(isLive, sub, fixDoubleLink).value.value.ShouldCreate()
  {
    if MarkdownReader.HasTableMd(sub.selftext) {
      MarkdownReader.ReadMdShouldCreate(sub.selftext, fixDoubleLink);
    }
  }

  // ---------------------------------------------------------------------
  // `make_identifiable_markdown` and `_make_table_markdown`

  /** `make_identifiable_markdown`. */
  function MakeIdentifiableMarkdown(template: string, hasIden: bool): (r: string)
    ensures hasIden ==> r == template
    ensures !hasIden ==> r == ""
    ensures |template| > 0 ==> (|r| > 0 <==> hasIden)
  {
    if hasIden then template else ""
  }

  /** `_make_table_markdown`: the table's `create_md` rendering replaces
      every `:table:` of the template. */
  function MakeTableMarkdown(template: string, table: Option<TableValue>): (r: string)
    ensures table.None? ==> r == ""
  {
    if table.Some? then Replace(template, TablePlaceholder, table.value.CreateMd()) else ""
  }

  /** A table template with the placeholder carries the whole rendered table. */
  lemma TableMarkdownCarriesTable(template: string, t: TableValue)
    requires Contains(template, TablePlaceholder)
    ensures Contains(MakeTableMarkdown(template, Some(t)), t.CreateMd())
  {
    ReplaceInserts(template, TablePlaceholder, t.CreateMd());
  }

  /** A table template without the placeholder is used as it stands. */
  lemma TableMarkdownWithoutPlaceholder(template: string, t: TableValue)
    requires !Contains(template, TablePlaceholder)
    ensures MakeTableMarkdown(template, Some(t)) == template
  {
    ReplaceAbsent(template, TablePlaceholder, t.CreateMd());
  }

  // ---------------------------------------------------------------------
  // `_put_message_together`

  /** The non-empty message parts, table part first. */
  function MessageParts(tableMd: string, idenMd: string): seq<string>
  {
    (if |tableMd| != 0 then [tableMd] else []) + (if |idenMd| != 0 then [idenMd] else [])
  }

  /** `_put_message_together` as a function. */
  function MessageSpec(replyTemplate: string, tableMd: string, idenMd: string): string
  {
    var parts := MessageParts(tableMd, idenMd);
    if |parts| != 0 then Replace(replyTemplate, MessagePlaceholder, Join(parts, PartSeparator)) else ""
  }

  /** `_put_message_together`: collects the non-empty parts in a list,
      joins them and fills the reply template. */
  method PutMessageTogether(replyTemplate: string, tableMd: string, idenMd: string)
    returns (replyMessage: string)
    ensures replyMessage == MessageSpec(replyTemplate, tableMd, idenMd)
  {
    replyMessage := "";
    var messageMarkdown: seq<string> := [];
    if |tableMd| != 0 {
      messageMarkdown := messageMarkdown + [tableMd];
    }
    if |idenMd| != 0 {
      messageMarkdown := messageMarkdown + [idenMd];
    }
    if |messageMarkdown| != 0 {
      var joined := Join(messageMarkdown, PartSeparator);
      replyMessage := Replace(replyTemplate, MessagePlaceholder, joined);
    }
  }

  /** The message is empty when both parts are; otherwise the template is
      filled with the table part, a blank line and the identifiable part,
      leaving out whichever of the two is empty. */
  lemma MessageShape(replyTemplate: string, tableMd: string, idenMd: string)
    ensures |tableMd| == 0 && |idenMd| == 0 ==> MessageSpec(replyTemplate, tableMd, idenMd) == ""
    ensures |tableMd| != 0 || |idenMd| != 0 ==>
      MessageSpec(replyTemplate, tableMd, idenMd) ==
        Replace(replyTemplate, MessagePlaceholder,
          if |tableMd| != 0 && |idenMd| != 0 then tableMd + PartSeparator + idenMd else tableMd + idenMd)
  {
    var parts := MessageParts(tableMd, idenMd);
    if |tableMd| != 0 && |idenMd| != 0 {
      assert parts == [tableMd, idenMd];
      assert parts[1..] == [idenMd];
      assert Join(parts, PartSeparator) == tableMd + PartSeparator + Join([idenMd], PartSeparator);
    } else if |tableMd| != 0 {
      assert parts == [tableMd];
      assert tableMd + idenMd == tableMd;
    } else if |idenMd| != 0 {
      assert parts == [idenMd];
      assert tableMd + idenMd == idenMd;
    }
  }

  /** With the placeholder in the reply template, every non-empty part
      reaches the message. */
  lemma MessageCarriesParts(replyTemplate: string, tableMd: string, idenMd: string)
    requires Contains(replyTemplate, MessagePlaceholder)
    ensures Contains(MessageSpec(replyTemplate, tableMd, idenMd), tableMd)
    ensures Contains(MessageSpec(replyTemplate, tableMd, idenMd), idenMd)
  {
    var msg := MessageSpec(replyTemplate, tableMd, idenMd);
    MessageShape(replyTemplate, tableMd, idenMd);
    if |tableMd| == 0 && |idenMd| == 0 {
      ContainsEmpty(msg);
    } else {
      var joined :=
        if |tableMd| != 0 && |idenMd| != 0 then tableMd + PartSeparator + idenMd else tableMd + idenMd;
      ReplaceInserts(replyTemplate, MessagePlaceholder, joined);
      if |tableMd| != 0 && |idenMd| != 0 {
        ContainsInside([], tableMd, PartSeparator + idenMd);
        assert [] + tableMd + (PartSeparator + idenMd) == joined;
        ContainsInside(tableMd + PartSeparator, idenMd, []);
        assert tableMd + PartSeparator + idenMd + [] == joined;
      } else {
        ContainsInside([], tableMd, idenMd);
        assert [] + tableMd + idenMd == joined;
        ContainsInside(tableMd, idenMd, []);
        assert tableMd + idenMd + [] == joined;
      }
      ContainsTrans(msg, joined, tableMd);
      ContainsTrans(msg, joined, idenMd);
    }
  }

  // ---------------------------------------------------------------------
  // `_make_reply` and `handle_submission`

  /** `_make_reply`: both parts, put together. */
  function ReplySpec(templates: Templates, hasIden: bool, table: Option<TableValue>): string
  {
    MessageSpec(templates.reply,
      MakeTableMarkdown(templates.table, table),
      MakeIdentifiableMarkdown(templates.identifiable, hasIden))
  }

  /** `_make_reply`. */
  method MakeReply(templates: Templates, hasIden: bool, table: Option<Table>) returns (msg: string)
    ensures msg == ReplySpec(templates, hasIden, if table.Some? then Some(table.value.Value()) else None)
  {
    var tableMarkdown := MakeTableMarkdown(templates.table,
      if table.Some? then Some(table.value.Value()) else None);
    var idenMarkdown := MakeIdentifiableMarkdown(templates.identifiable, hasIden);
    msg := PutMessageTogether(templates.reply, tableMarkdown, idenMarkdown);
  }

  /** `handle_submission` as a function: the reply message, when the bot
      replies; the read's exception, when it raises. */
  function HandleSubmissionSpec(isLive: bool, templates: Templates, sub: Submission,
                                fixDoubleLink: string -> string): Result<Option<string>>
  {
    var hasIden := AnyIdentifiable(sub.linksAnon);
    match ReadSubmissionSpec(isLive, sub, fixDoubleLink)
    case Fail(f) => Fail(f)
    case Ok(table) =>
      if table.Some? || hasIden then Ok(Some(ReplySpec(templates, hasIden, table))) else Ok(None)
  }

  /** `handle_submission`, with `reply` reduced to building the message. */
  method HandleSubmission(isLive: bool, templates: Templates, sub: Submission,
                          fixDoubleLink: string -> string) returns (r: Result<Option<string>>)
    ensures r == HandleSubmissionSpec(isLive, templates, sub, fixDoubleLink)
  {
    var hasIden := HasIdenPcppLink(sub.linksAnon);
    var table := ReadSubmission(isLive, sub, fixDoubleLink);
    if table.Fail? {
      return Fail(table.failure);
    }
    if table.value.Some? || hasIden {
      var msg := MakeReply(templates, hasIden, table.value);
      return Ok(Some(msg));
    }
    return Ok(None);
  }

  /** The bot replies exactly when a table came back or an identifiable
      link is present, and fails exactly when the read raises. */
  lemma RepliesIff(isLive: bool, templates: Templates, sub: Submission, fixDoubleLink: string -> string)
    ensures HandleSubmissionSpec(isLive, templates, sub, fixDoubleLink).Fail? <==>
      ReadSubmissionSpec(isLive, sub, fixDoubleLink).Fail?
    ensures HandleSubmissionSpec(isLive, templates, sub, fixDoubleLink).Ok? ==>
      (HandleSubmissionSpec(isLive, templates, sub, fixDoubleLink).value.Some? <==>
        ReadSubmissionSpec(isLive, sub, fixDoubleLink).value.Some? || AnyIdentifiable(sub.linksAnon))
  {
  }

  /** Every submission that is already answered or not pertinent ends in
      the unbound-`table` error before any reply is considered. */
  lemma SkippedSubmissionRaises(isLive: bool, templates: Templates, sub: Submission,
                                fixDoubleLink: string -> string)
    requires (isLive && sub.alreadyReplied) || !IsPertinent(sub)
    ensures HandleSubmissionSpec(isLive, templates, sub, fixDoubleLink) == Fail(TableUnassigned)
  {
  }

  /** With both placeholders in their templates, a reply carries the whole
      rendered table that was read and, for an identifiable link, the
      identifiable template. */
  lemma ReplyCarriesTableAndNotice(isLive: bool, templates: Templates, sub: Submission,
                                   fixDoubleLink: string -> string)
    requires Contains(templates.reply, MessagePlaceholder)
    requires Contains(templates.table, TablePlaceholder)
    requires HandleSubmissionSpec(isLive, templates, sub, fixDoubleLink).Ok?
    requires HandleSubmissionSpec(isLive, templates, sub, fixDoubleLink).value.Some?
    ensures var msg := HandleSubmissionSpec(isLive, templates, sub, fixDoubleLink).value.value;
      var table := ReadSubmissionSpec(isLive, sub, fixDoubleLink).value;
      && (table.Some? ==> Contains(msg, table.value.CreateMd()))
      && (AnyIdentifiable(sub.linksAnon) ==> Contains(msg, templates.identifiable))
  {
    var hasIden := AnyIdentifiable(sub.linksAnon);
    var table := ReadSubmissionSpec(isLive, sub, fixDoubleLink).value;
    var tableMd := MakeTableMarkdown(templates.table, table);
    var idenMd := MakeIdentifiableMarkdown(templates.identifiable, hasIden);
    var msg := MessageSpec(templates.reply, tableMd, idenMd);
    MessageCarriesParts(templates.reply, tableMd, idenMd);
    if table.Some? {
      TableMarkdownCarriesTable(templates.table, table.value);
      ContainsTrans(msg, tableMd, table.value.CreateMd());
    }
  }
}

/** `parseCommit`: a primitive commit record classified as a conventional commit, with its
    breaking flag, references, cleaned description and authors. */
module Classify {
  import opened Wrappers
  import opened Seqs
  import opened Text
  import opened Records
  import opened Conventional
  import opened References
  import opened CoAuthors

  /** The structured commit. `scope` is `None` when the subject has no `(scope)` group. */
  datatype Commit = Commit(
    authors: seq<Author>,
    body: string,
    date: Option<string>,
    description: string,
    isBreaking: bool,
    isConventional: bool,
    message: string,
    references: seq<Reference>,
    scope: Option<string>,
    shortHash: string,
    hash: Option<string>,
    commitType: string)

  /** Reading `message.match` on an undefined subject throws. */
  datatype ParseError = MessageUndefined

  /** `match?.groups?.type || ""`. */
  function TypeOf(m: Option<Subject>): string
  {
    if m.Some? && m.value.commitType != "" then m.value.commitType else ""
  }

  /** `match?.groups?.scope`. */
  function ScopeOf(m: Option<Subject>): Option<string>
  {
    if m.Some? then m.value.scope else None
  }

  /** `match?.groups?.description || message`. */
  function RawDescription(m: Option<Subject>, message: string): string
  {
    if m.Some? && m.value.description != "" then m.value.description else message
  }

  /** `Boolean(match?.groups?.breaking || /breaking[ -]changes?:/i.test(body))`. */
  function IsBreaking(m: Option<Subject>, body: string): bool
  {
    (m.Some? && m.value.breaking) || BreakingFooter(body)
  }

  /** `parseCommit`. It fails exactly when the record has no subject; otherwise the hashes,
      the subject, the body and the date are carried over unchanged. The references and the
      authors are the results of `extractReferences` and `extractAuthors`. */
  function ParseCommit(raw: RawCommit): (r: Result<Commit, ParseError>)
    ensures r.Failure? <==> raw.message.None?
    ensures r.Success? ==>
      && r.value.shortHash == raw.shortHash && r.value.hash == raw.hash
      && r.value.message == raw.message.value && r.value.body == raw.body
      && r.value.date == raw.date
  {
    match raw.message
    case None => Failure(MessageUndefined)
    case Some(message) =>
      var m := MatchSubject(message);
      var rawDescription := RawDescription(m, message);
      Success(Commit(
        AuthorsOf(raw.body, raw.author),
        raw.body,
        raw.date,
        Trim(RemovePullRequests(rawDescription, 0)),
        IsBreaking(m, raw.body),
        m.Some?,
        message,
        Passes(rawDescription, raw.body),
        ScopeOf(m),
        raw.shortHash,
        raw.hash,
        TypeOf(m)))
  }

  /** A commit is conventional exactly when the subject pattern matches somewhere in the
      subject; its type and scope are then the groups of the reported match, and the type is
      a non-empty run of letters. */
  lemma ConventionalCommit(raw: RawCommit)
    requires raw.message.Some?
    ensures var c := ParseCommit(raw).value;
      && (c.isConventional <==> exists q :: ValidParse(raw.message.value, q))
      && (c.isConventional ==>
            && c.commitType == MatchSubject(raw.message.value).value.commitType
            && c.scope == MatchSubject(raw.message.value).value.scope
            && |c.commitType| > 0
            && forall i :: 0 <= i < |c.commitType| ==> IsAsciiLetter(c.commitType[i]))
  {
  }

  /** A subject that the pattern does not match: no type, no scope, and the description is
      the whole subject without its pull-request markers; only the body can make it
      breaking. */
  lemma NonConventionalCommit(raw: RawCommit)
    requires raw.message.Some? && forall q :: !ValidParse(raw.message.value, q)
    ensures var c := ParseCommit(raw).value;
      && !c.isConventional && c.commitType == "" && c.scope == None
      && c.description == Trim(RemovePullRequests(raw.message.value, 0))
      && (c.isBreaking <==> HasBreakingFooter(raw.body))
  {
  }

  /** A commit is breaking exactly when its subject carries `!` before the colon or its body
      contains a breaking-change footer. */
  lemma BreakingCommit(raw: RawCommit)
    requires raw.message.Some?
    ensures var c := ParseCommit(raw).value;
      var m := MatchSubject(raw.message.value);
      c.isBreaking <==> (m.Some? && m.value.breaking) || HasBreakingFooter(raw.body)
  {
  }

  /** The references of a commit are the distinct markers of its raw description (the matched
      description, or the whole subject) and of its body, in order of first occurrence, each
      typed `pull-request` exactly when a pull-request marker carries it; the description is
      the raw description with its pull-request markers deleted, trimmed. */
  lemma CommitReferences(raw: RawCommit)
    requires raw.message.Some?
    ensures var c := ParseCommit(raw).value;
      var d := RawDescription(MatchSubject(raw.message.value), raw.message.value);
      && c.references
         == Typed(Dedup(AllCaptures(d, raw.body)), PullRequestCaptures(d, raw.body))
      && NoDuplicates(Keys(c.references))
      && (forall k :: 0 <= k < |c.references| ==> IsRefValue(c.references[k].value))
      && c.description == Trim(RemovePullRequests(d, 0))
  {
    var d := RawDescription(MatchSubject(raw.message.value), raw.message.value);
    PassesTyped(d, raw.body);
    PassesValues(d, raw.body);
  }

  /** The authors of a commit: the primary author first, then one trimmed, one-line name and
      e-mail per co-author trailer of the body, in body order. */
  lemma CommitAuthors(raw: RawCommit)
    requires raw.message.Some?
    ensures var c := ParseCommit(raw).value;
      && |c.authors| == 1 + |CoScan(raw.body)| && c.authors[0] == raw.author
      && (forall k :: 0 < k < |c.authors| ==>
           c.authors[k] == CoAuthor(raw.body, CoScan(raw.body)[k - 1]))
      && forall k :: 0 < k < |c.authors| ==>
           && c.authors[k].name.Some? && c.authors[k].email.Some?
           && Trim(c.authors[k].name.value) == c.authors[k].name.value
           && Trim(c.authors[k].email.value) == c.authors[k].email.value
  {
    var c := ParseCommit(raw).value;
    forall k | 0 < k < |c.authors|
      ensures c.authors[k].name.Some? && c.authors[k].email.Some?
      ensures Trim(c.authors[k].name.value) == c.authors[k].name.value
      ensures Trim(c.authors[k].email.value) == c.authors[k].email.value
    {
      AuthorsShape(raw.body, raw.author, k);
    }
  }

  /** A subject written as `type(scope)!: description` is classified by its own parts. */
  lemma FormattedCommit(raw: RawCommit, t: string, scope: Option<string>, bang: bool, d: string)
    requires Formattable(t, scope, d)
    requires raw.message == Some(FormatSubject(t, scope, bang, d))
    ensures var c := ParseCommit(raw).value;
      && c.isConventional && c.commitType == t && c.scope == scope
      && (c.isBreaking <==> bang || HasBreakingFooter(raw.body))
      && c.description == Trim(RemovePullRequests(d, 0))
  {
    FormatSubjectRoundTrip(t, scope, bang, d);
  }

  /** End to end: a history record in the layout `%h|%H|%s|%an|%ae|%ad|%b` whose subject is
      written as `type(scope)!: description` is parsed into a conventional commit with those
      parts, that primary author and those hashes, date and body. */
  lemma RecordClassified(shortHash: string, hash: string, t: string, scope: Option<string>,
                         bang: bool, d: string, name: string, email: string, date: string,
                         body: string)
    requires Formattable(t, scope, d)
    requires DelimiterFree(shortHash) && DelimiterFree(hash) && DelimiterFree(FormatSubject(t, scope, bang, d))
    requires DelimiterFree(name) && DelimiterFree(email) && DelimiterFree(date) && DelimiterFree(body)
    ensures
      var r := ParseCommit(ParseRawCommit(
        FormatRecord(shortHash, hash, FormatSubject(t, scope, bang, d), name, email, date, body)));
      && r.Success?
      && r.value.shortHash == shortHash && r.value.hash == Some(hash) && r.value.date == Some(date)
      && r.value.body == body && r.value.authors[0] == Author(Some(name), Some(email))
      && r.value.isConventional && r.value.commitType == t && r.value.scope == scope
      && (r.value.isBreaking <==> bang || HasBreakingFooter(body))
  {
    var subject := FormatSubject(t, scope, bang, d);
    FormatParseRoundTrip(shortHash, hash, subject, name, email, date, body);
    var raw := ParseRawCommit(FormatRecord(shortHash, hash, subject, name, email, date, body));
    FormattedCommit(raw, t, scope, bang, d);
    CommitAuthors(raw);
  }

  /** A scoped subject closed by a pull-request marker, with an empty body: conventional, not
      breaking, the marker deleted from the description and recorded as the one reference. */
  lemma ScopedCommit(raw: RawCommit)
    requires raw.message == Some("feat(ui): add button (#42)") && raw.body == ""
    ensures var c := ParseCommit(raw).value;
      && c.isConventional && c.commitType == "feat" && c.scope == Some("ui") && !c.isBreaking
      && c.description == "add button" && c.references == [Reference(PullRequest, "#42")]
  {
    ScopedSubject();
    TrailingPullRequest("add button (#42)");
  }

  /** A body with two co-author trailers: three authors, the primary one first and then the
      co-authors in body order. */
  lemma CoAuthoredCommit(raw: RawCommit, n1: string, e1: string, n2: string, e2: string)
    requires raw.message.Some? && Writable(n1, e1) && Writable(n2, e2)
    requires raw.body == TrailerLine(n1, e1) + "\n" + TrailerLine(n2, e2)
    ensures ParseCommit(raw).value.authors
         == [raw.author, Author(Some(n1), Some(e1)), Author(Some(n2), Some(e2))]
  {
    TwoTrailers(raw.author, n1, e1, n2, e2);
  }
}

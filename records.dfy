/** The record splitter: one `|`-delimited history record into its positional fields. */
module Records {
  import opened Wrappers
  import opened Text

  /** `{ name, email }`; a field is `None` when the record was too short to supply it. */
  datatype Author = Author(name: Option<string>, email: Option<string>)

  /** The primitive commit record. Missing trailing segments leave `undefined` fields. */
  datatype RawCommit = RawCommit(
    shortHash: string,
    hash: Option<string>,
    message: Option<string>,
    author: Author,
    date: Option<string>,
    body: string)

  /** The field delimiter of the record. */
  const Delimiter: char := '|'

  /** Number of leading positional fields before the body. */
  const LeadingFields: nat := 6

  /** Destructuring position `i` of the segments: `undefined` past the end. */
  function Segment(segments: seq<string>, i: nat): Option<string>
  {
    if i < |segments| then Some(segments[i]) else None
  }

  /** The body: the segments after the leading six, empty ones dropped, joined with newlines. */
  function BodyOf(segments: seq<string>): string
  {
    Join(DropEmpty(if |segments| > LeadingFields then segments[LeadingFields..] else []), '\n')
  }

  /** `parseRawCommit`. */
  function ParseRawCommit(commit: string): RawCommit
  {
    var segments := Split(commit, Delimiter);
    RawCommit(
      segments[0],
      Segment(segments, 1),
      Segment(segments, 2),
      Author(Segment(segments, 3), Segment(segments, 4)),
      Segment(segments, 5),
      BodyOf(segments))
  }

  /** The record layout `%h|%H|%s|%an|%ae|%ad|%b` that the history source produces. */
  function FormatRecord(shortHash: string, hash: string, subject: string, name: string,
                        email: string, date: string, body: string): string
  {
    Join([shortHash, hash, subject, name, email, date, body], Delimiter)
  }

  predicate DelimiterFree(s: string) { Delimiter !in s }

  /** Joining delimiter-free pieces with a newline gives a delimiter-free string. */
  lemma {:induction false} JoinNewlinesDelimiterFree(parts: seq<string>)
    requires forall i :: 0 <= i < |parts| ==> DelimiterFree(parts[i])
    ensures DelimiterFree(Join(parts, '\n'))
  {
    if |parts| > 1 {
      JoinNewlinesDelimiterFree(parts[1..]);
      var j := Join(parts, '\n');
      assert j == parts[0] + ['\n'] + Join(parts[1..], '\n');
    }
  }

  /** The record is cut at every delimiter: six delimiter-free leading fields followed by
      delimiter-free trailing segments come back as the fields, and the body is the
      non-empty trailing segments joined by newlines. */
  lemma RecordWithTrailingSegments(fields: seq<string>, trailing: seq<string>)
    requires |fields| == LeadingFields
    requires forall i :: 0 <= i < |fields| ==> DelimiterFree(fields[i])
    requires forall i :: 0 <= i < |trailing| ==> DelimiterFree(trailing[i])
    ensures ParseRawCommit(Join(fields + trailing, Delimiter)) ==
      RawCommit(fields[0], Some(fields[1]), Some(fields[2]),
        Author(Some(fields[3]), Some(fields[4])), Some(fields[5]),
        Join(DropEmpty(trailing), '\n'))
  {
    var all := fields + trailing;
    assert forall i :: 0 <= i < |all| ==> Delimiter !in all[i] by {
      forall i | 0 <= i < |all| ensures Delimiter !in all[i] {
        if i < |fields| { assert all[i] == fields[i]; } else { assert all[i] == trailing[i - |fields|]; }
      }
    }
    SplitJoin(all, Delimiter);
    if |all| > LeadingFields {
      assert all[LeadingFields..] == trailing;
    } else {
      assert trailing == [];
    }
  }

  /** Round trip through the history-source layout: delimiter-free fields and body come
      back unchanged, with every field present. */
  lemma FormatParseRoundTrip(shortHash: string, hash: string, subject: string, name: string,
                             email: string, date: string, body: string)
    requires DelimiterFree(shortHash) && DelimiterFree(hash) && DelimiterFree(subject)
    requires DelimiterFree(name) && DelimiterFree(email) && DelimiterFree(date)
    requires DelimiterFree(body)
    ensures ParseRawCommit(FormatRecord(shortHash, hash, subject, name, email, date, body)) ==
      RawCommit(shortHash, Some(hash), Some(subject), Author(Some(name), Some(email)),
        Some(date), body)
  {
    var fields := [shortHash, hash, subject, name, email, date];
    assert [shortHash, hash, subject, name, email, date, body] == fields + [body];
    RecordWithTrailingSegments(fields, [body]);
    if body == "" {
      assert DropEmpty([body]) == [];
    } else {
      assert DropEmpty([body]) == [body];
    }
  }

  /** Field `i` (1 <= i <= 5) is defined exactly when the record holds at least `i`
      delimiters; with fewer than six delimiters the body is empty. */
  lemma MissingFields(commit: string)
    ensures var r := ParseRawCommit(commit); var n := Count(commit, Delimiter);
      && (r.hash.Some? <==> n >= 1)
      && (r.message.Some? <==> n >= 2)
      && (r.author.name.Some? <==> n >= 3)
      && (r.author.email.Some? <==> n >= 4)
      && (r.date.Some? <==> n >= 5)
      && (n < LeadingFields ==> r.body == "")
  {
    SplitLength(commit, Delimiter);
  }

  /** No delimiter survives in the body: embedded delimiters become line breaks. */
  lemma BodyDelimiterFree(commit: string)
    ensures DelimiterFree(ParseRawCommit(commit).body)
  {
    var segments := Split(commit, Delimiter);
    var rest := if |segments| > LeadingFields then segments[LeadingFields..] else [];
    var kept := DropEmpty(rest);
    assert forall i :: 0 <= i < |kept| ==> DelimiterFree(kept[i]) by {
      forall i | 0 <= i < |kept| ensures DelimiterFree(kept[i]) {
        assert kept[i] in rest;
      }
    }
    JoinNewlinesDelimiterFree(kept);
  }
}

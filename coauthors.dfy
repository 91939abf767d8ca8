/** The co-author trailers of a commit body: every match of
    `co-authored-by:\s*(?<name>.+)(<(?<email>.+)>)` with the flags `g` and `i`, in the order
    `matchAll` reports them. Each quantifier is greedy and the engine backtracks, so at a
    given start the match with the most white space, then the longest name, then the longest
    e-mail wins. */
module CoAuthors {
  import opened Wrappers
  import opened Text
  import opened Records

  /** The literal that opens a trailer, compared without regard to ASCII case. */
  const Keyword: string := "co-authored-by:"

  /** One way the pattern can match: where it starts, where the name group starts, the
      position of `<` and the position of `>`. The match ends just after `>`. */
  datatype CoMatch = CoMatch(start: nat, nameStart: nat, lt: nat, gt: nat)

  /** The part of a match up to and including `<`. */
  predicate CoHead(s: string, c: CoMatch)
  {
    && c.start + |Keyword| <= c.nameStart < c.lt < |s|
    && FoldedAt(s, c.start, Keyword)
    && AllIn(s, c.start + |Keyword|, c.nameStart, Whitespace)
    && AllIn(s, c.nameStart, c.lt, AnyButTerminator)
    && s[c.lt] == '<'
  }

  /** `c` is a match of the trailer pattern in `s` (declarative: any start, any choice). */
  predicate ValidCo(s: string, c: CoMatch)
  {
    && CoHead(s, c)
    && c.lt + 1 < c.gt < |s|
    && AllIn(s, c.lt + 1, c.gt, AnyButTerminator)
    && s[c.gt] == '>'
  }

  /** The order in which the engine tries matches: an earlier start, then more white space,
      then a longer name, then a longer e-mail. */
  predicate CoBefore(p: CoMatch, q: CoMatch)
  {
    if p.start != q.start then p.start < q.start
    else if p.nameStart != q.nameStart then p.nameStart > q.nameStart
    else if p.lt != q.lt then p.lt > q.lt
    else p.gt > q.gt
  }

  // ---------------------------------------------------------------------------
  // The backtracking matcher
  // ---------------------------------------------------------------------------

  /** `(?<email>.+)>`: the closing `>` tried at `g`, `g - 1`, … */
  function TryEmail(s: string, c: CoMatch, g: int): (r: Option<CoMatch>)
    requires c.lt < |s| && g <= LineEnd(s, c.lt + 1)
    ensures r.Some? ==> r.value == c.(gt := r.value.gt) && c.lt + 1 < r.value.gt <= g
    ensures r.Some? ==> r.value.gt < |s|
    decreases g
  {
    if g < c.lt + 2 then None
    else if g < |s| && s[g] == '>' then Some(c.(gt := g))
    else TryEmail(s, c, g - 1)
  }

  /** `(?<name>.+)<`: the `<` tried at `l`, `l - 1`, …, each followed by the e-mail search. */
  function TryName(s: string, start: nat, ns: nat, l: int): (r: Option<CoMatch>)
    requires ns <= |s| && l <= LineEnd(s, ns)
    ensures r.Some? ==> r.value.start == start && r.value.nameStart == ns
    ensures r.Some? ==> ns < r.value.lt <= l && r.value.lt + 1 < r.value.gt < |s|
    decreases l
  {
    if l < ns + 1 then None
    else
      var e := if l < |s| && s[l] == '<' then TryEmail(s, CoMatch(start, ns, l, 0), LineEnd(s, l + 1))
               else None;
      if e.Some? then e else TryName(s, start, ns, l - 1)
  }

  /** `\s*`: the name tried from `n`, `n - 1`, … down to just after the keyword. */
  function TryWhitespace(s: string, start: nat, n: int): (r: Option<CoMatch>)
    requires start + |Keyword| <= |s| && n <= Span(s, start + |Keyword|, Whitespace)
    ensures r.Some? ==> r.value.start == start && start + |Keyword| <= r.value.nameStart <= n
    ensures r.Some? ==> r.value.nameStart < r.value.lt && r.value.lt + 1 < r.value.gt < |s|
    decreases n
  {
    if n < start + |Keyword| then None
    else
      var r := TryName(s, start, n, LineEnd(s, n));
      if r.Some? then r else TryWhitespace(s, start, n - 1)
  }

  /** One match attempt at position `p`: the keyword, then the greedy choices with
      backtracking. */
  function CoAt(s: string, p: nat): (r: Option<CoMatch>)
    requires p <= |s|
    ensures r.Some? ==> r.value.start == p && p + |Keyword| <= r.value.nameStart
    ensures r.Some? ==> r.value.nameStart < r.value.lt && r.value.lt + 1 < r.value.gt < |s|
  {
    if FoldedAt(s, p, Keyword) then TryWhitespace(s, p, Span(s, p + |Keyword|, Whitespace))
    else None
  }

  // ---------------------------------------------------------------------------
  // What the matcher reports is a match
  // ---------------------------------------------------------------------------

  lemma {:induction false} TryEmailSound(s: string, c: CoMatch, g: int)
    requires CoHead(s, c) && g <= LineEnd(s, c.lt + 1)
    ensures TryEmail(s, c, g).Some? ==> ValidCo(s, TryEmail(s, c, g).value)
    decreases g
  {
    if g >= c.lt + 2 {
      assert AllIn(s, c.lt + 1, g, AnyButTerminator) by {
        assert AllIn(s, c.lt + 1, LineEnd(s, c.lt + 1), AnyButTerminator);
      }
      TryEmailSound(s, c, g - 1);
    }
  }

  lemma {:induction false} TryNameSound(s: string, start: nat, ns: nat, l: int)
    requires start + |Keyword| <= ns <= |s| && l <= LineEnd(s, ns)
    requires FoldedAt(s, start, Keyword) && AllIn(s, start + |Keyword|, ns, Whitespace)
    ensures TryName(s, start, ns, l).Some? ==> ValidCo(s, TryName(s, start, ns, l).value)
    decreases l
  {
    if l >= ns + 1 {
      if l < |s| && s[l] == '<' {
        assert AllIn(s, ns, l, AnyButTerminator) by {
          assert AllIn(s, ns, LineEnd(s, ns), AnyButTerminator);
        }
        TryEmailSound(s, CoMatch(start, ns, l, 0), LineEnd(s, l + 1));
      }
      TryNameSound(s, start, ns, l - 1);
    }
  }

  lemma {:induction false} TryWhitespaceSound(s: string, start: nat, n: int)
    requires start + |Keyword| <= |s| && n <= Span(s, start + |Keyword|, Whitespace)
    requires FoldedAt(s, start, Keyword)
    ensures TryWhitespace(s, start, n).Some? ==> ValidCo(s, TryWhitespace(s, start, n).value)
    decreases n
  {
    if n >= start + |Keyword| {
      assert AllIn(s, start + |Keyword|, n, Whitespace) by {
        assert AllIn(s, start + |Keyword|, Span(s, start + |Keyword|, Whitespace), Whitespace);
      }
      TryNameSound(s, start, n, LineEnd(s, n));
      TryWhitespaceSound(s, start, n - 1);
    }
  }

  lemma CoAtSound(s: string, p: nat)
    requires p <= |s|
    ensures CoAt(s, p).Some? ==> ValidCo(s, CoAt(s, p).value)
  {
    if FoldedAt(s, p, Keyword) {
      TryWhitespaceSound(s, p, Span(s, p + |Keyword|, Whitespace));
    }
  }

  // ---------------------------------------------------------------------------
  // The matcher finds the match the engine finds
  // ---------------------------------------------------------------------------

  lemma {:induction false} TryEmailBest(s: string, c: CoMatch, g: int, q: CoMatch)
    requires c.lt < |s| && g <= LineEnd(s, c.lt + 1)
    requires ValidCo(s, q) && q == c.(gt := q.gt) && q.gt <= g
    ensures TryEmail(s, c, g).Some?
    ensures TryEmail(s, c, g).value == q || CoBefore(TryEmail(s, c, g).value, q)
    decreases g
  {
    if g > q.gt && !(g < |s| && s[g] == '>') {
      TryEmailBest(s, c, g - 1, q);
    }
  }

  lemma {:induction false} TryNameBest(s: string, start: nat, ns: nat, l: int, q: CoMatch)
    requires ns <= |s| && l <= LineEnd(s, ns)
    requires ValidCo(s, q) && q.start == start && q.nameStart == ns && q.lt <= l
    ensures TryName(s, start, ns, l).Some?
    ensures TryName(s, start, ns, l).value == q || CoBefore(TryName(s, start, ns, l).value, q)
    decreases l
  {
    var e := if l < |s| && s[l] == '<' then TryEmail(s, CoMatch(start, ns, l, 0), LineEnd(s, l + 1))
             else None;
    assert TryName(s, start, ns, l) == if e.Some? then e else TryName(s, start, ns, l - 1);
    if l == q.lt {
      SpanMaximal(s, l + 1, q.gt, AnyButTerminator);
      TryEmailBest(s, CoMatch(start, ns, l, 0), LineEnd(s, l + 1), q);
    } else if e.None? {
      TryNameBest(s, start, ns, l - 1, q);
    }
  }

  lemma {:induction false} TryWhitespaceBest(s: string, start: nat, n: int, q: CoMatch)
    requires start + |Keyword| <= |s| && n <= Span(s, start + |Keyword|, Whitespace)
    requires ValidCo(s, q) && q.start == start && q.nameStart <= n
    ensures TryWhitespace(s, start, n).Some?
    ensures TryWhitespace(s, start, n).value == q || CoBefore(TryWhitespace(s, start, n).value, q)
    decreases n
  {
    var r := TryName(s, start, n, LineEnd(s, n));
    assert TryWhitespace(s, start, n) == if r.Some? then r else TryWhitespace(s, start, n - 1);
    if n == q.nameStart {
      SpanMaximal(s, n, q.lt, AnyButTerminator);
      TryNameBest(s, start, n, LineEnd(s, n), q);
    } else if r.None? {
      TryWhitespaceBest(s, start, n - 1, q);
    }
  }

  lemma CoAtBest(s: string, p: nat, q: CoMatch)
    requires p <= |s| && ValidCo(s, q) && q.start == p
    ensures CoAt(s, p).Some?
    ensures CoAt(s, p).value == q || CoBefore(CoAt(s, p).value, q)
  {
    assert CoHead(s, q);
    var n := Span(s, p + |Keyword|, Whitespace);
    SpanMaximal(s, p + |Keyword|, q.nameStart, Whitespace);
    TryWhitespaceBest(s, p, n, q);
    assert CoAt(s, p) == TryWhitespace(s, p, n);
  }

  /** An attempt at `p` succeeds exactly when the pattern can match at `p`, and then it
      yields the match every other match at `p` comes after. */
  lemma CoAtSpec(s: string, p: nat)
    requires p <= |s|
    ensures CoAt(s, p).Some? <==> exists q :: ValidCo(s, q) && q.start == p
    ensures CoAt(s, p).Some? ==> ValidCo(s, CoAt(s, p).value)
    ensures CoAt(s, p).Some? ==> forall q :: ValidCo(s, q) && q.start == p ==>
              q == CoAt(s, p).value || CoBefore(CoAt(s, p).value, q)
  {
    CoAtSound(s, p);
    forall q | ValidCo(s, q) && q.start == p
      ensures CoAt(s, p).Some? && (q == CoAt(s, p).value || CoBefore(CoAt(s, p).value, q))
    {
      CoAtBest(s, p, q);
    }
  }

  // ---------------------------------------------------------------------------
  // body.matchAll(CoAuthoredByRegex)
  // ---------------------------------------------------------------------------

  // `matchAll` runs the attempt at each position from `lastIndex` on and, after a match,
  // sets `lastIndex` just past its `>`. Stated over the table of attempts, one per position,
  // the scan is independent of how an attempt is made.

  /** An attempt at `p` in a string of length `n` reports a match starting at `p` and ending
      inside the string. */
  predicate Shaped(c: CoMatch, p: nat, n: nat)
  {
    c.start == p && p < c.nameStart < c.lt && c.lt + 1 < c.gt < n
  }

  predicate AttemptsOk(ats: seq<Option<CoMatch>>)
  {
    forall p :: 0 <= p < |ats| && ats[p].Some? ==> Shaped(ats[p].value, p, |ats|)
  }

  /** The attempt at every position of `s`. */
  function Attempts(s: string): (ats: seq<Option<CoMatch>>)
    ensures |ats| == |s| && AttemptsOk(ats)
  {
    seq(|s|, p requires 0 <= p < |s| => CoAt(s, p))
  }

  /** The matches from position `i`: the first attempt that succeeds, then the matches from
      just after its `>`. */
  function MatchAll(ats: seq<Option<CoMatch>>, i: nat): (cs: seq<CoMatch>)
    requires AttemptsOk(ats) && i <= |ats|
    ensures forall k :: 0 <= k < |cs| ==> i <= cs[k].start && Shaped(cs[k], cs[k].start, |ats|)
    decreases |ats| - i
  {
    if i == |ats| then []
    else match ats[i]
      case Some(c) => [c] + MatchAll(ats, c.gt + 1)
      case None => MatchAll(ats, i + 1)
  }

  /** Each reported match is the attempt at its start. */
  lemma {:induction false} MatchAllSound(ats: seq<Option<CoMatch>>, i: nat, k: nat)
    requires AttemptsOk(ats) && i <= |ats| && k < |MatchAll(ats, i)|
    ensures ats[MatchAll(ats, i)[k].start] == Some(MatchAll(ats, i)[k])
    decreases |ats| - i
  {
    match ats[i]
    case Some(c) =>
      if k > 0 {
        MatchAllSound(ats, c.gt + 1, k - 1);
      }
    case None =>
      MatchAllSound(ats, i + 1, k);
  }

  /** The matches are reported left to right and do not overlap. */
  lemma {:induction false} MatchAllOrdered(ats: seq<Option<CoMatch>>, i: nat, k: nat, m: nat)
    requires AttemptsOk(ats) && i <= |ats| && k < m < |MatchAll(ats, i)|
    ensures MatchAll(ats, i)[k].gt < MatchAll(ats, i)[m].start
    decreases |ats| - i
  {
    match ats[i]
    case Some(c) =>
      if k > 0 {
        MatchAllOrdered(ats, c.gt + 1, k - 1, m - 1);
      } else {
        assert MatchAll(ats, i)[m] == MatchAll(ats, c.gt + 1)[m - 1];
      }
    case None =>
      MatchAllOrdered(ats, i + 1, k, m);
  }

  /** Every position from `i` on where an attempt succeeds is the start of a reported match
      or lies inside an earlier one: `matchAll` misses nothing outside what it reports. */
  lemma {:induction false} MatchAllComplete(ats: seq<Option<CoMatch>>, i: nat, p: nat) returns (k: nat)
    requires AttemptsOk(ats) && i <= p < |ats| && ats[p].Some?
    ensures k < |MatchAll(ats, i)| && MatchAll(ats, i)[k].start <= p <= MatchAll(ats, i)[k].gt
    decreases p - i
  {
    match ats[i]
    case Some(c) =>
      if p <= c.gt {
        k := 0;
      } else {
        var k' := MatchAllComplete(ats, c.gt + 1, p);
        k := k' + 1;
      }
    case None =>
      k := MatchAllComplete(ats, i + 1, p);
  }

  /** `body.matchAll(CoAuthoredByRegex)`. */
  function CoScan(s: string): (cs: seq<CoMatch>)
    ensures forall k :: 0 <= k < |cs| ==> Shaped(cs[k], cs[k].start, |s|)
  {
    MatchAll(Attempts(s), 0)
  }

  /** Each trailer `matchAll` reports is the engine's match at its start: a match of the
      pattern, and the first in the engine's order among the matches there. */
  lemma CoScanSound(s: string, k: nat)
    requires k < |CoScan(s)|
    ensures CoAt(s, CoScan(s)[k].start) == Some(CoScan(s)[k])
    ensures ValidCo(s, CoScan(s)[k])
  {
    MatchAllSound(Attempts(s), 0, k);
    CoAtSound(s, CoScan(s)[k].start);
  }

  /** Wherever a trailer can match, `matchAll` reports a match that starts there or one that
      covers that position. */
  lemma CoScanComplete(s: string, q: CoMatch) returns (k: nat)
    requires ValidCo(s, q)
    ensures k < |CoScan(s)| && CoScan(s)[k].start <= q.start <= CoScan(s)[k].gt
  {
    CoAtBest(s, q.start, q);
    assert Attempts(s)[q.start] == CoAt(s, q.start);
    k := MatchAllComplete(Attempts(s), 0, q.start);
  }

  // ---------------------------------------------------------------------------
  // extractAuthors
  // ---------------------------------------------------------------------------

  /** `{ name: groups.name.trim(), email: groups.email.trim() }`; both groups are present
      and non-empty in a match, so the `|| ""` fallbacks never apply. */
  function CoAuthor(s: string, c: CoMatch): Author
    requires c.nameStart <= c.lt < c.gt <= |s|
  {
    Author(Some(Trim(s[c.nameStart..c.lt])), Some(Trim(s[c.lt + 1..c.gt])))
  }

  /** The primary author, then one author per trailer, in the order of the trailers. */
  function AuthorsOf(body: string, primary: Author): seq<Author>
  {
    var cs := CoScan(body);
    [primary] + seq(|cs|, k requires 0 <= k < |cs| => CoAuthor(body, cs[k]))
  }

  /** `extractAuthors`: the loop over `body.matchAll(CoAuthoredByRegex)`. */
  method ExtractAuthors(body: string, primary: Author) returns (authors: seq<Author>)
    ensures authors == AuthorsOf(body, primary)
  {
    var cs := CoScan(body);
    authors := [primary];
    for k := 0 to |cs|
      invariant |authors| == k + 1 && authors[0] == primary
      invariant forall j :: 0 < j <= k ==> authors[j] == CoAuthor(body, cs[j - 1])
    {
      var c := cs[k];
      authors := authors + [Author(Some(Trim(body[c.nameStart..c.lt])), Some(Trim(body[c.lt + 1..c.gt])))];
    }
    forall j | 0 < j < |authors| ensures authors[j] == AuthorsOf(body, primary)[j] {
      AuthorsOfAt(body, primary, j);
    }
  }

  /** The authors after the first are the trailers' names and e-mails: both present, free of
      surrounding white space and on one line. */
  lemma AuthorsShape(body: string, primary: Author, k: nat)
    requires 0 < k < |AuthorsOf(body, primary)|
    ensures var a := AuthorsOf(body, primary)[k];
      && a.name.Some? && a.email.Some?
      && Trim(a.name.value) == a.name.value && Trim(a.email.value) == a.email.value
      && (forall i :: 0 <= i < |a.name.value| ==> !IsLineTerminator(a.name.value[i]))
      && (forall i :: 0 <= i < |a.email.value| ==> !IsLineTerminator(a.email.value[i]))
  {
    AuthorsOfAt(body, primary, k);
    CoScanSound(body, k - 1);
    CoAuthorShape(body, CoScan(body)[k - 1]);
  }

  lemma AuthorsOfAt(body: string, primary: Author, k: nat)
    requires 0 < k < |AuthorsOf(body, primary)|
    ensures k - 1 < |CoScan(body)| && AuthorsOf(body, primary)[k] == CoAuthor(body, CoScan(body)[k - 1])
  {
  }

  /** The author read from one trailer. */
  lemma CoAuthorShape(s: string, c: CoMatch)
    requires ValidCo(s, c)
    ensures var a := CoAuthor(s, c);
      && a.name.Some? && a.email.Some?
      && Trim(a.name.value) == a.name.value && Trim(a.email.value) == a.email.value
      && (forall i :: 0 <= i < |a.name.value| ==> !IsLineTerminator(a.name.value[i]))
      && (forall i :: 0 <= i < |a.email.value| ==> !IsLineTerminator(a.email.value[i]))
  {
    OneLineSlice(s, c.nameStart, c.lt);
    OneLineSlice(s, c.lt + 1, c.gt);
    TrimmedLine(s[c.nameStart..c.lt]);
    TrimmedLine(s[c.lt + 1..c.gt]);
  }

  lemma OneLineSlice(s: string, a: nat, b: nat)
    requires a <= b <= |s| && AllIn(s, a, b, AnyButTerminator)
    ensures forall i :: 0 <= i < |s[a..b]| ==> !IsLineTerminator(s[a..b][i])
  {
    forall i | 0 <= i < |s[a..b]| ensures !IsLineTerminator(s[a..b][i]) {
      assert InClass(s[a + i], AnyButTerminator);
    }
  }

  /** Trimming a one-line string gives a trimmed one-line string. */
  lemma TrimmedLine(x: string)
    requires forall i :: 0 <= i < |x| ==> !IsLineTerminator(x[i])
    ensures Trim(Trim(x)) == Trim(x)
    ensures forall i :: 0 <= i < |Trim(x)| ==> !IsLineTerminator(Trim(x)[i])
  {
    TrimIdempotent(x);
    TrimSpec(x);
    var a: nat, b: nat :| a <= b <= |x| && Trim(x) == x[a..b] && AllIn(x, 0, a, Whitespace)
      && AllIn(x, b, |x|, Whitespace)
      && (Trim(x) != [] ==> !IsWhitespace(Trim(x)[0]) && !IsWhitespace(Trim(x)[|Trim(x)| - 1]));
    forall i | 0 <= i < |Trim(x)| ensures !IsLineTerminator(Trim(x)[i]) {
      assert Trim(x)[i] == x[a + i];
    }
  }


  // ---------------------------------------------------------------------------
  // Writing a trailer and reading it back
  // ---------------------------------------------------------------------------

  /** The trailer line `Co-authored-by: name <email>`. */
  function TrailerLine(name: string, email: string): string
  {
    "Co-authored-by: " + name + " <" + email + ">"
  }

  /** A name and an e-mail that come back unchanged: each non-empty, on one line and without
      white space at either end, and an e-mail without angle brackets. */
  predicate Writable(name: string, email: string)
  {
    && |name| > 0 && |email| > 0
    && (forall i :: 0 <= i < |name| ==> !IsLineTerminator(name[i]))
    && (forall i :: 0 <= i < |email| ==> !IsLineTerminator(email[i]) && email[i] != '<' && email[i] != '>')
    && !IsWhitespace(name[0]) && !IsWhitespace(name[|name| - 1])
    && !IsWhitespace(email[0]) && !IsWhitespace(email[|email| - 1])
  }

  /** Where the pieces of a trailer line land. */
  lemma TrailerLayout(name: string, email: string)
    ensures var s := TrailerLine(name, email);
      var l := |Keyword| + 1 + |name| + 1;
      && |s| == l + |email| + 2
      && FoldedAt(s, 0, Keyword) && s[|Keyword|] == ' '
      && (forall i :: 0 <= i < |name| ==> s[|Keyword| + 1 + i] == name[i])
      && s[l - 1] == ' ' && s[l] == '<'
      && (forall i :: 0 <= i < |email| ==> s[l + 1 + i] == email[i])
      && s[|s| - 1] == '>'
  {
    var s := TrailerLine(name, email);
    var u := "Co-authored-by: " + name;
    var v := u + " <";
    var w := v + email;
    assert s == w + ">";
    assert forall i :: 0 <= i < |name| ==> u[16 + i] == name[i];
    assert forall i :: 0 <= i < |email| ==> w[|v| + i] == email[i];
    assert FoldedAt(s, 0, Keyword) by {
      assert forall k :: 0 <= k < 16 ==> s[k] == "Co-authored-by: "[k];
    }
  }

  /** The match of a trailer line: no white space beyond the blank, the `<` before the
      e-mail and the final `>`. */
  function TrailerMatch(name: string, email: string): CoMatch
  {
    var l := |Keyword| + 1 + |name| + 1;
    CoMatch(0, |Keyword| + 1, l, l + |email| + 1)
  }

  /** The trailer's match is a match. */
  lemma TrailerMatchValid(name: string, email: string)
    requires Writable(name, email)
    ensures ValidCo(TrailerLine(name, email), TrailerMatch(name, email))
  {
    var s := TrailerLine(name, email);
    var c := TrailerMatch(name, email);
    TrailerLayout(name, email);
    forall i | c.nameStart <= i < c.lt ensures InClass(s[i], AnyButTerminator) {
      if i < c.lt - 1 {
        assert s[|Keyword| + 1 + (i - |Keyword| - 1)] == name[i - |Keyword| - 1];
      }
    }
    forall i | c.lt + 1 <= i < c.gt ensures InClass(s[i], AnyButTerminator) {
      assert s[c.lt + 1 + (i - c.lt - 1)] == email[i - c.lt - 1];
    }
  }

  /** Every match at the start of a trailer line comes after the trailer's match in the
      engine's order. */
  lemma TrailerMatchIsBest(name: string, email: string, q: CoMatch)
    requires Writable(name, email)
    requires ValidCo(TrailerLine(name, email), q) && q.start == 0
    ensures !CoBefore(q, TrailerMatch(name, email))
  {
    var s := TrailerLine(name, email);
    var c := TrailerMatch(name, email);
    TrailerLayout(name, email);
    // `\s*` stops at the first character of the name
    assert !InClass(s[c.nameStart], Whitespace) by {
      assert s[|Keyword| + 1 + 0] == name[0];
    }
    SpanUnique(s, |Keyword|, c.nameStart, Whitespace);
    SpanMaximal(s, |Keyword|, q.nameStart, Whitespace);
    // no `<` after the one before the e-mail
    forall i | c.lt < i < |s| ensures s[i] != '<' {
      if i < c.gt {
        assert s[c.lt + 1 + (i - c.lt - 1)] == email[i - c.lt - 1];
      }
    }
  }

  /** The attempt at the start of a trailer line finds the trailer's match. */
  lemma TrailerAttempt(name: string, email: string)
    requires Writable(name, email)
    ensures CoAt(TrailerLine(name, email), 0) == Some(TrailerMatch(name, email))
  {
    var s := TrailerLine(name, email);
    var c := TrailerMatch(name, email);
    TrailerMatchValid(name, email);
    CoAtSpec(s, 0);
    TrailerMatchIsBest(name, email, CoAt(s, 0).value);
  }

  /** `matchAll` finds exactly the trailer's match in a trailer line. */
  lemma TrailerScan(name: string, email: string)
    requires Writable(name, email)
    ensures CoScan(TrailerLine(name, email)) == [TrailerMatch(name, email)]
  {
    var s := TrailerLine(name, email);
    var c := TrailerMatch(name, email);
    TrailerLayout(name, email);
    TrailerAttempt(name, email);
    var ats := Attempts(s);
    assert ats[0] == Some(c);
    assert MatchAll(ats, 0) == [c] + MatchAll(ats, |ats|);
  }

  /** The trimmed groups of the trailer's match are the name and the e-mail. */
  lemma TrailerAuthor(name: string, email: string)
    requires Writable(name, email)
    ensures CoAuthor(TrailerLine(name, email), TrailerMatch(name, email)) == Author(Some(name), Some(email))
  {
    var s := TrailerLine(name, email);
    var c := TrailerMatch(name, email);
    var v := "Co-authored-by: " + name + " <";
    assert v == "Co-authored-by: " + (name + " ") + "<";
    MiddleSlice("Co-authored-by: ", name + " ", "<");
    MiddleSlice(v, email, ">");
    PrefixSlice(v, email + ">", c.nameStart, c.lt);
    assert s == v + (email + ">");
    TrimToSlice(name + " ", 0, |name|);
    assert (name + " ")[0..|name|] == name;
    TrimToSlice(email, 0, |email|);
    assert email[0..|email|] == email;
  }

  /** A slice inside the first piece of a concatenation. */
  lemma PrefixSlice(a: string, b: string, i: nat, j: nat)
    requires i <= j <= |a|
    ensures (a + b)[i..j] == a[i..j]
  {
  }

  /** The middle piece of a concatenation. */
  lemma MiddleSlice(a: string, b: string, c: string)
    ensures (a + b + c)[|a|..|a| + |b|] == b
  {
  }

  /** A trailer line comes back as the author it was written from. */
  lemma TrailerRoundTrip(primary: Author, name: string, email: string)
    requires Writable(name, email)
    ensures AuthorsOf(TrailerLine(name, email), primary) == [primary, Author(Some(name), Some(email))]
  {
    TrailerScan(name, email);
    TrailerAuthor(name, email);
  }

  /** A body with two trailer lines: the primary author, then the two co-authors in body
      order. */
  lemma TwoTrailers(primary: Author, n1: string, e1: string, n2: string, e2: string)
    requires Writable(n1, e1) && Writable(n2, e2)
    ensures AuthorsOf(TrailerLine(n1, e1) + "\n" + TrailerLine(n2, e2), primary)
         == [primary, Author(Some(n1), Some(e1)), Author(Some(n2), Some(e2))]
  {
    TwoTrailersScan(n1, e1, n2, e2);
    TrailerAuthor(n1, e1);
    TrailerAuthor(n2, e2);
    TwoLinesAuthors(TrailerLine(n1, e1), TrailerLine(n2, e2), TrailerMatch(n1, e1),
                    TrailerMatch(n2, e2), primary);
  }

  /** Two lines whose matches are `m1` in the first and `m2` in the second give their two
      authors after the primary one. */
  lemma TwoLinesAuthors(t1: string, t2: string, m1: CoMatch, m2: CoMatch, primary: Author)
    requires m1.nameStart <= m1.lt < m1.gt <= |t1| && m2.nameStart <= m2.lt < m2.gt <= |t2|
    requires CoScan((t1 + "\n") + t2) == [m1, Shift(m2, |t1 + "\n"|)]
    ensures AuthorsOf((t1 + "\n") + t2, primary) == [primary, CoAuthor(t1, m1), CoAuthor(t2, m2)]
  {
    var x := t1 + "\n";
    CoAuthorPrefix(t1, "\n" + t2, m1);
    assert t1 + ("\n" + t2) == x + t2;
    CoAuthorShift(x, t2, m2);
    AuthorsOfTwo(x + t2, primary, m1, Shift(m2, |x|));
  }

  /** The authors of a body with two trailer matches. */
  lemma AuthorsOfTwo(s: string, primary: Author, c1: CoMatch, c2: CoMatch)
    requires c1.nameStart <= c1.lt < c1.gt <= |s| && c2.nameStart <= c2.lt < c2.gt <= |s|
    requires CoScan(s) == [c1, c2]
    ensures AuthorsOf(s, primary) == [primary, CoAuthor(s, c1), CoAuthor(s, c2)]
  {
  }

  /** The author of a match is read from the text the match lies in. */
  lemma CoAuthorPrefix(t: string, y: string, m: CoMatch)
    requires m.nameStart <= m.lt < m.gt <= |t|
    ensures CoAuthor(t + y, m) == CoAuthor(t, m)
  {
    var s := t + y;
    assert s[m.nameStart..m.lt] == t[m.nameStart..m.lt];
    assert s[m.lt + 1..m.gt] == t[m.lt + 1..m.gt];
  }

  /** The author of a shifted match is the author of the match. */
  lemma CoAuthorShift(x: string, t: string, m: CoMatch)
    requires m.nameStart <= m.lt < m.gt <= |t|
    ensures CoAuthor(x + t, Shift(m, |x|)) == CoAuthor(t, m)
  {
    var s, c := x + t, Shift(m, |x|);
    assert s[c.nameStart..c.lt] == t[m.nameStart..m.lt];
    assert s[c.lt + 1..c.gt] == t[m.lt + 1..m.gt];
  }

  /** `matchAll` over two trailer lines finds the match of each line. */
  lemma TwoTrailersScan(n1: string, e1: string, n2: string, e2: string)
    requires Writable(n1, e1) && Writable(n2, e2)
    ensures var x := TrailerLine(n1, e1) + "\n";
      CoScan(x + TrailerLine(n2, e2)) == [TrailerMatch(n1, e1), Shift(TrailerMatch(n2, e2), |x|)]
  {
    var t1, t2 := TrailerLine(n1, e1), TrailerLine(n2, e2);
    var x := t1 + "\n";
    var s := x + t2;
    FirstTrailerAttempt(n1, e1, "\n" + t2);
    assert t1 + ("\n" + t2) == s;
    ShiftedAttempt(x, t2, n2, e2);
    assert s[|t1|] == '\n';
    TwoLinesScan(s, |x|, TrailerMatch(n1, e1), Shift(TrailerMatch(n2, e2), |x|));
  }

  /** Two lines, each matched from its start up to its last character. */
  lemma TwoLinesScan(s: string, b: nat, c1: CoMatch, c2: CoMatch)
    requires 0 < b < |s| && IsLineTerminator(s[b - 1])
    requires CoAt(s, 0) == Some(c1) && c1.gt + 2 == b
    requires CoAt(s, b) == Some(c2) && c2.gt + 1 == |s|
    ensures CoScan(s) == [c1, c2]
  {
    NoAttemptAtBreak(s, b - 1);
    var ats := Attempts(s);
    assert ats[0] == Some(c1) && ats[b - 1] == None && ats[b] == Some(c2);
    TwoAttempts(ats, c1, c2, b);
  }

  /** No attempt succeeds at a line break. */
  lemma NoAttemptAtBreak(s: string, i: nat)
    requires i < |s| && IsLineTerminator(s[i])
    ensures CoAt(s, i) == None
  {
    assert LowerChar(s[i + 0]) != Keyword[0];
  }

  /** A match at 0 ending just before a failed attempt, and a match right after it that ends
      the string. */
  lemma TwoAttempts(ats: seq<Option<CoMatch>>, c1: CoMatch, c2: CoMatch, b: nat)
    requires AttemptsOk(ats) && 0 < b < |ats|
    requires ats[0] == Some(c1) && c1.gt + 2 == b && ats[b - 1] == None
    requires ats[b] == Some(c2) && c2.gt + 1 == |ats|
    ensures MatchAll(ats, 0) == [c1, c2]
  {
    assert MatchAll(ats, |ats|) == [];
    assert MatchAll(ats, b) == [c2] + MatchAll(ats, |ats|);
    assert MatchAll(ats, b - 1) == MatchAll(ats, b);
    assert MatchAll(ats, 0) == [c1] + MatchAll(ats, b - 1);
  }

  /** A match moved `d` positions to the right. */
  function Shift(c: CoMatch, d: nat): (r: CoMatch)
    ensures r.start == c.start + d && r.gt == c.gt + d
  {
    CoMatch(c.start + d, c.nameStart + d, c.lt + d, c.gt + d)
  }

  /** A run of class `k` in `t` is a run in `x + t`, `|x|` positions on, and back. */
  lemma AllInShift(x: string, t: string, a: nat, b: nat, k: CharClass)
    requires a <= b <= |t|
    ensures AllIn(t, a, b, k) <==> AllIn(x + t, a + |x|, b + |x|, k)
  {
    var s := x + t;
    assert forall i :: a <= i < b ==> s[i + |x|] == t[i];
    if AllIn(s, a + |x|, b + |x|, k) {
      forall i | a <= i < b ensures InClass(t[i], k) {
        assert InClass(s[i + |x|], k);
      }
    }
  }

  /** The keyword at `p` in `t` is the keyword at `p + |x|` in `x + t`, and back. */
  lemma FoldedShift(x: string, t: string, p: nat)
    ensures FoldedAt(t, p, Keyword) <==> FoldedAt(x + t, p + |x|, Keyword)
  {
    var s := x + t;
    if p + |Keyword| <= |t| {
      assert forall i :: p <= i < p + |Keyword| ==> t[i] == s[i + |x|];
    }
  }

  /** The matches of `x + t` that start in `t` are the matches of `t`, shifted by `|x|`. */
  lemma ShiftValid(x: string, t: string, c: CoMatch)
    ensures ValidCo(t, c) <==> ValidCo(x + t, Shift(c, |x|))
  {
    var s, c' := x + t, Shift(c, |x|);
    if c.start + |Keyword| <= c.nameStart < c.lt < c.lt + 1 < c.gt < |t| {
      ShiftHead(x, t, c);
      AllInShift(x, t, c.lt + 1, c.gt, AnyButTerminator);
      assert s[c'.gt] == t[c.gt];
    }
  }

  /** The same for the part of a match up to `<`. */
  lemma ShiftHead(x: string, t: string, c: CoMatch)
    requires c.start + |Keyword| <= c.nameStart < c.lt < |t|
    ensures CoHead(t, c) <==> CoHead(x + t, Shift(c, |x|))
  {
    var s, c' := x + t, Shift(c, |x|);
    FoldedShift(x, t, c.start);
    AllInShift(x, t, c.start + |Keyword|, c.nameStart, Whitespace);
    AllInShift(x, t, c.nameStart, c.lt, AnyButTerminator);
    assert s[c'.lt] == t[c.lt];
  }

  /** After any text, the attempt at the start of a trailer line finds the trailer's match. */
  lemma ShiftedAttempt(x: string, t: string, name: string, email: string)
    requires Writable(name, email) && t == TrailerLine(name, email)
    ensures CoAt(x + t, |x|) == Some(Shift(TrailerMatch(name, email), |x|))
  {
    var s, d, c := x + t, |x|, TrailerMatch(name, email);
    TrailerMatchValid(name, email);
    ShiftValid(x, t, c);
    CoAtSpec(s, d);
    var r := CoAt(s, d).value;
    var u := CoMatch(r.start - d, r.nameStart - d, r.lt - d, r.gt - d);
    assert Shift(u, d) == r;
    ShiftValid(x, t, u);
    TrailerMatchIsBest(name, email, u);
  }

  /** Before a line break, the attempt at the start of a trailer line finds the trailer's
      match: `.+` cannot run past the line break. */
  lemma FirstTrailerAttempt(name: string, email: string, y: string)
    requires Writable(name, email) && |y| > 0 && IsLineTerminator(y[0])
    ensures CoAt(TrailerLine(name, email) + y, 0) == Some(TrailerMatch(name, email))
  {
    var t, c := TrailerLine(name, email), TrailerMatch(name, email);
    var s := t + y;
    TrailerLayout(name, email);
    TrailerMatchValid(name, email);
    assert forall i :: 0 <= i < |t| ==> s[i] == t[i];
    assert s[|t|] == y[0];
    assert ValidCo(s, c) by {
      assert FoldedAt(s, 0, Keyword) by {
        forall k | 0 <= k < |Keyword| ensures LowerChar(s[k]) == Keyword[k] {
          assert s[k] == t[k];
        }
      }
    }
    CoAtSpec(s, 0);
    var r := CoAt(s, 0).value;
    InsideLine(t, y, r);
    TrailerMatchIsBest(name, email, r);
  }

  /** A match starting in `t` whose name starts in `t` lies in `t` when a line break follows
      `t`. */
  lemma InsideLine(t: string, y: string, r: CoMatch)
    requires |y| > 0 && IsLineTerminator(y[0]) && ValidCo(t + y, r) && r.nameStart < |t|
    ensures ValidCo(t, r)
  {
    var s := t + y;
    assert forall i :: 0 <= i < |t| ==> s[i] == t[i];
    assert s[|t|] == y[0];
    assert r.gt < |t|;
    assert FoldedAt(t, r.start, Keyword) by {
      forall k | 0 <= k < |Keyword| ensures LowerChar(t[r.start + k]) == Keyword[k] {
        assert s[r.start + k] == t[r.start + k];
      }
    }
  }
}

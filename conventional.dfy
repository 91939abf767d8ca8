/** The conventional-commit subject pattern
      `(?<emoji>:.+:)?( *)(?<type>[a-z]+)(\((?<scope>.+)\))?(?<breaking>!)?: (?<description>.+)`
    with the `i` flag and no anchors, and the body test `breaking[ -]changes?:` (also `i`).
    The pattern is matched the way a backtracking engine does: leftmost start first, and at
    each quantifier the greedy choice first. */
module Conventional {
  import opened Wrappers
  import opened Text

  /** One way the subject pattern can match `s`: the split points of the match.
      `emojiEnd == start` when the emoji group is not used; `scopeClose` is the position of
      the closing parenthesis of the scope group; `descEnd` ends the description. */
  datatype Parse = Parse(
    start: nat,
    emojiEnd: nat,
    typeStart: nat,
    typeEnd: nat,
    scopeClose: Option<nat>,
    bang: bool,
    descEnd: nat)

  /** Where the optional `!` would stand. */
  function AfterScope(p: Parse): nat
  {
    match p.scopeClose
    case Some(c) => c + 1
    case None => p.typeEnd
  }

  /** Where the literal `": "` stands. */
  function ColonAt(p: Parse): nat
  {
    AfterScope(p) + (if p.bang then 1 else 0)
  }

  /** The four match positions up to the scope hold their groups. */
  predicate HeadOk(s: string, p: Parse)
  {
    && p.start <= p.emojiEnd <= p.typeStart < p.typeEnd <= |s|
    // `:.+:` or nothing
    && (p.emojiEnd == p.start
        || (p.start + 3 <= p.emojiEnd && s[p.start] == ':' && s[p.emojiEnd - 1] == ':'
            && AllIn(s, p.start + 1, p.emojiEnd - 1, AnyButTerminator)))
    // ` *`
    && AllIn(s, p.emojiEnd, p.typeStart, Space)
    // `[a-z]+`
    && AllIn(s, p.typeStart, p.typeEnd, Letter)
    // `\((.+)\)` or nothing
    && match p.scopeClose
       case None => true
       case Some(c) =>
         p.typeEnd + 2 <= c < |s| && s[p.typeEnd] == '(' && s[c] == ')'
         && AllIn(s, p.typeEnd + 1, c, AnyButTerminator)
  }

  /** `!?: .+` after the scope. */
  predicate TailOk(s: string, p: Parse)
  {
    && ColonAt(p) + 2 < p.descEnd <= |s|
    && (p.bang ==> s[AfterScope(p)] == '!')
    && s[ColonAt(p)] == ':' && s[ColonAt(p) + 1] == ' '
    && AllIn(s, ColonAt(p) + 2, p.descEnd, AnyButTerminator)
  }

  /** `p` is a match of the subject pattern in `s` (declarative: any start, any choice). */
  predicate ValidParse(s: string, p: Parse)
  {
    HeadOk(s, p) && TailOk(s, p)
  }

  function ScopeRank(p: Parse): nat
  {
    match p.scopeClose
    case None => 0
    case Some(c) => c + 1
  }

  /** The order in which a backtracking engine tries matches: an earlier start first, then
      at every quantifier the longer alternative first (the group of an optional `?` before
      its absence). */
  predicate Before(p: Parse, q: Parse)
  {
    if p.start != q.start then p.start < q.start
    else if p.emojiEnd != q.emojiEnd then p.emojiEnd > q.emojiEnd
    else if p.typeStart != q.typeStart then p.typeStart > q.typeStart
    else if p.typeEnd != q.typeEnd then p.typeEnd > q.typeEnd
    else if ScopeRank(p) != ScopeRank(q) then ScopeRank(p) > ScopeRank(q)
    else if p.bang != q.bang then p.bang
    else p.descEnd > q.descEnd
  }

  predicate SameHead(p: Parse, h: Parse)
  {
    p.start == h.start && p.emojiEnd == h.emojiEnd && p.typeStart == h.typeStart
    && p.typeEnd == h.typeEnd && p.scopeClose == h.scopeClose
  }

  // ---------------------------------------------------------------------------
  // The backtracking matcher
  // ---------------------------------------------------------------------------

  /** `: (?<description>.+)` at the colon position, the description running greedily to the
      end of the line. */
  function Finish(s: string, h: Parse, bang: bool): (r: Option<Parse>)
    requires HeadOk(s, h)
    ensures r.Some? ==> SameHead(r.value, h) && r.value.bang == bang
  {
    var colon := AfterScope(h) + (if bang then 1 else 0);
    if colon + 2 < |s| && s[colon] == ':' && s[colon + 1] == ' ' && !IsLineTerminator(s[colon + 2])
       && (bang ==> s[AfterScope(h)] == '!')
    then Some(h.(bang := bang, descEnd := LineEnd(s, colon + 2)))
    else None
  }

  /** `(?<breaking>!)?` then the colon: with the `!` first, then without it. */
  function TailAt(s: string, h: Parse): (r: Option<Parse>)
    requires HeadOk(s, h)
    ensures r.Some? ==> SameHead(r.value, h)
  {
    var a := AfterScope(h);
    var withBang := if a < |s| && s[a] == '!' then Finish(s, h, true) else None;
    if withBang.Some? then withBang else Finish(s, h, false)
  }

  /** The scope group `\((?<scope>.+)\)`, its closing parenthesis tried at `c`, `c - 1`, …
      (greedy `.+`). */
  function TryScope(s: string, h: Parse, c: int): (r: Option<Parse>)
    requires HeadOk(s, h) && h.scopeClose.None? && h.typeEnd < |s| && s[h.typeEnd] == '('
    requires c <= LineEnd(s, h.typeEnd + 1)
    ensures r.Some? ==> r.value.scopeClose.Some?
    ensures r.Some? ==> r.value.scopeClose.value <= c
    ensures r.Some? ==> SameHead(r.value, h.(scopeClose := r.value.scopeClose))
    decreases c
  {
    if c < h.typeEnd + 2 then None
    else
      assert AllIn(s, h.typeEnd + 1, c, AnyButTerminator) by {
        assert AllIn(s, h.typeEnd + 1, LineEnd(s, h.typeEnd + 1), AnyButTerminator);
      }
      var t := if c < |s| && s[c] == ')' then TailAt(s, h.(scopeClose := Some(c))) else None;
      if t.Some? then t else TryScope(s, h, c - 1)
  }

  /** `( *)(?<type>[a-z]+)(…)?(!)?: (.+)` once the emoji group has ended at `e`. */
  function RestAt(s: string, start: nat, e: nat): (r: Option<Parse>)
    requires start <= e <= |s|
    requires e == start || (start + 3 <= e && s[start] == ':' && s[e - 1] == ':'
                            && AllIn(s, start + 1, e - 1, AnyButTerminator))
    ensures r.Some? ==> r.value.start == start && r.value.emojiEnd == e
  {
    var ts := Span(s, e, Space);
    var te := Span(s, ts, Letter);
    if te == ts then None
    else
      var h := Parse(start, e, ts, te, None, false, 0);
      var scoped := if te < |s| && s[te] == '(' then TryScope(s, h, LineEnd(s, te + 1)) else None;
      if scoped.Some? then scoped else TailAt(s, h)
  }

  /** The emoji group `:.+:`, its closing colon tried at `k`, `k - 1`, … (greedy `.+`). */
  function TryEmoji(s: string, start: nat, k: int): (r: Option<Parse>)
    requires start < |s| && s[start] == ':' && k <= LineEnd(s, start + 1)
    ensures r.Some? ==> r.value.start == start
    ensures r.Some? ==> start + 3 <= r.value.emojiEnd <= k + 1
    decreases k
  {
    if k < start + 2 then None
    else
      assert AllIn(s, start + 1, k, AnyButTerminator) by {
        assert AllIn(s, start + 1, LineEnd(s, start + 1), AnyButTerminator);
      }
      var rest := if k < |s| && s[k] == ':' then RestAt(s, start, k + 1) else None;
      if rest.Some? then rest else TryEmoji(s, start, k - 1)
  }

  /** One match attempt at position `i`: the emoji group first, then without it. */
  function MatchAt(s: string, i: nat): (r: Option<Parse>)
    requires i < |s|
    ensures r.Some? ==> r.value.start == i
  {
    var emoji := if s[i] == ':' then TryEmoji(s, i, LineEnd(s, i + 1)) else None;
    if emoji.Some? then emoji else RestAt(s, i, i)
  }

  /** The unanchored search: attempts at `i`, `i + 1`, …, the first success wins. */
  function MatchFrom(s: string, i: nat): (r: Option<Parse>)
    requires i <= |s|
    ensures r.Some? ==> i <= r.value.start
    decreases |s| - i
  {
    if i == |s| then None
    else
      var m := MatchAt(s, i);
      if m.Some? then m else MatchFrom(s, i + 1)
  }

  /** `message.match(ConventionalCommitRegex)`, as the split points of the match. */
  function SubjectMatch(s: string): Option<Parse>
  {
    MatchFrom(s, 0)
  }

  // ---------------------------------------------------------------------------
  // What the matcher reports is a match
  // ---------------------------------------------------------------------------

  lemma FinishSound(s: string, h: Parse, bang: bool)
    requires HeadOk(s, h)
    ensures Finish(s, h, bang).Some? ==> ValidParse(s, Finish(s, h, bang).value)
  {
  }

  lemma TailSound(s: string, h: Parse)
    requires HeadOk(s, h)
    ensures TailAt(s, h).Some? ==> ValidParse(s, TailAt(s, h).value)
  {
    FinishSound(s, h, true);
    FinishSound(s, h, false);
  }

  lemma {:induction false} TryScopeSound(s: string, h: Parse, c: int)
    requires HeadOk(s, h) && h.scopeClose.None? && h.typeEnd < |s| && s[h.typeEnd] == '('
    requires c <= LineEnd(s, h.typeEnd + 1)
    ensures TryScope(s, h, c).Some? ==> ValidParse(s, TryScope(s, h, c).value)
    decreases c
  {
    if c >= h.typeEnd + 2 {
      assert AllIn(s, h.typeEnd + 1, c, AnyButTerminator) by {
        assert AllIn(s, h.typeEnd + 1, LineEnd(s, h.typeEnd + 1), AnyButTerminator);
      }
      if c < |s| && s[c] == ')' {
        TailSound(s, h.(scopeClose := Some(c)));
      }
      TryScopeSound(s, h, c - 1);
    }
  }

  lemma RestSound(s: string, start: nat, e: nat)
    requires start <= e <= |s|
    requires e == start || (start + 3 <= e && s[start] == ':' && s[e - 1] == ':'
                            && AllIn(s, start + 1, e - 1, AnyButTerminator))
    ensures RestAt(s, start, e).Some? ==> ValidParse(s, RestAt(s, start, e).value)
  {
    var ts := Span(s, e, Space);
    var te := Span(s, ts, Letter);
    if te != ts {
      var h := Parse(start, e, ts, te, None, false, 0);
      if te < |s| && s[te] == '(' {
        TryScopeSound(s, h, LineEnd(s, te + 1));
      }
      TailSound(s, h);
    }
  }

  lemma {:induction false} TryEmojiSound(s: string, start: nat, k: int)
    requires start < |s| && s[start] == ':' && k <= LineEnd(s, start + 1)
    ensures TryEmoji(s, start, k).Some? ==> ValidParse(s, TryEmoji(s, start, k).value)
    decreases k
  {
    if k >= start + 2 {
      assert AllIn(s, start + 1, k, AnyButTerminator) by {
        assert AllIn(s, start + 1, LineEnd(s, start + 1), AnyButTerminator);
      }
      if k < |s| && s[k] == ':' {
        RestSound(s, start, k + 1);
      }
      TryEmojiSound(s, start, k - 1);
    }
  }

  lemma MatchAtSound(s: string, i: nat)
    requires i < |s|
    ensures MatchAt(s, i).Some? ==> ValidParse(s, MatchAt(s, i).value)
  {
    if s[i] == ':' {
      TryEmojiSound(s, i, LineEnd(s, i + 1));
    }
    RestSound(s, i, i);
  }

  lemma {:induction false} MatchFromSound(s: string, i: nat)
    requires i <= |s|
    ensures MatchFrom(s, i).Some? ==> ValidParse(s, MatchFrom(s, i).value)
    decreases |s| - i
  {
    if i < |s| {
      MatchAtSound(s, i);
      MatchFromSound(s, i + 1);
    }
  }

  // ---------------------------------------------------------------------------
  // The matcher finds the match a backtracking engine finds
  // ---------------------------------------------------------------------------

  lemma FinishBest(s: string, h: Parse, bang: bool, q: Parse)
    requires HeadOk(s, h) && ValidParse(s, q) && SameHead(q, h) && q.bang == bang
    ensures Finish(s, h, bang).Some?
    ensures Finish(s, h, bang).value == q || Before(Finish(s, h, bang).value, q)
  {
    var colon := ColonAt(q);
    SpanMaximal(s, colon + 2, q.descEnd, AnyButTerminator);
  }

  lemma TailBest(s: string, h: Parse, q: Parse)
    requires HeadOk(s, h) && ValidParse(s, q) && SameHead(q, h)
    ensures TailAt(s, h).Some?
    ensures TailAt(s, h).value == q || Before(TailAt(s, h).value, q)
  {
    FinishBest(s, h, q.bang, q);
  }

  /** Validity of the head depends on the head positions only. */
  lemma HeadOkSameHead(s: string, p: Parse, h: Parse)
    requires HeadOk(s, p) && SameHead(p, h)
    ensures HeadOk(s, h)
  {
  }

  /** In a match, ` *` and `[a-z]+` take every space and every letter they can, and the
      scope group is present exactly when a parenthesis follows the type. */
  lemma TypeIsGreedy(s: string, q: Parse)
    requires ValidParse(s, q)
    ensures q.typeStart == Span(s, q.emojiEnd, Space)
    ensures q.typeEnd == Span(s, q.typeStart, Letter)
    ensures q.typeEnd < |s| && (s[q.typeEnd] == '(' <==> q.scopeClose.Some?)
  {
    assert !InClass(s[q.typeStart], Space) by {
      assert InClass(s[q.typeStart], Letter);
    }
    SpanUnique(s, q.emojiEnd, q.typeStart, Space);
    assert q.typeEnd < |s| && !InClass(s[q.typeEnd], Letter) by {
      if q.scopeClose.None? {
        assert AfterScope(q) == q.typeEnd;
        assert s[q.typeEnd] == '!' || s[q.typeEnd] == ':';
      }
    }
    SpanUnique(s, q.typeStart, q.typeEnd, Letter);
    if q.scopeClose.None? {
      assert AfterScope(q) == q.typeEnd;
      assert s[q.typeEnd] == '!' || s[q.typeEnd] == ':';
    }
  }

  /** Without its scope group the head is still valid. */
  lemma HeadOkDropScope(s: string, p: Parse, h: Parse)
    requires HeadOk(s, p) && SameHead(p.(scopeClose := None), h)
    ensures HeadOk(s, h)
  {
  }

  lemma {:induction false} TryScopeBest(s: string, h: Parse, c: int, q: Parse)
    requires HeadOk(s, h) && h.scopeClose.None? && h.typeEnd < |s| && s[h.typeEnd] == '('
    requires c <= LineEnd(s, h.typeEnd + 1)
    requires ValidParse(s, q) && q.scopeClose.Some? && q.scopeClose.value <= c
    requires SameHead(q, h.(scopeClose := q.scopeClose))
    ensures TryScope(s, h, c).Some?
    ensures TryScope(s, h, c).value == q || Before(TryScope(s, h, c).value, q)
    decreases c
  {
    var cq := q.scopeClose.value;
    var hc := h.(scopeClose := Some(c));
    assert c >= h.typeEnd + 2;
    if c == cq {
      HeadOkSameHead(s, q, hc);
      TailBest(s, hc, q);
      assert TryScope(s, h, c) == TailAt(s, hc);
    } else {
      var t := if c < |s| && s[c] == ')' then TailAt(s, hc) else None;
      if t.Some? {
        assert TryScope(s, h, c) == t;
        assert ScopeRank(t.value) == c + 1 > cq + 1 == ScopeRank(q);
      } else {
        assert TryScope(s, h, c) == TryScope(s, h, c - 1);
        TryScopeBest(s, h, c - 1, q);
      }
    }
  }

  /** The scoped case of `RestBest`: the scope group is tried from the end of the line. */
  lemma RestBestScoped(s: string, start: nat, e: nat, q: Parse)
    requires start <= e <= |s|
    requires e == start || (start + 3 <= e && s[start] == ':' && s[e - 1] == ':'
                            && AllIn(s, start + 1, e - 1, AnyButTerminator))
    requires ValidParse(s, q) && q.start == start && q.emojiEnd == e && q.scopeClose.Some?
    requires q.typeStart == Span(s, e, Space) && q.typeEnd == Span(s, q.typeStart, Letter)
    requires s[q.typeEnd] == '('
    ensures RestAt(s, start, e).Some?
    ensures RestAt(s, start, e).value == q || Before(RestAt(s, start, e).value, q)
  {
    var h := Parse(start, e, q.typeStart, q.typeEnd, None, false, 0);
    HeadOkDropScope(s, q, h);
    SpanMaximal(s, q.typeEnd + 1, q.scopeClose.value, AnyButTerminator);
    TryScopeBest(s, h, LineEnd(s, q.typeEnd + 1), q);
  }

  /** The case of `RestBest` without a scope group. */
  lemma RestBestPlain(s: string, start: nat, e: nat, q: Parse)
    requires start <= e <= |s|
    requires e == start || (start + 3 <= e && s[start] == ':' && s[e - 1] == ':'
                            && AllIn(s, start + 1, e - 1, AnyButTerminator))
    requires ValidParse(s, q) && q.start == start && q.emojiEnd == e && q.scopeClose.None?
    requires q.typeStart == Span(s, e, Space) && q.typeEnd == Span(s, q.typeStart, Letter)
    requires s[q.typeEnd] != '('
    ensures RestAt(s, start, e).Some?
    ensures RestAt(s, start, e).value == q || Before(RestAt(s, start, e).value, q)
  {
    var h := Parse(start, e, q.typeStart, q.typeEnd, None, false, 0);
    HeadOkDropScope(s, q, h);
    TailBest(s, h, q);
  }

  lemma RestBest(s: string, start: nat, e: nat, q: Parse)
    requires start <= e <= |s|
    requires e == start || (start + 3 <= e && s[start] == ':' && s[e - 1] == ':'
                            && AllIn(s, start + 1, e - 1, AnyButTerminator))
    requires ValidParse(s, q) && q.start == start && q.emojiEnd == e
    ensures RestAt(s, start, e).Some?
    ensures RestAt(s, start, e).value == q || Before(RestAt(s, start, e).value, q)
  {
    TypeIsGreedy(s, q);
    if q.scopeClose.Some? {
      RestBestScoped(s, start, e, q);
    } else {
      RestBestPlain(s, start, e, q);
    }
  }

  /** One step of the emoji search: the closing colon at `k` is taken when the rest
      matches after it, and otherwise `k - 1` is tried. */
  lemma TryEmojiStep(s: string, start: nat, k: int)
    requires start < |s| && s[start] == ':' && start + 2 <= k <= LineEnd(s, start + 1)
    ensures TryEmoji(s, start, k) == TryEmoji(s, start, k - 1)
            || (TryEmoji(s, start, k).Some? && TryEmoji(s, start, k).value.emojiEnd == k + 1)
    ensures k < |s| && s[k] == ':' && RestAt(s, start, k + 1).Some? ==>
              TryEmoji(s, start, k) == RestAt(s, start, k + 1)
  {
  }

  lemma {:induction false} TryEmojiBest(s: string, start: nat, k: int, q: Parse)
    requires start < |s| && s[start] == ':' && k <= LineEnd(s, start + 1)
    requires ValidParse(s, q) && q.start == start && start < q.emojiEnd <= k + 1
    ensures TryEmoji(s, start, k).Some?
    ensures TryEmoji(s, start, k).value == q || Before(TryEmoji(s, start, k).value, q)
    decreases k
  {
    TryEmojiStep(s, start, k);
    if k + 1 == q.emojiEnd {
      RestBest(s, start, k + 1, q);
    } else {
      TryEmojiBest(s, start, k - 1, q);
    }
  }

  lemma MatchAtBest(s: string, i: nat, q: Parse)
    requires i < |s| && ValidParse(s, q) && q.start == i
    ensures MatchAt(s, i).Some?
    ensures MatchAt(s, i).value == q || Before(MatchAt(s, i).value, q)
  {
    if q.emojiEnd > i {
      assert s[i] == ':';
      SpanMaximal(s, i + 1, q.emojiEnd - 1, AnyButTerminator);
      TryEmojiBest(s, i, LineEnd(s, i + 1), q);
      assert MatchAt(s, i) == TryEmoji(s, i, LineEnd(s, i + 1));
    } else {
      // without the emoji group the match begins with a space or a letter
      assert s[i] != ':' by {
        if q.typeStart == i {
          assert InClass(s[i], Letter);
        } else {
          assert InClass(s[i], Space);
        }
      }
      RestBest(s, i, i, q);
    }
  }

  lemma {:induction false} MatchFromBest(s: string, i: nat, q: Parse)
    requires i <= |s| && ValidParse(s, q) && i <= q.start
    ensures MatchFrom(s, i).Some?
    ensures MatchFrom(s, i).value == q || Before(MatchFrom(s, i).value, q)
    decreases |s| - i
  {
    if q.start == i {
      MatchAtBest(s, i, q);
    } else {
      MatchFromBest(s, i + 1, q);
    }
  }

  /** The matcher returns a match exactly when the pattern matches somewhere, and then the
      one a backtracking engine reports: every other match comes later in its order. */
  lemma SubjectMatchSpec(s: string)
    ensures SubjectMatch(s).Some? ==> ValidParse(s, SubjectMatch(s).value)
    ensures SubjectMatch(s).Some? ==>
      forall q :: ValidParse(s, q) ==> q == SubjectMatch(s).value || Before(SubjectMatch(s).value, q)
    ensures SubjectMatch(s).None? ==> forall q :: !ValidParse(s, q)
  {
    MatchFromSound(s, 0);
    forall q | ValidParse(s, q)
      ensures SubjectMatch(s).Some?
      ensures SubjectMatch(s).value == q || Before(SubjectMatch(s).value, q)
    {
      MatchFromBest(s, 0, q);
    }
  }

  // ---------------------------------------------------------------------------
  // Named groups
  // ---------------------------------------------------------------------------

  /** The named groups `type`, `scope`, `breaking` and `description` of a match. */
  datatype Subject = Subject(commitType: string, scope: Option<string>, breaking: bool, description: string)

  function Groups(s: string, p: Parse): Subject
    requires ValidParse(s, p)
  {
    Subject(
      s[p.typeStart..p.typeEnd],
      match p.scopeClose
      case Some(c) => Some(s[p.typeEnd + 1..c])
      case None => None,
      p.bang,
      s[ColonAt(p) + 2..p.descEnd])
  }

  /** The type of a match is a non-empty run of letters, its description a non-empty piece
      of one line. */
  lemma GroupsShape(s: string, p: Parse)
    requires ValidParse(s, p)
    ensures var g := Groups(s, p);
      && |g.commitType| > 0 && |g.description| > 0
      && (forall i :: 0 <= i < |g.commitType| ==> IsAsciiLetter(g.commitType[i]))
      && (forall i :: 0 <= i < |g.description| ==> !IsLineTerminator(g.description[i]))
  {
    var g := Groups(s, p);
    forall i | 0 <= i < |g.commitType| ensures IsAsciiLetter(g.commitType[i]) {
      assert g.commitType[i] == s[p.typeStart + i];
      assert InClass(s[p.typeStart + i], Letter);
    }
    forall i | 0 <= i < |g.description| ensures !IsLineTerminator(g.description[i]) {
      assert g.description[i] == s[ColonAt(p) + 2 + i];
      assert InClass(s[ColonAt(p) + 2 + i], AnyButTerminator);
    }
  }

  /** The groups of `message.match(ConventionalCommitRegex)`, `None` when it is `null`.
      A match exists exactly when the pattern matches somewhere; the type is a non-empty
      run of letters and the description a non-empty piece of one line. */
  function MatchSubject(s: string): (r: Option<Subject>)
    ensures r.Some? <==> exists q :: ValidParse(s, q)
    ensures r.Some? ==> |r.value.commitType| > 0 && |r.value.description| > 0
    ensures r.Some? ==> forall i :: 0 <= i < |r.value.commitType| ==> IsAsciiLetter(r.value.commitType[i])
    ensures r.Some? ==> forall i :: 0 <= i < |r.value.description| ==> !IsLineTerminator(r.value.description[i])
  {
    SubjectMatchSpec(s);
    match SubjectMatch(s)
    case Some(p) => GroupsShape(s, p); Some(Groups(s, p))
    case None => None
  }

  // ---------------------------------------------------------------------------
  // Writing a subject line and reading it back
  // ---------------------------------------------------------------------------

  /** The subject line `type(scope)!: description`. */
  function FormatSubject(t: string, scope: Option<string>, bang: bool, d: string): string
  {
    t + (match scope case Some(sc) => "(" + sc + ")" case None => "")
      + (if bang then "!" else "") + ": " + d
  }

  /** What a subject needs for its parts to come back unchanged: a type of letters, a
      one-line non-empty scope and description, and, when there is a scope, no `": "` in the
      description (a later `)` followed by `": "` would extend the greedy scope). */
  predicate Formattable(t: string, scope: Option<string>, d: string)
  {
    && |t| > 0 && (forall i :: 0 <= i < |t| ==> IsAsciiLetter(t[i]))
    && (scope.Some? ==>
          |scope.value| > 0 && forall i :: 0 <= i < |scope.value| ==> !IsLineTerminator(scope.value[i]))
    && |d| > 0 && (forall i :: 0 <= i < |d| ==> !IsLineTerminator(d[i]))
    && (scope.Some? ==> forall i :: 0 <= i < |d| - 1 ==> !(d[i] == ':' && d[i + 1] == ' '))
  }

  /** The match of a formatted subject placed at position `|pre|` of `s`. */
  function Placed(start: nat, emojiEnd: nat, o: nat, t: string, scope: Option<string>, bang: bool,
                  d: string): Parse
  {
    var close := if scope.Some? then Some(ScopeEnd(o, t, scope) - 1) else None;
    Parse(start, emojiEnd, o, TypeEnd(o, t), close, bang, ColonOf(o, t, scope, bang) + 2 + |d|)
  }

  /** Where the pieces of a formatted subject placed at `o` end: the type, the scope
      group, and the `!`. */
  function TypeEnd(o: nat, t: string): nat { o + |t| }
  function ScopeEnd(o: nat, t: string, scope: Option<string>): nat
  {
    TypeEnd(o, t) + match scope case Some(sc) => |sc| + 2 case None => 0
  }
  function ColonOf(o: nat, t: string, scope: Option<string>, bang: bool): nat
  {
    ScopeEnd(o, t, scope) + if bang then 1 else 0
  }

  /** `s[o..]` holds the formatted subject, character by character. */
  predicate Laid(s: string, o: nat, t: string, scope: Option<string>, bang: bool, d: string)
  {
    var te := TypeEnd(o, t);
    var a := ScopeEnd(o, t, scope);
    var colon := ColonOf(o, t, scope, bang);
    && |s| == colon + 2 + |d|
    && (forall i :: 0 <= i < |t| ==> s[o + i] == t[i])
    && (scope.Some? ==>
          s[te] == '(' && s[a - 1] == ')'
          && forall i :: 0 <= i < |scope.value| ==> s[te + 1 + i] == scope.value[i])
    && (bang ==> s[a] == '!')
    && s[colon] == ':' && s[colon + 1] == ' '
    && (forall i :: 0 <= i < |d| ==> s[colon + 2 + i] == d[i])
  }

  /** Where each piece of `pre + t + m + b + ": " + d` lands. */
  lemma PiecesAt(pre: string, t: string, m: string, b: string, d: string)
    ensures var s := pre + t + m + b + ": " + d;
      var o := |pre|;
      && |s| == o + |t| + |m| + |b| + 2 + |d|
      && (forall i :: 0 <= i < |t| ==> s[o + i] == t[i])
      && (forall i :: 0 <= i < |m| ==> s[o + |t| + i] == m[i])
      && (forall i :: 0 <= i < |b| ==> s[o + |t| + |m| + i] == b[i])
      && s[o + |t| + |m| + |b|] == ':' && s[o + |t| + |m| + |b| + 1] == ' '
      && (forall i :: 0 <= i < |d| ==> s[o + |t| + |m| + |b| + 2 + i] == d[i])
  {
    var u := pre + t;
    var v := u + m;
    var w := v + b;
    var x := w + ": ";
    assert forall i :: 0 <= i < |t| ==> u[|pre| + i] == t[i];
    assert forall i :: 0 <= i < |m| ==> v[|u| + i] == m[i];
    assert forall i :: 0 <= i < |b| ==> w[|v| + i] == b[i];
    assert x[|w|] == ':' && x[|w| + 1] == ' ';
  }

  /** The scope group `(sc)` is laid out character by character. */
  lemma ScopeGroupAt(sc: string)
    ensures var m := "(" + sc + ")";
      |m| == |sc| + 2 && m[0] == '(' && m[|m| - 1] == ')'
      && forall i :: 0 <= i < |sc| ==> m[1 + i] == sc[i]
  {
  }

  /** A formatted subject after any prefix is laid out as `Laid` says. */
  lemma FormatLayout(pre: string, t: string, scope: Option<string>, bang: bool, d: string)
    ensures Laid(pre + FormatSubject(t, scope, bang, d), |pre|, t, scope, bang, d)
  {
    var m := match scope case Some(sc) => "(" + sc + ")" case None => "";
    var b := if bang then "!" else "";
    assert pre + FormatSubject(t, scope, bang, d) == pre + t + m + b + ": " + d;
    PiecesAt(pre, t, m, b, d);
    if scope.Some? {
      ScopeGroupAt(scope.value);
    }
  }

  /** A formatted subject placed after a valid emoji group and spaces is a valid match. */
  lemma PlacedValid(s: string, o: nat, start: nat, emojiEnd: nat, t: string,
                    scope: Option<string>, bang: bool, d: string)
    requires Formattable(t, scope, d) && Laid(s, o, t, scope, bang, d)
    requires start <= emojiEnd <= o
    requires emojiEnd == start
      || (start + 3 <= emojiEnd && s[start] == ':' && s[emojiEnd - 1] == ':'
          && AllIn(s, start + 1, emojiEnd - 1, AnyButTerminator))
    requires AllIn(s, emojiEnd, o, Space)
    ensures ValidParse(s, Placed(start, emojiEnd, o, t, scope, bang, d))
  {
    var p0 := Placed(start, emojiEnd, o, t, scope, bang, d);
    var te := TypeEnd(o, t);
    forall i | o <= i < te ensures InClass(s[i], Letter) {
      assert s[o + (i - o)] == t[i - o];
    }
    match scope {
      case Some(sc) =>
        forall i | te + 1 <= i < ScopeEnd(o, t, scope) - 1 ensures InClass(s[i], AnyButTerminator) {
          assert s[te + 1 + (i - te - 1)] == sc[i - te - 1];
        }
      case None =>
    }
    var dStart := ColonOf(o, t, scope, bang) + 2;
    forall i | dStart <= i < |s| ensures InClass(s[i], AnyButTerminator) {
      assert s[dStart + (i - dStart)] == d[i - dStart];
    }
    assert HeadOk(s, p0);
  }

  /** With a scope, no `": "` follows the one after the scope. */
  lemma NoSeparatorInDescription(s: string, o: nat, t: string, scope: Option<string>, bang: bool,
                                 d: string)
    requires Formattable(t, scope, d) && Laid(s, o, t, scope, bang, d) && scope.Some?
    ensures var dStart := ColonOf(o, t, scope, bang) + 2;
      forall k :: dStart <= k < |s| - 1 ==> !(s[k] == ':' && s[k + 1] == ' ')
  {
    var dStart := ColonOf(o, t, scope, bang) + 2;
    forall k | dStart <= k < |s| - 1 ensures !(s[k] == ':' && s[k + 1] == ' ') {
      assert s[dStart + (k - dStart)] == d[k - dStart];
      assert s[dStart + (k + 1 - dStart)] == d[k + 1 - dStart];
    }
  }

  /** Once the type of a match starts where a formatted subject starts, the rest of the match
      can be no better than the formatted one. */
  lemma PlacedIsBest(s: string, o: nat, t: string, scope: Option<string>, bang: bool,
                     d: string, q: Parse)
    requires Formattable(t, scope, d) && Laid(s, o, t, scope, bang, d)
    requires ValidParse(s, q) && q.typeStart == o
    ensures ValidParse(s, Placed(q.start, q.emojiEnd, o, t, scope, bang, d))
    ensures var p0 := Placed(q.start, q.emojiEnd, o, t, scope, bang, d);
      q == p0 || Before(p0, q)
  {
    PlacedValid(s, o, q.start, q.emojiEnd, t, scope, bang, d);
    var p0 := Placed(q.start, q.emojiEnd, o, t, scope, bang, d);
    TypeIsGreedy(s, q);
    TypeIsGreedy(s, p0);
    var a := ScopeEnd(o, t, scope);
    var dStart := ColonOf(o, t, scope, bang) + 2;
    if p0.scopeClose.Some? {
      NoSeparatorInDescription(s, o, t, scope, bang, d);
      assert q.scopeClose.value <= a - 1;
    }
    if ScopeRank(q) == ScopeRank(p0) {
      assert q.scopeClose == p0.scopeClose;
      assert AfterScope(q) == a;
    }
  }

  /** `p0` is a valid match and it precedes every other valid match, so it is reported. */
  lemma MatchIsFirst(s: string, p0: Parse)
    requires ValidParse(s, p0)
    requires forall q :: ValidParse(s, q) ==> q == p0 || Before(p0, q)
    ensures SubjectMatch(s) == Some(p0)
  {
    SubjectMatchSpec(s);
  }

  /** The groups of the formatted match are the parts it was formatted from. */
  lemma PlacedGroups(s: string, o: nat, p0: Parse, t: string, scope: Option<string>,
                     bang: bool, d: string)
    requires Formattable(t, scope, d) && Laid(s, o, t, scope, bang, d)
    requires ValidParse(s, p0) && p0 == Placed(p0.start, p0.emojiEnd, o, t, scope, bang, d)
    ensures Groups(s, p0) == Subject(t, scope, bang, d)
  {
    var te := TypeEnd(o, t);
    assert s[o..te] == t;
    match scope {
      case Some(sc) =>
        assert s[te + 1..ScopeEnd(o, t, scope) - 1] == sc;
      case None =>
    }
    var dStart := ColonOf(o, t, scope, bang) + 2;
    assert s[dStart..|s|] == d;
  }

  /** A formatted subject laid out at `o`, preceded by spaces from `start` on, where no
      match can start earlier, is what the pattern reads. */
  lemma LaidIsMatch(s: string, o: nat, start: nat, t: string, scope: Option<string>, bang: bool,
                    d: string)
    requires Formattable(t, scope, d) && Laid(s, o, t, scope, bang, d)
    requires start <= o && AllIn(s, start, o, Space) && s[start] != ':'
    requires forall q :: ValidParse(s, q) ==> q.start >= start
    ensures MatchSubject(s) == Some(Subject(t, scope, bang, d))
  {
    var p0 := Placed(start, start, o, t, scope, bang, d);
    PlacedValid(s, o, start, start, t, scope, bang, d);
    assert s[o + 0] == t[0];
    SpanUnique(s, start, o, Space);
    forall q | ValidParse(s, q) ensures q == p0 || Before(p0, q) {
      if q.start == start {
        TypeIsGreedy(s, q);
        PlacedIsBest(s, o, t, scope, bang, d, q);
      }
    }
    MatchIsFirst(s, p0);
    PlacedGroups(s, o, p0, t, scope, bang, d);
  }

  /** Round trip of the subject grammar: a subject written as `type(scope)!: description`
      is read back as its own parts. */
  lemma FormatSubjectRoundTrip(t: string, scope: Option<string>, bang: bool, d: string)
    requires Formattable(t, scope, d)
    ensures MatchSubject(FormatSubject(t, scope, bang, d)) == Some(Subject(t, scope, bang, d))
  {
    var s := FormatSubject(t, scope, bang, d);
    assert [] + s == s;
    FormatLayout([], t, scope, bang, d);
    assert s[0 + 0] == t[0];
    LaidIsMatch(s, 0, 0, t, scope, bang, d);
  }

  /** A match cannot start inside a leading word that a space follows: the type would end
      at that space. */
  lemma NoMatchInWord(s: string, w: nat, q: Parse)
    requires w < |s| && s[w] == ' ' && AllIn(s, 0, w, Letter)
    requires ValidParse(s, q)
    ensures q.start >= w
  {
    if q.start < w {
      assert s[q.start] != ':';
      SpanUnique(s, q.start, q.start, Space);
      SpanUnique(s, q.start, w, Letter);
      TypeIsGreedy(s, q);
    }
  }

  /** The pattern is unanchored: a leading word followed by a space is skipped, and the type
      is the word after it (so `"Update readme: x"` has type `readme`). */
  lemma LeadingWordSkipped(w: string, t: string, scope: Option<string>, bang: bool, d: string)
    requires forall i :: 0 <= i < |w| ==> IsAsciiLetter(w[i])
    requires Formattable(t, scope, d)
    ensures MatchSubject(w + " " + FormatSubject(t, scope, bang, d)) == Some(Subject(t, scope, bang, d))
  {
    var pre := w + " ";
    var s := pre + FormatSubject(t, scope, bang, d);
    var o := |pre|;
    FormatLayout(pre, t, scope, bang, d);
    assert s[|w|] == ' ';
    assert AllIn(s, 0, |w|, Letter) by {
      forall i | 0 <= i < |w| ensures InClass(s[i], Letter) { assert s[i] == w[i]; }
    }
    forall q | ValidParse(s, q) ensures q.start >= |w| {
      NoMatchInWord(s, |w|, q);
    }
    LaidIsMatch(s, o, |w|, t, scope, bang, d);
  }

  // ---------------------------------------------------------------------------
  // Scenarios
  // ---------------------------------------------------------------------------

  /** A `(scope)` group and a pull-request marker in the description. */
  lemma ScopedSubject()
    ensures MatchSubject("feat(ui): add button (#42)")
         == Some(Subject("feat", Some("ui"), false, "add button (#42)"))
  {
    assert FormatSubject("feat", Some("ui"), false, "add button (#42)") == "feat(ui): add button (#42)";
    FormatSubjectRoundTrip("feat", Some("ui"), false, "add button (#42)");
  }

  /** The breaking marker before the colon, no scope. */
  lemma BreakingSubject()
    ensures MatchSubject("feat!: drop old API") == Some(Subject("feat", None, true, "drop old API"))
  {
    assert FormatSubject("feat", None, true, "drop old API") == "feat!: drop old API";
    FormatSubjectRoundTrip("feat", None, true, "drop old API");
  }

  /** The unanchored match of a subject that does not start with its type. */
  lemma UnanchoredSubject()
    ensures MatchSubject("Update readme: x") == Some(Subject("readme", None, false, "x"))
  {
    assert "Update" + " " + FormatSubject("readme", None, false, "x") == "Update readme: x";
    LeadingWordSkipped("Update", "readme", None, false, "x");
  }

  /** No `": "` means no match: the subject is not conventional. */
  lemma NoSeparatorNoMatch(s: string)
    requires forall i :: 0 <= i < |s| - 1 ==> !(s[i] == ':' && s[i + 1] == ' ')
    ensures MatchSubject(s) == None
  {
  }

  lemma PlainSubject()
    ensures MatchSubject("Update readme with examples") == None
  {
    var s := "Update readme with examples";
    assert forall i :: 0 <= i < |s| ==> s[i] != ':';
    NoSeparatorNoMatch(s);
  }

  // ---------------------------------------------------------------------------
  // The breaking-change footer: /breaking[ -]changes?:/i.test(body)
  // ---------------------------------------------------------------------------

  /** The footer pattern matches at position `i`. */
  predicate FooterAt(s: string, i: nat)
  {
    && i + 15 <= |s|
    && FoldedAt(s, i, "breaking")
    && (s[i + 8] == ' ' || s[i + 8] == '-')
    && FoldedAt(s, i + 9, "change")
    && ((i + 16 < |s| && LowerChar(s[i + 15]) == 's' && s[i + 16] == ':')
        || (i + 15 < |s| && s[i + 15] == ':'))
  }

  /** The footer occurs somewhere in `s` (declarative). */
  ghost predicate HasBreakingFooter(s: string)
  {
    exists i :: 0 <= i < |s| && FooterAt(s, i)
  }

  function SearchFooter(s: string, i: nat): (r: bool)
    requires i <= |s|
    ensures r <==> exists j :: i <= j < |s| && FooterAt(s, j)
    decreases |s| - i
  {
    if i == |s| then false
    else FooterAt(s, i) || SearchFooter(s, i + 1)
  }

  /** The regular-expression test on the body. */
  function BreakingFooter(body: string): (r: bool)
    ensures r <==> HasBreakingFooter(body)
  {
    SearchFooter(body, 0)
  }

  /** The plural, upper-case footer of a breaking change is recognised. */
  lemma PluralFooter()
    ensures BreakingFooter("BREAKING CHANGES: gone")
  {
    var s := "BREAKING CHANGES: gone";
    assert FoldedAt(s, 0, "breaking") && FoldedAt(s, 9, "change");
    assert FooterAt(s, 0);
  }

  /** The test is unanchored: a footer anywhere in the body, on any line, is found. */
  lemma FooterAnywhere(pre: string, f: string, post: string)
    requires FooterAt(f, 0)
    ensures BreakingFooter(pre + f + post)
  {
    var s := pre + f + post;
    assert forall k :: 0 <= k < |f| ==> s[|pre| + k] == f[k];
    assert FooterAt(s, |pre|);
  }

  /** A hyphenated singular footer on a later line is recognised. */
  lemma HyphenFooter()
    ensures BreakingFooter("fix\nbreaking-change: x")
  {
    var f := "breaking-change:";
    assert FoldedAt(f, 0, "breaking") && FoldedAt(f, 9, "change");
    assert "fix\n" + f + " x" == "fix\nbreaking-change: x";
    FooterAnywhere("fix\n", f, " x");
  }
}

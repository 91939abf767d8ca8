/** The two reference patterns of the parser, both global:
      `\([ a-z]*(#\d+)\s*\)`   a pull-request marker (no `i` flag: `[ a-z]` is case-sensitive),
      `(#\d+)`                 an issue marker,
    and `extractReferences`, which collects their captures into an insertion-ordered map
    and deletes the pull-request markers from the description. */
module References {
  import opened Wrappers
  import opened Seqs
  import opened Text

  datatype Pattern = PullRequestPattern | IssuePattern

  /** One match: it spans `s[start..end]`, and its group `(#\d+)` is `s[capStart..capEnd]`. */
  datatype Hit = Hit(start: nat, capStart: nat, capEnd: nat, end: nat)

  /** `#\d+` stands at `h.capStart..h.capEnd`. */
  predicate CaptureOk(s: string, h: Hit)
  {
    h.capStart + 2 <= h.capEnd <= |s| && s[h.capStart] == '#'
    && AllIn(s, h.capStart + 1, h.capEnd, Digit)
  }

  /** `h` is a match of `pat` in `s` (declarative: any split of the text into the parts of
      the pattern). */
  predicate ValidHit(pat: Pattern, s: string, h: Hit)
  {
    && CaptureOk(s, h)
    && match pat
       case PullRequestPattern =>
         && h.start < h.capStart && h.capEnd < h.end <= |s|
         && s[h.start] == '(' && AllIn(s, h.start + 1, h.capStart, SpaceOrLowercase)
         && AllIn(s, h.capEnd, h.end - 1, Whitespace) && s[h.end - 1] == ')'
       case IssuePattern =>
         h.start == h.capStart && h.end == h.capEnd
  }

  /** A reference value: `#` and one or more digits. */
  predicate IsRefValue(v: string)
  {
    |v| >= 2 && v[0] == '#' && forall i :: 1 <= i < |v| ==> IsDigit(v[i])
  }

  // ---------------------------------------------------------------------------
  // The matcher
  // ---------------------------------------------------------------------------

  /** The pull-request pattern after its `(` at `i`: `[ a-z]*` is at `j`. */
  function PrClass(s: string, i: nat, j: nat): (r: Option<Hit>)
    requires i < j <= |s|
    ensures r.Some? ==> r.value.start == i && j <= r.value.capStart < r.value.capEnd < r.value.end <= |s|
    decreases |s| - j
  {
    if j < |s| && InClass(s[j], SpaceOrLowercase) then PrClass(s, i, j + 1)
    else if j < |s| && s[j] == '#' then PrDigits(s, i, j, j + 1)
    else None
  }

  /** After `#` at `j`: `\d+` is at `k`. */
  function PrDigits(s: string, i: nat, j: nat, k: nat): (r: Option<Hit>)
    requires i < j < k <= |s|
    ensures r.Some? ==> r.value.start == i && r.value.capStart == j && k <= r.value.capEnd < r.value.end <= |s|
    decreases |s| - k
  {
    if k < |s| && IsDigit(s[k]) then PrDigits(s, i, j, k + 1)
    else if k == j + 1 then None
    else PrSpaces(s, i, j, k, k)
  }

  /** After the digits, which end at `k`: `\s*` is at `m`, then `)`. */
  function PrSpaces(s: string, i: nat, j: nat, k: nat, m: nat): (r: Option<Hit>)
    requires i < j < k <= m <= |s|
    ensures r.Some? ==> r.value.start == i && r.value.capStart == j && r.value.capEnd == k
    ensures r.Some? ==> m < r.value.end <= |s|
    decreases |s| - m
  {
    if m < |s| && IsWhitespace(s[m]) then PrSpaces(s, i, j, k, m + 1)
    else if m < |s| && s[m] == ')' then Some(Hit(i, j, k, m + 1))
    else None
  }

  /** The match of `pat` that starts at `i`, if any, the way a backtracking engine finds it.
      Every quantifier is greedy, and none can usefully give characters back, because the
      character that stops each run (`#` after `[ a-z]*`, a non-digit after `\d+`, `)` after
      `\s*`) is outside its class. */
  function HitAt(pat: Pattern, s: string, i: nat): (r: Option<Hit>)
    requires i <= |s|
    ensures r.Some? ==> r.value.start == i < r.value.end <= |s|
    ensures r.Some? ==> r.value.capStart <= r.value.capEnd <= r.value.end
  {
    if i == |s| then None
    else match pat
      case PullRequestPattern =>
        if s[i] == '(' then PrClass(s, i, i + 1) else None
      case IssuePattern =>
        if s[i] != '#' then None
        else
          var k := Span(s, i + 1, Digit);
          if k == i + 1 then None else Some(Hit(i, i, k, k))
  }

  // What each stage of the pull-request matcher reports is a match, and a match is what
  // each stage reports when it is reached inside that match.

  lemma {:induction false} PrSpacesSound(s: string, i: nat, j: nat, k: nat, m: nat)
    requires i < j && j + 2 <= k <= m <= |s|
    requires s[i] == '(' && AllIn(s, i + 1, j, SpaceOrLowercase) && s[j] == '#'
    requires AllIn(s, j + 1, k, Digit) && AllIn(s, k, m, Whitespace)
    ensures PrSpaces(s, i, j, k, m).Some? ==> ValidHit(PullRequestPattern, s, PrSpaces(s, i, j, k, m).value)
    decreases |s| - m
  {
    if m < |s| && IsWhitespace(s[m]) {
      PrSpacesSound(s, i, j, k, m + 1);
    }
  }

  lemma {:induction false} PrDigitsSound(s: string, i: nat, j: nat, k: nat)
    requires i < j < k <= |s|
    requires s[i] == '(' && AllIn(s, i + 1, j, SpaceOrLowercase) && s[j] == '#'
    requires AllIn(s, j + 1, k, Digit)
    ensures PrDigits(s, i, j, k).Some? ==> ValidHit(PullRequestPattern, s, PrDigits(s, i, j, k).value)
    decreases |s| - k
  {
    if k < |s| && IsDigit(s[k]) {
      PrDigitsSound(s, i, j, k + 1);
    } else if k != j + 1 {
      PrSpacesSound(s, i, j, k, k);
    }
  }

  lemma {:induction false} PrClassSound(s: string, i: nat, j: nat)
    requires i < j <= |s| && s[i] == '(' && AllIn(s, i + 1, j, SpaceOrLowercase)
    ensures PrClass(s, i, j).Some? ==> ValidHit(PullRequestPattern, s, PrClass(s, i, j).value)
    decreases |s| - j
  {
    if j < |s| && InClass(s[j], SpaceOrLowercase) {
      PrClassSound(s, i, j + 1);
    } else if j < |s| && s[j] == '#' {
      PrDigitsSound(s, i, j, j + 1);
    }
  }

  lemma {:induction false} PrSpacesComplete(s: string, h: Hit, m: nat)
    requires ValidHit(PullRequestPattern, s, h) && h.capEnd <= m < h.end
    ensures PrSpaces(s, h.start, h.capStart, h.capEnd, m) == Some(h)
    decreases h.end - m
  {
    if m < h.end - 1 {
      assert InClass(s[m], Whitespace);
      PrSpacesComplete(s, h, m + 1);
    }
  }

  lemma {:induction false} PrDigitsComplete(s: string, h: Hit, k: nat)
    requires ValidHit(PullRequestPattern, s, h) && h.capStart < k <= h.capEnd
    ensures PrDigits(s, h.start, h.capStart, k) == Some(h)
    decreases h.capEnd - k
  {
    if k < h.capEnd {
      assert InClass(s[k], Digit);
      PrDigitsComplete(s, h, k + 1);
    } else {
      assert !IsDigit(s[k]) by {
        if k < h.end - 1 {
          assert InClass(s[k], Whitespace);
        }
      }
      PrSpacesComplete(s, h, k);
    }
  }

  lemma {:induction false} PrClassComplete(s: string, h: Hit, j: nat)
    requires ValidHit(PullRequestPattern, s, h) && h.start < j <= h.capStart
    ensures PrClass(s, h.start, j) == Some(h)
    decreases h.capStart - j
  {
    if j < h.capStart {
      assert InClass(s[j], SpaceOrLowercase);
      PrClassComplete(s, h, j + 1);
    } else {
      PrDigitsComplete(s, h, j + 1);
    }
  }

  /** Every match the matcher reports is a match of the pattern. */
  lemma HitAtSound(pat: Pattern, s: string, i: nat)
    requires i <= |s|
    ensures HitAt(pat, s, i).Some? ==> ValidHit(pat, s, HitAt(pat, s, i).value)
  {
    if pat == PullRequestPattern && i < |s| && s[i] == '(' {
      PrClassSound(s, i, i + 1);
    }
  }

  /** The matcher misses no match: a pull-request match at `i` is the one it reports, and an
      issue match at `i` is no longer than the reported one (greedy `\d+`). */
  lemma HitAtComplete(pat: Pattern, s: string, i: nat, h: Hit)
    requires ValidHit(pat, s, h) && h.start == i
    ensures HitAt(pat, s, i).Some?
    ensures pat == PullRequestPattern ==> HitAt(pat, s, i) == Some(h)
    ensures pat == IssuePattern ==> h.capEnd <= HitAt(pat, s, i).value.capEnd
  {
    if pat == PullRequestPattern {
      PullRequestComplete(s, h);
    } else {
      SpanMaximal(s, i + 1, h.capEnd, Digit);
    }
  }

  /** The pull-request match at a position is unique, and the matcher finds it. */
  lemma PullRequestComplete(s: string, h: Hit)
    requires ValidHit(PullRequestPattern, s, h)
    ensures HitAt(PullRequestPattern, s, h.start) == Some(h)
  {
    PrClassComplete(s, h, h.start + 1);
  }


  /** No match starts strictly inside another: a pull-request marker holds no `(` after its
      first character and an issue marker no `#` after its first. */
  lemma NoHitInside(pat: Pattern, s: string, h: Hit, p: nat)
    requires ValidHit(pat, s, h) && h.start < p < h.end
    ensures HitAt(pat, s, p).None?
  {
    HitAtSound(pat, s, p);
    if pat == PullRequestPattern {
      if p < h.capStart {
        assert InClass(s[p], SpaceOrLowercase);
      } else if h.capStart < p < h.capEnd {
        assert InClass(s[p], Digit);
      } else if h.capEnd <= p < h.end - 1 {
        assert InClass(s[p], Whitespace);
      }
    } else {
      assert InClass(s[p], Digit);
    }
  }

  /** A match that starts after the start of another starts at or after its end. */
  lemma NoHitBefore(pat: Pattern, s: string, i: nat, p: nat)
    requires i < p < |s| && HitAt(pat, s, i).Some? && HitAt(pat, s, p).Some?
    ensures HitAt(pat, s, i).value.end <= p
  {
    var h := HitAt(pat, s, i).value;
    HitAtSound(pat, s, i);
    if p < h.end {
      NoHitInside(pat, s, h, p);
    }
  }

  /** `s.matchAll(pat)` from position `i`: the first match at or after `i`, then the matches
      from where it ended. */
  function Scan(pat: Pattern, s: string, i: nat): (hs: seq<Hit>)
    requires i <= |s|
    ensures forall k :: 0 <= k < |hs| ==>
              i <= hs[k].start < hs[k].end <= |s| && hs[k].capStart <= hs[k].capEnd <= hs[k].end
    ensures forall k :: 0 <= k < |hs| - 1 ==> hs[k].end <= hs[k + 1].start
    decreases |s| - i
  {
    if i == |s| then []
    else match HitAt(pat, s, i)
      case Some(h) => [h] + Scan(pat, s, h.end)
      case None => Scan(pat, s, i + 1)
  }

  /** Each hit of the scan is the match at its start. */
  lemma {:induction false} ScanSound(pat: Pattern, s: string, i: nat, k: nat)
    requires i <= |s| && k < |Scan(pat, s, i)|
    ensures HitAt(pat, s, Scan(pat, s, i)[k].start) == Some(Scan(pat, s, i)[k])
    decreases |s| - i
  {
    match HitAt(pat, s, i)
    case Some(h) =>
      if k > 0 {
        ScanSound(pat, s, h.end, k - 1);
      }
    case None =>
      ScanSound(pat, s, i + 1, k);
  }

  /** One step of the scan at a position where the pattern matches. */
  lemma ScanHit(pat: Pattern, s: string, i: nat)
    requires i < |s| && HitAt(pat, s, i).Some?
    ensures Scan(pat, s, i) == [HitAt(pat, s, i).value] + Scan(pat, s, HitAt(pat, s, i).value.end)
  {
  }

  /** One step of the scan at a position where the pattern does not match. */
  lemma ScanMiss(pat: Pattern, s: string, i: nat)
    requires i < |s| && HitAt(pat, s, i).None?
    ensures Scan(pat, s, i) == Scan(pat, s, i + 1)
  {
  }

  /** Because matches cannot overlap, `matchAll` reports a match at every position where the
      pattern matches. */
  lemma {:induction false} ScanComplete(pat: Pattern, s: string, i: nat, p: nat) returns (k: nat)
    requires i <= p < |s| && HitAt(pat, s, p).Some?
    ensures k < |Scan(pat, s, i)| && Scan(pat, s, i)[k].start == p
    decreases p - i
  {
    if i == p {
      ScanHit(pat, s, p);
      k := 0;
    } else if HitAt(pat, s, i).None? {
      ScanMiss(pat, s, i);
      k := ScanComplete(pat, s, i + 1, p);
    } else {
      var h := HitAt(pat, s, i).value;
      ScanHit(pat, s, i);
      NoHitBefore(pat, s, i, p);
      var k' := ScanComplete(pat, s, h.end, p);
      k := k' + 1;
    }
  }

  /** The scan from `i` when the first match at or after `i` is at `p`. */
  lemma {:induction false} ScanNext(pat: Pattern, s: string, i: nat, p: nat)
    requires i <= p < |s| && HitAt(pat, s, p).Some?
    requires forall q :: i <= q < p ==> HitAt(pat, s, q).None?
    ensures Scan(pat, s, i) == [HitAt(pat, s, p).value] + Scan(pat, s, HitAt(pat, s, p).value.end)
    decreases p - i
  {
    if i < p {
      assert HitAt(pat, s, i).None?;
      assert Scan(pat, s, i) == Scan(pat, s, i + 1);
      ScanNext(pat, s, i + 1, p);
    }
  }

  /** The scan from `i` when nothing matches at or after `i`. */
  lemma {:induction false} ScanNone(pat: Pattern, s: string, i: nat)
    requires i <= |s|
    requires forall q :: i <= q < |s| ==> HitAt(pat, s, q).None?
    ensures Scan(pat, s, i) == []
    decreases |s| - i
  {
    if i < |s| {
      ScanNone(pat, s, i + 1);
    }
  }

  /** `match[1]` of each match of `s.matchAll(pat)`, in order. */
  function Captures(pat: Pattern, s: string): (vs: seq<string>)
  {
    var hs := Scan(pat, s, 0);
    seq(|hs|, k requires 0 <= k < |hs| => s[hs[k].capStart..hs[k].capEnd])
  }

  /** Every capture is a `#` followed by digits. */
  lemma CapturesAreValues(pat: Pattern, s: string)
    ensures forall k :: 0 <= k < |Captures(pat, s)| ==> IsRefValue(Captures(pat, s)[k])
  {
    var hs := Scan(pat, s, 0);
    forall k | 0 <= k < |hs| ensures IsRefValue(Captures(pat, s)[k]) {
      ScanSound(pat, s, 0, k);
      HitAtSound(pat, s, hs[k].start);
      var v := Captures(pat, s)[k];
      assert forall j :: 1 <= j < |v| ==> v[j] == s[hs[k].capStart + j];
    }
  }

  // ---------------------------------------------------------------------------
  // Deleting the pull-request markers: description.replace(PullRequestRE, "")
  // ---------------------------------------------------------------------------

  /** `s[i..].replace(PullRequestRE, "")`: the search resumes after each deleted marker. */
  function RemovePullRequests(s: string, i: nat): string
    requires i <= |s|
    decreases |s| - i
  {
    if i == |s| then ""
    else match HitAt(PullRequestPattern, s, i)
      case Some(h) => RemovePullRequests(s, h.end)
      case None => [s[i]] + RemovePullRequests(s, i + 1)
  }

  /** Position `p` lies inside one of the matches `hs`. */
  ghost predicate Covered(hs: seq<Hit>, p: nat)
  {
    exists k :: 0 <= k < |hs| && hs[k].start <= p < hs[k].end
  }

  /** The characters of `s[i..]` outside every match of `hs`, in order. */
  ghost function Uncovered(s: string, hs: seq<Hit>, i: nat): string
    requires i <= |s|
    decreases |s| - i
  {
    if i == |s| then "" else (if Covered(hs, i) then "" else [s[i]]) + Uncovered(s, hs, i + 1)
  }

  lemma {:induction false} UncoveredSkip(s: string, hs: seq<Hit>, i: nat, j: nat)
    requires i <= j <= |s|
    requires forall p :: i <= p < j ==> Covered(hs, p)
    ensures Uncovered(s, hs, i) == Uncovered(s, hs, j)
    decreases j - i
  {
    if i < j {
      UncoveredSkip(s, hs, i + 1, j);
    }
  }

  lemma {:induction false} UncoveredSame(s: string, hs1: seq<Hit>, hs2: seq<Hit>, i: nat)
    requires i <= |s|
    requires forall p :: i <= p < |s| ==> (Covered(hs1, p) <==> Covered(hs2, p))
    ensures Uncovered(s, hs1, i) == Uncovered(s, hs2, i)
    decreases |s| - i
  {
    if i < |s| {
      var b := Covered(hs1, i);
      assert b == Covered(hs2, i);
      UncoveredSame(s, hs1, hs2, i + 1);
      assert Uncovered(s, hs1, i) == (if b then "" else [s[i]]) + Uncovered(s, hs2, i + 1);
    }
  }

  /** A match at `i` followed by matches from its end on: the characters it spans are
      covered, and the later matches decide the rest. */
  lemma UncoveredAfterHit(s: string, h: Hit, rest: seq<Hit>, i: nat)
    requires h.start == i < h.end <= |s|
    requires forall k :: 0 <= k < |rest| ==> h.end <= rest[k].start
    ensures Uncovered(s, [h] + rest, i) == Uncovered(s, rest, h.end)
  {
    var hs := [h] + rest;
    forall p | i <= p < h.end ensures Covered(hs, p) {
      assert hs[0] == h;
    }
    UncoveredSkip(s, hs, i, h.end);
    forall p | h.end <= p < |s| ensures Covered(hs, p) <==> Covered(rest, p) {
      if Covered(hs, p) {
        var k :| 0 <= k < |hs| && hs[k].start <= p < hs[k].end;
        assert k > 0 && hs[k] == rest[k - 1];
      }
      if Covered(rest, p) {
        var k :| 0 <= k < |rest| && rest[k].start <= p < rest[k].end;
        assert hs[k + 1] == rest[k];
      }
    }
    UncoveredSame(s, hs, rest, h.end);
  }

  /** The replacement deletes exactly the characters inside pull-request matches and keeps
      every other character, in order (issue markers outside a pull-request marker stay). */
  lemma {:induction false} RemoveKeepsUncovered(s: string, i: nat)
    requires i <= |s|
    ensures RemovePullRequests(s, i) == Uncovered(s, Scan(PullRequestPattern, s, i), i)
    decreases |s| - i
  {
    var hs := Scan(PullRequestPattern, s, i);
    if i < |s| {
      match HitAt(PullRequestPattern, s, i)
      case Some(h) =>
        assert hs == [h] + Scan(PullRequestPattern, s, h.end);
        RemoveKeepsUncovered(s, h.end);
        UncoveredAfterHit(s, h, Scan(PullRequestPattern, s, h.end), i);
      case None =>
        assert hs == Scan(PullRequestPattern, s, i + 1);
        RemoveKeepsUncovered(s, i + 1);
        assert !Covered(hs, i);
    }
  }

  /** A description without a pull-request marker is left as it is. */
  lemma {:induction false} RemoveWithoutMarkers(s: string, i: nat)
    requires i <= |s|
    requires forall q :: i <= q < |s| ==> HitAt(PullRequestPattern, s, q).None?
    ensures RemovePullRequests(s, i) == s[i..]
    decreases |s| - i
  {
    if i < |s| {
      RemoveWithoutMarkers(s, i + 1);
      assert s[i..] == [s[i]] + s[i + 1..];
    }
  }

  // ---------------------------------------------------------------------------
  // The insertion-ordered map `refs`
  // ---------------------------------------------------------------------------

  datatype RefType = Issue | PullRequest

  /** `{ type, value }`; the map `refs` is kept as its list of entries in insertion order. */
  datatype Reference = Reference(refType: RefType, value: string)

  function Keys(m: seq<Reference>): (ks: seq<string>)
    ensures |ks| == |m| && forall k :: 0 <= k < |m| ==> ks[k] == m[k].value
  {
    seq(|m|, k requires 0 <= k < |m| => m[k].value)
  }

  /** `refs.set(v, t)`: a present key keeps its position and takes the new type; a new key
      goes last. */
  function Put(m: seq<Reference>, v: string, t: RefType): (r: seq<Reference>)
    requires NoDuplicates(Keys(m))
    ensures Keys(r) == if v in Keys(m) then Keys(m) else Keys(m) + [v]
    ensures NoDuplicates(Keys(r))
    ensures forall k :: 0 <= k < |r| && r[k].value != v ==> k < |m| && r[k] == m[k]
    ensures forall k :: 0 <= k < |r| && r[k].value == v ==> r[k].refType == t
  {
    if v in Keys(m) then m[FirstIndex(Keys(m), v) := Reference(t, v)] else m + [Reference(t, v)]
  }

  /** The pull-request loop of `append`: every capture is set to `pull-request`. */
  function SetPullRequests(m: seq<Reference>, vs: seq<string>): (r: seq<Reference>)
    requires NoDuplicates(Keys(m))
    ensures NoDuplicates(Keys(r))
  {
    if vs == [] then m else Put(SetPullRequests(m, vs[..|vs| - 1]), vs[|vs| - 1], PullRequest)
  }

  /** The issue loop of `append`: a capture not yet present is added as an `issue`. */
  function AddIssues(m: seq<Reference>, vs: seq<string>): (r: seq<Reference>)
    requires NoDuplicates(Keys(m))
    ensures NoDuplicates(Keys(r))
  {
    if vs == [] then m
    else
      var m' := AddIssues(m, vs[..|vs| - 1]);
      var v := vs[|vs| - 1];
      if v in Keys(m') then m' else Put(m', v, Issue)
  }

  /** What `append(text)` does to `refs`. */
  function AppendText(m: seq<Reference>, text: string): (r: seq<Reference>)
    requires NoDuplicates(Keys(m))
    ensures NoDuplicates(Keys(r))
  {
    AddIssues(SetPullRequests(m, Captures(PullRequestPattern, text)), Captures(IssuePattern, text))
  }

  // ---------------------------------------------------------------------------
  // The reference list, defined independently of the passes
  // ---------------------------------------------------------------------------

  /** The values `vs` in order, each typed `pull-request` exactly when it is in `prs`. */
  function Typed(vs: seq<string>, prs: seq<string>): (r: seq<Reference>)
    ensures Keys(r) == vs
    ensures forall k :: 0 <= k < |r| ==> (r[k].refType == PullRequest <==> vs[k] in prs)
  {
    seq(|vs|, k requires 0 <= k < |vs| => Reference(if vs[k] in prs then PullRequest else Issue, vs[k]))
  }

  /** Setting a pull request on a `Typed` map: the key keeps its place or goes last, and
      it joins the pull requests. */
  lemma PutPullRequestTyped(d: seq<string>, prs: seq<string>, y: string)
    requires NoDuplicates(d)
    ensures Put(Typed(d, prs), y, PullRequest) == Typed(if y in d then d else d + [y], prs + [y])
  {
    var after := Put(Typed(d, prs), y, PullRequest);
    var want := Typed(if y in d then d else d + [y], prs + [y]);
    assert |after| == |want|;
    forall k | 0 <= k < |after| ensures after[k] == want[k] {
      if after[k].value != y {
        assert (after[k].value in prs) <==> (after[k].value in prs + [y]);
      }
    }
  }

  /** Adding an issue that is neither a key nor a pull request: it goes last, as an issue. */
  lemma PutIssueTyped(d: seq<string>, prs: seq<string>, y: string)
    requires NoDuplicates(d) && y !in d && y !in prs
    ensures Put(Typed(d, prs), y, Issue) == Typed(d + [y], prs)
  {
    var after := Put(Typed(d, prs), y, Issue);
    var want := Typed(d + [y], prs);
    assert |after| == |want|;
    forall k | 0 <= k < |after| ensures after[k] == want[k] {
    }
  }

  /** The pull-request pass over a map of the `Typed` shape keeps that shape: the keys are
      the first occurrences of everything inserted so far, the pull requests all of them. */
  lemma {:induction false} SetPullRequestsTyped(xs: seq<string>, prs: seq<string>, ys: seq<string>)
    ensures SetPullRequests(Typed(Dedup(xs), prs), ys) == Typed(Dedup(xs + ys), prs + ys)
    decreases |ys|
  {
    if ys == [] {
      assert xs + ys == xs && prs + ys == prs;
    } else {
      var init := ys[..|ys| - 1];
      var y := ys[|ys| - 1];
      assert ys == init + [y];
      assert xs + ys == (xs + init) + [y];
      assert prs + ys == (prs + init) + [y];
      SetPullRequestsTyped(xs, prs, init);
      DedupSnoc(xs + init, y);
      PutPullRequestTyped(Dedup(xs + init), prs + init, y);
    }
  }

  /** The issue pass keeps the `Typed` shape and adds no pull request. */
  lemma {:induction false} AddIssuesTyped(xs: seq<string>, prs: seq<string>, ys: seq<string>)
    requires forall k :: 0 <= k < |prs| ==> prs[k] in xs
    ensures AddIssues(Typed(Dedup(xs), prs), ys) == Typed(Dedup(xs + ys), prs)
    decreases |ys|
  {
    if ys == [] {
      assert xs + ys == xs;
    } else {
      var init := ys[..|ys| - 1];
      var y := ys[|ys| - 1];
      assert ys == init + [y];
      assert xs + ys == (xs + init) + [y];
      AddIssuesTyped(xs, prs, init);
      DedupSnoc(xs + init, y);
      if y !in Dedup(xs + init) {
        assert y !in prs;
        PutIssueTyped(Dedup(xs + init), prs, y);
      }
    }
  }

  /** One call of `append` on a map of the `Typed` shape. */
  lemma AppendTextTyped(xs: seq<string>, prs: seq<string>, text: string)
    requires forall k :: 0 <= k < |prs| ==> prs[k] in xs
    ensures var p := Captures(PullRequestPattern, text);
      AppendText(Typed(Dedup(xs), prs), text)
        == Typed(Dedup(xs + p + Captures(IssuePattern, text)), prs + p)
  {
    var p := Captures(PullRequestPattern, text);
    var i := Captures(IssuePattern, text);
    SetPullRequestsTyped(xs, prs, p);
    forall k | 0 <= k < |prs + p| ensures (prs + p)[k] in xs + p {
      if k >= |prs| {
        assert (prs + p)[k] == p[k - |prs|];
      }
    }
    AddIssuesTyped(xs + p, prs + p, i);
  }

  /** What a `Typed` list of first occurrences promises: unique values, every inserted value
      present, types by membership in `prs`, and the order of first insertion. */
  lemma TypedFacts(xs: seq<string>, prs: seq<string>)
    ensures var r := Typed(Dedup(xs), prs);
      && NoDuplicates(Keys(r))
      && (forall k :: 0 <= k < |xs| ==> xs[k] in Keys(r))
      && (forall k :: 0 <= k < |r| ==> r[k].value in xs)
      && (forall i, j :: 0 <= i < j < |r| ==> FirstIndex(xs, r[i].value) < FirstIndex(xs, r[j].value))
  {
    var r := Typed(Dedup(xs), prs);
    forall i, j | 0 <= i < j < |r| ensures FirstIndex(xs, r[i].value) < FirstIndex(xs, r[j].value) {
      DedupFirstOccurrence(xs, i, j);
    }
  }

  /** Every capture, in the order the four passes see them: description pull requests,
      description issues, body pull requests, body issues. */
  function AllCaptures(description: string, body: string): seq<string>
  {
    Captures(PullRequestPattern, description) + Captures(IssuePattern, description)
      + Captures(PullRequestPattern, body) + Captures(IssuePattern, body)
  }

  /** The pull-request captures of the description and of the body. */
  function PullRequestCaptures(description: string, body: string): seq<string>
  {
    Captures(PullRequestPattern, description) + Captures(PullRequestPattern, body)
  }

  lemma NoCapturesInEmpty(pat: Pattern)
    ensures Captures(pat, "") == []
  {
  }

  // ---------------------------------------------------------------------------
  // extractReferences
  // ---------------------------------------------------------------------------

  /** `append(text)`: the pull-request loop, then the issue loop over `text`. */
  method Append(refs: seq<Reference>, text: string) returns (r: seq<Reference>)
    requires NoDuplicates(Keys(refs))
    ensures r == AppendText(refs, text)
  {
    var prs := Scan(PullRequestPattern, text, 0);
    ghost var pv := Captures(PullRequestPattern, text);
    r := refs;
    for k := 0 to |prs|
      invariant NoDuplicates(Keys(r))
      invariant r == SetPullRequests(refs, pv[..k])
    {
      var value := text[prs[k].capStart..prs[k].capEnd];
      assert value == pv[k];
      assert pv[..k + 1][..k] == pv[..k];
      r := Put(r, value, PullRequest);
    }
    assert pv[..|prs|] == pv;
    var mid := r;
    var issues := Scan(IssuePattern, text, 0);
    ghost var iv := Captures(IssuePattern, text);
    for k := 0 to |issues|
      invariant NoDuplicates(Keys(r))
      invariant r == AddIssues(mid, iv[..k])
    {
      var value := text[issues[k].capStart..issues[k].capEnd];
      assert value == iv[k];
      assert iv[..k + 1][..k] == iv[..k];
      if value !in Keys(r) {
        r := Put(r, value, Issue);
      }
    }
    assert iv[..|issues|] == iv;
  }

  /** The four passes: `append(description)`, then `append(body)` when the body is not
      empty. */
  function Passes(description: string, body: string): (r: seq<Reference>)
    ensures NoDuplicates(Keys(r))
  {
    var m := AppendText([], description);
    if body != "" then AppendText(m, body) else m
  }

  /** The passes produce the distinct captures in order of first occurrence, typed by
      membership in the pull-request captures. */
  lemma PassesTyped(description: string, body: string)
    ensures Passes(description, body)
         == Typed(Dedup(AllCaptures(description, body)), PullRequestCaptures(description, body))
  {
    var pd := Captures(PullRequestPattern, description);
    var id := Captures(IssuePattern, description);
    assert Typed(Dedup([]), []) == [];
    AppendTextTyped([], [], description);
    assert [] + pd + id == pd + id && [] + pd == pd;
    if body != "" {
      forall k | 0 <= k < |pd| ensures pd[k] in pd + id {
        assert (pd + id)[k] == pd[k];
      }
      AppendTextTyped(pd + id, pd, body);
    } else {
      NoCapturesInEmpty(PullRequestPattern);
      NoCapturesInEmpty(IssuePattern);
      assert AllCaptures(description, body) == pd + id;
      assert PullRequestCaptures(description, body) == pd;
    }
  }

  /** Every value of the reference list is a `#` followed by digits. */
  lemma PassesValues(description: string, body: string)
    ensures forall k :: 0 <= k < |Passes(description, body)| ==>
              IsRefValue(Passes(description, body)[k].value)
  {
    var all := AllCaptures(description, body);
    PassesTyped(description, body);
    CapturesAreValues(PullRequestPattern, description);
    CapturesAreValues(IssuePattern, description);
    CapturesAreValues(PullRequestPattern, body);
    CapturesAreValues(IssuePattern, body);
    forall k | 0 <= k < |Passes(description, body)| ensures IsRefValue(Passes(description, body)[k].value) {
      assert Passes(description, body)[k].value in all;
    }
  }

  /** `extractReferences(description, body)`. The references are the distinct captures of
      the four passes in order of first occurrence, each a `#` and digits, typed
      `pull-request` exactly when some pull-request marker of the description or the body
      carries it; the cleaned description is the description without its pull-request
      markers, trimmed. */
  method ExtractReferences(description: string, body: string)
      returns (references: seq<Reference>, cleanedDescription: string)
    ensures references
         == Typed(Dedup(AllCaptures(description, body)), PullRequestCaptures(description, body))
    ensures NoDuplicates(Keys(references))
    ensures forall k :: 0 <= k < |references| ==> IsRefValue(references[k].value)
    ensures forall k :: 0 <= k < |AllCaptures(description, body)| ==>
              AllCaptures(description, body)[k] in Keys(references)
    ensures forall k :: 0 <= k < |references| ==>
              (references[k].refType == PullRequest
               <==> references[k].value in PullRequestCaptures(description, body))
    ensures forall i, j :: 0 <= i < j < |references| ==>
              FirstIndex(AllCaptures(description, body), references[i].value)
              < FirstIndex(AllCaptures(description, body), references[j].value)
    ensures cleanedDescription == Trim(RemovePullRequests(description, 0))
  {
    var refs: seq<Reference> := [];
    refs := Append(refs, description);
    if body != "" {
      refs := Append(refs, body);
    }
    references := refs;
    PassesTyped(description, body);
    PassesValues(description, body);
    TypedFacts(AllCaptures(description, body), PullRequestCaptures(description, body));
    cleanedDescription := Trim(RemovePullRequests(description, 0));
  }

  /** A pull-request marker after an issue marker in the description: the pull request is
      recorded first, because its pass runs first, and the marker is deleted from the
      description while the issue marker stays. */
  lemma PullRequestBeforeIssue(s: string)
    requires s == "#1 (#2)"
    ensures Passes(s, "") == [Reference(PullRequest, "#2"), Reference(Issue, "#1")]
    ensures Trim(RemovePullRequests(s, 0)) == "#1"
  {
    ScenarioPullRequests(s);
    ScenarioIssues(s);
    NoCapturesInEmpty(PullRequestPattern);
    NoCapturesInEmpty(IssuePattern);
    assert AllCaptures(s, "") == ["#2", "#1", "#2"];
    assert Dedup(["#2", "#1", "#2"]) == ["#2", "#1"] by {
      assert ["#2", "#1", "#2"][..2] == ["#2", "#1"];
      assert ["#2", "#1"][..1] == ["#2"];
    }
    PassesTyped(s, "");
    ScenarioCleaned(s);
  }

  lemma ScenarioCleaned(s: string)
    requires s == "#1 (#2)"
    ensures Trim(RemovePullRequests(s, 0)) == "#1"
  {
    ScenarioRemoved(s);
    var t := RemovePullRequests(s, 0);
    assert !IsWhitespace(t[0]) && !IsWhitespace(t[1]) && IsWhitespace(t[2]);
    TrimToSlice(t, 0, 2);
    assert t[0..2] == "#1";
  }

  lemma ScenarioMarker(s: string)
    requires s == "#1 (#2)"
    ensures HitAt(PullRequestPattern, s, 3) == Some(Hit(3, 4, 6, 7))
  {
    assert PrSpaces(s, 3, 4, 6, 6) == Some(Hit(3, 4, 6, 7));
    assert PrDigits(s, 3, 4, 6) == PrSpaces(s, 3, 4, 6, 6);
    assert PrDigits(s, 3, 4, 5) == PrDigits(s, 3, 4, 6);
    assert PrClass(s, 3, 4) == PrDigits(s, 3, 4, 5);
  }

  lemma ScenarioPullRequests(s: string)
    requires s == "#1 (#2)"
    ensures Captures(PullRequestPattern, s) == ["#2"]
  {
    ScenarioMarker(s);
    ScanNext(PullRequestPattern, s, 0, 3);
    ScanNone(PullRequestPattern, s, 7);
    assert Scan(PullRequestPattern, s, 0) == [Hit(3, 4, 6, 7)];
    assert s[4..6] == "#2";
  }

  lemma ScenarioIssues(s: string)
    requires s == "#1 (#2)"
    ensures Captures(IssuePattern, s) == ["#1", "#2"]
  {
    assert Span(s, 1, Digit) == 2 && Span(s, 5, Digit) == 6;
    ScanHit(IssuePattern, s, 0);
    ScanNext(IssuePattern, s, 2, 4);
    ScanNone(IssuePattern, s, 6);
    assert Scan(IssuePattern, s, 0) == [Hit(0, 0, 2, 2), Hit(4, 4, 6, 6)];
    assert s[0..2] == "#1" && s[4..6] == "#2";
  }

  lemma ScenarioRemoved(s: string)
    requires s == "#1 (#2)"
    ensures RemovePullRequests(s, 0) == "#1 "
  {
    ScenarioMarker(s);
    assert RemovePullRequests(s, 3) == RemovePullRequests(s, 7) == "";
    assert RemovePullRequests(s, 2) == " ";
    assert RemovePullRequests(s, 1) == "1 ";
  }

  /** A pull-request marker closing a description: it is the one reference, typed
      `pull-request` although the issue pass sees its number too, and deleting it leaves the
      text before it. */
  lemma TrailingPullRequest(s: string)
    requires s == "add button (#42)"
    ensures Passes(s, "") == [Reference(PullRequest, "#42")]
    ensures Trim(RemovePullRequests(s, 0)) == "add button"
  {
    TrailingPullRequests(s);
    TrailingIssues(s);
    NoCapturesInEmpty(PullRequestPattern);
    NoCapturesInEmpty(IssuePattern);
    assert AllCaptures(s, "") == ["#42", "#42"];
    assert Dedup(["#42", "#42"]) == ["#42"] by {
      assert ["#42", "#42"][..1] == ["#42"];
    }
    PassesTyped(s, "");
    TrailingCleaned(s);
  }

  lemma TrailingMarker(s: string)
    requires s == "add button (#42)"
    ensures HitAt(PullRequestPattern, s, 11) == Some(Hit(11, 12, 15, 16))
    ensures forall q :: 0 <= q < 11 ==> HitAt(PullRequestPattern, s, q).None?
  {
    assert PrSpaces(s, 11, 12, 15, 15) == Some(Hit(11, 12, 15, 16));
    assert PrDigits(s, 11, 12, 15) == PrSpaces(s, 11, 12, 15, 15);
    assert PrDigits(s, 11, 12, 14) == PrDigits(s, 11, 12, 15);
    assert PrDigits(s, 11, 12, 13) == PrDigits(s, 11, 12, 14);
    assert PrClass(s, 11, 12) == PrDigits(s, 11, 12, 13);
    forall q | 0 <= q < 11 ensures HitAt(PullRequestPattern, s, q).None? {
      assert s[q] != '(';
    }
  }

  lemma TrailingPullRequests(s: string)
    requires s == "add button (#42)"
    ensures Captures(PullRequestPattern, s) == ["#42"]
  {
    TrailingMarker(s);
    ScanNext(PullRequestPattern, s, 0, 11);
    ScanNone(PullRequestPattern, s, 16);
    assert Scan(PullRequestPattern, s, 0) == [Hit(11, 12, 15, 16)];
    assert s[12..15] == "#42";
  }

  lemma TrailingIssues(s: string)
    requires s == "add button (#42)"
    ensures Captures(IssuePattern, s) == ["#42"]
  {
    assert Span(s, 15, Digit) == 15 && !InClass(s[15], Digit);
    assert Span(s, 14, Digit) == 15;
    assert Span(s, 13, Digit) == 15;
    forall q | 0 <= q < 12 ensures HitAt(IssuePattern, s, q).None? {
      assert s[q] != '#';
    }
    ScanNext(IssuePattern, s, 0, 12);
    assert HitAt(IssuePattern, s, 15).None?;
    ScanNone(IssuePattern, s, 15);
    assert Scan(IssuePattern, s, 0) == [Hit(12, 12, 15, 15)];
    assert s[12..15] == "#42";
  }

  lemma TrailingCleaned(s: string)
    requires s == "add button (#42)"
    ensures Trim(RemovePullRequests(s, 0)) == "add button"
  {
    TrailingRemoved(s);
    var t := RemovePullRequests(s, 0);
    assert !IsWhitespace(t[0]) && !IsWhitespace(t[9]) && IsWhitespace(t[10]);
    TrimToSlice(t, 0, 10);
    assert t[0..10] == "add button";
  }

  lemma TrailingRemoved(s: string)
    requires s == "add button (#42)"
    ensures RemovePullRequests(s, 0) == "add button "
  {
    TrailingRemovedEnd(s);
    assert RemovePullRequests(s, 5) == "utton ";
    assert RemovePullRequests(s, 4) == "button ";
    assert RemovePullRequests(s, 3) == " button ";
    assert RemovePullRequests(s, 2) == "d button ";
    assert RemovePullRequests(s, 1) == "dd button ";
    assert RemovePullRequests(s, 0) == "add button ";
  }

  lemma TrailingRemovedEnd(s: string)
    requires s == "add button (#42)"
    ensures RemovePullRequests(s, 6) == "tton "
  {
    TrailingMarker(s);
    assert RemovePullRequests(s, 11) == RemovePullRequests(s, 16) == "";
    assert RemovePullRequests(s, 10) == " ";
    assert RemovePullRequests(s, 9) == "n ";
    assert RemovePullRequests(s, 8) == "on ";
    assert RemovePullRequests(s, 7) == "ton ";
  }
}

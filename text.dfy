/** The String built-ins and character classes of JavaScript that the parser relies on. */
module Text {

  /** Line terminators: what the regular-expression `.` refuses to match. */
  predicate IsLineTerminator(c: char)
  {
    c == '\n' || c == '\r' || c == '\U{2028}' || c == '\U{2029}'
  }

  /** The JavaScript white-space set: what `\s` matches and what `trim()` removes
      (WhiteSpace and LineTerminator code points). */
  predicate IsWhitespace(c: char)
  {
    c == '\t' || c == '\n' || c == '\U{000B}' || c == '\U{000C}' || c == '\r' || c == ' '
    || c == '\U{00A0}' || c == '\U{1680}' || ('\U{2000}' <= c <= '\U{200A}')
    || c == '\U{2028}' || c == '\U{2029}' || c == '\U{202F}' || c == '\U{205F}'
    || c == '\U{3000}' || c == '\U{FEFF}'
  }

  predicate IsDigit(c: char) { '0' <= c <= '9' }

  /** `[a-z]` under the case-insensitive flag. */
  predicate IsAsciiLetter(c: char) { 'a' <= c <= 'z' || 'A' <= c <= 'Z' }

  /** ASCII lower-casing of one character. */
  function LowerChar(c: char): char
  {
    if 'A' <= c <= 'Z' then (c as int + 32) as char else c
  }

  /** Lower-casing of a string (ASCII letters only). */
  function ToLower(s: string): string
  {
    seq(|s|, i requires 0 <= i < |s| => LowerChar(s[i]))
  }

  /** `s` spells the lower-case word `w` at position `i`, ignoring the case of ASCII letters
      (a literal under the `i` flag). */
  predicate FoldedAt(s: string, i: nat, w: string)
  {
    i + |w| <= |s| && forall k :: 0 <= k < |w| ==> LowerChar(s[i + k]) == w[k]
  }

  /** Character classes used by the regular expressions of the parser. */
  datatype CharClass =
    | Space              // ` `
    | Letter             // `[a-z]` with the `i` flag
    | Digit              // `\d`
    | Whitespace         // `\s`
    | SpaceOrLowercase   // `[ a-z]` without the `i` flag
    | AnyButTerminator   // `.`

  predicate InClass(c: char, k: CharClass)
  {
    match k
    case Space => c == ' '
    case Letter => IsAsciiLetter(c)
    case Digit => IsDigit(c)
    case Whitespace => IsWhitespace(c)
    case SpaceOrLowercase => c == ' ' || 'a' <= c <= 'z'
    case AnyButTerminator => !IsLineTerminator(c)
  }

  /** Every character of `s[a..b]` is in class `k`. */
  predicate AllIn(s: string, a: nat, b: nat, k: CharClass)
    requires a <= b <= |s|
  {
    forall i :: a <= i < b ==> InClass(s[i], k)
  }

  /** The end of the longest run of class-`k` characters starting at `i`: where a greedy
      `k*` starting at `i` stops. */
  function Span(s: string, i: nat, k: CharClass): (j: nat)
    requires i <= |s|
    ensures i <= j <= |s|
    ensures AllIn(s, i, j, k)
    ensures j < |s| ==> !InClass(s[j], k)
    decreases |s| - i
  {
    if i < |s| && InClass(s[i], k) then Span(s, i + 1, k) else i
  }

  /** A run of class-`k` characters from `i` never extends past `Span(s, i, k)`. */
  lemma SpanMaximal(s: string, i: nat, j: nat, k: CharClass)
    requires i <= j <= |s| && AllIn(s, i, j, k)
    ensures j <= Span(s, i, k)
  {
  }

  /** A run that cannot be extended is the greedy span. */
  lemma SpanUnique(s: string, i: nat, j: nat, k: CharClass)
    requires i <= j <= |s| && AllIn(s, i, j, k) && (j < |s| ==> !InClass(s[j], k))
    ensures j == Span(s, i, k)
  {
    SpanMaximal(s, i, j, k);
  }

  /** The end of the line that contains position `i`. */
  function LineEnd(s: string, i: nat): (j: nat)
    requires i <= |s|
    ensures i <= j <= |s|
  {
    Span(s, i, AnyButTerminator)
  }

  // ---------------------------------------------------------------------------
  // String.prototype.split and Array.prototype.join with a one-character separator
  // ---------------------------------------------------------------------------

  /** `s.split(sep)`: the pieces between the separators; always at least one piece. */
  function Split(s: string, sep: char): (parts: seq<string>)
    ensures |parts| >= 1
    ensures forall i :: 0 <= i < |parts| ==> sep !in parts[i]
  {
    if |s| == 0 then [""]
    else
      var rest := Split(s[1..], sep);
      if s[0] == sep then [""] + rest
      else [[s[0]] + rest[0]] + rest[1..]
  }

  /** `parts.join(sep)`. */
  function Join(parts: seq<string>, sep: char): string
  {
    if |parts| == 0 then ""
    else if |parts| == 1 then parts[0]
    else parts[0] + [sep] + Join(parts[1..], sep)
  }

  /** Number of occurrences of `c` in `s`. */
  function Count(s: string, c: char): nat
  {
    if |s| == 0 then 0 else (if s[0] == c then 1 else 0) + Count(s[1..], c)
  }

  /** Splitting yields one piece more than there are separators. */
  lemma {:induction false} SplitLength(s: string, sep: char)
    ensures |Split(s, sep)| == Count(s, sep) + 1
  {
    if |s| > 0 {
      SplitLength(s[1..], sep);
    }
  }

  /** Joining the pieces with the separator gives the string back. */
  lemma {:induction false} JoinSplit(s: string, sep: char)
    ensures Join(Split(s, sep), sep) == s
  {
    if |s| > 0 {
      var rest := Split(s[1..], sep);
      JoinSplit(s[1..], sep);
      assert s == [s[0]] + s[1..];
      if s[0] == sep {
        assert ([""] + rest)[1..] == rest;
      } else {
        var parts := [[s[0]] + rest[0]] + rest[1..];
        assert parts[1..] == rest[1..];
        if |rest| > 1 {
          assert Join(rest, sep) == rest[0] + [sep] + Join(rest[1..], sep);
        }
      }
    }
  }

  /** Splitting a join of separator-free pieces gives the pieces back. */
  lemma {:induction false} SplitJoin(parts: seq<string>, sep: char)
    requires |parts| >= 1
    requires forall i :: 0 <= i < |parts| ==> sep !in parts[i]
    ensures Split(Join(parts, sep), sep) == parts
    decreases |parts|, |parts[0]|
  {
    var p := parts[0];
    if p == [] {
      if |parts| > 1 {
        var ps := parts[1..];
        SplitJoin(ps, sep);
        var j := Join(parts, sep);
        assert j == [sep] + Join(ps, sep);
        assert j[1..] == Join(ps, sep);
        assert parts == [""] + ps;
      }
    } else {
      var parts' := [p[1..]] + parts[1..];
      assert forall i :: 0 <= i < |parts'| ==> sep !in parts'[i] by {
        forall i | 0 <= i < |parts'| ensures sep !in parts'[i] {
          if i == 0 {
            assert forall c :: c in p[1..] ==> c in p;
          } else {
            assert parts'[i] == parts[i];
          }
        }
      }
      SplitJoin(parts', sep);
      var j := Join(parts, sep);
      assert parts'[1..] == parts[1..];
      assert j == [p[0]] + Join(parts', sep) by {
        assert p == [p[0]] + p[1..];
      }
      assert j[0] == p[0] && p[0] != sep;
      assert j[1..] == Join(parts', sep);
      var rest := Split(j[1..], sep);
      assert rest == parts';
      assert Split(j, sep) == [[p[0]] + rest[0]] + rest[1..];
      assert [p[0]] + p[1..] == p;
      assert parts == [p] + parts[1..];
    }
  }

  /** `parts.filter(Boolean)` on strings: the non-empty pieces, in order. Every piece kept is
      non-empty and one of the pieces, every non-empty piece is kept, and pieces that are all
      non-empty are kept as they are. */
  function DropEmpty(parts: seq<string>): (r: seq<string>)
    ensures forall i :: 0 <= i < |r| ==> r[i] != "" && r[i] in parts
    ensures forall p :: p in parts && p != "" ==> p in r
    ensures (forall i :: 0 <= i < |parts| ==> parts[i] != "") ==> r == parts
  {
    if |parts| == 0 then []
    else if parts[0] == "" then DropEmpty(parts[1..])
    else [parts[0]] + DropEmpty(parts[1..])
  }

  /** Filtering keeps the order of the pieces: the filter of a concatenation is the
      concatenation of the filters. */
  lemma {:induction false} DropEmptyAppend(a: seq<string>, b: seq<string>)
    ensures DropEmpty(a + b) == DropEmpty(a) + DropEmpty(b)
  {
    if |a| > 0 {
      assert (a + b)[1..] == a[1..] + b;
      DropEmptyAppend(a[1..], b);
    } else {
      assert a + b == b;
    }
  }

  /** A single piece is kept exactly when it is non-empty. */
  lemma DropEmptySingle(p: string)
    ensures DropEmpty([p]) == if p == "" then [] else [p]
  {
    assert [p][1..] == [];
  }

  // ---------------------------------------------------------------------------
  // String.prototype.trim
  // ---------------------------------------------------------------------------

  function TrimStart(s: string): string
  {
    if |s| > 0 && IsWhitespace(s[0]) then TrimStart(s[1..]) else s
  }

  function TrimEnd(s: string): string
  {
    if |s| > 0 && IsWhitespace(s[|s| - 1]) then TrimEnd(s[..|s| - 1]) else s
  }

  /** `s.trim()`. */
  function Trim(s: string): string
  {
    TrimEnd(TrimStart(s))
  }

  /** `r` is `s` with a white-space prefix and a white-space suffix removed, and neither
      end of `r` is white space. */
  ghost predicate IsTrimOf(r: string, s: string)
  {
    exists a: nat, b: nat :: a <= b <= |s| && r == s[a..b] && AllIn(s, 0, a, Whitespace)
      && AllIn(s, b, |s|, Whitespace)
      && (r != [] ==> !IsWhitespace(r[0]) && !IsWhitespace(r[|r| - 1]))
  }

  lemma {:induction false} TrimStartShape(s: string) returns (a: nat)
    ensures a <= |s| && TrimStart(s) == s[a..] && AllIn(s, 0, a, Whitespace)
    ensures a < |s| ==> !IsWhitespace(s[a])
  {
    if |s| > 0 && IsWhitespace(s[0]) {
      var a' := TrimStartShape(s[1..]);
      a := a' + 1;
      assert s[1..][a'..] == s[a..];
      forall i | 0 <= i < a ensures IsWhitespace(s[i]) {
        if i > 0 { assert s[i] == s[1..][i - 1]; }
      }
    } else {
      a := 0;
    }
  }

  lemma {:induction false} TrimEndShape(s: string) returns (b: nat)
    ensures b <= |s| && TrimEnd(s) == s[..b] && AllIn(s, b, |s|, Whitespace)
    ensures b > 0 ==> !IsWhitespace(s[b - 1])
  {
    if |s| > 0 && IsWhitespace(s[|s| - 1]) {
      var t := s[..|s| - 1];
      b := TrimEndShape(t);
      assert t[..b] == s[..b];
      forall i | b <= i < |s| ensures IsWhitespace(s[i]) {
        if i < |s| - 1 { assert s[i] == t[i]; }
      }
    } else {
      b := |s|;
    }
  }

  /** `trim()` removes exactly the leading and trailing white space. */
  lemma TrimSpec(s: string)
    ensures IsTrimOf(Trim(s), s)
  {
    var a := TrimStartShape(s);
    var t := s[a..];
    var b := TrimEndShape(t);
    assert Trim(s) == s[a..a + b];
    forall i | a + b <= i < |s| ensures IsWhitespace(s[i]) {
      assert s[i] == t[i - a];
    }
    if b > 0 {
      assert Trim(s)[0] == s[a];
      assert Trim(s)[b - 1] == t[b - 1];
    }
  }

  /** `IsTrimOf` determines the trimmed string: it is an independent definition of `trim()`. */
  lemma TrimOfUnique(r1: string, r2: string, s: string)
    requires IsTrimOf(r1, s) && IsTrimOf(r2, s)
    ensures r1 == r2
  {
    var a1: nat, b1: nat :| a1 <= b1 <= |s| && r1 == s[a1..b1] && AllIn(s, 0, a1, Whitespace)
      && AllIn(s, b1, |s|, Whitespace) && (r1 != [] ==> !IsWhitespace(r1[0]) && !IsWhitespace(r1[|r1| - 1]));
    var a2: nat, b2: nat :| a2 <= b2 <= |s| && r2 == s[a2..b2] && AllIn(s, 0, a2, Whitespace)
      && AllIn(s, b2, |s|, Whitespace) && (r2 != [] ==> !IsWhitespace(r2[0]) && !IsWhitespace(r2[|r2| - 1]));
    if r1 != [] && r2 != [] {
      assert s[a1] == r1[0] && s[b1 - 1] == r1[|r1| - 1];
      assert s[a2] == r2[0] && s[b2 - 1] == r2[|r2| - 1];
      assert a1 == a2 && b1 == b2;
    }
  }

  /** Cutting white space off both ends of `s` down to `s[a..b]`, whose ends are not white
      space, is what `trim()` does. */
  lemma TrimToSlice(s: string, a: nat, b: nat)
    requires a <= b <= |s| && AllIn(s, 0, a, Whitespace) && AllIn(s, b, |s|, Whitespace)
    requires a < b ==> !IsWhitespace(s[a]) && !IsWhitespace(s[b - 1])
    ensures Trim(s) == s[a..b]
  {
    TrimSpec(s);
    TrimOfUnique(Trim(s), s[a..b], s);
  }

  /** Trimming is idempotent. */
  lemma TrimIdempotent(s: string)
    ensures Trim(Trim(s)) == Trim(s)
  {
    var r := Trim(s);
    TrimSpec(s);
    TrimSpec(r);
    var a := TrimStartShape(r);
    var b := TrimEndShape(r[a..]);
    if r != [] {
      assert !IsWhitespace(r[0]);
      assert a == 0;
      assert r[a..] == r;
      assert !IsWhitespace(r[|r| - 1]);
      assert b == |r|;
    }
  }
}

/** String operations of the JavaScript runtime that the client relies on:
    searching for a substring, `String.prototype.split` with a non-empty
    separator and its inverse `join`, ASCII case mapping, and the whitespace
    and line-terminator classes of ECMAScript regular expressions. */
module Text {
  import opened Results

  const Crlf: string := "\r\n"

  predicate IsDigit(c: char) { '0' <= c <= '9' }

  /** Characters that `.` in a JavaScript regular expression does not match. */
  predicate IsLineTerminator(c: char) {
    c == '\n' || c == '\r' || c == '\U{2028}' || c == '\U{2029}'
  }

  /** The single characters of the `\s` class of ECMAScript: WhiteSpace and
      LineTerminator, apart from the range U+2000 to U+200A. */
  const WhitespaceChars: set<char> := {
    '\n', '\r', '\U{2028}', '\U{2029}',
    '\t', '\U{000B}', '\U{000C}', ' ', '\U{00A0}', '\U{1680}',
    '\U{202F}', '\U{205F}', '\U{3000}', '\U{FEFF}'
  }

  /** The `\s` class of ECMAScript. */
  predicate IsWhitespace(c: char) {
    c in WhitespaceChars || ('\U{2000}' <= c <= '\U{200A}')
  }

  function LowerChar(c: char): char {
    if 'A' <= c <= 'Z' then (c as int + 32) as char else c
  }

  function UpperChar(c: char): char {
    if 'a' <= c <= 'z' then (c as int - 32) as char else c
  }

  /** `toLowerCase`, restricted to the ASCII letters. */
  function Lower(s: string): string {
    seq(|s|, i requires 0 <= i < |s| => LowerChar(s[i]))
  }

  /** `toUpperCase`, restricted to the ASCII letters. */
  function Upper(s: string): string {
    seq(|s|, i requires 0 <= i < |s| => UpperChar(s[i]))
  }

  predicate StartsWith(s: string, prefix: string) {
    |prefix| <= |s| && s[..|prefix|] == prefix
  }

  predicate EndsWith(s: string, suffix: string) {
    |suffix| <= |s| && s[|s| - |suffix|..] == suffix
  }

  predicate OccursAt(s: string, pat: string, i: nat) {
    i + |pat| <= |s| && s[i..i + |pat|] == pat
  }

  predicate Contains(s: string, pat: string) {
    IndexFrom(s, pat, 0).Some?
  }

  /** The first position at or after `from` where `pat` occurs in `s`. */
  function IndexFrom(s: string, pat: string, from: nat): (r: Option<nat>)
    decreases |s| - from
    ensures r.Some? ==> from <= r.value && OccursAt(s, pat, r.value)
    ensures r.Some? ==> forall j :: from <= j < r.value ==> !OccursAt(s, pat, j)
    ensures r.None? ==> forall j: nat :: from <= j ==> !OccursAt(s, pat, j)
  {
    if from + |pat| > |s| then None
    else if OccursAt(s, pat, from) then Some(from)
    else IndexFrom(s, pat, from + 1)
  }

  /** An occurrence with none before it is the one `IndexFrom` finds. */
  lemma FirstOccurrence(s: string, pat: string, from: nat, k: nat)
    requires from <= k && OccursAt(s, pat, k)
    requires forall j :: from <= j < k ==> !OccursAt(s, pat, j)
    ensures IndexFrom(s, pat, from) == Some(k)
  {
    assert IndexFrom(s, pat, from).Some? ==> IndexFrom(s, pat, from).value >= k;
  }

  /** A single character is found at the first position holding it. */
  lemma FirstChar(s: string, c: char, from: nat, k: nat)
    requires from <= k < |s| && s[k] == c
    requires forall j :: from <= j < k ==> s[j] != c
    ensures IndexFrom(s, [c], from) == Some(k)
  {
    forall j | from <= j < k ensures !OccursAt(s, [c], j) {
      assert s[j..j + 1] == [s[j]];
    }
    assert s[k..k + 1] == [c];
    FirstOccurrence(s, [c], from, k);
  }

  /** The position `IndexFrom` finds for a single character holds it, and
      none before it does. */
  lemma CharFound(s: string, c: char, from: nat, i: nat)
    requires IndexFrom(s, [c], from) == Some(i)
    ensures i < |s| && s[i] == c && forall k :: from <= k < i ==> s[k] != c
  {
    assert s[i..i + 1] == [c];
    forall k | from <= k < i ensures s[k] != c {
      assert !OccursAt(s, [c], k);
      assert s[k..k + 1] == [s[k]];
    }
  }

  /** `s.split(sep)` for a non-empty separator: the pieces between the
      occurrences of `sep`, found from left to right. */
  function Split(s: string, sep: string): (parts: seq<string>)
    requires |sep| > 0
    decreases |s|
    ensures |parts| >= 1
    ensures Join(parts, sep) == s
    ensures forall k :: 0 <= k < |parts| ==> IndexFrom(parts[k], sep, 0).None?
  {
    match IndexFrom(s, sep, 0)
    case None => [s]
    case Some(i) =>
      var rest := Split(s[i + |sep|..], sep);
      var parts := [s[..i]] + rest;
      assert parts[1..] == rest;
      assert s == s[..i] + sep + s[i + |sep|..];
      assert IndexFrom(s[..i], sep, 0).None? by {
        forall j: nat ensures !OccursAt(s[..i], sep, j) {
          if j + |sep| <= i {
            assert s[..i][j..j + |sep|] == s[j..j + |sep|];
            assert !OccursAt(s, sep, j);
          }
        }
      }
      parts
  }

  /** The pieces come from a left-to-right scan that skips each separator it
      finds: there is more than one piece exactly when `sep` occurs, the first
      piece ends at the first occurrence, and the rest split what follows
      that occurrence, so overlapping occurrences are not separators. */
  lemma SplitLeftmost(s: string, sep: string)
    requires |sep| > 0
    ensures |Split(s, sep)| > 1 <==> IndexFrom(s, sep, 0).Some?
    ensures IndexFrom(s, sep, 0).None? ==> Split(s, sep) == [s]
    ensures IndexFrom(s, sep, 0).Some? ==>
      var i := IndexFrom(s, sep, 0).value;
      && Split(s, sep)[0] == s[..i]
      && Split(s, sep)[1..] == Split(s[i + |sep|..], sep)
  {
  }

  /** `parts.join(sep)`. */
  function Join(parts: seq<string>, sep: string): string {
    if |parts| == 0 then ""
    else if |parts| == 1 then parts[0]
    else parts[0] + sep + Join(parts[1..], sep)
  }

  /** A piece without CRLF followed by CRLF: the first CRLF is the appended one,
      since the piece's last character and the separator's first, '\r', never
      form CRLF together. */
  lemma CrlfAfterPiece(p: string, rest: string)
    requires IndexFrom(p, Crlf, 0).None?
    ensures IndexFrom(p + Crlf + rest, Crlf, 0) == Some(|p|)
  {
    var s := p + Crlf + rest;
    forall j | 0 <= j < |p| ensures !OccursAt(s, Crlf, j) {
      if j + 2 <= |p| {
        assert s[j..j + 2] == p[j..j + 2];
        assert !OccursAt(p, Crlf, j);
      } else {
        assert s[j + 1] == '\r' && Crlf[1] == '\n';
        assert s[j..j + 2][1] == s[j + 1];
      }
    }
    assert s[|p|..|p| + 2] == Crlf;
    FirstOccurrence(s, Crlf, 0, |p|);
  }

  /** Splitting on CRLF undoes joining with CRLF when no piece contains CRLF. */
  lemma {:induction false} SplitJoinCrlf(parts: seq<string>)
    requires |parts| >= 1
    requires forall k :: 0 <= k < |parts| ==> IndexFrom(parts[k], Crlf, 0).None?
    ensures Split(Join(parts, Crlf), Crlf) == parts
  {
    if |parts| == 1 {
    } else {
      var rest := Join(parts[1..], Crlf);
      var s := parts[0] + Crlf + rest;
      assert Join(parts, Crlf) == s;
      CrlfAfterPiece(parts[0], rest);
      assert s[..|parts[0]|] == parts[0];
      assert s[|parts[0]| + 2..] == rest;
      assert Split(s, Crlf) == [parts[0]] + Split(rest, Crlf);
      SplitJoinCrlf(parts[1..]);
      assert [parts[0]] + parts[1..] == parts;
    }
  }

  /** The text of `s` after its leading whitespace, as `\s*` consumes it. */
  function TrimStart(s: string): string {
    if s != [] && IsWhitespace(s[0]) then TrimStart(s[1..]) else s
  }

  /** `TrimStart` keeps a suffix, which starts with no whitespace. */
  lemma {:induction false} TrimStartSuffix(s: string)
    ensures var r := TrimStart(s);
      && |r| <= |s| && r == s[|s| - |r|..]
      && (r == [] || !IsWhitespace(r[0]))
  {
    if s != [] && IsWhitespace(s[0]) {
      TrimStartSuffix(s[1..]);
    }
  }

  /** What `TrimStart` drops is whitespace. */
  lemma {:induction false} TrimStartDropsWhitespace(s: string)
    ensures |TrimStart(s)| <= |s|
    ensures forall k :: 0 <= k < |s| - |TrimStart(s)| ==> IsWhitespace(s[k])
  {
    if s != [] && IsWhitespace(s[0]) {
      TrimStartDropsWhitespace(s[1..]);
      forall k | 0 < k < |s| - |TrimStart(s)| ensures IsWhitespace(s[k]) {
        assert s[k] == s[1..][k - 1];
      }
    }
  }
}

/**
 * The JavaScript string primitives the news script relies on: `trim`, a global
 * `replace` with a fixed pattern, `replace` of the first occurrence of a string,
 * `split` / `join` on a one-character separator, and upper-casing one character.
 */
module JsStrings {
  import opened Wrappers

  /** The characters `String.prototype.trim` removes: ECMAScript WhiteSpace and LineTerminator. */
  predicate IsJsWhitespace(c: char)
  {
    || c == '\t' || c == '\U{000B}' || c == '\U{000C}' || c == ' ' || c == '\U{00A0}' || c == '\U{FEFF}'
    || c == '\U{1680}' || ('\U{2000}' <= c <= '\U{200A}') || c == '\U{202F}' || c == '\U{205F}'
    || c == '\U{3000}'
    || c == '\n' || c == '\r' || c == '\U{2028}' || c == '\U{2029}'
  }

  /** Leading whitespace removed: the result is the suffix of `s` that starts at its first non-whitespace character. */
  function TrimStart(s: string): (r: string)
    ensures |r| <= |s| && r == s[|s| - |r|..]
    ensures forall i | 0 <= i < |s| - |r| :: IsJsWhitespace(s[i])
    ensures r == [] || !IsJsWhitespace(r[0])
    decreases |s|
  {
    if s != [] && IsJsWhitespace(s[0]) then TrimStart(s[1..]) else s
  }

  /** Trailing whitespace removed: the result is the prefix of `s` that ends at its last non-whitespace character. */
  function TrimEnd(s: string): (r: string)
    ensures |r| <= |s| && r == s[..|r|]
    ensures forall i | |r| <= i < |s| :: IsJsWhitespace(s[i])
    ensures r == [] || !IsJsWhitespace(r[|r| - 1])
    decreases |s|
  {
    if s != [] && IsJsWhitespace(s[|s| - 1]) then TrimEnd(s[..|s| - 1]) else s
  }

  /** `r` is the part of `s` that starts at `k`, and everything around it in `s` is whitespace. */
  ghost predicate TrimmedAt(s: string, r: string, k: int)
  {
    && 0 <= k <= |s| - |r| && r == s[k..k + |r|]
    && (forall i | 0 <= i < k :: IsJsWhitespace(s[i]))
    && (forall i | k + |r| <= i < |s| :: IsJsWhitespace(s[i]))
  }

  /** `s.trim()`: `s` with whitespace removed from both ends and nothing else changed. */
  function Trim(s: string): (r: string)
    ensures exists k :: TrimmedAt(s, r, k)
    ensures r == [] || (!IsJsWhitespace(r[0]) && !IsJsWhitespace(r[|r| - 1]))
  {
    var t := TrimStart(s);
    var r := TrimEnd(t);
    assert r == s[|s| - |t|..][..|r|];
    assert TrimmedAt(s, r, |s| - |t|);
    r
  }

  /** `pat` occurs in `s` starting at index `i`. */
  predicate OccursAt(s: string, pat: string, i: int)
  {
    0 <= i && i + |pat| <= |s| && s[i..i + |pat|] == pat
  }

  /**
   * `s.replace(/pat/g, rep)` for a pattern that matches only the literal text `pat`:
   * the matches are found left to right, without overlapping, and each is replaced.
   */
  function ReplaceAll(s: string, pat: string, rep: string): (r: string)
    requires pat != []
    ensures |rep| <= |pat| ==> |r| <= |s|
    decreases |s|
  {
    if |s| < |pat| then s
    else if s[..|pat|] == pat then rep + ReplaceAll(s[|pat|..], pat, rep)
    else [s[0]] + ReplaceAll(s[1..], pat, rep)
  }

  /** `pat` occurs at `i` and nowhere before it. */
  predicate FirstOccurrence(s: string, pat: string, i: int)
  {
    OccursAt(s, pat, i) && forall j | 0 <= j < i :: !OccursAt(s, pat, j)
  }

  /** Where `pat` first occurs in `s` (`s.indexOf(pat)`, with -1 as `None`). */
  function IndexOf(s: string, pat: string): (r: Option<nat>)
    ensures r.Some? ==> FirstOccurrence(s, pat, r.value)
    ensures r.None? ==> forall j :: !OccursAt(s, pat, j)
    decreases |s|
  {
    if |s| < |pat| then None
    else if s[..|pat|] == pat then Some(0)
    else
      OccurrencesInTail(s, pat);
      match IndexOf(s[1..], pat)
      case None => None
      case Some(k) => Some(k + 1)
  }

  /** `s.replace(pat, rep)` with a string pattern: only the first occurrence is replaced. */
  function ReplaceFirst(s: string, pat: string, rep: string): (r: string)
    ensures (forall j :: !OccursAt(s, pat, j)) ==> r == s
    ensures forall i | FirstOccurrence(s, pat, i) :: r == s[..i] + rep + s[i + |pat|..]
  {
    match IndexOf(s, pat)
    case None => s
    case Some(i) =>
      assert forall i' | FirstOccurrence(s, pat, i') :: i' == i by {
        forall i' | FirstOccurrence(s, pat, i')
          ensures i' == i
        {
          FirstOccurrenceUnique(s, pat, i, i');
        }
      }
      s[..i] + rep + s[i + |pat|..]
  }

  /** An occurrence past the first character is an occurrence in the rest of the text. */
  lemma OccurrencesInTail(s: string, pat: string)
    requires s != []
    ensures forall j | 1 <= j :: OccursAt(s, pat, j) <==> OccursAt(s[1..], pat, j - 1)
  {
    forall j | 1 <= j
      ensures OccursAt(s, pat, j) <==> OccursAt(s[1..], pat, j - 1)
    {
      if j + |pat| <= |s| {
        var u, v := s[j..j + |pat|], s[1..][j - 1..j - 1 + |pat|];
        assert forall k | 0 <= k < |pat| :: u[k] == v[k];
        assert u == v;
      }
    }
  }

  lemma FirstOccurrenceUnique(s: string, pat: string, i: int, k: int)
    requires FirstOccurrence(s, pat, i) && FirstOccurrence(s, pat, k)
    ensures i == k
  {
  }

  /** `parts.join(sep)` for a one-character separator. */
  function Join(parts: seq<string>, sep: char): string
  {
    if |parts| == 0 then ""
    else if |parts| == 1 then parts[0]
    else parts[0] + [sep] + Join(parts[1..], sep)
  }

  /**
   * `s.split(sep)` for a one-character separator: at least one part (`"".split("/")`
   * is `[""]`), no part contains the separator, and joining the parts gives `s` back.
   */
  function Split(s: string, sep: char): (parts: seq<string>)
    ensures |parts| >= 1
    ensures forall p | p in parts :: sep !in p
    ensures Join(parts, sep) == s
    decreases |s|
  {
    if |s| == 0 then [""]
    else if s[0] == sep then
      var rest := Split(s[1..], sep);
      assert [sep] + Join(rest, sep) == s;
      [""] + rest
    else
      var rest := Split(s[1..], sep);
      var parts := [[s[0]] + rest[0]] + rest[1..];
      assert parts[1..] == rest[1..];
      assert Join(parts, sep) == [s[0]] + Join(rest, sep);
      parts
  }

  /** `s.charAt(0).toUpperCase()` for one character, on the ASCII letters. */
  function ToUpper(c: char): (u: char)
    ensures 'a' <= c <= 'z' ==> u as int == c as int - 32
    ensures !('a' <= c <= 'z') ==> u == c
  {
    if 'a' <= c <= 'z' then (c as int - 32) as char else c
  }

  // ---------------------------------------------------------------------------
  // Properties of global replacement

  /** Replacing a pattern that does not occur changes nothing. */
  lemma {:induction false} ReplaceAllAbsent(s: string, pat: string, rep: string)
    requires pat != []
    requires forall i :: !OccursAt(s, pat, i)
    ensures ReplaceAll(s, pat, rep) == s
    decreases |s|
  {
    if |s| >= |pat| {
      assert !OccursAt(s, pat, 0);
      forall i ensures !OccursAt(s[1..], pat, i) {
        assert !OccursAt(s, pat, i + 1);
      }
      ReplaceAllAbsent(s[1..], pat, rep);
    }
  }

  /** How a replaced text begins: with `rep` where `t` begins with `pat`, otherwise with `t`'s own first character. */
  lemma ReplaceAllHead(t: string, pat: string, rep: string)
    requires pat != [] && rep != [] && t != []
    ensures var r := ReplaceAll(t, pat, rep);
      || (OccursAt(t, pat, 0) && r == rep + ReplaceAll(t[|pat|..], pat, rep))
      || (!OccursAt(t, pat, 0) && r == [t[0]] + ReplaceAll(t[1..], pat, rep))
  {
    if |t| < |pat| {
      ReplaceAllAbsent(t[1..], pat, rep);
    }
  }

  /**
   * When no character of `rep` occurs in `q`, a prefix `q` of the replaced text
   * was already a prefix of the original text.
   */
  lemma {:induction false} ReplaceAllPrefix(t: string, pat: string, rep: string, q: string)
    requires pat != [] && rep != []
    requires forall c | c in rep :: c !in q
    requires |q| <= |ReplaceAll(t, pat, rep)| && ReplaceAll(t, pat, rep)[..|q|] == q
    ensures |q| <= |t| && t[..|q|] == q
    decreases |q|
  {
    if q != [] {
      var r := ReplaceAll(t, pat, rep);
      // A replaced text starting with `pat` would start with a character of `rep`, which `q` does not.
      ReplaceAllHead(t, pat, rep);
      assert q[0] == r[0] && q[0] in q && rep[0] in rep;
      var r' := ReplaceAll(t[1..], pat, rep);
      assert r'[..|q| - 1] == r[1..][..|q| - 1] == q[1..];
      ReplaceAllPrefix(t[1..], pat, rep, q[1..]);
      assert t[..|q|] == [t[0]] + t[1..][..|q| - 1];
    }
  }

  /** No occurrence of `pat` in `rep + tail` when `tail` has none and `rep` shares no character with `pat`. */
  lemma NoOccurrenceAfterReplacement(rep: string, tail: string, pat: string)
    requires pat != [] && forall c | c in rep :: c !in pat
    requires forall i :: !OccursAt(tail, pat, i)
    ensures forall i :: !OccursAt(rep + tail, pat, i)
  {
    var r := rep + tail;
    assert pat[0] in pat;
    forall i ensures !OccursAt(r, pat, i) {
      if 0 <= i < |rep| {
        // An occurrence starting inside `rep` would start with a character of `rep`.
        assert r[i] == rep[i] && rep[i] in rep;
        assert r[i] != pat[0];
      } else if |rep| <= i && i + |pat| <= |r| {
        assert r[i..i + |pat|] == tail[i - |rep|..i - |rep| + |pat|];
        assert !OccursAt(tail, pat, i - |rep|);
      }
    }
  }

  /** No occurrence of `pat` in `[c] + tail` when `tail` has none and none starts at the front. */
  lemma NoOccurrenceAfterCopy(c: char, tail: string, pat: string)
    requires !OccursAt([c] + tail, pat, 0)
    requires forall i :: !OccursAt(tail, pat, i)
    ensures forall i :: !OccursAt([c] + tail, pat, i)
  {
    var r := [c] + tail;
    forall i ensures !OccursAt(r, pat, i) {
      assert 1 <= i && i + |pat| <= |r| ==> r[i..i + |pat|] == tail[i - 1..i - 1 + |pat|];
      assert !OccursAt(tail, pat, i - 1);
    }
  }

  /**
   * When the replacement shares no character with the pattern, no occurrence of
   * the pattern survives a global replacement.
   */
  lemma {:induction false} ReplaceAllRemovesAll(s: string, pat: string, rep: string)
    requires pat != [] && rep != []
    requires forall c | c in rep :: c !in pat
    ensures forall i :: !OccursAt(ReplaceAll(s, pat, rep), pat, i)
    decreases |s|
  {
    var r := ReplaceAll(s, pat, rep);
    if s != [] {
      ReplaceAllHead(s, pat, rep);
      if OccursAt(s, pat, 0) {
        ReplaceAllRemovesAll(s[|pat|..], pat, rep);
        NoOccurrenceAfterReplacement(rep, ReplaceAll(s[|pat|..], pat, rep), pat);
      } else {
        ReplaceAllRemovesAll(s[1..], pat, rep);
        // An occurrence at the very start would mean `s` itself starts with `pat`.
        if |pat| <= |r| && r[..|pat|] == pat {
          ReplaceAllPrefix(s, pat, rep, pat);
        }
        NoOccurrenceAfterCopy(s[0], ReplaceAll(s[1..], pat, rep), pat);
      }
    }
  }

  /** A one-character global replacement rewrites exactly the characters equal to that one. */
  lemma {:induction false} ReplaceCharPointwise(s: string, from: char, to: char)
    ensures |ReplaceAll(s, [from], [to])| == |s|
    ensures forall i | 0 <= i < |s| ::
              ReplaceAll(s, [from], [to])[i] == (if s[i] == from then to else s[i])
    decreases |s|
  {
    if |s| > 0 {
      ReplaceCharPointwise(s[1..], from, to);
    }
  }

  // ---------------------------------------------------------------------------
  // Split and Join are inverse to each other

  lemma {:induction false} SplitPrefix(p: string, t: string, sep: char)
    requires sep !in p
    ensures Split(p + t, sep) == [p + Split(t, sep)[0]] + Split(t, sep)[1..]
    decreases |p|
  {
    if p != [] {
      assert (p + t)[1..] == p[1..] + t;
      assert (p + t)[0] == p[0] && p[0] in p;
      SplitPrefix(p[1..], t, sep);
      var parts, rest := Split(t, sep), Split(p[1..] + t, sep);
      assert rest == [p[1..] + parts[0]] + parts[1..];
      assert rest[1..] == parts[1..];
      assert Split(p + t, sep) == [[p[0]] + rest[0]] + rest[1..];
      assert [p[0]] + (p[1..] + parts[0]) == p + parts[0];
    } else {
      var parts := Split(t, sep);
      assert p + t == t && p + parts[0] == parts[0];
      assert parts == [parts[0]] + parts[1..];
    }
  }

  /** Splitting parts joined with a separator none of them contains gives the parts back. */
  lemma {:induction false} SplitJoin(parts: seq<string>, sep: char)
    requires |parts| >= 1
    requires forall p | p in parts :: sep !in p
    ensures Split(Join(parts, sep), sep) == parts
    decreases |parts|
  {
    if |parts| == 1 {
      SplitPrefix(parts[0], "", sep);
      assert parts[0] + "" == parts[0];
    } else {
      var rest := Join(parts[1..], sep);
      SplitJoin(parts[1..], sep);
      assert Join(parts, sep) == parts[0] + ([sep] + rest);
      SplitPrefix(parts[0], [sep] + rest, sep);
      assert ([sep] + rest)[1..] == rest;
      assert parts[0] + "" == parts[0];
    }
  }
}

/**
 * Metadata extraction for one news article URL (`extractMetadata` in
 * scripts/generate-news.js).
 *
 * The network is not modelled: what one call observes is a `Response`, holding the
 * URL as the URL parser sees it (or `None` when the URL does not parse) and the
 * outcome of fetching the page. When the page was fetched, each of the six regular
 * expressions the script runs over the HTML contributes its first capture group as
 * an `Option<string>`. The text post-processing that follows is modelled exactly.
 */
module NewsMetadata {
  import opened Wrappers
  import opened JsValues
  import opened JsStrings

  /** First capture of each metadata pattern, `None` when the pattern did not match. */
  datatype PageMatches = PageMatches(
    titleTag: Option<string>,         // <title ...>(...)</title>
    ogTitle: Option<string>,          // <meta property="og:title" content="...">
    metaDescription: Option<string>,  // <meta name="description" content="...">
    ogDescription: Option<string>,    // <meta property="og:description" content="...">
    ogImage: Option<string>,          // <meta property="og:image" content="...">
    twitterImage: Option<string>)     // <meta name="twitter:image" content="...">

  /** What fetching the page gave. `Threw` is a network error or a body that could not be read. */
  datatype Fetch = Threw | NotOk(status: int) | Page(matches: PageMatches)

  /** The parts of a parsed URL the script reads. */
  datatype ParsedUrl = ParsedUrl(hostname: string, pathname: string)

  /**
   * Everything one call observes: the parsed URL (`None`: `new URL(url)` throws), the
   * fetch, and `today`, the UTC date `new Date()` gives when the call builds its result.
   */
  datatype Response = Response(url: Option<ParsedUrl>, fetch: Fetch, today: string)

  /** The object `extractMetadata` resolves to. `error` false stands for the absent `error` key. */
  datatype Metadata = Metadata(
    title: string,
    description: string,
    image: Option<string>,
    domain: string,
    publishDate: string,
    error: bool)

  const DefaultTitle: string := "Article"
  const DefaultDescription: string := "No description available"

  // ---------------------------------------------------------------------------
  // Text post-processing of a successful fetch

  /** The three HTML character references the script decodes, in the order it decodes them. */
  function DecodeEntities(s: string): (r: string)
    ensures |r| <= |s|
  {
    ReplaceAll(ReplaceAll(ReplaceAll(s, "&quot;", "\""), "&amp;", "&"), "&#x27;", "'")
  }

  /** A title or description capture: trimmed, then decoded. */
  function CleanText(capture: string): string
  {
    DecodeEntities(Trim(capture))
  }

  /** The hostname with its first `www.` removed, wherever that occurrence is. */
  function Domain(hostname: string): string
  {
    ReplaceFirst(hostname, "www.", "")
  }

  /** The metadata of a page that was fetched. */
  function Extracted(m: PageMatches, u: ParsedUrl, today: string): Metadata
  {
    Metadata(
      title := match OrElse(m.titleTag, m.ogTitle)
               case Some(t) => CleanText(t)
               case None => DefaultTitle,
      description := match OrElse(m.metaDescription, m.ogDescription)
                     case Some(d) => CleanText(d)
                     case None => DefaultDescription,
      image := match OrElse(m.ogImage, m.twitterImage)
               case Some(i) => Some(Trim(i))
               case None => None,
      domain := Domain(u.hostname),
      publishDate := today,
      error := false)
  }

  // ---------------------------------------------------------------------------
  // The fallback record

  /** `pathname.split('/').filter(Boolean)`: the non-empty segments, in order. */
  function NonEmptyParts(parts: seq<string>): (r: seq<string>)
    ensures |r| <= |parts|
    ensures forall p | p in r :: p != "" && p in parts
    ensures forall p | p in parts && p != "" :: p in r
  {
    if parts == [] then []
    else if parts[0] == "" then NonEmptyParts(parts[1..])
    else [parts[0]] + NonEmptyParts(parts[1..])
  }

  /** A segment appended to the path is kept, after the others, exactly when it is not empty. */
  lemma {:induction false} NonEmptyPartsSnoc(parts: seq<string>, p: string)
    ensures NonEmptyParts(parts + [p]) == NonEmptyParts(parts) + (if p == "" then [] else [p])
    decreases |parts|
  {
    if parts == [] {
      assert NonEmptyParts([p]) == (if p == "" then [] else [p]) by {
        assert [p][1..] == [];
      }
    } else {
      assert (parts + [p])[1..] == parts[1..] + [p];
      NonEmptyPartsSnoc(parts[1..], p);
    }
  }

  /**
   * The segment the fallback title is made from is the last non-empty part of the
   * path: it is some non-empty `parts[j]`, and every part after it is empty.
   */
  lemma {:induction false} LastSegmentIsLastNonEmptyPart(parts: seq<string>)
    requires NonEmptyParts(parts) != []
    ensures exists j | 0 <= j < |parts| ::
              && parts[j] != ""
              && NonEmptyParts(parts)[|NonEmptyParts(parts)| - 1] == parts[j]
              && forall k | j < k < |parts| :: parts[k] == ""
    decreases |parts|
  {
    var n := |parts| - 1;
    var front, last := parts[..n], parts[n];
    assert parts == front + [last];
    NonEmptyPartsSnoc(front, last);
    if last != "" {
      assert parts[n] != "" && NonEmptyParts(parts)[|NonEmptyParts(parts)| - 1] == parts[n];
    } else {
      LastSegmentIsLastNonEmptyPart(front);
      var j :| 0 <= j < |front| && front[j] != ""
               && NonEmptyParts(front)[|NonEmptyParts(front)| - 1] == front[j]
               && forall k | j < k < |front| :: front[k] == "";
      assert parts[j] == front[j];
      assert forall k | j < k < |parts| :: parts[k] == "" by {
        forall k | j < k < |parts| ensures parts[k] == "" {
          if k < n { assert parts[k] == front[k]; }
        }
      }
    }
  }

  /** Every part is empty exactly when no segment is left, and then the title is `"Article"`. */
  lemma {:induction false} NoSegmentsIffAllPartsEmpty(parts: seq<string>)
    ensures NonEmptyParts(parts) == [] <==> forall k | 0 <= k < |parts| :: parts[k] == ""
    decreases |parts|
  {
    if parts != [] {
      NoSegmentsIffAllPartsEmpty(parts[1..]);
      assert forall k | 1 <= k < |parts| :: parts[k] == parts[1..][k - 1];
    }
  }

  function PathSegments(pathname: string): seq<string>
  {
    NonEmptyParts(Split(pathname, '/'))
  }

  /** Every `-` and then every `_` replaced by a space. */
  function SpacesForSeparators(segment: string): string
  {
    ReplaceAll(ReplaceAll(segment, "-", " "), "_", " ")
  }

  /** `word.charAt(0).toUpperCase() + word.slice(1)`. */
  function Capitalize(word: string): string
  {
    if word == [] then [] else [ToUpper(word[0])] + word[1..]
  }

  function CapitalizeAll(words: seq<string>): (r: seq<string>)
    ensures |r| == |words|
  {
    if words == [] then [] else [Capitalize(words[0])] + CapitalizeAll(words[1..])
  }

  /** `s.split(' ').map(capitalize).join(' ')`. */
  function TitleCase(s: string): string
  {
    Join(CapitalizeAll(Split(s, ' ')), ' ')
  }

  /**
   * `.replace(/\.[^/.]+$/, "")` matches at `i`: a dot, then one or more characters
   * up to the end, none of them a dot or a slash.
   */
  predicate ExtensionAt(s: string, i: int)
  {
    0 <= i < |s| - 1 && s[i] == '.' && forall j | i < j < |s| :: s[j] != '.' && s[j] != '/'
  }

  /** Length of the longest suffix of `s` free of dots and slashes. */
  function CleanTailLength(s: string): (n: nat)
    ensures n <= |s|
    ensures forall j | |s| - n <= j < |s| :: s[j] != '.' && s[j] != '/'
    ensures n < |s| ==> s[|s| - n - 1] == '.' || s[|s| - n - 1] == '/'
    decreases |s|
  {
    if s == [] || s[|s| - 1] == '.' || s[|s| - 1] == '/' then 0
    else 1 + CleanTailLength(s[..|s| - 1])
  }

  /**
   * The file extension removed: either `s` had one and the result is `s` cut at its
   * dot, or `s` had none and is returned unchanged.
   */
  function StripExtension(s: string): (r: string)
    ensures || (|r| < |s| && r == s[..|r|] && ExtensionAt(s, |r|))
            || (r == s && forall i :: !ExtensionAt(s, i))
  {
    var n := CleanTailLength(s);
    if 0 < n < |s| && s[|s| - n - 1] == '.' then
      s[..|s| - n - 1]
    else
      assert forall i | 0 <= i < |s| - 1 && s[i] == '.' :: i < |s| - n - 1 || s[i] == '/' || n == 0;
      s
  }

  /** The title made up from the URL path when the page could not be read. */
  function FallbackTitle(segments: seq<string>): (t: string)
    ensures t != []
    ensures segments == [] ==> t == DefaultTitle
  {
    if segments == [] then DefaultTitle
    else
      var t := StripExtension(TitleCase(SpacesForSeparators(segments[|segments| - 1])));
      if t == [] then DefaultTitle else t
  }

  function FallbackDescription(domain: string): string
  {
    "Article from " + domain + " - Content temporarily unavailable"
  }

  /** The metadata built in the `catch` block. */
  function Fallback(u: ParsedUrl, today: string): Metadata
  {
    Metadata(
      title := FallbackTitle(PathSegments(u.pathname)),
      description := FallbackDescription(Domain(u.hostname)),
      image := None,
      domain := Domain(u.hostname),
      publishDate := today,
      error := true)
  }

  // ---------------------------------------------------------------------------
  // extractMetadata

  /**
   * `extractMetadata(url)`: `None` when the call rejects, which happens exactly when
   * the URL does not parse (the `catch` block parses it again and throws). Otherwise
   * a fetched page gives the extracted metadata and every other outcome the
   * fallback, flagged with `error`.
   */
  function ExtractMetadata(resp: Response): (r: Option<Metadata>)
    ensures r.None? <==> resp.url.None?
    ensures r.Some? ==> (r.value.error <==> !resp.fetch.Page?)
    ensures r.Some? ==> r.value.domain == Domain(resp.url.value.hostname) && r.value.publishDate == resp.today
    ensures r.Some? && r.value.error ==>
              && r.value.image.None?
              && r.value.title != []
              && r.value.description == "Article from " + r.value.domain + " - Content temporarily unavailable"
  {
    match resp.url
    case None => None
    case Some(u) =>
      match resp.fetch
      case Page(m) => Some(Extracted(m, u, resp.today))
      case _ => Some(Fallback(u, resp.today))
  }

  // ---------------------------------------------------------------------------
  // Properties

  /**
   * Each field takes the first pattern that matched, in a fixed order, and falls back
   * to a default; only the title and the description are decoded.
   */
  lemma FieldPrecedence(m: PageMatches, u: ParsedUrl, today: string)
    ensures var md := ExtractMetadata(Response(Some(u), Page(m), today)).value;
      && md.title == (if m.titleTag.Some? then CleanText(m.titleTag.value)
                      else if m.ogTitle.Some? then CleanText(m.ogTitle.value)
                      else DefaultTitle)
      && md.description == (if m.metaDescription.Some? then CleanText(m.metaDescription.value)
                            else if m.ogDescription.Some? then CleanText(m.ogDescription.value)
                            else DefaultDescription)
      && md.image == (if m.ogImage.Some? then Some(Trim(m.ogImage.value))
                      else if m.twitterImage.Some? then Some(Trim(m.twitterImage.value))
                      else None)
      && !md.error
  {
  }

  /** The references are decoded one after the other, so `&amp;quot;` decodes to `&quot;`, not to `"`. */
  lemma DecodeIsSequential(s: string)
    requires s == "&amp;quot;"
    ensures DecodeEntities(s) == "&quot;"
  {
    NoQuotInEscapedQuot(s);
    ReplaceAllAbsent(s, "&quot;", "\"");
    var once := ReplaceAll(s, "&amp;", "&");
    EscapedQuotDecodesOnce(s, once);
    NoApostropheInQuot(once);
    ReplaceAllAbsent(once, "&#x27;", "'");
  }

  lemma NoQuotInEscapedQuot(s: string)
    requires s == "&amp;quot;"
    ensures forall i :: !OccursAt(s, "&quot;", i)
  {
    forall i ensures !OccursAt(s, "&quot;", i) {
      assert 0 <= i && i + 6 <= |s| ==> s[i..i + 6][0] == s[i] && s[i..i + 6][1] == s[i + 1];
    }
  }

  lemma EscapedQuotDecodesOnce(s: string, once: string)
    requires s == "&amp;quot;" && once == ReplaceAll(s, "&amp;", "&")
    ensures once == "&quot;"
  {
    ReplaceAllHead(s, "&amp;", "&");
    var rest := s[5..];
    assert rest == "quot;";
    ReplaceAllAbsent(rest, "&amp;", "&");
  }

  lemma NoApostropheInQuot(once: string)
    requires once == "&quot;"
    ensures forall i :: !OccursAt(once, "&#x27;", i)
  {
    forall i ensures !OccursAt(once, "&#x27;", i) {
      assert 0 <= i && i + 6 <= |once| ==> once[i..i + 6][1] == once[i + 1];
    }
  }

  /** Text without an ampersand is left as it is. */
  lemma {:induction false} DecodeWithoutAmpersand(s: string)
    requires '&' !in s
    ensures DecodeEntities(s) == s
  {
    forall pat: string, i | pat != [] && pat[0] == '&' ensures !OccursAt(s, pat, i) {
      if 0 <= i < |s| { assert s[i] in s; }
    }
    ReplaceAllAbsent(s, "&quot;", "\"");
    ReplaceAllAbsent(s, "&amp;", "&");
    ReplaceAllAbsent(s, "&#x27;", "'");
  }

  /** No `&#x27;` is left after decoding: it is decoded last and `'` cannot rebuild one. */
  lemma DecodeLeavesNoApostropheReference(s: string)
    ensures forall i :: !OccursAt(DecodeEntities(s), "&#x27;", i)
  {
    var once := ReplaceAll(ReplaceAll(s, "&quot;", "\""), "&amp;", "&");
    ReplaceAllRemovesAll(once, "&#x27;", "'");
  }

  /** `www.` is removed where it first occurs, which need not be at the start of the hostname. */
  lemma DomainRemovesFirstWww(h: string)
    requires h == "blog.www.example.com"
    ensures Domain(h) == "blog.example.com"
  {
    forall j | 0 <= j < 5 ensures !OccursAt(h, "www.", j) {
      assert h[j..j + 4][0] == h[j];
    }
    assert OccursAt(h, "www.", 5);
    assert h[..5] + "" + h[9..] == "blog.example.com";
  }

  /** A title or description whose capture is only whitespace becomes empty: an extracted title may be `""`. */
  lemma BlankCaptureGivesEmptyTitle(m: PageMatches, u: ParsedUrl, today: string)
    requires m.titleTag == Some("   ")
    ensures ExtractMetadata(Response(Some(u), Page(m), today)).value.title == ""
  {
    var t := m.titleTag.value;
    assert IsJsWhitespace(t[0]) && IsJsWhitespace(t[1]) && IsJsWhitespace(t[2]);
    assert t[1..][1..][1..] == [];
    assert Trim(t) == "";
  }

  // ---------------------------------------------------------------------------
  // Title-casing capitalises exactly the first character of each space-separated word

  /** Reference definition: a character is upper-cased when it starts the text (and `atStart` holds) or follows a space. */
  function CapitalizeAfterSpaces(s: string, atStart: bool): (r: string)
    ensures |r| == |s|
    ensures forall i | 0 <= i < |s| ::
              r[i] == (if (if i == 0 then atStart else s[i - 1] == ' ') then ToUpper(s[i]) else s[i])
    decreases |s|
  {
    if s == [] then []
    else [if atStart then ToUpper(s[0]) else s[0]] + CapitalizeAfterSpaces(s[1..], s[0] == ' ')
  }

  lemma JoinConsHead(c: char, x: string, ys: seq<string>, sep: char)
    ensures Join([[c] + x] + ys, sep) == [c] + Join([x] + ys, sep)
  {
    if ys != [] {
      assert ([[c] + x] + ys)[1..] == ys == ([x] + ys)[1..];
    }
  }

  lemma {:induction false} TitleCaseGeneral(s: string, atStart: bool)
    ensures var parts := Split(s, ' ');
      Join([if atStart then Capitalize(parts[0]) else parts[0]] + CapitalizeAll(parts[1..]), ' ')
        == CapitalizeAfterSpaces(s, atStart)
    decreases |s|
  {
    if s != [] {
      var parts, rest := Split(s, ' '), Split(s[1..], ' ');
      TitleCaseGeneral(s[1..], s[0] == ' ');
      if s[0] == ' ' {
        assert parts == [""] + rest;
        assert CapitalizeAll(rest) == [Capitalize(rest[0])] + CapitalizeAll(rest[1..]);
        assert ([""] + CapitalizeAll(rest))[1..] == CapitalizeAll(rest);
      } else {
        assert parts == [[s[0]] + rest[0]] + rest[1..];
        var c := if atStart then ToUpper(s[0]) else s[0];
        assert (if atStart then Capitalize(parts[0]) else parts[0]) == [c] + rest[0];
        JoinConsHead(c, rest[0], CapitalizeAll(rest[1..]), ' ');
      }
    }
  }

  /** `TitleCase` upper-cases the first character of the text and every character after a space, and nothing else. */
  lemma TitleCaseCapitalizesWordStarts(s: string)
    ensures |TitleCase(s)| == |s|
    ensures forall i | 0 <= i < |s| ::
              TitleCase(s)[i] == (if i == 0 || s[i - 1] == ' ' then ToUpper(s[i]) else s[i])
  {
    var parts := Split(s, ' ');
    TitleCaseGeneral(s, true);
    assert CapitalizeAll(parts) == [Capitalize(parts[0])] + CapitalizeAll(parts[1..]);
  }

  /** No character of `s` is a dash or an underscore. */
  predicate NoSeparators(s: string)
  {
    forall i | 0 <= i < |s| :: s[i] != '-' && s[i] != '_'
  }

  lemma SpacesForSeparatorsLeavesNone(seg: string)
    ensures NoSeparators(SpacesForSeparators(seg))
  {
    var dashless := ReplaceAll(seg, "-", " ");
    ReplaceCharPointwise(seg, '-', ' ');
    ReplaceCharPointwise(dashless, '_', ' ');
  }

  lemma TitleCaseAddsNone(s: string)
    requires NoSeparators(s)
    ensures NoSeparators(TitleCase(s))
  {
    TitleCaseCapitalizesWordStarts(s);
    var cased := TitleCase(s);
    forall i | 0 <= i < |cased| ensures cased[i] != '-' && cased[i] != '_' {
      var c := s[i];
      assert cased[i] == (if i == 0 || s[i - 1] == ' ' then ToUpper(c) else c);
      assert 'a' <= c <= 'z' ==> 'A' <= ToUpper(c) <= 'Z';
    }
  }

  lemma StripExtensionAddsNone(s: string)
    requires NoSeparators(s)
    ensures NoSeparators(StripExtension(s))
  {
    var t := StripExtension(s);
    assert forall i | 0 <= i < |t| :: t[i] == s[i];
  }

  lemma NoSeparatorsMeansAbsent(s: string)
    requires NoSeparators(s)
    ensures '-' !in s && '_' !in s
  {
  }

  /** A title made up from the path never contains a dash or an underscore. */
  lemma FallbackTitleHasNoSeparators(segments: seq<string>)
    ensures '-' !in FallbackTitle(segments) && '_' !in FallbackTitle(segments)
  {
    var t := FallbackTitle(segments);
    if segments != [] {
      var spaced := SpacesForSeparators(segments[|segments| - 1]);
      SpacesForSeparatorsLeavesNone(segments[|segments| - 1]);
      TitleCaseAddsNone(spaced);
      StripExtensionAddsNone(TitleCase(spaced));
    }
    assert NoSeparators(t);
    NoSeparatorsMeansAbsent(t);
  }

  lemma PathSegmentsExample(dir: string, file: string)
    requires dir == "articles" && file == "our-big_day.md"
    ensures PathSegments("/" + dir + "/" + file) == [dir, file]
  {
    var parts := [[], dir, file];
    assert parts[1..] == [dir, file] && [dir, file][1..] == [file];
    assert Join([file], '/') == file;
    assert Join([dir, file], '/') == dir + "/" + file;
    assert Join(parts, '/') == "/" + dir + "/" + file;
    assert '/' !in dir && '/' !in file;
    SplitJoin(parts, '/');
    assert NonEmptyParts([file]) == [file] by {
      assert [file][1..] == [];
    }
    assert dir != [] && NonEmptyParts([dir, file]) == [dir] + NonEmptyParts([file]);
    assert NonEmptyParts(parts) == NonEmptyParts([dir, file]);
  }

  lemma SpacesExample(seg: string)
    requires seg == "our-big_day.md"
    ensures SpacesForSeparators(seg) == "our big day.md"
  {
    var dashless := ReplaceAll(seg, "-", " ");
    DashesExample(seg, dashless);
    UnderscoresExample(dashless);
  }

  lemma DashesExample(seg: string, dashless: string)
    requires seg == "our-big_day.md" && dashless == ReplaceAll(seg, "-", " ")
    ensures dashless == "our big_day.md"
  {
    ReplaceCharPointwise(seg, '-', ' ');
  }

  lemma UnderscoresExample(dashless: string)
    requires dashless == "our big_day.md"
    ensures ReplaceAll(dashless, "_", " ") == "our big day.md"
  {
    ReplaceCharPointwise(dashless, '_', ' ');
  }

  lemma WordsExample(w0: string, w1: string, w2: string)
    requires w0 == "our" && w1 == "big" && w2 == "day.md"
    ensures w0 + " " + w1 + " " + w2 == "our big day.md"
  {
  }

  lemma JoinThree(a: string, b: string, c: string, sep: char)
    ensures Join([a, b, c], sep) == a + [sep] + b + [sep] + c
  {
    assert [a, b, c][1..] == [b, c] && [b, c][1..] == [c];
    assert Join([c], sep) == c;
    assert Join([b, c], sep) == b + [sep] + c;
  }

  lemma CapitalizeAllThree(a: string, b: string, c: string)
    ensures CapitalizeAll([a, b, c]) == [Capitalize(a), Capitalize(b), Capitalize(c)]
  {
    assert [a, b, c][1..] == [b, c] && [b, c][1..] == [c] && [c][1..] == [];
    assert CapitalizeAll([c]) == [Capitalize(c)];
    assert CapitalizeAll([b, c]) == [Capitalize(b), Capitalize(c)];
  }

  lemma CapitalizeExample(w0: string, w1: string, w2: string)
    requires w0 == "our" && w1 == "big" && w2 == "day.md"
    ensures Capitalize(w0) == "Our" && Capitalize(w1) == "Big" && Capitalize(w2) == "Day.md"
  {
    assert ToUpper('o') == 'O' && ToUpper('b') == 'B' && ToUpper('d') == 'D';
  }

  lemma TitleCaseExample(w0: string, w1: string, w2: string)
    requires w0 == "our" && w1 == "big" && w2 == "day.md"
    ensures TitleCase(w0 + " " + w1 + " " + w2) == "Our Big Day.md"
  {
    JoinThree(w0, w1, w2, ' ');
    assert ' ' !in w0 && ' ' !in w1 && ' ' !in w2;
    SplitJoin([w0, w1, w2], ' ');
    CapitalizeAllThree(w0, w1, w2);
    CapitalizeExample(w0, w1, w2);
    JoinThree(Capitalize(w0), Capitalize(w1), Capitalize(w2), ' ');
  }

  lemma StripExtensionExample(s: string)
    requires s == "Our Big Day.md"
    ensures StripExtension(s) == "Our Big Day"
  {
    assert ExtensionAt(s, 11);
  }

  /**
   * The path `/articles/our-big_day.md` gives the title `Our Big Day`
   * (the words of the last segment are passed in to keep the proof small).
   */
  lemma FallbackTitleExample(dir: string, file: string, w0: string, w1: string, w2: string)
    requires dir == "articles" && file == "our-big_day.md"
    requires w0 == "our" && w1 == "big" && w2 == "day.md"
    ensures FallbackTitle(PathSegments("/" + dir + "/" + file)) == "Our Big Day"
  {
    PathSegmentsExample(dir, file);
    SpacesExample(file);
    WordsExample(w0, w1, w2);
    TitleCaseExample(w0, w1, w2);
    StripExtensionExample(TitleCase(SpacesForSeparators(file)));
  }
}

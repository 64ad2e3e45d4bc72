/**
 * Screenshot file names and the ids of stack-trace rows: `sanitizeFilename`, `runId`
 * and `linkToScreenshot` of src/js/html-reporter.js.
 */
module Filenames {

  const ScreenshotsDir := "screenshots/"

  /** The characters matched by `\s` in a JavaScript regular expression. */
  predicate IsJsSpace(c: char)
  {
    c == ' ' || c == '\t' || c == '\n' || c == '\U{B}' || c == '\U{C}' || c == '\r'
    || c == '\U{A0}' || c == '\U{1680}' || ('\U{2000}' <= c <= '\U{200A}')
    || c == '\U{2028}' || c == '\U{2029}' || c == '\U{202F}' || c == '\U{205F}'
    || c == '\U{3000}' || c == '\U{FEFF}'
  }

  /** The characters `[0-9a-zA-Z\-]` that survive sanitising. */
  predicate IsFilenameChar(c: char)
  {
    '0' <= c <= '9' || 'a' <= c <= 'z' || 'A' <= c <= 'Z' || c == '-'
  }

  predicate AllFilenameChars(s: string)
  {
    forall i :: 0 <= i < |s| ==> IsFilenameChar(s[i])
  }

  predicate NoSpace(s: string)
  {
    forall i :: 0 <= i < |s| ==> !IsJsSpace(s[i])
  }

  /** `s` with its leading whitespace removed. */
  function DropSpaces(s: string): (r: string)
    ensures |r| <= |s| && r == s[|s| - |r|..]
    ensures r == [] || !IsJsSpace(r[0])
  {
    if s != [] && IsJsSpace(s[0]) then DropSpaces(s[1..]) else s
  }

  /** `name.replace(/\s+/g, '-')`: every maximal run of whitespace becomes one dash. */
  function CollapseWhitespace(s: string): (r: string)
    ensures |r| <= |s|
    ensures NoSpace(r)
    decreases |s|
  {
    if s == [] then ""
    else if IsJsSpace(s[0]) then "-" + CollapseWhitespace(DropSpaces(s[1..]))
    else [s[0]] + CollapseWhitespace(s[1..])
  }

  /** `name.replace(/[^0-9a-zA-Z\-]/gi, '')`: every other character is deleted. */
  function StripDisallowed(s: string): (r: string)
    ensures |r| <= |s|
    ensures AllFilenameChars(r)
  {
    if s == [] then ""
    else (if IsFilenameChar(s[0]) then [s[0]] else "") + StripDisallowed(s[1..])
  }

  /** `sanitizeFilename`. */
  function SanitizeFilename(name: string): (r: string)
    ensures AllFilenameChars(r)
    ensures |r| <= |name|
  {
    StripDisallowed(CollapseWhitespace(name))
  }

  /** `runId`: the screenshot file name without extension, also the id of the stack-trace row. */
  function RunId(scenarioName: string, browserName: string): (r: string)
    ensures AllFilenameChars(r)
    ensures |r| <= |scenarioName| + |browserName|
  {
    SanitizeFilename(scenarioName) + SanitizeFilename(browserName)
  }

  /** The opening anchor of a link to the screenshot with id `id`. */
  function ScreenshotLink(id: string): string
  {
    "<a href=\"" + ScreenshotsDir + id + ".png\">"
  }

  /** `linkToScreenshot`: an anchor whose `href` is the run's screenshot file in the screenshots
      directory. */
  function LinkToScreenshot(scenarioName: string, browserName: string): (a: string)
    ensures |a| >= |"<a href=\""| + |"\">"|
    ensures a[|"<a href=\""|..|a| - |"\">"|] == ScreenshotsDir + RunId(scenarioName, browserName) + ".png"
  {
    ScreenshotLink(RunId(scenarioName, browserName))
  }

  /** Two links are the same only when they point at the same screenshot id. */
  lemma LinkToScreenshotDeterminesId(s1: string, b1: string, s2: string, b2: string)
    requires LinkToScreenshot(s1, b1) == LinkToScreenshot(s2, b2)
    ensures RunId(s1, b1) == RunId(s2, b2)
  {
    var h1 := ScreenshotsDir + RunId(s1, b1) + ".png";
    var h2 := ScreenshotsDir + RunId(s2, b2) + ".png";
    assert h1 == h2;
    assert RunId(s1, b1) == h1[|ScreenshotsDir|..|h1| - 4];
    assert RunId(s2, b2) == h2[|ScreenshotsDir|..|h2| - 4];
  }

  lemma {:induction false} StripAppend(a: string, b: string)
    ensures StripDisallowed(a + b) == StripDisallowed(a) + StripDisallowed(b)
    decreases |a|
  {
    if a != [] {
      assert (a + b)[1..] == a[1..] + b;
      StripAppend(a[1..], b);
    } else {
      assert a + b == b;
    }
  }

  lemma {:induction false} StripKeepsFilenameChars(s: string)
    requires AllFilenameChars(s)
    ensures StripDisallowed(s) == s
    decreases |s|
  {
    if s != [] {
      StripKeepsFilenameChars(s[1..]);
      assert [s[0]] + s[1..] == s;
    }
  }

  lemma {:induction false} CollapseKeepsSpaceFree(s: string)
    requires NoSpace(s)
    ensures CollapseWhitespace(s) == s
    decreases |s|
  {
    if s != [] {
      CollapseKeepsSpaceFree(s[1..]);
      assert [s[0]] + s[1..] == s;
    }
  }

  /** Sanitising an already sanitised name changes nothing. */
  lemma SanitizeIdempotent(name: string)
    ensures SanitizeFilename(SanitizeFilename(name)) == SanitizeFilename(name)
  {
    var once := SanitizeFilename(name);
    assert NoSpace(once) by {
      forall i | 0 <= i < |once| ensures !IsJsSpace(once[i]) {
        assert IsFilenameChar(once[i]);
      }
    }
    CollapseKeepsSpaceFree(once);
    StripKeepsFilenameChars(once);
  }

  lemma {:induction false} DropSpaceRun(w: string, s: string)
    requires forall i :: 0 <= i < |w| ==> IsJsSpace(w[i])
    requires s == [] || !IsJsSpace(s[0])
    ensures DropSpaces(w + s) == s
    decreases |w|
  {
    if w != [] {
      assert (w + s)[1..] == w[1..] + s;
      DropSpaceRun(w[1..], s);
    } else {
      assert w + s == s;
    }
  }

  /**
   * The three rules that determine `sanitizeFilename` one step at a time: a maximal run of
   * whitespace becomes exactly one dash, a letter, digit or dash is kept, and any other
   * character is deleted; the rest of the name is sanitised in the same way.
   */
  lemma SanitizeSpaceRun(w: string, s: string)
    requires |w| > 0 && forall i :: 0 <= i < |w| ==> IsJsSpace(w[i])
    requires s == [] || !IsJsSpace(s[0])
    ensures SanitizeFilename(w + s) == "-" + SanitizeFilename(s)
  {
    assert (w + s)[1..] == w[1..] + s;
    DropSpaceRun(w[1..], s);
    StripAppend("-", CollapseWhitespace(s));
  }

  lemma SanitizeKeeps(c: char, s: string)
    requires IsFilenameChar(c)
    ensures SanitizeFilename([c] + s) == [c] + SanitizeFilename(s)
  {
    assert ([c] + s)[1..] == s;
    StripAppend([c], CollapseWhitespace(s));
  }

  lemma SanitizeDeletes(c: char, s: string)
    requires !IsFilenameChar(c) && !IsJsSpace(c)
    ensures SanitizeFilename([c] + s) == SanitizeFilename(s)
  {
    assert ([c] + s)[1..] == s;
    StripAppend([c], CollapseWhitespace(s));
  }

  /** A prefix of letters, digits and dashes is kept as it is. */
  lemma {:induction false} SanitizeKeepsPrefix(a: string, s: string)
    requires AllFilenameChars(a)
    ensures SanitizeFilename(a + s) == a + SanitizeFilename(s)
    decreases |a|
  {
    if a != [] {
      assert a + s == [a[0]] + (a[1..] + s);
      SanitizeKeeps(a[0], a[1..] + s);
      SanitizeKeepsPrefix(a[1..], s);
      assert [a[0]] + a[1..] == a;
    } else {
      assert a + s == s;
    }
  }

  /** A prefix of characters that are neither allowed nor whitespace disappears. */
  lemma {:induction false} SanitizeDeletesPrefix(a: string, s: string)
    requires forall i :: 0 <= i < |a| ==> !IsFilenameChar(a[i]) && !IsJsSpace(a[i])
    ensures SanitizeFilename(a + s) == SanitizeFilename(s)
    decreases |a|
  {
    if a != [] {
      assert a + s == [a[0]] + (a[1..] + s);
      SanitizeDeletes(a[0], a[1..] + s);
      SanitizeDeletesPrefix(a[1..], s);
    } else {
      assert a + s == s;
    }
  }
}

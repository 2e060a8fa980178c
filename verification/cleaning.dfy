/** `clean_text` of index-creation.py (lines 30-35): four regular-expression substitutions and a
    strip. Each substitution with a pattern `[...]+` replaces every maximal run of matching
    characters by one space, which is `CollapseRuns`; the escape pattern `\\[a-zA-Z0-9]+` is
    `RemoveEscapes`. */
module Cleaning {
  import opened Common
  import opened Text

  /** `[a-zA-Z0-9]`: ASCII letters and digits only, as in the pattern's ranges. */
  predicate IsAsciiAlnum(c: char) {
    ('a' <= c <= 'z') || ('A' <= c <= 'Z') || ('0' <= c <= '9')
  }

  /** The characters the last substitution keeps: `[A-Za-z0-9.,:;!?&%$@'"()/-]`. The space is not
      among them. */
  predicate IsKept(c: char) {
    IsAsciiAlnum(c) || c in ".,:;!?&%$@'\"()/-"
  }

  predicate IsNewline(c: char) { c == '\n' }

  /** `[^A-Za-z0-9.,:;!?&%$@'"()/-]`: everything the last substitution replaces. */
  predicate IsDropped(c: char) { !IsKept(c) }

  /** Length of the longest prefix of `s` made of ASCII letters and digits. */
  function AlnumRun(s: string): (n: nat)
    ensures n <= |s|
    ensures forall i :: 0 <= i < n ==> IsAsciiAlnum(s[i])
    ensures n < |s| ==> !IsAsciiAlnum(s[n])
  {
    if |s| > 0 && IsAsciiAlnum(s[0]) then 1 + AlnumRun(s[1..]) else 0
  }

  /** A backslash followed by an ASCII letter or digit starts `s`. */
  predicate EscapeAt(s: string) {
    |s| > 1 && s[0] == '\\' && IsAsciiAlnum(s[1])
  }

  /** No backslash in `s` is followed by an ASCII letter or digit. */
  predicate NoEscape(s: string) {
    forall i :: 0 <= i < |s| - 1 ==> !(s[i] == '\\' && IsAsciiAlnum(s[i + 1]))
  }

  /** `re.sub(r'\\[a-zA-Z0-9]+', ' ', s)` (line 31): scanning from the left, a backslash with the
      longest run of ASCII letters and digits after it becomes one space. */
  function RemoveEscapes(s: string): (r: string)
    ensures |s| > 0 ==> |r| > 0 && r[0] == (if EscapeAt(s) then ' ' else s[0])
    ensures |s| == 0 ==> r == ""
    ensures NoEscape(r)
    decreases |s|
  {
    if |s| == 0 then ""
    else if EscapeAt(s) then
      " " + RemoveEscapes(s[1 + AlnumRun(s[1..])..])
    else
      [s[0]] + RemoveEscapes(s[1..])
  }

  /** Escapes go as a whole: a backslash, a run of letters and digits, and nothing else becomes
      one space, whatever follows. */
  lemma EscapeRemovedAsUnit(run: string, rest: string)
    requires |run| > 0 && forall i :: 0 <= i < |run| ==> IsAsciiAlnum(run[i])
    requires |rest| > 0 ==> !IsAsciiAlnum(rest[0])
    ensures RemoveEscapes("\\" + run + rest) == " " + RemoveEscapes(rest)
  {
    var s := "\\" + run + rest;
    assert s[1..] == run + rest;
    assert AlnumRun(run + rest) == |run| by {
      AlnumRunOfRun(run, rest);
    }
    assert s[1 + |run|..] == rest;
  }

  lemma {:induction false} AlnumRunOfRun(run: string, rest: string)
    requires forall i :: 0 <= i < |run| ==> IsAsciiAlnum(run[i])
    requires |rest| > 0 ==> !IsAsciiAlnum(rest[0])
    ensures AlnumRun(run + rest) == |run|
    decreases |run|
  {
    if |run| == 0 {
      assert run + rest == rest;
    } else {
      assert (run + rest)[1..] == run[1..] + rest;
      AlnumRunOfRun(run[1..], rest);
    }
  }

  /** Text without backslashes has no escapes to remove. */
  lemma {:induction false} RemoveEscapesNoBackslash(s: string)
    requires forall i :: 0 <= i < |s| ==> s[i] != '\\'
    ensures RemoveEscapes(s) == s
    decreases |s|
  {
    if |s| > 0 {
      RemoveEscapesNoBackslash(s[1..]);
      assert s == [s[0]] + s[1..];
    }
  }

  /** Length of the longest prefix of `s` whose characters all satisfy `p`. */
  function LeadingRun(s: string, p: char -> bool): (n: nat)
    ensures n <= |s|
    ensures forall i :: 0 <= i < n ==> p(s[i])
    ensures n < |s| ==> !p(s[n])
  {
    if |s| > 0 && p(s[0]) then 1 + LeadingRun(s[1..], p) else 0
  }

  /** `re.sub(r'[...]+', ' ', s)` for a character class `p`: every maximal run of characters in
      `p` becomes one space, everything else is kept. */
  function CollapseRuns(s: string, p: char -> bool): (r: string)
    ensures |s| > 0 ==> |r| > 0 && r[0] == (if p(s[0]) then ' ' else s[0])
    ensures |s| == 0 ==> r == ""
    ensures forall i :: 0 <= i < |r| ==> r[i] == ' ' || !p(r[i])
    ensures p(' ') ==> forall i :: 0 <= i < |r| - 1 ==> !(r[i] == ' ' && r[i + 1] == ' ')
    decreases |s|
  {
    if |s| == 0 then ""
    else if p(s[0]) then
      var rest := s[LeadingRun(s, p)..];
      " " + CollapseRuns(rest, p)
    else
      [s[0]] + CollapseRuns(s[1..], p)
  }

  /** Replacing runs of `p` by spaces and then runs of a wider class `q` that contains the space
      is the same as replacing runs of `q` directly. */
  lemma {:induction false} CollapseAbsorbed(s: string, p: char -> bool, q: char -> bool)
    requires forall c :: p(c) ==> q(c)
    requires q(' ')
    ensures CollapseRuns(CollapseRuns(s, p), q) == CollapseRuns(s, q)
    decreases |s|
  {
    if |s| == 0 {
    } else if !q(s[0]) {
      CollapseAbsorbed(s[1..], p, q);
      var t := CollapseRuns(s[1..], p);
      assert ([s[0]] + t)[1..] == t;
    } else {
      var n := LeadingRun(s, q);
      var run, rest := s[..n], s[n..];
      assert s == run + rest;
      CollapseSplit(run, rest, p);
      var t := CollapseRuns(run, p);
      var u := CollapseRuns(rest, p);
      assert LeadingRun(t + u, q) == |t| by {
        CollapseKeepsClass(run, p, q);
        LeadingRunOfRun(t, u, q);
      }
      assert (t + u)[|t|..] == u;
      CollapseAbsorbed(rest, p, q);
    }
  }

  /** Collapsing runs of text made of characters in `q` leaves characters in `q`, when `q`
      contains the space. */
  lemma {:induction false} CollapseKeepsClass(s: string, p: char -> bool, q: char -> bool)
    requires q(' ')
    requires forall i :: 0 <= i < |s| ==> q(s[i])
    ensures forall i :: 0 <= i < |CollapseRuns(s, p)| ==> q(CollapseRuns(s, p)[i])
    decreases |s|
  {
    if |s| > 0 {
      var rest := if p(s[0]) then s[LeadingRun(s, p)..] else s[1..];
      CollapseKeepsClass(rest, p, q);
    }
  }

  lemma {:induction false} LeadingRunOfRun(run: string, rest: string, q: char -> bool)
    requires forall i :: 0 <= i < |run| ==> q(run[i])
    requires |rest| > 0 ==> !q(rest[0])
    ensures LeadingRun(run + rest, q) == |run|
    decreases |run|
  {
    if |run| == 0 {
      assert run + rest == rest;
    } else {
      assert (run + rest)[1..] == run[1..] + rest;
      LeadingRunOfRun(run[1..], rest, q);
    }
  }

  /** Collapsing runs distributes over a split where the second part does not start inside a run. */
  lemma {:induction false} CollapseSplit(a: string, b: string, p: char -> bool)
    requires |b| > 0 ==> !p(b[0])
    ensures CollapseRuns(a + b, p) == CollapseRuns(a, p) + CollapseRuns(b, p)
    decreases |a|
  {
    if |a| == 0 {
      assert a + b == b;
    } else if p(a[0]) {
      var n := LeadingRun(a, p);
      CollapseSplit(a[n..], b, p);
      CollapseSplitRun(a, b, p);
    } else {
      CollapseSplit(a[1..], b, p);
      CollapseSplitKept(a, b, p);
    }
  }

  /** The step of CollapseSplit for `a` starting with a run. */
  lemma CollapseSplitRun(a: string, b: string, p: char -> bool)
    requires |a| > 0 && p(a[0]) && (|b| > 0 ==> !p(b[0]))
    requires CollapseRuns(a[LeadingRun(a, p)..] + b, p) == CollapseRuns(a[LeadingRun(a, p)..], p) + CollapseRuns(b, p)
    ensures CollapseRuns(a + b, p) == CollapseRuns(a, p) + CollapseRuns(b, p)
  {
    var n := LeadingRun(a, p);
    CollapseRunThenRest(a, b, p);
    assert CollapseRuns(a, p) == " " + CollapseRuns(a[n..], p);
    ConcatAssoc(" ", CollapseRuns(a[n..], p), CollapseRuns(b, p));
  }

  /** A run at the front of `a` is still a whole run of `a + b` when `b` does not continue it. */
  lemma CollapseRunThenRest(a: string, b: string, p: char -> bool)
    requires |a| > 0 && p(a[0]) && (|b| > 0 ==> !p(b[0]))
    ensures CollapseRuns(a + b, p) == " " + CollapseRuns(a[LeadingRun(a, p)..] + b, p)
  {
    var n := LeadingRun(a, p);
    var rest := a[n..] + b;
    SliceJoin(a, n);
    ConcatAssoc(a[..n], a[n..], b);
    assert |rest| > 0 ==> rest[0] == (if n < |a| then a[n] else b[0]);
    LeadingRunOfRun(a[..n], rest, p);
    DropConcat(a, b, n);
    assert (a + b)[0] == a[0];
  }

  /** The step of CollapseSplit for `a` starting with a kept character. */
  lemma CollapseSplitKept(a: string, b: string, p: char -> bool)
    requires |a| > 0 && !p(a[0])
    requires CollapseRuns(a[1..] + b, p) == CollapseRuns(a[1..], p) + CollapseRuns(b, p)
    ensures CollapseRuns(a + b, p) == CollapseRuns(a, p) + CollapseRuns(b, p)
  {
    assert (a + b)[0] == a[0] && (a + b)[1..] == a[1..] + b;
    ConcatAssoc([a[0]], CollapseRuns(a[1..], p), CollapseRuns(b, p));
  }

  /** Text in which every `p` character is a lone space is left as it is. */
  lemma {:induction false} CollapseUnchanged(s: string, p: char -> bool)
    requires forall i :: 0 <= i < |s| ==> p(s[i]) ==> s[i] == ' '
    requires forall i :: 0 <= i < |s| - 1 ==> !(p(s[i]) && p(s[i + 1]))
    ensures CollapseRuns(s, p) == s
    decreases |s|
  {
    if |s| > 0 {
      if p(s[0]) {
        assert LeadingRun(s, p) == 1;
      }
      CollapseUnchanged(s[1..], p);
      assert s == [s[0]] + s[1..];
    }
  }

  /** What `clean_text` promises of its output: only kept characters and single spaces, with no
      space at either end. */
  predicate Clean(s: string) {
    && (forall i :: 0 <= i < |s| ==> IsKept(s[i]) || s[i] == ' ')
    && (forall i :: 0 <= i < |s| - 1 ==> !(s[i] == ' ' && s[i + 1] == ' '))
    && (|s| > 0 ==> s[0] != ' ' && s[|s| - 1] != ' ')
  }

  /** A kept character is never whitespace. */
  lemma KeptIsNotSpace(c: char)
    requires IsKept(c)
    ensures !IsSpace(c)
  {
  }

  /** Stripping text made of kept characters and single spaces leaves clean text. */
  lemma StripIsClean(d: string)
    requires forall i :: 0 <= i < |d| ==> IsKept(d[i]) || d[i] == ' '
    requires forall i :: 0 <= i < |d| - 1 ==> !(d[i] == ' ' && d[i + 1] == ' ')
    ensures Clean(Strip(d))
  {
    var r := Strip(d);
    var lo := LeadingSpaces(d);
    assert forall i :: 0 <= i < |r| ==> r[i] == d[lo + i];
  }

  /** `clean_text(text)` (lines 30-35). */
  function CleanText(text: string): (r: string)
    ensures Clean(r)
  {
    var d := CollapseRuns(CollapseRuns(CollapseRuns(RemoveEscapes(text), IsNewline), IsSpace), IsDropped);
    StripIsClean(d);
    Strip(d)
  }

  /** The newline and whitespace passes make no difference to the result: the last pass alone,
      after the escapes, cleans the same way. */
  lemma CleanTextLastPassSuffices(text: string)
    ensures CleanText(text) == Strip(CollapseRuns(RemoveEscapes(text), IsDropped))
  {
    var a := RemoveEscapes(text);
    assert forall c :: IsNewline(c) ==> IsSpace(c);
    assert forall c :: IsSpace(c) ==> IsDropped(c) by {
      forall c | IsSpace(c) ensures IsDropped(c) {
        if IsKept(c) {
          KeptIsNotSpace(c);
        }
      }
    }
    CollapseAbsorbed(a, IsNewline, IsSpace);
    CollapseAbsorbed(CollapseRuns(a, IsNewline), IsSpace, IsDropped);
    CollapseAbsorbed(a, IsSpace, IsDropped);
  }

  /** Clean text is left as it is. */
  lemma CleanFixpoint(s: string)
    requires Clean(s)
    ensures CleanText(s) == s
  {
    assert forall i :: 0 <= i < |s| ==> s[i] != '\\';
    RemoveEscapesNoBackslash(s);
    CleanTextLastPassSuffices(s);
    assert forall i :: 0 <= i < |s| ==> IsDropped(s[i]) ==> s[i] == ' ';
    CollapseUnchanged(s, IsDropped);
    assert |s| > 0 ==> !IsSpace(s[0]) && !IsSpace(s[|s| - 1]) by {
      if |s| > 0 {
        KeptIsNotSpace(s[0]);
        KeptIsNotSpace(s[|s| - 1]);
      }
    }
    StripUnchanged(s);
  }

  /** Cleaning twice is cleaning once. */
  lemma CleanIdempotent(text: string)
    ensures CleanText(CleanText(text)) == CleanText(text)
  {
    CleanFixpoint(CleanText(text));
  }

  /** Clean text is its words joined by single spaces: `" ".join(clean.split())` gives the
      cleaned text back, so splitting it loses no character. */
  lemma {:induction false} CleanWordsJoin(s: string)
    requires Clean(s)
    ensures Join(Words(s), " ") == s
    decreases |s|
  {
    if |s| > 0 {
      KeptIsNotSpace(s[0]);
      var w := WordPrefix(s);
      assert Words(s) == [w] + Words(s[|w|..]);
      if |w| == |s| {
        assert w == s;
        assert s[|w|..] == "";
      } else {
        assert s[|w|] == ' ' by {
          if s[|w|] != ' ' {
            KeptIsNotSpace(s[|w|]);
          }
        }
        assert |w| + 1 < |s|;
        var t := s[|w| + 1..];
        assert s[|w|..][1..] == t;
        assert Words(s[|w|..]) == Words(t);
        assert t[0] != ' ' && t[0] == s[|w| + 1];
        KeptIsNotSpace(t[0]);
        assert Clean(t) by {
          assert forall i :: 0 <= i < |t| ==> t[i] == s[|w| + 1 + i];
        }
        CleanWordsJoin(t);
        assert |Words(t)| > 0;
        assert ([w] + Words(t))[1..] == Words(t);
        assert s == w + " " + t;
      }
    }
  }
}

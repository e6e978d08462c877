/** The rule-file loader, `ReadReplacersFromFile`: a line-driven parser
    that turns the lines of a rule file into an ordered list of replacers,
    each a pattern followed by its replacement templates. Opening the file
    is left to the caller, which passes the lines; a pattern is kept as the
    text it would be compiled from. */
module Loader {

  /** A pattern (its source text) with the replacements offered for a match. */
  datatype Replacer = Replacer(pattern: string, replacements: seq<string>)

  /** `strings.HasPrefix(line, "#")`. */
  predicate IsComment(line: string) {
    |line| > 0 && line[0] == '#'
  }

  /** A line that the loader keeps: neither blank nor a comment. */
  predicate IsContent(line: string) {
    line != "" && !IsComment(line)
  }

  predicate WellFormed(r: Replacer) {
    IsContent(r.pattern) && forall k :: 0 <= k < |r.replacements| ==> IsContent(r.replacements[k])
  }

  // The rule-file grammar, read from the front: comments are ignored
  // everywhere, blank lines separate sections, a section is a pattern line
  // followed by its template lines, and the last section needs no blank
  // line after it.

  /** The sections of `lines`, read while waiting for a pattern line. */
  function ExpectPattern(lines: seq<string>): (r: seq<Replacer>)
    ensures forall k :: 0 <= k < |r| ==> WellFormed(r[k])
    decreases |lines|
  {
    if lines == [] then []
    else if !IsContent(lines[0]) then ExpectPattern(lines[1..])
    else CollectTemplates(lines[1..], Replacer(lines[0], []))
  }

  /** The sections of `lines`, read while adding templates to `current`. */
  function CollectTemplates(lines: seq<string>, current: Replacer): (r: seq<Replacer>)
    requires WellFormed(current)
    ensures |r| > 0 && r[0].pattern == current.pattern
    ensures current.replacements <= r[0].replacements
    ensures forall k :: 0 <= k < |r| ==> WellFormed(r[k])
    decreases |lines|
  {
    if lines == [] then [current]
    else if IsComment(lines[0]) then CollectTemplates(lines[1..], current)
    else if lines[0] == "" then [current] + ExpectPattern(lines[1..])
    else CollectTemplates(lines[1..], current.(replacements := current.replacements + [lines[0]]))
  }

  /** The replacers a rule file defines, in file order. */
  function Sections(lines: seq<string>): seq<Replacer> {
    ExpectPattern(lines)
  }

  /** What the loader will return when it has built `done` so far, is in
      the state `reading` and has `rest` still to read. */
  function Resume(done: seq<Replacer>, reading: bool, rest: seq<string>): seq<Replacer>
    requires reading ==> |done| > 0 && WellFormed(done[|done| - 1])
  {
    if reading then done[..|done| - 1] + CollectTemplates(rest, done[|done| - 1])
    else done + ExpectPattern(rest)
  }

  /** `ReadReplacersFromFile` once the file is open: a two-state loop on
      `readOriginal` that appends a new replacer on a pattern line and a
      template to the last replacer otherwise. */
  method ReadReplacers(lines: seq<string>) returns (replacers: seq<Replacer>)
    ensures replacers == Sections(lines)
  {
    replacers := [];
    var readOriginal := false;
    var i := 0;
    assert lines[0..] == lines;
    while i < |lines|
      invariant 0 <= i <= |lines|
      invariant readOriginal ==> |replacers| > 0 && WellFormed(replacers[|replacers| - 1])
      invariant Resume(replacers, readOriginal, lines[i..]) == Sections(lines)
    {
      var line := lines[i];
      ResumeStep(replacers, readOriginal, lines[i..]);
      assert lines[i..][1..] == lines[i + 1..];
      if IsComment(line) {
        // skipped: the state does not change
      } else if |line| == 0 {
        readOriginal := false;
      } else if !readOriginal {
        replacers := replacers + [Replacer(line, [])];
        readOriginal := true;
      } else {
        var last := |replacers| - 1;
        replacers := replacers[last := replacers[last].(replacements := replacers[last].replacements + [line])];
      }
      i := i + 1;
    }
    assert lines[i..] == [];
    ResumeEnd(replacers, readOriginal);
  }

  /** How one line moves the loader from one state to the next. */
  lemma ResumeStep(done: seq<Replacer>, reading: bool, rest: seq<string>)
    requires rest != []
    requires reading ==> |done| > 0 && WellFormed(done[|done| - 1])
    ensures IsComment(rest[0]) ==> Resume(done, reading, rest) == Resume(done, reading, rest[1..])
    ensures rest[0] == "" ==> Resume(done, reading, rest) == Resume(done, false, rest[1..])
    ensures IsContent(rest[0]) && !reading ==>
              Resume(done, reading, rest) == Resume(done + [Replacer(rest[0], [])], true, rest[1..])
    ensures IsContent(rest[0]) && reading ==>
              var last := |done| - 1;
              Resume(done, reading, rest)
              == Resume(done[last := done[last].(replacements := done[last].replacements + [rest[0]])], true, rest[1..])
  {
    var last := |done| - 1;
    if reading && rest[0] == "" {
      assert done == done[..last] + [done[last]];
    }
    if !reading && IsContent(rest[0]) {
      assert (done + [Replacer(rest[0], [])])[..|done|] == done;
    }
    if reading && IsContent(rest[0]) {
      var next := done[last := done[last].(replacements := done[last].replacements + [rest[0]])];
      assert next[..last] == done[..last];
    }
  }

  /** At the end of the file the replacer being read is complete. */
  lemma ResumeEnd(done: seq<Replacer>, reading: bool)
    requires reading ==> |done| > 0 && WellFormed(done[|done| - 1])
    ensures Resume(done, reading, []) == done
  {
    if reading {
      assert done == done[..|done| - 1] + [done[|done| - 1]];
    }
  }

  /** A blank line closes a section for good: the replacers read before it
      are unaffected by whatever follows, and what follows is read as a
      file of its own. */
  lemma {:induction false} SectionsSplitAtBlank(a: seq<string>, b: seq<string>)
    ensures Sections(a + [""] + b) == Sections(a) + Sections(b)
  {
    ExpectPatternSplit(a, b);
  }

  lemma {:induction false} ExpectPatternSplit(a: seq<string>, b: seq<string>)
    ensures ExpectPattern(a + [""] + b) == ExpectPattern(a) + ExpectPattern(b)
    decreases |a|, 1
  {
    var s := a + [""] + b;
    if a == [] {
      assert s[1..] == b;
    } else {
      assert s[0] == a[0] && s[1..] == a[1..] + [""] + b;
      if !IsContent(a[0]) {
        ExpectPatternSplit(a[1..], b);
      } else {
        CollectTemplatesSplit(a[1..], b, Replacer(a[0], []));
      }
    }
  }

  lemma {:induction false} CollectTemplatesSplit(a: seq<string>, b: seq<string>, current: Replacer)
    requires WellFormed(current)
    ensures CollectTemplates(a + [""] + b, current) == CollectTemplates(a, current) + ExpectPattern(b)
    decreases |a|, 0
  {
    var s := a + [""] + b;
    if a == [] {
      assert s[0] == "" && s[1..] == b;
    } else {
      assert s[0] == a[0] && s[1..] == a[1..] + [""] + b;
      if IsComment(a[0]) {
        CollectTemplatesSplit(a[1..], b, current);
      } else if a[0] == "" {
        ExpectPatternSplit(a[1..], b);
      } else {
        CollectTemplatesSplit(a[1..], b, current.(replacements := current.replacements + [a[0]]));
      }
    }
  }

  /** A comment line anywhere changes nothing; in particular it does not
      end the section it stands in. */
  lemma {:induction false} SectionsIgnoreComment(a: seq<string>, c: string, b: seq<string>)
    requires IsComment(c)
    ensures Sections(a + [c] + b) == Sections(a + b)
  {
    ExpectPatternComment(a, c, b);
  }

  lemma {:induction false} ExpectPatternComment(a: seq<string>, c: string, b: seq<string>)
    requires IsComment(c)
    ensures ExpectPattern(a + [c] + b) == ExpectPattern(a + b)
    decreases |a|, 1
  {
    var s := a + [c] + b;
    if a == [] {
      assert s[1..] == a + b;
    } else {
      assert s[0] == a[0] && s[1..] == a[1..] + [c] + b;
      assert (a + b)[0] == a[0] && (a + b)[1..] == a[1..] + b;
      if !IsContent(a[0]) {
        ExpectPatternComment(a[1..], c, b);
      } else {
        CollectTemplatesComment(a[1..], c, b, Replacer(a[0], []));
      }
    }
  }

  lemma {:induction false} CollectTemplatesComment(a: seq<string>, c: string, b: seq<string>, current: Replacer)
    requires IsComment(c) && WellFormed(current)
    ensures CollectTemplates(a + [c] + b, current) == CollectTemplates(a + b, current)
    decreases |a|, 0
  {
    var s := a + [c] + b;
    if a == [] {
      assert s[0] == c && s[1..] == a + b;
    } else {
      assert s[0] == a[0] && s[1..] == a[1..] + [c] + b;
      assert (a + b)[0] == a[0] && (a + b)[1..] == a[1..] + b;
      if IsComment(a[0]) {
        CollectTemplatesComment(a[1..], c, b, current);
      } else if a[0] == "" {
        ExpectPatternComment(a[1..], c, b);
      } else {
        CollectTemplatesComment(a[1..], c, b, current.(replacements := current.replacements + [a[0]]));
      }
    }
  }

  /** A pattern line followed by template lines is one replacer holding
      those templates in file order, whether or not a blank line ends it. */
  lemma SectionOfBlock(pattern: string, templates: seq<string>)
    requires IsContent(pattern)
    requires forall k :: 0 <= k < |templates| ==> IsContent(templates[k])
    ensures Sections([pattern] + templates) == [Replacer(pattern, templates)]
  {
    var s := [pattern] + templates;
    assert s[0] == pattern && s[1..] == templates;
    CollectBlock(templates, Replacer(pattern, []));
    assert [] + templates == templates;
  }

  lemma {:induction false} CollectBlock(templates: seq<string>, current: Replacer)
    requires WellFormed(current)
    requires forall k :: 0 <= k < |templates| ==> IsContent(templates[k])
    ensures CollectTemplates(templates, current)
         == [current.(replacements := current.replacements + templates)]
    decreases |templates|
  {
    if templates == [] {
      assert current.replacements + templates == current.replacements;
    } else {
      var next := current.(replacements := current.replacements + [templates[0]]);
      CollectBlock(templates[1..], next);
      assert next.replacements + templates[1..] == current.replacements + templates;
    }
  }

  /** The loader does not insist on a template: a pattern line alone gives a
      replacer with no replacements. */
  lemma PatternWithoutTemplates(pattern: string)
    requires IsContent(pattern)
    ensures Sections([pattern]) == [Replacer(pattern, [])]
  {
    assert [pattern] + [] == [pattern];
    SectionOfBlock(pattern, []);
  }
}

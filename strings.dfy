/** The parts of Go's `strings`, `strconv` and `regexp` packages that the
    chatbot relies on, over strings as sequences of characters. */
module Strings {

  predicate IsPrefix(pre: string, s: string) {
    |pre| <= |s| && s[..|pre|] == pre
  }

  /** `sub` occurs in `s` starting at index `i`. */
  predicate OccursAt(s: string, sub: string, i: int) {
    0 <= i && i + |sub| <= |s| && s[i..i + |sub|] == sub
  }

  /** An occurrence in the tail of `s` is an occurrence in `s`, one further on. */
  lemma OccursInTail(s: string, sub: string, i: nat)
    requires s != []
    ensures OccursAt(s[1..], sub, i) <==> OccursAt(s, sub, i + 1)
  {
    if 0 <= i && i + |sub| <= |s[1..]| {
      assert s[1..][i..i + |sub|] == s[i + 1..i + 1 + |sub|];
    }
  }

  /** `strings.Contains(s, sub)`; also what `regexp.MatchString(sub, s)` does
      when `sub` holds no regular-expression metacharacter, since that match
      is unanchored. */
  function Contains(s: string, sub: string): (r: bool)
    ensures r <==> exists i :: OccursAt(s, sub, i)
    decreases |s|
  {
    if IsPrefix(sub, s) then
      assert OccursAt(s, sub, 0);
      true
    else if s == [] then
      assert forall i :: !OccursAt(s, sub, i);
      false
    else
      var r := Contains(s[1..], sub);
      assert r ==> exists i :: OccursAt(s, sub, i) by {
        if r {
          var i :| OccursAt(s[1..], sub, i);
          OccursInTail(s, sub, i);
        }
      }
      assert (exists i :: OccursAt(s, sub, i)) ==> r by {
        if exists i :: OccursAt(s, sub, i) {
          var i :| OccursAt(s, sub, i);
          assert i > 0;
          OccursInTail(s, sub, i - 1);
        }
      }
      r
  }

  /** Every character of a string that occurs in `s` is a character of `s`;
      so a string holding a character that `s` lacks does not occur in `s`. */
  lemma MissingChar(s: string, sub: string, c: char)
    requires c in sub
    ensures Contains(s, sub) ==> c in s
  {
    if Contains(s, sub) {
      var i :| OccursAt(s, sub, i);
      var k :| 0 <= k < |sub| && sub[k] == c;
      assert s[i + k] == s[i..i + |sub|][k];
    }
  }

  /** `strings.Join(tokens, sep)`: the tokens in order, `sep` between
      neighbours. */
  function Join(tokens: seq<string>, sep: string): string
    decreases |tokens|
  {
    if |tokens| == 0 then ""
    else if |tokens| == 1 then tokens[0]
    else tokens[0] + sep + Join(tokens[1..], sep)
  }

  /** Plain concatenation of a sequence of strings. */
  function Concat(tokens: seq<string>): string
    decreases |tokens|
  {
    if tokens == [] then "" else tokens[0] + Concat(tokens[1..])
  }

  /** Joining with the empty separator, as `strings.Join(tokens, "")` does,
      is plain concatenation. */
  lemma {:induction false} JoinEmptyIsConcat(tokens: seq<string>)
    ensures Join(tokens, "") == Concat(tokens)
    decreases |tokens|
  {
    if |tokens| > 1 {
      JoinEmptyIsConcat(tokens[1..]);
    }
  }

  /** Joining without separator takes the first token, then the rest. */
  lemma JoinEmptyCons(first: string, rest: seq<string>)
    ensures Join([first] + rest, "") == first + Join(rest, "")
  {
    if rest == [] {
      assert [first] + rest == [first] && first + "" == first;
    } else {
      assert ([first] + rest)[1..] == rest;
    }
  }

  /** `strings.Replace(s, pat, rep, -1)` for a non-empty `pat`: every
      occurrence of `pat`, scanned left to right without overlap, becomes `rep`. */
  function ReplaceAll(s: string, pat: string, rep: string): string
    requires |pat| > 0
    decreases |s|
  {
    if |s| < |pat| then s
    else if IsPrefix(pat, s) then rep + ReplaceAll(s[|pat|..], pat, rep)
    else [s[0]] + ReplaceAll(s[1..], pat, rep)
  }

  /** A string without an occurrence of `pat` is left as it is. */
  lemma {:induction false} ReplaceAllAbsent(s: string, pat: string, rep: string)
    requires |pat| > 0
    requires !Contains(s, pat)
    ensures ReplaceAll(s, pat, rep) == s
    decreases |s|
  {
    if |s| >= |pat| {
      assert !IsPrefix(pat, s);
      forall i: nat ensures !OccursAt(s[1..], pat, i) {
        OccursInTail(s, pat, i);
      }
      ReplaceAllAbsent(s[1..], pat, rep);
      assert [s[0]] + s[1..] == s;
    }
  }

  /** An occurrence of the pattern with no occurrence starting in front of
      it is the first one replaced; the scan then goes on behind it. */
  lemma {:induction false} ReplaceAllAfter(pre: string, pat: string, post: string, rep: string)
    requires |pat| > 0
    requires forall i :: 0 <= i < |pre| ==> !OccursAt(pre + pat + post, pat, i)
    ensures ReplaceAll(pre + pat + post, pat, rep) == pre + rep + ReplaceAll(post, pat, rep)
    decreases |pre|
  {
    var s := pre + pat + post;
    if pre == [] {
      assert s == pat + post && s[|pat|..] == post;
    } else {
      assert s[1..] == pre[1..] + pat + post;
      assert !IsPrefix(pat, s) by {
        assert !OccursAt(s, pat, 0);
      }
      forall i | 0 <= i < |pre[1..]| ensures !OccursAt(pre[1..] + pat + post, pat, i) {
        OccursInTail(s, pat, i);
      }
      ReplaceAllAfter(pre[1..], pat, post, rep);
      assert [pre[0]] + (pre[1..] + rep + ReplaceAll(post, pat, rep)) == pre + rep + ReplaceAll(post, pat, rep);
    }
  }

  /** Every occurrence is replaced: parts with the pattern between
      neighbours become the same parts with the replacement between
      neighbours, when no part holds the pattern and the pattern's first
      character does not recur in it (so no occurrence straddles a part and
      the pattern after it). */
  lemma {:induction false} ReplaceAllJoin(parts: seq<string>, pat: string, rep: string)
    requires |pat| > 0 && pat[0] !in pat[1..]
    requires forall k :: 0 <= k < |parts| ==> !Contains(parts[k], pat)
    ensures ReplaceAll(Join(parts, pat), pat, rep) == Join(parts, rep)
    decreases |parts|
  {
    if |parts| == 1 {
      ReplaceAllAbsent(parts[0], pat, rep);
    } else if |parts| > 1 {
      var rest := Join(parts[1..], pat);
      NoStraddle(parts[0], pat, rest);
      ReplaceAllAfter(parts[0], pat, rest, rep);
      ReplaceAllJoin(parts[1..], pat, rep);
    }
  }

  /** No occurrence of `pat` starts inside a part that does not hold it
      when `pat` follows the part and its first character does not recur. */
  lemma NoStraddle(part: string, pat: string, post: string)
    requires |pat| > 0 && pat[0] !in pat[1..]
    requires !Contains(part, pat)
    ensures forall i :: 0 <= i < |part| ==> !OccursAt(part + pat + post, pat, i)
  {
    forall i | 0 <= i < |part| ensures !OccursAt(part + pat + post, pat, i) {
      if i + |pat| <= |part| {
        InsidePart(part, pat, post, i);
      } else {
        AcrossPart(part, pat, post, i);
      }
    }
  }

  /** An occurrence lying inside the part is an occurrence in the part. */
  lemma InsidePart(part: string, pat: string, post: string, i: nat)
    requires i + |pat| <= |part|
    ensures OccursAt(part + pat + post, pat, i) ==> OccursAt(part, pat, i)
  {
    var s := part + pat + post;
    assert s[i..i + |pat|] == part[i..i + |pat|];
  }

  /** An occurrence reaching past the part would meet the first character
      of the pattern after it at a later index of the pattern. */
  lemma AcrossPart(part: string, pat: string, post: string, i: nat)
    requires |pat| > 0 && pat[0] !in pat[1..]
    requires i < |part| < i + |pat|
    ensures !OccursAt(part + pat + post, pat, i)
  {
    var s := part + pat + post;
    var d := |part| - i;
    assert s[|part|] == pat[0];
    if i + |pat| <= |s| {
      assert s[i..i + |pat|][d] == s[|part|];
      assert pat[1..][d - 1] == pat[d];
    }
  }

  function DigitChar(d: nat): (c: char)
    requires d < 10
  {
    "0123456789"[d]
  }

  function DigitValue(c: char): nat
  {
    if '0' <= c <= '9' then (c as int - '0' as int) as nat else 0
  }

  /** `strconv.Itoa` on a natural number: its decimal digits, most
      significant first. */
  function NatToString(n: nat): (r: string)
    ensures |r| > 0
    ensures forall k :: 0 <= k < |r| ==> '0' <= r[k] <= '9'
    decreases n
  {
    if n < 10 then [DigitChar(n)] else NatToString(n / 10) + [DigitChar(n % 10)]
  }

  /** The number a string of decimal digits denotes. */
  function DecimalValue(s: string): nat
    decreases |s|
  {
    if s == [] then 0 else 10 * DecimalValue(s[..|s| - 1]) + DigitValue(s[|s| - 1])
  }

  /** Reading back what `NatToString` wrote gives the number again. */
  lemma {:induction false} DecimalRoundTrip(n: nat)
    ensures DecimalValue(NatToString(n)) == n
    decreases n
  {
    var s := NatToString(n);
    if n < 10 {
      assert s[..0] == [];
    } else {
      DecimalRoundTrip(n / 10);
      assert s[..|s| - 1] == NatToString(n / 10);
    }
  }

  /** The characters of the regular expression `[\s,.?!]`: RE2's `\s` is
      tab, newline, form feed, carriage return and space. */
  predicate IsSeparator(c: char) {
    c == '\t' || c == '\n' || c as int == 12 || c == '\r' || c == ' '
    || c == ',' || c == '.' || c == '?' || c == '!'
  }

  predicate NoSeparator(s: string) {
    forall k :: 0 <= k < |s| ==> !IsSeparator(s[k])
  }

  /** `s` without its leading run of separators. */
  function DropSeparators(s: string): (r: string)
    ensures |r| <= |s|
    ensures r == [] || !IsSeparator(r[0])
    decreases |s|
  {
    if s != [] && IsSeparator(s[0]) then DropSeparators(s[1..]) else s
  }

  /** What `DropSeparators` keeps is a suffix of its input, and what it
      drops in front of that suffix is a run of separators. */
  lemma {:induction false} DroppedAreSeparators(s: string)
    ensures var r := DropSeparators(s);
            r == s[|s| - |r|..] && forall k :: 0 <= k < |s| - |r| ==> IsSeparator(s[k])
    decreases |s|
  {
    if s != [] && IsSeparator(s[0]) {
      var r := DropSeparators(s[1..]);
      DroppedAreSeparators(s[1..]);
      assert s[1..][|s| - 1 - |r|..] == s[|s| - |r|..];
      assert forall k :: 1 <= k < |s| - |r| ==> s[k] == s[1..][k - 1];
    }
  }

  /** `regexp.MustCompile("[\s,.?!]+").Split(s, -1)`: the fields between
      maximal runs of separators, an empty field included where the string
      starts or ends with a run (and `[""]` for the empty string). */
  function SplitFields(s: string): (r: seq<string>)
  {
    FieldsFrom(s, "")
  }

  /** The fields of `s`, the first of them prefixed by `cur`. */
  function FieldsFrom(s: string, cur: string): (r: seq<string>)
    decreases |s|
  {
    if s == [] then [cur]
    else if IsSeparator(s[0]) then [cur] + FieldsFrom(DropSeparators(s), "")
    else FieldsFrom(s[1..], cur + [s[0]])
  }

  /** `s` with every separator character removed. */
  function RemoveSeparators(s: string): string
    decreases |s|
  {
    if s == [] then ""
    else if IsSeparator(s[0]) then RemoveSeparators(s[1..])
    else [s[0]] + RemoveSeparators(s[1..])
  }

  lemma {:induction false} DropSeparatorsRemoved(s: string)
    ensures RemoveSeparators(DropSeparators(s)) == RemoveSeparators(s)
    decreases |s|
  {
    if s != [] && IsSeparator(s[0]) {
      DropSeparatorsRemoved(s[1..]);
    }
  }

  /** The fields hold no separator, there is at least one of them, and
      together, in order, they are exactly the non-separator characters of
      the input: splitting loses the separators and nothing else. */
  lemma {:induction false} FieldsFromSound(s: string, cur: string)
    requires NoSeparator(cur)
    ensures |FieldsFrom(s, cur)| > 0
    ensures forall k :: 0 <= k < |FieldsFrom(s, cur)| ==> NoSeparator(FieldsFrom(s, cur)[k])
    ensures Concat(FieldsFrom(s, cur)) == cur + RemoveSeparators(s)
    decreases |s|
  {
    if s == [] {
      assert Concat([cur]) == cur + Concat([]);
    } else if IsSeparator(s[0]) {
      var d := DropSeparators(s);
      FieldsFromSound(d, "");
      DropSeparatorsRemoved(s);
      ConsField(cur, FieldsFrom(d, ""));
    } else {
      var c := cur + [s[0]];
      FieldsFromSound(s[1..], c);
      assert c + RemoveSeparators(s[1..]) == cur + ([s[0]] + RemoveSeparators(s[1..]));
    }
  }

  /** A field without separators in front of such fields. */
  lemma ConsField(cur: string, fields: seq<string>)
    requires NoSeparator(cur)
    requires forall k :: 0 <= k < |fields| ==> NoSeparator(fields[k])
    ensures forall k :: 0 <= k < |[cur] + fields| ==> NoSeparator(([cur] + fields)[k])
    ensures Concat([cur] + fields) == cur + Concat(fields)
  {
    var r := [cur] + fields;
    assert r[1..] == fields;
    assert forall k :: 1 <= k < |r| ==> r[k] == fields[k - 1];
  }

  lemma SplitFieldsSound(s: string)
    ensures |SplitFields(s)| > 0
    ensures forall k :: 0 <= k < |SplitFields(s)| ==> NoSeparator(SplitFields(s)[k])
    ensures Concat(SplitFields(s)) == RemoveSeparators(s)
  {
    FieldsFromSound(s, "");
  }

  /** A string without separators is a single field. */
  lemma {:induction false} FieldsFromNoSeparator(s: string, cur: string)
    requires NoSeparator(s)
    ensures FieldsFrom(s, cur) == [cur + s]
    decreases |s|
  {
    if s != [] {
      assert !IsSeparator(s[0]);
      assert NoSeparator(s[1..]) by {
        forall k | 0 <= k < |s[1..]| ensures !IsSeparator(s[1..][k]) {
          assert s[1..][k] == s[k + 1];
        }
      }
      FieldsFromNoSeparator(s[1..], cur + [s[0]]);
      assert cur + [s[0]] + s[1..] == cur + s;
    } else {
      assert cur + s == cur;
    }
  }

  /** A non-empty run of separator characters. */
  predicate IsSeparatorRun(run: string) {
    run != [] && forall k :: 0 <= k < |run| ==> IsSeparator(run[k])
  }

  /** `a` ends inside a field: it is empty or its last character is no
      separator. */
  predicate EndsInField(a: string) {
    a == [] || !IsSeparator(a[|a| - 1])
  }

  /** `b` starts a field: it is empty or its first character is no
      separator. */
  predicate StartsField(b: string) {
    b == [] || !IsSeparator(b[0])
  }

  /** Dropping a run of separators in front of a field leaves the field. */
  lemma {:induction false} DropRun(run: string, b: string)
    requires IsSeparatorRun(run) && StartsField(b)
    ensures DropSeparators(run + b) == b
    decreases |run|
  {
    var s := run + b;
    assert s[0] == run[0] && s[1..] == run[1..] + b;
    if |run| > 1 {
      assert IsSeparatorRun(run[1..]) by {
        forall k | 0 <= k < |run[1..]| ensures IsSeparator(run[1..][k]) {
          assert run[1..][k] == run[k + 1];
        }
      }
      DropRun(run[1..], b);
    } else {
      assert run[1..] + b == b;
    }
  }

  /** The leading separators of a string that ends in a field are dropped
      before anything appended to it is reached. */
  lemma {:induction false} DropSeparatorsAppend(a: string, t: string)
    requires a != [] && EndsInField(a)
    ensures DropSeparators(a + t) == DropSeparators(a) + t
    decreases |a|
  {
    var s := a + t;
    assert s[0] == a[0] && s[1..] == a[1..] + t;
    if IsSeparator(a[0]) {
      assert |a| > 1;
      assert a[1..][|a[1..]| - 1] == a[|a| - 1];
      DropSeparatorsAppend(a[1..], t);
    }
  }

  /** Where the fields break: a maximal run of separators between two
      parts of a string ends the field in front of it and starts a new one,
      so the parts split on their own. */
  lemma {:induction false} FieldsFromRun(a: string, run: string, b: string, cur: string)
    requires EndsInField(a) && IsSeparatorRun(run) && StartsField(b)
    ensures FieldsFrom(a + run + b, cur) == FieldsFrom(a, cur) + FieldsFrom(b, "")
    decreases |a|, 1
  {
    if a == [] {
      var s := a + run + b;
      assert s == run + b && s[0] == run[0];
      DropRun(run, b);
    } else if IsSeparator(a[0]) {
      RunAfterSeparator(a, run, b, cur);
    } else {
      RunAfterChar(a, run, b, cur);
    }
  }

  lemma {:induction false} RunAfterSeparator(a: string, run: string, b: string, cur: string)
    requires a != [] && IsSeparator(a[0])
    requires EndsInField(a) && IsSeparatorRun(run) && StartsField(b)
    ensures FieldsFrom(a + run + b, cur) == FieldsFrom(a, cur) + FieldsFrom(b, "")
    decreases |a|, 0
  {
    var t := run + b;
    var d := DropSeparators(a);
    DropSeparatorsAppend(a, t);
    assert (a + t)[0] == a[0];
    assert FieldsFrom(a + t, cur) == [cur] + FieldsFrom(d + t, "");
    ShorterAfterDrop(a);
    FieldsFromRun(d, run, b, "");
    assert d + t == d + run + b && a + t == a + run + b;
  }

  /** Dropping the leading separators of a string that starts with one
      and ends in a field shortens it and keeps its last character. */
  lemma ShorterAfterDrop(a: string)
    requires a != [] && IsSeparator(a[0]) && EndsInField(a)
    ensures var d := DropSeparators(a); 0 < |d| < |a| && d[|d| - 1] == a[|a| - 1]
  {
    var d := DropSeparators(a);
    DroppedAreSeparators(a);
  }

  lemma {:induction false} RunAfterChar(a: string, run: string, b: string, cur: string)
    requires a != [] && !IsSeparator(a[0])
    requires EndsInField(a) && IsSeparatorRun(run) && StartsField(b)
    ensures FieldsFrom(a + run + b, cur) == FieldsFrom(a, cur) + FieldsFrom(b, "")
    decreases |a|, 0
  {
    var s := a + run + b;
    assert s[0] == a[0] && s[1..] == a[1..] + run + b;
    if |a| > 1 {
      assert a[1..][|a[1..]| - 1] == a[|a| - 1];
    }
    FieldsFromRun(a[1..], run, b, cur + [a[0]]);
  }

  /** The same for the split of a whole string. */
  lemma SplitFieldsAtRun(a: string, run: string, b: string)
    requires EndsInField(a) && IsSeparatorRun(run) && StartsField(b)
    ensures SplitFields(a + run + b) == SplitFields(a) + SplitFields(b)
  {
    FieldsFromRun(a, run, b, "");
  }

  /** A run of separators at the start of a string gives an empty first
      field, ... */
  lemma LeadingRunEmptyField(run: string, b: string)
    requires IsSeparatorRun(run) && StartsField(b)
    ensures SplitFields(run + b) == [""] + SplitFields(b)
  {
    FieldsFromRun([], run, b, "");
    assert [] + run + b == run + b;
  }

  /** ... and one at the end an empty last field. */
  lemma TrailingRunEmptyField(a: string, run: string)
    requires EndsInField(a) && IsSeparatorRun(run)
    ensures SplitFields(a + run) == SplitFields(a) + [""]
  {
    FieldsFromRun(a, run, [], "");
    assert a + run + [] == a + run;
  }
}

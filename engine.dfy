/** The rule-driven chatbot: `Eliza` holds the response rules and the
    substitution rules read by the loader, and `RespondTo` answers an input
    with a template of the first response rule whose pattern matches, each
    `$k` marker in it filled with the k-th captured group after per-token
    substitution. The regular-expression engine and the random source are
    supplied by the caller as `Oracles`. */
module Engine {
  import opened Common
  import opened Strings
  import opened Loader

  /** The two rule lists of a chatbot, each in file order. */
  datatype Eliza = Eliza(responses: seq<Replacer>, substitutions: seq<Replacer>)

  /** What the model takes from outside:
      - `find(pattern, input)` is `FindStringSubmatch` of the compiled
        pattern on `input`: `None` for no match, otherwise the captured
        groups in order (the whole match, element 0, left off);
      - `matches(pattern, token)` is `MatchString` of the compiled pattern;
      - `rng(k) % n` is what the k-th call of `rand.Intn(n)` made while
        answering one input returns, counting from 0. */
  datatype Oracles = Oracles(
    find: (string, string) -> Option<seq<string>>,
    matches: (string, string) -> bool,
    rng: nat -> nat)

  /** The answer when no response rule matches. */
  const Fallback: string := "I don't know what to say."

  /** Every rule offers at least one replacement, so a random pick among
      them is possible. */
  predicate Answerable(rules: seq<Replacer>) {
    forall k :: 0 <= k < |rules| ==> |rules[k].replacements| > 0
  }

  predicate Valid(eliza: Eliza) {
    Answerable(eliza.responses) && Answerable(eliza.substitutions)
  }

  /** `ElizaFromFiles` once both files are read into lines. */
  method ElizaFromFiles(responseLines: seq<string>, substitutionLines: seq<string>) returns (eliza: Eliza)
    ensures eliza.responses == Sections(responseLines)
    ensures eliza.substitutions == Sections(substitutionLines)
  {
    var responses := ReadReplacers(responseLines);
    var substitutions := ReadReplacers(substitutionLines);
    eliza := Eliza(responses, substitutions);
  }

  /** The replacement that the draw numbered `draw` selects. */
  function Pick(choices: seq<string>, o: Oracles, draw: nat): (r: string)
    requires |choices| > 0
    ensures r in choices
  {
    choices[o.rng(draw) % |choices|]
  }

  /** The first response rule whose pattern matches `input`. */
  function FirstResponse(rules: seq<Replacer>, o: Oracles, input: string): Option<nat> {
    FirstIndex(rules, (rule: Replacer) => o.find(rule.pattern, input).Some?)
  }

  /** The first substitution rule whose pattern matches `token`. */
  function FirstSubstitution(rules: seq<Replacer>, o: Oracles, token: string): Option<nat> {
    FirstIndex(rules, (rule: Replacer) => o.matches(rule.pattern, token))
  }

  lemma FirstResponseAt(rules: seq<Replacer>, o: Oracles, input: string, i: nat)
    requires i < |rules| && o.find(rules[i].pattern, input).Some?
    requires forall q :: 0 <= q < i ==> o.find(rules[q].pattern, input).None?
    ensures FirstResponse(rules, o, input) == Some(i)
  {
    FirstIndexAt(rules, (rule: Replacer) => o.find(rule.pattern, input).Some?, i);
  }

  lemma FirstSubstitutionAt(rules: seq<Replacer>, o: Oracles, token: string, i: nat)
    requires i < |rules| && o.matches(rules[i].pattern, token)
    requires forall q :: 0 <= q < i ==> !o.matches(rules[q].pattern, token)
    ensures FirstSubstitution(rules, o, token) == Some(i)
  {
    FirstIndexAt(rules, (rule: Replacer) => o.matches(rule.pattern, token), i);
  }

  /** A token after substitution, with the number of the next draw: the
      first matching rule replaces it with a random pick among its
      replacements, and a token no rule matches stays as it is. */
  function TokenSubstitution(token: string, subs: seq<Replacer>, o: Oracles, draw: nat): (r: (string, nat))
    requires Answerable(subs)
    ensures FirstSubstitution(subs, o, token).None? ==> r == (token, draw)
    ensures FirstSubstitution(subs, o, token).Some? ==>
              r.1 == draw + 1 && r.0 in subs[FirstSubstitution(subs, o, token).value].replacements
  {
    match FirstSubstitution(subs, o, token)
    case None => (token, draw)
    case Some(j) => (Pick(subs[j].replacements, o, draw), draw + 1)
  }

  /** The tokens of a group after substitution, left to right, with the
      number of the next draw: one draw per substituted token. */
  function GroupSubstitution(tokens: seq<string>, subs: seq<Replacer>, o: Oracles, draw: nat): (r: (seq<string>, nat))
    requires Answerable(subs)
    ensures |r.0| == |tokens|
    ensures draw <= r.1 <= draw + |tokens|
    decreases |tokens|
  {
    if tokens == [] then ([], draw)
    else
      var first := TokenSubstitution(tokens[0], subs, o, draw);
      var rest := GroupSubstitution(tokens[1..], subs, o, first.1);
      ([first.0] + rest.0, rest.1)
  }

  /** Each token is substituted on its own: by a replacement of the first
      rule that matches it, and left as it is when none does. */
  lemma {:induction false} GroupSubstitutionPointwise(tokens: seq<string>, subs: seq<Replacer>, o: Oracles, draw: nat)
    requires Answerable(subs)
    ensures var r := GroupSubstitution(tokens, subs, o, draw).0;
            forall t :: 0 <= t < |tokens| ==>
              match FirstSubstitution(subs, o, tokens[t])
              case None => r[t] == tokens[t]
              case Some(j) => r[t] in subs[j].replacements
    decreases |tokens|
  {
    if tokens != [] {
      var first := TokenSubstitution(tokens[0], subs, o, draw);
      GroupSubstitutionPointwise(tokens[1..], subs, o, first.1);
      assert forall t :: 1 <= t < |tokens| ==> tokens[t] == tokens[1..][t - 1];
    }
  }

  /** The marker for the k-th captured group: `"$" + strconv.Itoa(k)`. */
  function Marker(k: nat): (r: string)
    ensures |r| > 1 && r[0] == '$'
    ensures forall i :: 1 <= i < |r| ==> '0' <= r[i] <= '9'
    ensures DecimalValue(r[1..]) == k
  {
    var digits := NatToString(k);
    DecimalRoundTrip(k);
    assert ("$" + digits)[1..] == digits;
    "$" + digits
  }

  /** The number of tokens the groups from `m` onwards split into. */
  function TokenCount(groups: seq<string>, m: nat): nat
    requires m <= |groups|
    decreases |groups| - m
  {
    if m == |groups| then 0 else |SplitFields(groups[m])| + TokenCount(groups, m + 1)
  }

  /** `output` once groups `m` onwards are filled in, each group split into
      tokens, substituted, joined with single spaces and put in place of
      every occurrence of its marker, with the number of the next draw. */
  function FillGroups(output: string, groups: seq<string>, m: nat, subs: seq<Replacer>, o: Oracles, draw: nat): (r: (string, nat))
    requires m <= |groups| && Answerable(subs)
    ensures draw <= r.1 <= draw + TokenCount(groups, m)
    decreases |groups| - m
  {
    if m == |groups| then (output, draw)
    else
      var group := GroupSubstitution(SplitFields(groups[m]), subs, o, draw);
      FillGroups(ReplaceAll(output, Marker(m + 1), Join(group.0, " ")), groups, m + 1, subs, o, group.1)
  }

  /** The answer to `input`: draw 0 picks a template of the first matching
      response rule, and the later draws serve the substitutions. */
  function Respond(eliza: Eliza, o: Oracles, input: string): string
    requires Valid(eliza)
  {
    match FirstResponse(eliza.responses, o, input)
    case None => Fallback
    case Some(w) =>
      var rule := eliza.responses[w];
      FillGroups(Pick(rule.replacements, o, 0), o.find(rule.pattern, input).value, 0, eliza.substitutions, o, 1).0
  }

  /** `(*Eliza).RespondTo`: scans the response rules in order and fills the
      template of the first that matches. */
  method RespondTo(eliza: Eliza, o: Oracles, input: string) returns (output: string)
    requires Valid(eliza)
    ensures output == Respond(eliza, o, input)
  {
    var i := 0;
    while i < |eliza.responses|
      invariant 0 <= i <= |eliza.responses|
      invariant forall q :: 0 <= q < i ==> o.find(eliza.responses[q].pattern, input).None?
    {
      var response := eliza.responses[i];
      var matched := o.find(response.pattern, input);
      if matched.Some? {
        FirstResponseAt(eliza.responses, o, input, i);
        output := response.replacements[o.rng(0) % |response.replacements|];
        ghost var template := output;
        var draw := 1;
        var groups := matched.value;
        var m := 0;
        while m < |groups|
          invariant 0 <= m <= |groups|
          invariant FillGroups(output, groups, m, eliza.substitutions, o, draw)
                 == FillGroups(template, groups, 0, eliza.substitutions, o, 1)
        {
          var tokens, next := SubstituteGroup(SplitFields(groups[m]), eliza.substitutions, o, draw);
          output := ReplaceAll(output, Marker(m + 1), Join(tokens, " "));
          draw := next;
          m := m + 1;
        }
        return;
      }
      i := i + 1;
    }
    assert FirstResponse(eliza.responses, o, input).None?;
    output := Fallback;
  }

  /** The token loop of `RespondTo`: overwrites each token of a group in
      place with its substitution. */
  method SubstituteGroup(group: seq<string>, subs: seq<Replacer>, o: Oracles, draw: nat)
    returns (tokens: seq<string>, next: nat)
    requires Answerable(subs)
    ensures (tokens, next) == GroupSubstitution(group, subs, o, draw)
  {
    tokens := group;
    next := draw;
    ghost var whole := GroupSubstitution(group, subs, o, draw);
    var t := 0;
    assert group[0..] == group && tokens[..0] + whole.0 == whole.0;
    while t < |tokens|
      invariant 0 <= t <= |tokens| == |group|
      invariant tokens[t..] == group[t..]
      invariant tokens[..t] + GroupSubstitution(group[t..], subs, o, next).0 == whole.0
      invariant GroupSubstitution(group[t..], subs, o, next).1 == whole.1
    {
      var token := tokens[t];
      var replaced, after := SubstituteToken(token, subs, o, next);
      GroupStep(group, t, tokens[..t], subs, o, next);
      assert tokens[..t] + [replaced] == tokens[t := replaced][..t + 1];
      tokens := tokens[t := replaced];
      next := after;
      t := t + 1;
    }
    assert group[t..] == [];
    assert GroupSubstitution(group[t..], subs, o, next) == ([], next);
    assert tokens[..t] + [] == tokens;
  }

  /** Substituting the tokens from `t` onwards is substituting the one at
      `t` and then the rest. */
  lemma GroupStep(group: seq<string>, t: nat, done: seq<string>, subs: seq<Replacer>, o: Oracles, draw: nat)
    requires t < |group| && Answerable(subs)
    ensures var first := TokenSubstitution(group[t], subs, o, draw);
            var rest := GroupSubstitution(group[t + 1..], subs, o, first.1);
            done + GroupSubstitution(group[t..], subs, o, draw).0 == (done + [first.0]) + rest.0
            && GroupSubstitution(group[t..], subs, o, draw).1 == rest.1
  {
    assert group[t..][0] == group[t] && group[t..][1..] == group[t + 1..];
  }

  /** The substitution loop of `RespondTo` for one token: the first rule
      whose pattern matches replaces it, and the scan stops there. */
  method SubstituteToken(token: string, subs: seq<Replacer>, o: Oracles, draw: nat)
    returns (result: string, next: nat)
    requires Answerable(subs)
    ensures (result, next) == TokenSubstitution(token, subs, o, draw)
  {
    result, next := token, draw;
    var s := 0;
    while s < |subs|
      invariant 0 <= s <= |subs|
      invariant forall q :: 0 <= q < s ==> !o.matches(subs[q].pattern, token)
    {
      if o.matches(subs[s].pattern, token) {
        FirstSubstitutionAt(subs, o, token, s);
        result := subs[s].replacements[o.rng(draw) % |subs[s].replacements|];
        next := draw + 1;
        return;
      }
      s := s + 1;
    }
  }

  /** When no response rule matches, the answer is the fixed fallback. */
  lemma NoMatchFallback(eliza: Eliza, o: Oracles, input: string)
    requires Valid(eliza)
    requires forall k :: 0 <= k < |eliza.responses| ==> o.find(eliza.responses[k].pattern, input).None?
    ensures Respond(eliza, o, input) == Fallback
  {
  }

  /** First match wins: once a rule matches, rules added after all the
      others change nothing. */
  lemma LaterRulesIrrelevant(eliza: Eliza, more: seq<Replacer>, o: Oracles, input: string)
    requires Valid(eliza) && Answerable(more)
    requires FirstResponse(eliza.responses, o, input).Some?
    ensures Respond(Eliza(eliza.responses + more, eliza.substitutions), o, input) == Respond(eliza, o, input)
  {
    var w := FirstResponse(eliza.responses, o, input).value;
    FirstIndexIgnoresSuffix(eliza.responses, more, (rule: Replacer) => o.find(rule.pattern, input).Some?);
    assert (eliza.responses + more)[w] == eliza.responses[w];
  }

  /** Rules that do not match the input may be put in front of the others
      without changing the answer. */
  lemma NonMatchingRulesSkipped(pre: seq<Replacer>, eliza: Eliza, o: Oracles, input: string)
    requires Valid(eliza) && Answerable(pre)
    requires forall k :: 0 <= k < |pre| ==> o.find(pre[k].pattern, input).None?
    ensures Respond(Eliza(pre + eliza.responses, eliza.substitutions), o, input) == Respond(eliza, o, input)
  {
    FirstIndexSkipsPrefix(pre, eliza.responses, (rule: Replacer) => o.find(rule.pattern, input).Some?);
    match FirstResponse(eliza.responses, o, input)
    case None =>
    case Some(w) =>
      assert (pre + eliza.responses)[|pre| + w] == eliza.responses[w];
  }

  /** A template holding none of the markers of the groups still to fill
      comes out of the filling unchanged; in particular a marker numbered
      beyond the last group, such as `$3` with two groups, stays literal. */
  lemma {:induction false} FillWithoutMarkers(output: string, groups: seq<string>, m: nat, subs: seq<Replacer>, o: Oracles, draw: nat)
    requires m <= |groups| && Answerable(subs)
    requires forall k :: m < k <= |groups| ==> !Contains(output, Marker(k))
    ensures FillGroups(output, groups, m, subs, o, draw).0 == output
    decreases |groups| - m
  {
    if m < |groups| {
      var group := GroupSubstitution(SplitFields(groups[m]), subs, o, draw);
      ReplaceAllAbsent(output, Marker(m + 1), Join(group.0, " "));
      FillWithoutMarkers(output, groups, m + 1, subs, o, group.1);
    }
  }

  /** Text without a `$` holds no marker. */
  lemma NoDollarNoMarker(output: string)
    requires '$' !in output
    ensures forall k :: !Contains(output, Marker(k))
  {
    forall k ensures !Contains(output, Marker(k)) {
      assert Marker(k)[0] in Marker(k);
      MissingChar(output, Marker(k), '$');
    }
  }

  /** The `$` of a marker does not recur in it. */
  lemma MarkerDollarOnce(k: nat)
    ensures Marker(k)[0] !in Marker(k)[1..]
  {
    var m := Marker(k);
    forall i | 0 <= i < |m[1..]| ensures m[1..][i] != '$' {
      assert m[1..][i] == m[i + 1];
    }
  }

  /** With one captured group, every occurrence of the marker `$1` is
      replaced by the group after splitting, substitution and re-joining
      with single spaces; the text between the markers is kept, other
      markers in it included. */
  lemma FillOneMarker(parts: seq<string>, group: string, subs: seq<Replacer>, o: Oracles, draw: nat)
    requires Answerable(subs)
    requires forall k :: 0 <= k < |parts| ==> !Contains(parts[k], Marker(1))
    ensures FillGroups(Join(parts, Marker(1)), [group], 0, subs, o, draw).0
         == Join(parts, Join(GroupSubstitution(SplitFields(group), subs, o, draw).0, " "))
  {
    var filled := GroupSubstitution(SplitFields(group), subs, o, draw);
    MarkerDollarOnce(1);
    ReplaceAllJoin(parts, Marker(1), Join(filled.0, " "));
  }

  /** One `$1` between two texts that do not hold it. */
  lemma FillAroundOne(pre: string, post: string, group: string, subs: seq<Replacer>, o: Oracles, draw: nat)
    requires Answerable(subs)
    requires !Contains(pre, Marker(1)) && !Contains(post, Marker(1))
    ensures FillGroups(pre + Marker(1) + post, [group], 0, subs, o, draw).0
         == pre + Join(GroupSubstitution(SplitFields(group), subs, o, draw).0, " ") + post
  {
    var parts := [pre, post];
    assert parts[1..] == [post];
    FillOneMarker(parts, group, subs, o, draw);
  }

  /** A template starting with `$1`, followed by text that does not hold
      it. */
  lemma FillLeadingOne(tail: string, group: string, subs: seq<Replacer>, o: Oracles, draw: nat)
    requires Answerable(subs)
    requires !Contains(tail, Marker(1))
    ensures FillGroups(Marker(1) + tail, [group], 0, subs, o, draw).0
         == Join(GroupSubstitution(SplitFields(group), subs, o, draw).0, " ") + tail
  {
    var parts := [[], tail];
    NoDollarNoMarker([]);
    assert parts[1..] == [tail];
    FillOneMarker(parts, group, subs, o, draw);
  }

  /** A single-digit marker other than `$1` does not hold `$1`. */
  lemma HigherMarkerNotOne(between: string, k: nat)
    requires 2 <= k <= 9 && '$' !in between
    ensures !Contains(between + Marker(k), Marker(1))
  {
    var tail := between + Marker(k);
    assert Marker(k) == ['$', DigitChar(k)];
    assert Marker(1) == ['$', '1'];
    forall i ensures !OccursAt(tail, Marker(1), i) {
      if 0 <= i < |between| {
        assert tail[i] == between[i];
      } else if i == |between| {
        assert tail[i + 1] == DigitChar(k);
      } else if |between| < i < |tail| {
        assert tail[i] == DigitChar(k);
      }
    }
  }

  /** With one group, a higher single-digit marker such as `$3` stays
      literal while `$1` is filled. */
  lemma OneGroupKeepsHigherMarker(template: string, group: string, subs: seq<Replacer>, o: Oracles, draw: nat, between: string, k: nat)
    requires Answerable(subs) && 2 <= k <= 9
    requires '$' !in between && template == Marker(1) + between + Marker(k)
    ensures FillGroups(template, [group], 0, subs, o, draw).0
         == Join(GroupSubstitution(SplitFields(group), subs, o, draw).0, " ") + between + Marker(k)
  {
    HigherMarkerNotOne(between, k);
    FillLeadingOne(between + Marker(k), group, subs, o, draw);
    assert template == Marker(1) + (between + Marker(k));
  }

  /** With one group, `$10` is read as `$1` followed by "0", as the Go code's
      replacement of `$1` does. */
  lemma TenReadAsOneWithOneGroup(group: string, subs: seq<Replacer>, o: Oracles, draw: nat)
    requires Answerable(subs)
    ensures FillGroups(Marker(10), [group], 0, subs, o, draw).0
         == Join(GroupSubstitution(SplitFields(group), subs, o, draw).0, " ") + "0"
  {
    assert Marker(10) == Marker(1) + "0";
    NoDollarNoMarker("0");
    FillLeadingOne("0", group, subs, o, draw);
  }

  /** The answer of a matching rule whose templates hold no marker is one
      of that rule's templates. */
  lemma AnswerIsWinningTemplate(eliza: Eliza, o: Oracles, input: string)
    requires Valid(eliza)
    requires FirstResponse(eliza.responses, o, input).Some?
    requires var rule := eliza.responses[FirstResponse(eliza.responses, o, input).value];
             forall k :: 0 <= k < |rule.replacements| ==> '$' !in rule.replacements[k]
    ensures Respond(eliza, o, input) in eliza.responses[FirstResponse(eliza.responses, o, input).value].replacements
  {
    var rule := eliza.responses[FirstResponse(eliza.responses, o, input).value];
    var template := Pick(rule.replacements, o, 0);
    NoDollarNoMarker(template);
    FillWithoutMarkers(template, o.find(rule.pattern, input).value, 0, eliza.substitutions, o, 1);
  }

  /** A template made of parts without `$1` between occurrences of `$1` is
      answered, for one captured group, with the substituted group in each
      marker's place. */
  lemma AnswerFillsGroup(eliza: Eliza, o: Oracles, input: string, parts: seq<string>, group: string)
    requires Valid(eliza)
    requires FirstResponse(eliza.responses, o, input).Some?
    requires var rule := eliza.responses[FirstResponse(eliza.responses, o, input).value];
             Pick(rule.replacements, o, 0) == Join(parts, Marker(1))
             && o.find(rule.pattern, input) == Some([group])
    requires forall k :: 0 <= k < |parts| ==> !Contains(parts[k], Marker(1))
    ensures Respond(eliza, o, input)
         == Join(parts, Join(GroupSubstitution(SplitFields(group), eliza.substitutions, o, 1).0, " "))
  {
    FillOneMarker(parts, group, eliza.substitutions, o, 1);
  }

  /** With no substitution rules, a template with one `$1` and a captured
      word without separators is answered with the word in the marker's
      place. */
  lemma AnswerWithWord(eliza: Eliza, o: Oracles, input: string, pre: string, post: string, word: string)
    requires Valid(eliza) && eliza.substitutions == []
    requires '$' !in pre && '$' !in post && NoSeparator(word)
    requires FirstResponse(eliza.responses, o, input).Some?
    requires var rule := eliza.responses[FirstResponse(eliza.responses, o, input).value];
             Pick(rule.replacements, o, 0) == pre + Marker(1) + post
             && o.find(rule.pattern, input) == Some([word])
    ensures Respond(eliza, o, input) == pre + word + post
  {
    NoDollarNoMarker(pre);
    NoDollarNoMarker(post);
    FillAroundOne(pre, post, word, [], o, 1);
    FieldsFromNoSeparator(word, "");
    assert "" + word == word;
    UnmatchedGroupUnchanged([word], [], o, 1);
  }

  /** The fallback text can also come from a matching rule: the template
      "I don't know what to $1." with the captured word "say" and no
      substitution rules fills to exactly the fallback. */
  lemma FilledTemplateCanBeFallback(eliza: Eliza, o: Oracles, input: string, pre: string, post: string, say: string)
    requires Valid(eliza) && eliza.substitutions == []
    requires pre == "I don't know what to " && post == "." && say == "say"
    requires FirstResponse(eliza.responses, o, input).Some?
    requires var rule := eliza.responses[FirstResponse(eliza.responses, o, input).value];
             Pick(rule.replacements, o, 0) == pre + Marker(1) + post
             && o.find(rule.pattern, input) == Some([say])
    ensures Respond(eliza, o, input) == Fallback
  {
    AnswerWithWord(eliza, o, input, pre, post, say);
    assert pre + say + post == Fallback;
  }

  /** The converse of `NoMatchFallback` where it holds: a matching rule
      whose templates hold no marker and differ from the fallback text never
      gives the fallback. */
  lemma MatchIsNoFallback(eliza: Eliza, o: Oracles, input: string)
    requires Valid(eliza)
    requires FirstResponse(eliza.responses, o, input).Some?
    requires var rule := eliza.responses[FirstResponse(eliza.responses, o, input).value];
             Fallback !in rule.replacements
             && forall k :: 0 <= k < |rule.replacements| ==> '$' !in rule.replacements[k]
    ensures Respond(eliza, o, input) != Fallback
  {
    AnswerIsWinningTemplate(eliza, o, input);
  }

  /** Without captured groups every marker stays literal, and each template
      of the matching rule is the answer for some outcome of the random
      draw. */
  lemma EveryTemplateReachable(eliza: Eliza, o: Oracles, input: string, k: nat)
    requires Valid(eliza)
    requires FirstResponse(eliza.responses, o, input).Some?
    requires o.find(eliza.responses[FirstResponse(eliza.responses, o, input).value].pattern, input) == Some([])
    requires k < |eliza.responses[FirstResponse(eliza.responses, o, input).value].replacements|
    ensures Respond(eliza, Oracles(o.find, o.matches, (n: nat) => k), input)
         == eliza.responses[FirstResponse(eliza.responses, o, input).value].replacements[k]
  {
    var o' := Oracles(o.find, o.matches, (n: nat) => k);
    assert FirstResponse(eliza.responses, o', input) == FirstResponse(eliza.responses, o, input);
  }

  /** A group in which no substitution rule matches any token is only
      re-joined, and uses no draw. */
  lemma {:induction false} UnmatchedGroupUnchanged(tokens: seq<string>, subs: seq<Replacer>, o: Oracles, draw: nat)
    requires Answerable(subs)
    requires forall t :: 0 <= t < |tokens| ==> FirstSubstitution(subs, o, tokens[t]).None?
    ensures GroupSubstitution(tokens, subs, o, draw) == (tokens, draw)
    decreases |tokens|
  {
    if tokens != [] {
      assert forall t :: 1 <= t < |tokens| ==> tokens[t] == tokens[1..][t - 1];
      UnmatchedGroupUnchanged(tokens[1..], subs, o, draw);
      assert [tokens[0]] + tokens[1..] == tokens;
    }
  }
}

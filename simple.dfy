/** `ElizaResponse`: the fixed responder that answers without rule files.
    A mention of "father" wins; otherwise an "I am ..." statement is echoed
    back reflected; otherwise one of three stock replies is chosen at
    random. The "I am" pattern is supplied by the caller, together with the
    tokenizer that splits its captured text for `Reflect`. */
module Simple {
  import opened Common
  import opened Strings
  import opened Reflection

  const FatherReply: string := "Why don't you tell me more about your father?"

  /** The text put in front of the reflected "I am" statement. */
  const IAmReply: string := "How do you know you are "

  /** The stock replies, in the order the random index selects them. */
  const Fallbacks: seq<string> := [
    "I'm not sure what you're trying to say. Could you explain it to me?",
    "How does that make you feel?",
    "Why do you say that?"
  ]

  /** A character of RE2's `\w`, the class `\b` separates from the rest. */
  predicate IsWordChar(c: char) {
    'a' <= c <= 'z' || 'A' <= c <= 'Z' || '0' <= c <= '9' || c == '_'
  }

  /** An ASCII letter in lower case; every other character is kept. */
  function Lower(c: char): char {
    if 'A' <= c <= 'Z' then (c as int + 32) as char else c
  }

  /** The word "father", in any mix of cases, starts at index `i` of `s`
      with a word boundary on each side. */
  predicate FatherAt(s: string, i: int) {
    0 <= i && i + 6 <= |s|
    && Lower(s[i]) == 'f' && Lower(s[i + 1]) == 'a' && Lower(s[i + 2]) == 't'
    && Lower(s[i + 3]) == 'h' && Lower(s[i + 4]) == 'e' && Lower(s[i + 5]) == 'r'
    && (i == 0 || !IsWordChar(s[i - 1]))
    && (i + 6 == |s| || !IsWordChar(s[i + 6]))
  }

  /** What the pattern `(?i).*\bfather\b.*` matches: the word "father"
      anywhere in the input. */
  predicate MentionsFather(s: string) {
    exists i :: 0 <= i <= |s| - 6 && FatherAt(s, i)
  }

  /** The answer to `input`. `iAm(input)` is `None` when the "I am" pattern
      does not match and otherwise the input with the match replaced by the
      captured statement and a question mark; `tokenize` splits that text
      for `Reflect`; `draw` is the value of the random draw. */
  function Response(input: string, iAm: string -> Option<string>, tokenize: string -> seq<string>, draw: nat): string
    requires !MentionsFather(input) && iAm(input).Some? ==> NoEarlyYou(tokenize(iAm(input).value))
  {
    if MentionsFather(input) then FatherReply
    else match iAm(input)
      case Some(statement) => IAmReply + Join(Reflected(tokenize(statement)), "")
      case None => Fallbacks[draw % |Fallbacks|]
  }

  /** `ElizaResponse`: tries the three tiers in order, reflecting the "I am"
      statement with `Reflect`. */
  method ElizaResponse(input: string, iAm: string -> Option<string>, tokenize: string -> seq<string>, draw: nat)
    returns (r: string)
    requires !MentionsFather(input) && iAm(input).Some? ==> NoEarlyYou(tokenize(iAm(input).value))
    ensures r == Response(input, iAm, tokenize, draw)
  {
    if MentionsFather(input) {
      return FatherReply;
    }
    var statement := iAm(input);
    if statement.Some? {
      var reflected := Reflect(tokenize(statement.value));
      return IAmReply + reflected;
    }
    var responses := Fallbacks;
    return responses[draw % |responses|];
  }

  /** A mention of "father" decides the answer, whatever the other tiers
      would say. */
  lemma FatherWins(input: string, iAm: string -> Option<string>, tokenize: string -> seq<string>, draw: nat)
    requires MentionsFather(input)
    ensures Response(input, iAm, tokenize, draw) == FatherReply
  {
  }

  /** "father" as a word of its own is found anywhere in a sentence. */
  lemma FatherBetweenSpaces(a: string, b: string)
    ensures MentionsFather(a + " father " + b)
  {
    var s := a + " father " + b;
    assert s[|a|..|a| + 8] == " father ";
    assert FatherAt(s, |a| + 1);
  }

  /** The match ignores case. */
  lemma FatherInCapitals()
    ensures MentionsFather("My FATHER is strict.")
  {
    assert FatherAt("My FATHER is strict.", 3);
  }

  /** Without the letter h there is no "father". */
  lemma NoFatherWithoutH(s: string)
    requires 'h' !in s && 'H' !in s
    ensures !MentionsFather(s)
  {
    forall i | 0 <= i <= |s| - 6 ensures !FatherAt(s, i) {
      assert s[i + 3] in s;
    }
  }

  /** "father" inside a longer word is not a mention. */
  lemma GrandfatherIsNoFather()
    ensures !MentionsFather("grandfather")
  {
    var s := "grandfather";
    forall i | 0 <= i && i + 6 <= |s| ensures !FatherAt(s, i) {
      if i == 5 {
        assert IsWordChar(s[4]);
      } else {
        assert s[i + 3] != 'h' && s[i + 3] != 'H';
      }
    }
  }

  /** A possessive is turned around, and words holding none of the letters
      of a trigger pass through. */
  lemma OfMyReflected(state: string, thing: string)
    requires 'w' !in state && 'I' !in state && 'm' !in state && 'y' !in state
    requires 'w' !in thing && 'I' !in thing && 'm' !in thing && 'y' !in thing
    ensures Reflected([state, " ", "of", " ", "my", " ", thing]) == [state, " ", "of", " ", "your", " ", thing]
  {
    var tokens := [state, " ", "of", " ", "my", " ", thing];
    var reflected := [state, " ", "of", " ", "your", " ", thing];
    forall k | 0 <= k < 7 ensures tokens[k] != "you" && TableReflect(tokens[k]) == reflected[k] {
      if k == 4 {
        MyBecomesYour(tokens[k]);
      } else {
        PlainTokenUnchanged(tokens[k]);
      }
    }
    ReflectedByTable(tokens, reflected);
  }

  /** An "I am" statement is echoed back from the listener's side: "I am
      tired of my job." is answered "How do you know you are tired of your
      job?", for every `state` and `thing` without a letter of a trigger. */
  lemma OfMyStatement(input: string, iAm: string -> Option<string>, tokenize: string -> seq<string>, draw: nat,
                      state: string, thing: string)
    requires 'h' !in input && 'H' !in input
    requires iAm(input).Some?
    requires tokenize(iAm(input).value) == [state, " ", "of", " ", "my", " ", thing]
    requires 'w' !in state && 'I' !in state && 'm' !in state && 'y' !in state
    requires 'w' !in thing && 'I' !in thing && 'm' !in thing && 'y' !in thing
    ensures Response(input, iAm, tokenize, draw) == IAmReply + state + " of your " + thing
  {
    NoFatherWithoutH(input);
    OfMyReflected(state, thing);
    IAmBranch(input, iAm, tokenize, draw);
    JoinOfYour(state, thing);
  }

  lemma JoinOfYour(state: string, thing: string)
    ensures Join([state, " ", "of", " ", "your", " ", thing], "") == state + " of your " + thing
  {
    JoinEmptyCons(" ", [thing]);
    JoinEmptyCons("your", [" ", thing]);
    JoinEmptyCons(" ", ["your", " ", thing]);
    JoinEmptyCons("of", [" ", "your", " ", thing]);
    JoinEmptyCons(" ", ["of", " ", "your", " ", thing]);
    JoinEmptyCons(state, [" ", "of", " ", "your", " ", thing]);
    assert [state] + [" ", "of", " ", "your", " ", thing] == [state, " ", "of", " ", "your", " ", thing];
    assert " " + ("of" + (" " + ("your" + (" " + thing)))) == " of your " + thing;
  }

  /** Without "father", a matching "I am" statement is answered with its
      reflection. */
  lemma IAmBranch(input: string, iAm: string -> Option<string>, tokenize: string -> seq<string>, draw: nat)
    requires !MentionsFather(input) && iAm(input).Some?
    requires NoEarlyYou(tokenize(iAm(input).value))
    ensures Response(input, iAm, tokenize, draw) == IAmReply + Join(Reflected(tokenize(iAm(input).value)), "")
  {
  }

  /** With neither "father" nor "I am", the answer is one of the stock
      replies, and each of them is the answer for some draw. */
  lemma StockReplies(input: string, iAm: string -> Option<string>, tokenize: string -> seq<string>, draw: nat)
    requires !MentionsFather(input) && iAm(input).None?
    ensures Response(input, iAm, tokenize, draw) in Fallbacks
    ensures forall k :: 0 <= k < |Fallbacks| ==> Response(input, iAm, tokenize, k) == Fallbacks[k]
  {
  }
}

/** `Reflect`: rewrites a phrase token by token from the speaker's point of
    view to the listener's, with a fixed ordered table (first match wins)
    and one context-sensitive rule for the exact token "you". The phrase
    arrives already split into tokens; the separators between words are
    tokens of their own, so the word two places back is the previous word. */
module Reflection {
  import opened Common
  import opened Strings

  /** The prepositions after which "you" is an object pronoun. */
  const Prepositions: seq<string> :=
    ["to", "by", "under", "about", "on", "according", "over", "of", "without"]

  /** The reflection table, in the order it is tried. */
  const Reflections: seq<(string, string)> := [
    ("was", "were"),
    ("I", "you"),
    ("I'm", "you are"),
    ("I'd", "you would"),
    ("I've", "you have"),
    ("I'll", "you will"),
    ("my", "your"),
    ("you're", "I am"),
    ("were", "was"),
    ("you've", "I have"),
    ("you'll", "I will"),
    ("your", "my"),
    ("yours", "mine"),
    ("me", "you")
  ]

  /** The token "you" never stands first or second: the lookback two tokens
      earlier is then in range. */
  predicate NoEarlyYou(tokens: seq<string>) {
    forall k :: 0 <= k < |tokens| && k < 2 ==> tokens[k] != "you"
  }

  /** What "you" becomes when the word two tokens earlier is `previous`. */
  function YouForm(previous: string): string {
    if previous in Prepositions then "me" else "I"
  }

  /** A token other than "you", rewritten by the first table entry whose
      trigger occurs in it; every trigger is a plain literal, so a match is
      a substring test. */
  function TableReflect(token: string): string
  {
    match FirstIndex(Reflections, (e: (string, string)) => Contains(token, e.0))
    case None => token
    case Some(m) => Reflections[m].1
  }

  /** The first entry whose trigger occurs in the token decides, and no
      later entry is tried. */
  lemma TableReflectFirst(token: string, m: nat)
    requires m < |Reflections| && Contains(token, Reflections[m].0)
    requires forall q :: 0 <= q < m ==> !Contains(token, Reflections[q].0)
    ensures TableReflect(token) == Reflections[m].1
  {
  }

  /** A token in which no trigger occurs is left as it is. */
  lemma TableReflectNone(token: string)
    requires forall m :: 0 <= m < |Reflections| ==> !Contains(token, Reflections[m].0)
    ensures TableReflect(token) == token
  {
  }

  /** The reflection of the token at position `k` of `tokens`. */
  function ReflectAt(tokens: seq<string>, k: nat): string
    requires k < |tokens|
    requires tokens[k] == "you" ==> k >= 2
  {
    if tokens[k] == "you" then YouForm(tokens[k - 2]) else TableReflect(tokens[k])
  }

  /** Every token reflected, each on its own and against the original
      phrase. */
  function Reflected(tokens: seq<string>): (r: seq<string>)
    requires NoEarlyYou(tokens)
  {
    seq(|tokens|, k requires 0 <= k < |tokens| => ReflectAt(tokens, k))
  }

  /** A sequence that agrees with the reflection at every position is it. */
  lemma ReflectedPointwise(words: seq<string>, tokens: seq<string>)
    requires NoEarlyYou(words) && |tokens| == |words|
    requires forall k :: 0 <= k < |words| ==> tokens[k] == ReflectAt(words, k)
    ensures tokens == Reflected(words)
  {
  }

  /** The token the loop of `Reflect` writes at `i`, looking back at the
      rewritten token `previous`, is the reflection of the original one. */
  lemma ReflectStep(words: seq<string>, i: nat, previous: string, reflected: string)
    requires NoEarlyYou(words) && i < |words|
    requires words[i] == "you" ==> previous == ReflectAt(words, i - 2)
    requires words[i] == "you" ==> reflected == YouForm(previous)
    requires words[i] != "you" ==> reflected == TableReflect(words[i])
    ensures reflected == ReflectAt(words, i)
  {
    if words[i] == "you" {
      ReflectionKeepsPrepositions(words, i - 2);
    }
  }

  /** `Reflect` once the phrase is split: rewrites the tokens in place,
      left to right, then concatenates them without separator. */
  method Reflect(words: seq<string>) returns (r: string)
    requires NoEarlyYou(words)
    ensures r == Join(Reflected(words), "")
  {
    var tokens := words;
    var i := 0;
    while i < |tokens|
      invariant 0 <= i <= |tokens| == |words|
      invariant forall k :: 0 <= k < i ==> tokens[k] == ReflectAt(words, k)
      invariant forall k :: i <= k < |words| ==> tokens[k] == words[k]
    {
      var previous := if tokens[i] == "you" then tokens[i - 2] else "";
      var reflected := ReflectToken(tokens[i], previous);
      ReflectStep(words, i, previous, reflected);
      tokens := tokens[i := reflected];
      i := i + 1;
    }
    ReflectedPointwise(words, tokens);
    r := Join(tokens, "");
  }

  /** One pass of the outer loop of `Reflect`: `token` is tried against
      every table entry in order, the first entry whose trigger occurs in
      it deciding; "you" is instead resolved by `previous`, the token two
      places back as already rewritten. */
  method ReflectToken(token: string, previous: string) returns (reflected: string)
    ensures token == "you" ==> reflected == YouForm(previous)
    ensures token != "you" ==> reflected == TableReflect(token)
  {
    reflected := token;
    var j := 0;
    while j < |Reflections|
      invariant 0 <= j <= |Reflections|
      invariant token == "you" && j > 0 ==> reflected == YouForm(previous)
      invariant token != "you" ==> reflected == token
      invariant token != "you" ==> forall m :: 0 <= m < j ==> !Contains(token, Reflections[m].0)
    {
      if token == "you" {
        reflected := YouLookback(previous);
      } else if Contains(token, Reflections[j].0) {
        TableReflectFirst(token, j);
        reflected := Reflections[j].1;
        break;
      }
      j := j + 1;
    }
    if token != "you" && j == |Reflections| {
      TableReflectNone(token);
    }
  }

  /** The preposition loop for "you": "me" as soon as `previous` equals a
      preposition, "I" once the last preposition has been passed. */
  method YouLookback(previous: string) returns (form: string)
    ensures form == YouForm(previous)
  {
    form := "you";
    var p := 0;
    while p < |Prepositions|
      invariant 0 <= p <= |Prepositions|
      invariant forall q :: 0 <= q < p ==> previous != Prepositions[q]
      invariant p == |Prepositions| ==> form == "I"
    {
      if previous == Prepositions[p] {
        form := "me";
        break;
      }
      if p == |Prepositions| - 1 {
        form := "I";
      }
      p := p + 1;
    }
  }

  /** A property of every table entry follows from the property of each. */
  lemma ForEachEntry(P: ((string, string)) -> bool)
    requires P(("was", "were")) && P(("I", "you")) && P(("I'm", "you are"))
    requires P(("I'd", "you would")) && P(("I've", "you have")) && P(("I'll", "you will"))
    requires P(("my", "your")) && P(("you're", "I am")) && P(("were", "was"))
    requires P(("you've", "I have")) && P(("you'll", "I will")) && P(("your", "my"))
    requires P(("yours", "mine")) && P(("me", "you"))
    ensures forall m :: 0 <= m < |Reflections| ==> P(Reflections[m])
  {
  }

  /** A property of every entry before the one for "your" follows from
      the property of each. */
  lemma BeforeYour(P: ((string, string)) -> bool)
    requires P(("was", "were")) && P(("I", "you")) && P(("I'm", "you are"))
    requires P(("I'd", "you would")) && P(("I've", "you have")) && P(("I'll", "you will"))
    requires P(("my", "your")) && P(("you're", "I am")) && P(("were", "was"))
    requires P(("you've", "I have")) && P(("you'll", "I will"))
    ensures Reflections[11].0 == "your"
    ensures forall m :: 0 <= m < 11 ==> P(Reflections[m])
  {
  }

  /** A string longer than `s` does not occur in it. */
  lemma LongerNotContained(s: string, sub: string)
    requires |sub| > |s|
    ensures !Contains(s, sub)
  {
  }

  /** The letters the table's triggers are told apart by: no preposition
      holds an upper-case I or an apostrophe, ... */
  lemma PrepositionLettersIQuote(p: string)
    requires p in Prepositions
    ensures 'I' !in p && '\'' !in p
  {
  }

  /** ... nor an s or an m, ... */
  lemma PrepositionLettersSM(p: string)
    requires p in Prepositions
    ensures 's' !in p && 'm' !in p
  {
  }

  /** ... nor both a w and an e, nor a y unless it is shorter than "your". */
  lemma PrepositionLettersWEY(p: string)
    requires p in Prepositions
    ensures 'w' !in p || 'e' !in p
    ensures |p| < 4 || 'y' !in p
  {
  }

  /** No trigger of the table occurs in a word with the letters of a
      preposition, so such a word is left as it is. */
  lemma NoTriggerInPreposition(p: string)
    requires 'I' !in p && '\'' !in p && 's' !in p && 'm' !in p
    requires 'w' !in p || 'e' !in p
    requires |p| < 4 || 'y' !in p
    ensures TableReflect(p) == p
  {
    NoPronounTriggerIn(p);
    NoOtherTriggerIn(p);
    NoTriggerListed(p);
  }

  /** A token in which none of the 14 triggers occurs is left as it is. */
  lemma NoTriggerListed(token: string)
    requires !Contains(token, "was") && !Contains(token, "I") && !Contains(token, "I'm")
    requires !Contains(token, "I'd") && !Contains(token, "I've") && !Contains(token, "I'll")
    requires !Contains(token, "my") && !Contains(token, "you're") && !Contains(token, "were")
    requires !Contains(token, "you've") && !Contains(token, "you'll") && !Contains(token, "your")
    requires !Contains(token, "yours") && !Contains(token, "me")
    ensures TableReflect(token) == token
  {
    ForEachEntry((e: (string, string)) => !Contains(token, e.0));
    TableReflectNone(token);
  }

  /** The triggers built on "I", and "was", "my" and "me", need a letter
      that a preposition lacks. */
  lemma NoPronounTriggerIn(p: string)
    requires 'I' !in p && 's' !in p && 'm' !in p
    ensures !Contains(p, "was") && !Contains(p, "I") && !Contains(p, "I'm") && !Contains(p, "I'd")
    ensures !Contains(p, "I've") && !Contains(p, "I'll") && !Contains(p, "my") && !Contains(p, "me")
  {
    MissingChar(p, "was", 's');
    MissingChar(p, "I", 'I');
    MissingChar(p, "I'm", 'I');
    MissingChar(p, "I'd", 'I');
    MissingChar(p, "I've", 'I');
    MissingChar(p, "I'll", 'I');
    MissingChar(p, "my", 'm');
    MissingChar(p, "me", 'm');
  }

  /** The contractions of "you", "were", "your" and "yours" need a letter
      that a preposition lacks, or more letters than a short preposition
      has. */
  lemma NoOtherTriggerIn(p: string)
    requires '\'' !in p && 's' !in p
    requires 'w' !in p || 'e' !in p
    requires |p| < 4 || 'y' !in p
    ensures !Contains(p, "you're") && !Contains(p, "were") && !Contains(p, "you've")
    ensures !Contains(p, "you'll") && !Contains(p, "your") && !Contains(p, "yours")
  {
    MissingChar(p, "you're", '\'');
    if 'w' in p {
      MissingChar(p, "were", 'e');
    } else {
      MissingChar(p, "were", 'w');
    }
    MissingChar(p, "you've", '\'');
    MissingChar(p, "you'll", '\'');
    if |p| < 4 {
      LongerNotContained(p, "your");
    } else {
      MissingChar(p, "your", 'y');
    }
    MissingChar(p, "yours", 's');
  }

  /** Every preposition starts with a letter other than y, I and m, and
      the one starting with w is seven letters long. */
  lemma PrepositionInitials(p: string)
    ensures p in Prepositions ==> |p| > 0 && p[0] != 'y' && p[0] != 'I' && p[0] != 'm' && (p[0] == 'w' ==> |p| == 7)
  {
  }

  /** No reflected form of the table is a preposition: each starts with y,
      I or m, or with w and is shorter than seven letters. */
  lemma NoPrepositionProduced()
    ensures forall m :: 0 <= m < |Reflections| ==> Reflections[m].1 !in Prepositions
  {
    ForEachEntry((e: (string, string)) =>
      |e.1| > 0 && (e.1[0] == 'y' || e.1[0] == 'I' || e.1[0] == 'm' || (e.1[0] == 'w' && |e.1| < 7)));
    forall m | 0 <= m < |Reflections| ensures Reflections[m].1 !in Prepositions {
      PrepositionInitials(Reflections[m].1);
    }
  }

  /** Reflection neither creates nor removes a preposition, so the in-place
      lookback two tokens back sees a preposition exactly when the original
      phrase has one there. */
  lemma ReflectionKeepsPrepositions(tokens: seq<string>, k: nat)
    requires k < |tokens| && (tokens[k] == "you" ==> k >= 2)
    ensures ReflectAt(tokens, k) in Prepositions <==> tokens[k] in Prepositions
  {
    var t := tokens[k];
    if t != "you" {
      if t in Prepositions {
        PrepositionLettersIQuote(t);
        PrepositionLettersSM(t);
        PrepositionLettersWEY(t);
        NoTriggerInPreposition(t);
      } else {
        NoPrepositionProduced();
      }
    }
  }

  /** Every trigger holds one of the letters w, I, m, y: a token without
      them is left as it is. */
  lemma PlainTokenUnchanged(token: string)
    requires 'w' !in token && 'I' !in token && 'm' !in token && 'y' !in token
    ensures TableReflect(token) == token
  {
    MissingChar(token, "was", 'w');
    MissingChar(token, "I", 'I');
    MissingChar(token, "I'm", 'I');
    MissingChar(token, "I'd", 'I');
    MissingChar(token, "I've", 'I');
    MissingChar(token, "I'll", 'I');
    MissingChar(token, "my", 'm');
    MissingChar(token, "you're", 'y');
    MissingChar(token, "were", 'w');
    MissingChar(token, "you've", 'y');
    MissingChar(token, "you'll", 'y');
    MissingChar(token, "your", 'y');
    MissingChar(token, "yours", 'y');
    MissingChar(token, "me", 'm');
    NoTriggerListed(token);
  }

  /** The entry for "I" comes before those for "I'm", "I'd", "I've" and
      "I'll", and takes them over. */
  lemma IShadowsContractions(token: string)
    requires token in ["I'm", "I'd", "I've", "I'll"]
    ensures TableReflect(token) == "you"
  {
    MissingChar(token, "was", 'w');
    assert OccursAt(token, "I", 0);
    assert Reflections[0].0 == "was" && Reflections[1] == ("I", "you");
    TableReflectFirst(token, 1);
  }

  /** The entry for "your" comes before the one for "yours" and takes it
      over: every word that starts with "your" and has no letter of an
      earlier trigger, "yours" among them, becomes "my". */
  lemma YourShadowsYours(t: string)
    requires IsPrefix("your", t)
    requires 'w' !in t && 'I' !in t && 'm' !in t && '\'' !in t
    ensures TableReflect(t) == "my"
  {
    NoTriggerBeforeYour(t);
    BeforeYour((e: (string, string)) => !Contains(t, e.0));
    assert OccursAt(t, "your", 0);
    TableReflectFirst(t, 11);
  }

  /** A word without w, I, m or an apostrophe holds none of the triggers
      tried before "your". */
  lemma NoTriggerBeforeYour(t: string)
    requires 'w' !in t && 'I' !in t && 'm' !in t && '\'' !in t
    ensures !Contains(t, "was") && !Contains(t, "I") && !Contains(t, "I'm") && !Contains(t, "I'd")
    ensures !Contains(t, "I've") && !Contains(t, "I'll") && !Contains(t, "my") && !Contains(t, "you're")
    ensures !Contains(t, "were") && !Contains(t, "you've") && !Contains(t, "you'll")
  {
    MissingChar(t, "was", 'w');
    MissingChar(t, "I", 'I');
    MissingChar(t, "I'm", 'I');
    MissingChar(t, "I'd", 'I');
    MissingChar(t, "I've", 'I');
    MissingChar(t, "I'll", 'I');
    MissingChar(t, "my", 'm');
    MissingChar(t, "you're", '\'');
    MissingChar(t, "were", 'w');
    MissingChar(t, "you've", '\'');
    MissingChar(t, "you'll", '\'');
  }

  /** At a position other than "you" only the table applies. */
  lemma ReflectAtTable(tokens: seq<string>, k: nat)
    requires k < |tokens| && tokens[k] != "you"
    ensures ReflectAt(tokens, k) == TableReflect(tokens[k])
  {
  }

  /** Without "you", reflecting is applying the table token by token. */
  lemma ReflectedByTable(tokens: seq<string>, reflected: seq<string>)
    requires |reflected| == |tokens|
    requires forall k :: 0 <= k < |tokens| ==> tokens[k] != "you" && TableReflect(tokens[k]) == reflected[k]
    ensures NoEarlyYou(tokens) && Reflected(tokens) == reflected
  {
    forall k | 0 <= k < |tokens| ensures ReflectAt(tokens, k) == reflected[k] {
      ReflectAtTable(tokens, k);
    }
    ReflectedPointwise(tokens, reflected);
  }

  /** "my" becomes "your". The word is passed in rather than written out,
      which keeps the verifier from evaluating the whole table on it. */
  lemma MyBecomesYour(my: string)
    requires my == "my"
    ensures TableReflect(my) == "your"
  {
    MissingChar(my, "was", 'w');
    MissingChar(my, "I", 'I');
    MissingChar(my, "I'm", 'I');
    MissingChar(my, "I'd", 'I');
    MissingChar(my, "I've", 'I');
    MissingChar(my, "I'll", 'I');
    assert OccursAt(my, "my", 0);
    TableReflectFirst(my, 6);
  }

  /** "you" after a preposition becomes "me". */
  lemma YouAfterPreposition()
    ensures Reflected(["I", " ", "gave", " ", "it", " ", "to", " ", "you"])[8] == "me"
  {
  }

  /** "you" after a word that is not a preposition becomes "I". */
  lemma YouAfterOtherWord()
    ensures Reflected(["I", " ", "see", " ", "you"])[4] == "I"
  {
  }

  lemma IBecomesYou()
    ensures TableReflect("I") == "you"
  {
    MissingChar("I", "was", 'w');
    assert OccursAt("I", "I", 0);
    TableReflectFirst("I", 1);
  }
}

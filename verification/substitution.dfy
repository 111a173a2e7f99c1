/** The replace-all step shared by `updatePromptPreview` and `buildPrompt`
    (script.js:70-72, 80-83, 417-418), and the sequential fold of those
    steps over a list of variables. */
module Substitution {
  import opened Strings
  import opened Scanner

  /** One replacement pass: every `${name...}` becomes `replacement`. */
  datatype Sub = Sub(name: string, replacement: string)

  /** Characters with a meaning in a JavaScript regular expression. A name
      free of them stands for itself inside `new RegExp(...)`. */
  const RegexSpecials: set<char> := {'\\', '^', '$', '.', '|', '?', '*', '+', '(', ')', '[', ']', '{', '}'}

  predicate LiteralName(name: string) {
    forall c :: c in name ==> c !in RegexSpecials
  }

  /** A replacement string without `$` is inserted verbatim by
      `String.prototype.replace`. */
  predicate PlainReplacement(repl: string) {
    '$' !in repl
  }

  /** The passes this model interprets literally, as the script does for
      such names and replacements. */
  predicate SafeSubs(subs: seq<Sub>) {
    forall i :: 0 <= i < |subs| ==> LiteralName(subs[i].name) && PlainReplacement(subs[i].replacement)
  }

  lemma {:induction false} SpliceWithoutHits(ts: seq<Token>, repl: string)
    ensures Hits(ts) == [] ==> Splice(ts, repl) == Flatten(ts)
    decreases |ts|
  {
    if |ts| > 0 {
      SpliceWithoutHits(ts[1..], repl);
    }
  }

  /** `text.replace(/\$\{NAME[^}]*\}/g, repl)`: every match of the per-name
      pattern, found by the global scan, replaced by repl. */
  function ReplaceAll(text: string, name: string, repl: string): (r: string)
    ensures NoMatch(NamedPlaceholder(name), text) ==> r == text
  {
    var ts := Tokenize(NamedPlaceholder(name), text);
    HitsEmptyIff(NamedPlaceholder(name), text);
    SpliceWithoutHits(ts, repl);
    Splice(ts, repl)
  }

  /** The `forEach` of the script: one replace-all pass per entry, each on
      the output of the previous one. */
  function Substitute(text: string, subs: seq<Sub>): (r: string)
    ensures (forall i :: 0 <= i < |subs| ==> NoMatch(NamedPlaceholder(subs[i].name), text)) ==> r == text
    decreases |subs|
  {
    if |subs| == 0 then text
    else Substitute(ReplaceAll(text, subs[0].name, subs[0].replacement), subs[1..])
  }

  /** The passes run one after the other: running a list of passes is
      running its first part, then the rest on the result. */
  lemma {:induction false} SubstituteAppend(text: string, a: seq<Sub>, b: seq<Sub>)
    ensures Substitute(text, a + b) == Substitute(Substitute(text, a), b)
    decreases |a|
  {
    if |a| > 0 {
      assert (a + b)[0] == a[0] && (a + b)[1..] == a[1..] + b;
      SubstituteAppend(ReplaceAll(text, a[0].name, a[0].replacement), a[1..], b);
    } else {
      assert a + b == b;
    }
  }
}

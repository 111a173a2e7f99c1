/** `extractVariables` (script.js:17-28): every `${name}` or
    `${name:default}` of a prompt, trimmed, without repeated pairs. */
module Extractor {
  import opened Options
  import opened Strings
  import opened Scanner

  /** One entry of the extractor's result, `{ name, default }`. */
  datatype Variable = Variable(name: string, default: string)

  /** The two capture groups of one extractor match: group 1 and, when the
      `:` is present, group 2. */
  datatype Groups = Groups(name: string, default: Option<string>)

  /** The text between the braces that the groups were read from. */
  function Unsplit(g: Groups): string {
    match g.default
    case None => g.name
    case Some(d) => g.name + [':'] + d
  }

  /** The placeholder text the groups were read from. */
  function PlaceholderText(g: Groups): string {
    "${" + Unsplit(g) + "}"
  }

  /** Groups the extractor pattern can produce: group 1 is `[^:}]+` and
      group 2 is `[^}]*`. */
  predicate WellFormed(g: Groups) {
    && |g.name| > 0 && ':' !in g.name && '}' !in g.name
    && (g.default.Some? ==> '}' !in g.default.value)
  }

  /** Group 1 runs up to the first `:`, and group 2 is everything after it. */
  function SplitInner(inner: string): (g: Groups)
    ensures ':' !in g.name
    ensures Unsplit(g) == inner
  {
    if ':' in inner then
      var i := IndexOf(inner, ':');
      assert inner == inner[..i] + [':'] + inner[i + 1..];
      Groups(inner[..i], Some(inner[i + 1..]))
    else
      Groups(inner, None)
  }

  /** Splitting the text of groups whose name has no `:` gives them back. */
  lemma SplitUnsplit(g: Groups)
    requires ':' !in g.name
    ensures SplitInner(Unsplit(g)) == g
  {
    var inner := Unsplit(g);
    if g.default.Some? {
      assert inner[|g.name|] == ':' && inner[..|g.name|] == g.name;
      IndexOfUnique(inner, ':', |g.name|);
      assert inner[|g.name| + 1..] == g.default.value;
    }
  }

  lemma MatchGroupsWellFormed(w: string)
    requires Matches(AnyPlaceholder, w)
    ensures WellFormed(SplitInner(Inner(w)))
    ensures PlaceholderText(SplitInner(Inner(w))) == w
  {
    var g := SplitInner(Inner(w));
    assert w == "${" + Inner(w) + "}";
    if g.default.Some? {
      assert Inner(w) == g.name + [':'] + g.default.value;
      assert forall c :: c in g.default.value ==> c in Inner(w);
    }
    assert forall c :: c in g.name ==> c in Inner(w);
  }

  /** The groups of one match of the extractor pattern. */
  function GroupsOf(w: string): (g: Groups)
    requires Matches(AnyPlaceholder, w)
    ensures WellFormed(g)
    ensures PlaceholderText(g) == w
  {
    MatchGroupsWellFormed(w);
    SplitInner(Inner(w))
  }

  /** Every well-formed pair of groups is exactly one extractor match, and
      reading it back gives the same groups. */
  lemma PlaceholderTextRoundTrip(g: Groups)
    requires WellFormed(g)
    ensures Matches(AnyPlaceholder, PlaceholderText(g))
    ensures GroupsOf(PlaceholderText(g)) == g
  {
    var w := PlaceholderText(g);
    assert Inner(w) == Unsplit(g);
    assert '}' !in Unsplit(g) by {
      if g.default.Some? {
        assert forall c :: c in Unsplit(g) ==> c in g.name || c == ':' || c in g.default.value;
      }
    }
    assert Unsplit(g)[0] == g.name[0];
    SplitUnsplit(g);
  }

  /** The groups of every extractor match, in text order. */
  function Scan(text: string): (gs: seq<Groups>)
    ensures |gs| == |Hits(Tokenize(AnyPlaceholder, text))|
    ensures forall i :: 0 <= i < |gs| ==>
              WellFormed(gs[i]) && PlaceholderText(gs[i]) == Hits(Tokenize(AnyPlaceholder, text))[i]
  {
    var ts := Tokenize(AnyPlaceholder, text);
    var hs := Hits(ts);
    CanonicalHitsMatch(AnyPlaceholder, ts);
    seq(|hs|, i requires 0 <= i < |hs| => GroupsOf(hs[i]))
  }

  /** One match as an entry: both groups trimmed, a missing group 2 read as
      the empty default. */
  function ToVariable(g: Groups): (v: Variable)
    ensures Unpadded(v.name) && Unpadded(v.default)
    ensures exists k :: TrimmedAt(g.name, v.name, k)
    ensures g.default.Some? ==> exists k :: TrimmedAt(g.default.value, v.default, k)
    ensures forall c :: c in v.name ==> c in g.name
    ensures g.default.None? ==> v.default == ""
    ensures g.default.Some? ==> forall c :: c in v.default ==> c in g.default.value
  {
    TrimKeepsChars(g.name);
    var default := if g.default.Some? then TrimKeepsChars(g.default.value); Trim(g.default.value) else "";
    Variable(Trim(g.name), default)
  }

  /** The entries of all matches, repeats included. */
  function Occurrences(text: string): (vs: seq<Variable>)
    ensures |vs| == |Scan(text)|
    ensures forall i :: 0 <= i < |vs| ==> vs[i] == ToVariable(Scan(text)[i])
  {
    var gs := Scan(text);
    seq(|gs|, i requires 0 <= i < |gs| => ToVariable(gs[i]))
  }

  ghost predicate Distinct<T>(s: seq<T>) {
    forall i, j :: 0 <= i < j < |s| ==> s[i] != s[j]
  }

  /** The position of the first x in s. */
  function FirstIndex<T(==)>(s: seq<T>, x: T): (r: nat)
    requires x in s
    ensures r < |s| && s[r] == x && x !in s[..r]
  {
    if s[0] == x then 0
    else
      var r := 1 + FirstIndex(s[1..], x);
      assert s[..r] == [s[0]] + s[1..][..r - 1];
      r
  }

  /** `[...new Set(...)]`: the elements of s without repeats, each where it
      first occurs. */
  function Dedup<T(==,!new)>(s: seq<T>): (r: seq<T>)
    ensures forall x :: x in r <==> x in s
    ensures Distinct(r)
    ensures |r| <= |s|
    decreases |s|
  {
    if |s| == 0 then []
    else
      var r := Dedup(s[..|s| - 1]);
      var x := s[|s| - 1];
      assert s == s[..|s| - 1] + [x];
      if x in r then r else r + [x]
  }

  lemma FirstIndexOfPrefix<T>(s: seq<T>, n: nat, x: T)
    requires n <= |s| && x in s[..n]
    ensures x in s && FirstIndex(s, x) == FirstIndex(s[..n], x)
  {
    var a := FirstIndex(s[..n], x);
    var b := FirstIndex(s, x);
    assert s[..n][a] == s[a];
    assert s[..a] == s[..n][..a];
  }

  /** Deduplication keeps the order of first occurrences. */
  lemma {:induction false} DedupKeepsFirstOccurrenceOrder<T(!new)>(s: seq<T>)
    ensures forall i, j :: 0 <= i < j < |Dedup(s)| ==>
              FirstIndex(s, Dedup(s)[i]) < FirstIndex(s, Dedup(s)[j])
    decreases |s|
  {
    if |s| > 0 {
      var n := |s| - 1;
      var p := s[..n];
      var r := Dedup(p);
      var x := s[n];
      DedupKeepsFirstOccurrenceOrder(p);
      forall y | y in r
        ensures FirstIndex(s, y) == FirstIndex(p, y) < n
      {
        FirstIndexOfPrefix(s, n, y);
      }
      if x !in r {
        assert x !in p;
        assert FirstIndex(s, x) == n by {
          assert s[..n] == p;
        }
        assert Dedup(s) == r + [x];
      } else {
        assert Dedup(s) == r;
      }
    }
  }

  /** `extractVariables(text)`: the entries of all matches, each
      `(name, default)` pair once, in order of first occurrence. */
  function Extract(text: string): (r: seq<Variable>)
    ensures forall v :: v in r <==> v in Occurrences(text)
    ensures Distinct(r)
  {
    Dedup(Occurrences(text))
  }

  /** The extractor's entries keep the order in which each pair first
      occurs in the text. */
  lemma ExtractOrder(text: string)
    ensures forall i, j :: 0 <= i < j < |Extract(text)| ==>
              FirstIndex(Occurrences(text), Extract(text)[i]) < FirstIndex(Occurrences(text), Extract(text)[j])
  {
    DedupKeepsFirstOccurrenceOrder(Occurrences(text));
  }

  /** The extractor finds nothing exactly when no substring of the text is a
      placeholder. */
  lemma ExtractEmptyIff(text: string)
    ensures Extract(text) == [] <==> NoMatch(AnyPlaceholder, text)
  {
    HitsEmptyIff(AnyPlaceholder, text);
    assert |Occurrences(text)| > 0 ==> Occurrences(text)[0] in Extract(text);
    if Extract(text) != [] {
      assert Extract(text)[0] in Occurrences(text);
    }
  }
}

/** The two regular expressions of script.js and their global scan.

    The extractor uses `/\${([^:}]+)(?::([^}]*))?}/g` and every substitution
    builds `/\$\{NAME[^}]*\}/g`. Both match `${`, then a run of characters
    without `}`, then `}`: group 1 of the first can only stop at `:` or `}`,
    and neither its group 2 nor the `[^}]*` of the second can backtrack past
    a character other than `}`. So a match always ends at the first `}` after
    the `${`, and the two patterns differ only in what they demand of the
    text between the braces. */
module Scanner {
  import opened Options
  import opened Strings

  datatype Pattern =
    | AnyPlaceholder            // the extractor's pattern
    | NamedPlaceholder(name: string)  // the pattern built for one variable name

  /** `${`, a run without `}`, and the closing `}`. */
  predicate Braced(w: string) {
    |w| >= 3 && w[0] == '$' && w[1] == '{' && w[|w| - 1] == '}' && '}' !in w[2..|w| - 1]
  }

  /** The text between the braces. */
  function Inner(w: string): string
    requires Braced(w)
  {
    w[2..|w| - 1]
  }

  /** What each pattern asks of the text between the braces: group 1 needs
      at least one character that is not `:`; the per-name pattern needs the
      name as a prefix. */
  predicate InnerFits(p: Pattern, inner: string) {
    match p
    case AnyPlaceholder => |inner| > 0 && inner[0] != ':'
    case NamedPlaceholder(n) => n <= inner
  }

  /** The whole of w is one match of p. */
  predicate Matches(p: Pattern, w: string) {
    Braced(w) && InnerFits(p, Inner(w))
  }

  /** A braced prefix ends at the first `}` after the `${`. */
  lemma BracedEnd(s: string, a: nat)
    requires a <= |s| && Braced(s[..a])
    ensures 3 <= a && s[0] == '$' && s[1] == '{'
    ensures '}' in s[2..] && IndexOf(s[2..], '}') == a - 3
  {
    assert s[..a][0] == s[0] && s[..a][1] == s[1];
    assert s[2..][a - 3] == s[..a][a - 1];
    assert s[2..][..a - 3] == s[..a][2..a - 1];
    IndexOfUnique(s[2..], '}', a - 3);
  }

  /** Two braced prefixes of the same text are the same prefix. */
  lemma MatchUnique(p: Pattern, s: string, a: nat, b: nat)
    requires a <= |s| && b <= |s|
    requires Braced(s[..a]) && Braced(s[..b])
    ensures a == b
  {
    BracedEnd(s, a);
    BracedEnd(s, b);
  }

  /** Without `${` at the head and a `}` after it, nothing at the head is a
      match. */
  lemma NoBraceNoMatch(p: Pattern, s: string)
    ensures (|s| < 3 || s[0] != '$' || s[1] != '{' || '}' !in s[2..]) ==>
            forall k :: 0 <= k <= |s| ==> !Matches(p, s[..k])
  {
    forall k | 0 <= k <= |s| && Braced(s[..k])
      ensures |s| >= 3 && s[0] == '$' && s[1] == '{' && '}' in s[2..]
    {
      BracedEnd(s, k);
    }
  }

  /** With `${` at the head, the text up to the first `}` after it is
      braced. */
  lemma BracedAtFirstBrace(s: string)
    requires |s| >= 3 && s[0] == '$' && s[1] == '{' && '}' in s[2..]
    ensures var k := 2 + IndexOf(s[2..], '}');
            k < |s| && Braced(s[..k + 1]) && Inner(s[..k + 1]) == s[2..k]
  {
    var k := 2 + IndexOf(s[2..], '}');
    assert s[..k + 1][2..k] == s[2..][..k - 2];
  }

  /** When the braced head is not a match, nothing at the head is. */
  lemma OnlyBracedHead(p: Pattern, s: string, n: nat)
    requires n <= |s| && Braced(s[..n]) && !Matches(p, s[..n])
    ensures forall j :: 0 <= j <= |s| ==> !Matches(p, s[..j])
  {
    forall j | 0 <= j <= |s|
      ensures !Matches(p, s[..j])
    {
      if Braced(s[..j]) {
        MatchUnique(p, s, j, n);
      }
    }
  }

  /** The length of the match of p at the head of s, if there is one. */
  function MatchLength(p: Pattern, s: string): (r: Option<nat>)
    ensures r.Some? ==> 3 <= r.value <= |s| && Matches(p, s[..r.value])
    ensures r.None? ==> forall k :: 0 <= k <= |s| ==> !Matches(p, s[..k])
  {
    if |s| < 3 || s[0] != '$' || s[1] != '{' || '}' !in s[2..] then
      NoBraceNoMatch(p, s);
      None
    else
      var k := 2 + IndexOf(s[2..], '}');
      BracedAtFirstBrace(s);
      if InnerFits(p, s[2..k]) then
        Some(k + 1)
      else
        OnlyBracedHead(p, s, k + 1);
        None
  }

  /** A match followed by anything is found at the head. */
  lemma MatchLengthOfMatch(p: Pattern, w: string, rest: string)
    requires Matches(p, w)
    ensures MatchLength(p, w + rest) == Some(|w|)
  {
    var s := w + rest;
    assert s[..|w|] == w;
    var r := MatchLength(p, s);
    if r.Some? {
      MatchUnique(p, s, r.value, |w|);
    }
  }

  /** One step of the global scan: an unmatched character or a match. */
  datatype Token = Chr(c: char) | Hit(w: string)

  function TokenText(t: Token): string {
    match t
    case Chr(c) => [c]
    case Hit(w) => w
  }

  /** The text a token sequence was read from. */
  function Flatten(ts: seq<Token>): string {
    if |ts| == 0 then [] else TokenText(ts[0]) + Flatten(ts[1..])
  }

  /** What a global scan of p may produce: every hit is a match, and no match
      starts at an unmatched character. */
  predicate Canonical(p: Pattern, ts: seq<Token>) {
    |ts| == 0 ||
    (&& (match ts[0]
         case Hit(w) => Matches(p, w)
         case Chr(_) => MatchLength(p, Flatten(ts)).None?)
     && Canonical(p, ts[1..]))
  }

  /** A match put in front of a canonical sequence keeps it canonical. */
  lemma ConsHit(p: Pattern, w: string, ts: seq<Token>)
    requires Matches(p, w) && Canonical(p, ts)
    ensures Flatten([Hit(w)] + ts) == w + Flatten(ts)
    ensures Canonical(p, [Hit(w)] + ts)
  {
    var all := [Hit(w)] + ts;
    assert all[0] == Hit(w) && all[1..] == ts;
  }

  /** A character at which no match starts, put in front of a canonical
      sequence, keeps it canonical. */
  lemma ConsChr(p: Pattern, c: char, ts: seq<Token>)
    requires Canonical(p, ts) && MatchLength(p, [c] + Flatten(ts)).None?
    ensures Flatten([Chr(c)] + ts) == [c] + Flatten(ts)
    ensures Canonical(p, [Chr(c)] + ts)
  {
    var all := [Chr(c)] + ts;
    assert all[0] == Chr(c) && all[1..] == ts;
    assert Flatten(all) == [c] + Flatten(ts);
  }

  /** One step of the scan when a match of length n starts the text. */
  lemma ScanHitStep(p: Pattern, s: string, n: nat, rest: seq<Token>)
    requires MatchLength(p, s) == Some(n)
    requires Flatten(rest) == s[n..] && Canonical(p, rest)
    ensures Flatten([Hit(s[..n])] + rest) == s
    ensures Canonical(p, [Hit(s[..n])] + rest)
  {
    assert Matches(p, s[..n]);
    ConsHit(p, s[..n], rest);
    assert s[..n] + s[n..] == s;
  }

  /** One step of the scan when no match starts the text. */
  lemma ScanChrStep(p: Pattern, s: string, rest: seq<Token>)
    requires |s| > 0 && MatchLength(p, s).None?
    requires Flatten(rest) == s[1..] && Canonical(p, rest)
    ensures Flatten([Chr(s[0])] + rest) == s
    ensures Canonical(p, [Chr(s[0])] + rest)
  {
    assert s == [s[0]] + s[1..];
    ConsChr(p, s[0], rest);
  }

  /** The global scan `regex.exec` / `String.replace` performs: try a match at
      the current position; on success continue after it, otherwise move on
      by one character. */
  function Tokenize(p: Pattern, s: string): (ts: seq<Token>)
    ensures Flatten(ts) == s
    ensures Canonical(p, ts)
    decreases |s|
  {
    if |s| == 0 then []
    else
      match MatchLength(p, s)
      case Some(n) =>
        var rest := Tokenize(p, s[n..]);
        ScanHitStep(p, s, n, rest);
        [Hit(s[..n])] + rest
      case None =>
        var rest := Tokenize(p, s[1..]);
        ScanChrStep(p, s, rest);
        [Chr(s[0])] + rest
  }

  /** The scan is the only canonical reading of its text: scanning the text of
      a canonical token sequence gives that sequence back. */
  lemma {:induction false} TokenizeFlatten(p: Pattern, ts: seq<Token>)
    requires Canonical(p, ts)
    ensures Tokenize(p, Flatten(ts)) == ts
    decreases |ts|
  {
    if |ts| > 0 {
      var rest := Flatten(ts[1..]);
      TokenizeFlatten(p, ts[1..]);
      match ts[0]
      case Hit(w) =>
        MatchLengthOfMatch(p, w, rest);
        assert (w + rest)[|w|..] == rest;
        assert (w + rest)[..|w|] == w;
      case Chr(c) =>
        assert ([c] + rest)[1..] == rest;
    }
  }

  lemma {:induction false} FlattenAppend(a: seq<Token>, b: seq<Token>)
    ensures Flatten(a + b) == Flatten(a) + Flatten(b)
    decreases |a|
  {
    if |a| > 0 {
      assert (a + b)[0] == a[0] && (a + b)[1..] == a[1..] + b;
      FlattenAppend(a[1..], b);
    } else {
      assert a + b == b;
    }
  }

  /** The matched texts, in scan order. */
  function Hits(ts: seq<Token>): seq<string> {
    if |ts| == 0 then [] else (if ts[0].Hit? then [ts[0].w] else []) + Hits(ts[1..])
  }

  lemma {:induction false} HitsAppend(a: seq<Token>, b: seq<Token>)
    ensures Hits(a + b) == Hits(a) + Hits(b)
    decreases |a|
  {
    if |a| > 0 {
      assert (a + b)[0] == a[0] && (a + b)[1..] == a[1..] + b;
      HitsAppend(a[1..], b);
    } else {
      assert a + b == b;
    }
  }

  /** Every hit of a canonical scan is a match. */
  lemma {:induction false} CanonicalHitsMatch(p: Pattern, ts: seq<Token>)
    requires Canonical(p, ts)
    ensures forall i :: 0 <= i < |Hits(ts)| ==> Matches(p, Hits(ts)[i])
    decreases |ts|
  {
    if |ts| > 0 {
      CanonicalHitsMatch(p, ts[1..]);
    }
  }

  /** The text with every hit replaced by repl. */
  function Splice(ts: seq<Token>, repl: string): string {
    if |ts| == 0 then []
    else (match ts[0] case Chr(c) => [c] case Hit(_) => repl) + Splice(ts[1..], repl)
  }

  lemma {:induction false} SpliceAppend(a: seq<Token>, b: seq<Token>, repl: string)
    ensures Splice(a + b, repl) == Splice(a, repl) + Splice(b, repl)
    decreases |a|
  {
    if |a| > 0 {
      assert (a + b)[0] == a[0] && (a + b)[1..] == a[1..] + b;
      SpliceAppend(a[1..], b, repl);
    } else {
      assert a + b == b;
    }
  }

  /** No substring of s is a match of p. */
  ghost predicate NoMatch(p: Pattern, s: string) {
    forall i, k :: 0 <= i <= k <= |s| ==> !Matches(p, s[i..k])
  }

  /** Every match starts with `$`, so a text without one holds none. */
  lemma NoDollarNoMatch(p: Pattern, s: string)
    requires '$' !in s
    ensures NoMatch(p, s)
  {
    forall i, k | 0 <= i <= k <= |s|
      ensures !Matches(p, s[i..k])
    {
      if i < k {
        assert s[i..k][0] == s[i];
      }
    }
  }

  /** The scan at a position where a match starts. */
  lemma TokenizeHit(p: Pattern, s: string)
    requires MatchLength(p, s).Some?
    ensures Tokenize(p, s) == [Hit(s[..MatchLength(p, s).value])] + Tokenize(p, s[MatchLength(p, s).value..])
    ensures Hits(Tokenize(p, s)) == [s[..MatchLength(p, s).value]] + Hits(Tokenize(p, s[MatchLength(p, s).value..]))
  {
  }

  /** The scan at a position where no match starts. */
  lemma TokenizeChr(p: Pattern, s: string)
    requires |s| > 0 && MatchLength(p, s).None?
    ensures Tokenize(p, s) == [Chr(s[0])] + Tokenize(p, s[1..])
    ensures Hits(Tokenize(p, s)) == Hits(Tokenize(p, s[1..]))
  {
  }

  lemma NoMatchTail(p: Pattern, s: string)
    requires |s| > 0 && NoMatch(p, s)
    ensures NoMatch(p, s[1..])
  {
    forall i, k | 0 <= i <= k <= |s[1..]|
      ensures !Matches(p, s[1..][i..k])
    {
      TailSlice(s, i + 1, k + 1);
    }
  }

  /** No match at the head means the scan finds none there. */
  lemma NoHeadMatch(p: Pattern, s: string)
    requires forall k :: 0 <= k <= |s| ==> !Matches(p, s[..k])
    ensures MatchLength(p, s).None?
  {
  }

  lemma {:induction false} NoMatchNoHits(p: Pattern, s: string)
    requires NoMatch(p, s)
    ensures Hits(Tokenize(p, s)) == []
    decreases |s|
  {
    if |s| > 0 {
      forall k | 0 <= k <= |s|
        ensures !Matches(p, s[..k])
      {
        assert s[..k] == s[0..k];
      }
      NoHeadMatch(p, s);
      TokenizeChr(p, s);
      NoMatchTail(p, s);
      NoMatchNoHits(p, s[1..]);
    }
  }

  /** A slice of the tail is a slice of the whole, one place further on. */
  lemma TailSlice(s: string, i: nat, k: nat)
    requires 1 <= i <= k <= |s|
    ensures s[1..][i - 1..k - 1] == s[i..k]
  {
  }

  /** No match anywhere in s when none starts at its head and none lies in
      its tail. */
  lemma NoMatchCons(p: Pattern, s: string)
    requires |s| > 0 && MatchLength(p, s).None? && NoMatch(p, s[1..])
    ensures NoMatch(p, s)
  {
    forall i, k | 0 <= i <= k <= |s|
      ensures !Matches(p, s[i..k])
    {
      if i == 0 {
        assert s[i..k] == s[..k];
      } else {
        TailSlice(s, i, k);
      }
    }
  }

  lemma {:induction false} NoHitsNoMatch(p: Pattern, s: string)
    requires Hits(Tokenize(p, s)) == []
    ensures NoMatch(p, s)
    decreases |s|
  {
    if |s| > 0 {
      if MatchLength(p, s).Some? {
        TokenizeHit(p, s);
        assert false;
      }
      TokenizeChr(p, s);
      NoHitsNoMatch(p, s[1..]);
      NoMatchCons(p, s);
    } else {
      assert forall i, k :: 0 <= i <= k <= |s| ==> s[i..k] == [];
    }
  }

  /** A scan finds a match exactly when the text holds one somewhere. */
  lemma HitsEmptyIff(p: Pattern, s: string)
    ensures Hits(Tokenize(p, s)) == [] <==> NoMatch(p, s)
  {
    if NoMatch(p, s) {
      NoMatchNoHits(p, s);
    }
    if Hits(Tokenize(p, s)) == [] {
      NoHitsNoMatch(p, s);
    }
  }
}

/** Optional values, for the source's `null` and `undefined` results. */
module Options {

  datatype Option<+T> = None | Some(value: T)
}

/** The string primitives the page script relies on: `trim`, ASCII case
    mapping, `includes`, `split` and number-to-text conversion. */
module Strings {

  /** The code points JavaScript's `String.prototype.trim` removes: the
      ECMAScript WhiteSpace and LineTerminator characters. */
  predicate IsJsSpace(c: char) {
    || c == '\t' || c == '\n' || c == '\U{000B}' || c == '\U{000C}' || c == '\r'
    || c == ' ' || c == '\U{00A0}' || c == '\U{1680}'
    || ('\U{2000}' <= c <= '\U{200A}')
    || c == '\U{2028}' || c == '\U{2029}' || c == '\U{202F}' || c == '\U{205F}'
    || c == '\U{3000}' || c == '\U{FEFF}'
  }

  ghost predicate AllSpace(s: string) {
    forall i :: 0 <= i < |s| ==> IsJsSpace(s[i])
  }

  /** Drops leading white space. */
  function TrimStart(s: string): (r: string)
    ensures |r| <= |s| && r == s[|s| - |r|..]
    ensures AllSpace(s[..|s| - |r|])
    ensures r == [] || !IsJsSpace(r[0])
    decreases |s|
  {
    if |s| > 0 && IsJsSpace(s[0]) then
      var r := TrimStart(s[1..]);
      SpaceCons(s, |s| - |r|);
      r
    else s
  }

  /** A space in front of spaces: the prefix of s is all white space. */
  lemma SpaceCons(s: string, k: nat)
    requires 0 < k <= |s| && IsJsSpace(s[0]) && AllSpace(s[1..][..k - 1])
    ensures AllSpace(s[..k]) && s[k..] == s[1..][k - 1..]
  {
    forall i | 0 < i < k
      ensures IsJsSpace(s[..k][i])
    {
      assert s[..k][i] == s[1..][..k - 1][i - 1];
    }
  }

  /** Drops trailing white space. */
  function TrimEnd(s: string): (r: string)
    ensures |r| <= |s| && r == s[..|r|]
    ensures AllSpace(s[|r|..])
    ensures r == [] || !IsJsSpace(r[|r| - 1])
    decreases |s|
  {
    if |s| > 0 && IsJsSpace(s[|s| - 1]) then
      var r := TrimEnd(s[..|s| - 1]);
      SpaceSnoc(s, |r|);
      r
    else s
  }

  /** Spaces followed by a space: the suffix of s is all white space. */
  lemma SpaceSnoc(s: string, k: nat)
    requires k < |s| && IsJsSpace(s[|s| - 1]) && AllSpace(s[..|s| - 1][k..])
    ensures AllSpace(s[k..]) && s[..k] == s[..|s| - 1][..k]
  {
    forall i | 0 <= i < |s| - 1 - k
      ensures IsJsSpace(s[k..][i])
    {
      assert s[k..][i] == s[..|s| - 1][k..][i];
    }
  }

  /** Neither end of s is white space. */
  predicate Unpadded(s: string) {
    s == [] || (!IsJsSpace(s[0]) && !IsJsSpace(s[|s| - 1]))
  }

  /** r is the infix of s at k, with only white space around it. */
  ghost predicate TrimmedAt(s: string, r: string, k: int) {
    0 <= k <= k + |r| <= |s| && r == s[k..k + |r|]
    && AllSpace(s[..k]) && AllSpace(s[k + |r|..])
  }

  lemma SliceOfSuffix(s: string, k: nat, n: nat)
    requires k + n <= |s|
    ensures s[k..][..n] == s[k..k + n]
    ensures s[k..][n..] == s[k + n..]
  {
  }

  /** Where the trimmed text sits in s. */
  lemma TrimBounds(s: string)
    ensures TrimmedAt(s, TrimEnd(TrimStart(s)), |s| - |TrimStart(s)|)
  {
    var t := TrimStart(s);
    var r := TrimEnd(t);
    var k := |s| - |t|;
    SliceOfSuffix(s, k, |r|);
  }

  /** The trimmed text neither starts nor ends with white space. */
  lemma TrimEnds(s: string)
    ensures var r := TrimEnd(TrimStart(s));
            r == [] || (!IsJsSpace(r[0]) && !IsJsSpace(r[|r| - 1]))
  {
    var t := TrimStart(s);
    var r := TrimEnd(t);
    if r != [] {
      assert r[0] == t[0];
    }
  }

  /** `s.trim()`: the infix of s that starts after its leading white space,
      neither starts nor ends with white space, and has only white space
      cut off on either side. */
  function Trim(s: string): (r: string)
    ensures TrimmedAt(s, r, |s| - |TrimStart(s)|)
    ensures Unpadded(r)
  {
    var r := TrimEnd(TrimStart(s));
    TrimBounds(s);
    TrimEnds(s);
    r
  }

  lemma SliceChars(s: string, i: nat, j: nat)
    requires i <= j <= |s|
    ensures forall c :: c in s[i..j] ==> c in s
  {
    forall c | c in s[i..j]
      ensures c in s
    {
      var m :| 0 <= m < j - i && s[i..j][m] == c;
      assert s[i + m] == c;
    }
  }

  /** Trimming only removes characters. */
  lemma TrimKeepsChars(s: string)
    ensures forall c :: c in Trim(s) ==> c in s
  {
    var t := TrimStart(s);
    SliceChars(s, |s| - |t|, |s|);
    SliceChars(t, 0, |TrimEnd(t)|);
  }

  /** A text that does not start with white space keeps its head when
      trimmed. */
  lemma TrimPrefix(s: string)
    requires s == [] || !IsJsSpace(s[0])
    ensures Trim(s) <= s
  {
    assert TrimStart(s) == s;
  }

  /** A text that neither starts nor ends with white space is its own
      trim. */
  lemma TrimUnpadded(s: string)
    requires Unpadded(s)
    ensures Trim(s) == s
  {
  }

  /** One space on each side of an unpadded text is trimmed away. */
  lemma TrimSpaced(s: string)
    requires |s| > 0 && !IsJsSpace(s[0]) && !IsJsSpace(s[|s| - 1])
    ensures Trim([' '] + s + [' ']) == s
  {
    var t := [' '] + s + [' '];
    assert t[1..] == s + [' '];
    assert TrimStart(t) == s + [' '];
    assert (s + [' '])[..|s|] == s;
    assert TrimEnd(s + [' ']) == s;
  }

  /** TrimmedAt spelled out position by position. */
  lemma TrimmedAtSpaces(s: string, r: string, k: int)
    requires TrimmedAt(s, r, k)
    ensures forall i :: 0 <= i < k ==> IsJsSpace(s[i])
    ensures forall i :: k + |r| <= i < |s| ==> IsJsSpace(s[i])
    ensures forall i :: 0 <= i < |r| ==> s[k + i] == r[i]
  {
    assert forall i :: 0 <= i < k ==> s[..k][i] == s[i];
    assert forall i :: k + |r| <= i < |s| ==> s[k + |r|..][i - k - |r|] == s[i];
  }

  /** Only one unpadded infix of a text has nothing but white space around
      it. */
  lemma TrimmedAtUnique(s: string, r1: string, k1: int, r2: string, k2: int)
    requires TrimmedAt(s, r1, k1) && Unpadded(r1)
    requires TrimmedAt(s, r2, k2) && Unpadded(r2)
    ensures r1 == r2
  {
    TrimmedAtSpaces(s, r1, k1);
    TrimmedAtSpaces(s, r2, k2);
  }

  /** Trim's contract fixes its result: an unpadded infix with only white
      space around it is the trimmed text. */
  lemma TrimUnique(s: string, r: string, k: int)
    requires TrimmedAt(s, r, k) && Unpadded(r)
    ensures Trim(s) == r
  {
    TrimmedAtUnique(s, Trim(s), |s| - |TrimStart(s)|, r, k);
  }

  /** Trimming is idempotent. */
  lemma TrimIdempotent(s: string)
    ensures Trim(Trim(s)) == Trim(s)
  {
    var r := Trim(s);
    assert TrimStart(r) == r;
    assert TrimEnd(r) == r;
  }

  function UpperChar(c: char): char {
    if 'a' <= c <= 'z' then (c as int - 32) as char else c
  }

  function LowerChar(c: char): char {
    if 'A' <= c <= 'Z' then (c as int + 32) as char else c
  }

  /** `toUpperCase`, restricted to ASCII letters. */
  function Upper(s: string): (r: string)
    ensures |r| == |s|
    ensures forall i :: 0 <= i < |s| ==> r[i] == UpperChar(s[i])
  {
    if |s| == 0 then [] else [UpperChar(s[0])] + Upper(s[1..])
  }

  /** `toLowerCase`, restricted to ASCII letters. */
  function Lower(s: string): (r: string)
    ensures |r| == |s|
    ensures forall i :: 0 <= i < |s| ==> r[i] == LowerChar(s[i])
  {
    if |s| == 0 then [] else [LowerChar(s[0])] + Lower(s[1..])
  }

  /** `s.replace(/"/g, '')`: s without its double quotes. */
  function Unquote(s: string): (r: string)
    ensures '"' !in r
    ensures forall c :: c in r <==> c in s && c != '"'
    ensures '"' !in s ==> r == s
  {
    if |s| == 0 then [] else (if s[0] == '"' then [] else [s[0]]) + Unquote(s[1..])
  }

  /** Exactly the quotes are dropped. */
  lemma {:induction false} UnquoteLength(s: string)
    ensures |Unquote(s)| == |s| - multiset(s)['"']
    decreases |s|
  {
    if |s| > 0 {
      UnquoteLength(s[1..]);
      assert s == [s[0]] + s[1..];
    }
  }

  /** Quotes are removed piece by piece: what stays keeps its order. */
  lemma {:induction false} UnquoteAppend(a: string, b: string)
    ensures Unquote(a + b) == Unquote(a) + Unquote(b)
    decreases |a|
  {
    if |a| > 0 {
      var h := if a[0] == '"' then [] else [a[0]];
      assert (a + b)[0] == a[0] && (a + b)[1..] == a[1..] + b;
      assert Unquote(a + b) == h + Unquote(a[1..] + b);
      UnquoteAppend(a[1..], b);
      assert Unquote(a) == h + Unquote(a[1..]);
    } else {
      assert a + b == b;
    }
  }

  /** The three parts of a concatenation sit where they were put. */
  lemma Framed(x: string, y: string, z: string)
    ensures var r := x + y + z;
            r[..|x|] == x && r[|x|..|x| + |y|] == y && r[|x| + |y|..] == z
  {
  }

  ghost predicate OccursAt(hay: string, needle: string, i: int) {
    0 <= i && i + |needle| <= |hay| && hay[i..i + |needle|] == needle
  }

  /** `hay.includes(needle)`. */
  function Contains(hay: string, needle: string): (b: bool)
    ensures b <==> exists i :: OccursAt(hay, needle, i)
    decreases |hay|
  {
    if needle <= hay then
      assert OccursAt(hay, needle, 0);
      true
    else if |hay| == 0 then
      false
    else
      var b := Contains(hay[1..], needle);
      if b then
        assert forall i :: OccursAt(hay[1..], needle, i) ==> OccursAt(hay, needle, i + 1);
        true
      else
        assert forall i :: OccursAt(hay, needle, i) ==> i > 0 && OccursAt(hay[1..], needle, i - 1);
        false
  }

  /** The first index of c in s. */
  function IndexOf(s: string, c: char): (r: nat)
    requires c in s
    ensures r < |s| && s[r] == c && c !in s[..r]
  {
    if s[0] == c then 0
    else
      var r := 1 + IndexOf(s[1..], c);
      assert s[..r] == [s[0]] + s[1..][..r - 1];
      r
  }

  /** An index holding c with no c before it is the first index of c. */
  lemma IndexOfUnique(s: string, c: char, k: nat)
    requires k < |s| && s[k] == c && c !in s[..k]
    ensures IndexOf(s, c) == k
  {
  }

  /** The pieces of s between separators, joined back with the separator. */
  function Join(parts: seq<string>, sep: char): string
    requires |parts| > 0
  {
    if |parts| == 1 then parts[0] else parts[0] + [sep] + Join(parts[1..], sep)
  }

  /** `s.split(sep)` for a one-character separator: the empty string splits
      into one empty piece, and empty pieces are kept. */
  function Split(s: string, sep: char): (parts: seq<string>)
    ensures |parts| > 0
    ensures forall i :: 0 <= i < |parts| ==> sep !in parts[i]
    ensures Join(parts, sep) == s
    decreases |s|
  {
    if sep !in s then [s]
    else
      var i := IndexOf(s, sep);
      var rest := Split(s[i + 1..], sep);
      assert s == s[..i] + [sep] + s[i + 1..];
      [s[..i]] + rest
  }

  /** One piece more than there are separators. */
  lemma {:induction false} SplitCount(s: string, sep: char)
    ensures |Split(s, sep)| == multiset(s)[sep] + 1
    decreases |s|
  {
    if sep in s {
      var i := IndexOf(s, sep);
      var a, b := s[..i], s[i + 1..];
      assert Split(s, sep) == [a] + Split(b, sep);
      SplitCount(b, sep);
      assert s == a + [sep] + b;
      assert multiset(s) == multiset(a) + multiset([sep]) + multiset(b);
      assert multiset(a)[sep] == 0;
    }
  }

  /** Joined pieces without the separator split at the first separator,
      which ends the first piece. */
  lemma JoinHead(parts: seq<string>, sep: char)
    requires |parts| > 0 && forall i :: 0 <= i < |parts| ==> sep !in parts[i]
    ensures |parts| == 1 ==> sep !in Join(parts, sep)
    ensures |parts| > 1 ==>
              var s, n := Join(parts, sep), |parts[0]|;
              sep in s && IndexOf(s, sep) == n && s[..n] == parts[0] && s[n + 1..] == Join(parts[1..], sep)
  {
    if |parts| > 1 {
      var s, n := Join(parts, sep), |parts[0]|;
      assert s == parts[0] + [sep] + Join(parts[1..], sep);
      assert s[..n] == parts[0];
      IndexOfUnique(s, sep, n);
    }
  }

  /** Splitting undoes joining, for pieces without the separator. */
  lemma {:induction false} SplitJoin(parts: seq<string>, sep: char)
    requires |parts| > 0 && forall i :: 0 <= i < |parts| ==> sep !in parts[i]
    ensures Split(Join(parts, sep), sep) == parts
    decreases |parts|
  {
    JoinHead(parts, sep);
    if |parts| > 1 {
      SplitJoin(parts[1..], sep);
      assert parts == [parts[0]] + parts[1..];
    }
  }

  /** The first piece of a text whose first separator follows a. */
  lemma SplitHead(a: string, b: string, sep: char)
    requires sep !in a
    ensures Split(a + [sep] + b, sep)[0] == a
  {
    var s := a + [sep] + b;
    assert s[..|a|] == a && s[|a|] == sep;
    IndexOfUnique(s, sep, |a|);
  }

  /** A character in none of the pieces, other than the separator, is not in
      their join. */
  lemma {:induction false} JoinAvoids(parts: seq<string>, sep: char, c: char)
    requires |parts| > 0 && c != sep && forall i :: 0 <= i < |parts| ==> c !in parts[i]
    ensures c !in Join(parts, sep)
    decreases |parts|
  {
    if |parts| > 1 {
      JoinAvoids(parts[1..], sep, c);
    }
  }

  function DigitChar(d: nat): char
    requires d < 10
  {
    "0123456789"[d]
  }

  predicate IsDigit(c: char) {
    '0' <= c <= '9'
  }

  /** The value of a string of decimal digits. */
  function DigitsValue(s: string): nat
    requires forall i :: 0 <= i < |s| ==> IsDigit(s[i])
  {
    if |s| == 0 then 0
    else
      assert IsDigit(s[|s| - 1]);
      10 * DigitsValue(s[..|s| - 1]) + (s[|s| - 1] as int - '0' as int)
  }

  /** The decimal text JavaScript gives a non-negative integer: digits only,
      no leading zero except for zero itself. */
  function Decimal(n: nat): (r: string)
    ensures |r| > 0
    ensures forall i :: 0 <= i < |r| ==> IsDigit(r[i])
    ensures r[0] == '0' ==> r == "0"
  {
    if n < 10 then [DigitChar(n)] else Decimal(n / 10) + [DigitChar(n % 10)]
  }

  /** Reading the decimal text back gives the number. */
  lemma {:induction false} DecimalRoundTrip(n: nat)
    ensures DigitsValue(Decimal(n)) == n
  {
    if n >= 10 {
      DecimalRoundTrip(n / 10);
      var r := Decimal(n);
      assert r[..|r| - 1] == Decimal(n / 10);
    }
  }

  /** Different numbers have different decimal texts. */
  lemma DecimalInjective(m: nat, n: nat)
    requires Decimal(m) == Decimal(n)
    ensures m == n
  {
    DecimalRoundTrip(m);
    DecimalRoundTrip(n);
  }
}

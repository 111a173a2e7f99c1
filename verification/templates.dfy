/** Prompt texts viewed as literal runs and placeholders, and what the
    sequential substitution of script.js does to them.

    A template is a sequence of pieces: literal text without `$`, and holes
    `${inner}` whose inner text has no `$` and no `}` and is a placeholder
    for the extractor. On such a text the fold of replace-all passes has a
    direct description: every hole becomes the replacement of the FIRST pass
    whose name is a prefix of the hole's inner text, and is kept verbatim
    when no pass's name is. */
module Templates {
  import opened Options
  import opened Strings
  import opened Scanner
  import opened Extractor
  import opened Substitution

  datatype Piece = Lit(s: string) | Hole(inner: string)

  function PieceText(q: Piece): string {
    match q
    case Lit(s) => s
    case Hole(inner) => "${" + inner + "}"
  }

  /** The text of a template. */
  function Render(ps: seq<Piece>): string {
    if |ps| == 0 then [] else PieceText(ps[0]) + Render(ps[1..])
  }

  predicate CleanPiece(q: Piece) {
    match q
    case Lit(s) => '$' !in s
    case Hole(inner) => '$' !in inner && '}' !in inner && |inner| > 0 && inner[0] != ':'
  }

  predicate Clean(ps: seq<Piece>) {
    forall i :: 0 <= i < |ps| ==> CleanPiece(ps[i])
  }

  /** The inner texts of the holes, in order. */
  function Holes(ps: seq<Piece>): seq<string> {
    if |ps| == 0 then [] else (if ps[0].Hole? then [ps[0].inner] else []) + Holes(ps[1..])
  }

  // ---- how the global scan reads a template ----

  function Chrs(s: string): (ts: seq<Token>)
    ensures |ts| == |s|
  {
    seq(|s|, i requires 0 <= i < |s| => Chr(s[i]))
  }

  lemma {:induction false} ChrsFacts(s: string, repl: string)
    ensures Flatten(Chrs(s)) == s
    ensures Hits(Chrs(s)) == []
    ensures Splice(Chrs(s), repl) == s
    decreases |s|
  {
    if |s| > 0 {
      assert Chrs(s)[0] == Chr(s[0]) && Chrs(s)[1..] == Chrs(s[1..]);
      ChrsFacts(s[1..], repl);
      assert s == [s[0]] + s[1..];
    }
  }

  /** The tokens the scan of pattern p produces for one piece. */
  function PieceTokens(p: Pattern, q: Piece): seq<Token> {
    match q
    case Lit(s) => Chrs(s)
    case Hole(inner) => if InnerFits(p, inner) then [Hit(PieceText(q))] else Chrs(PieceText(q))
  }

  function TemplateTokens(p: Pattern, ps: seq<Piece>): seq<Token> {
    if |ps| == 0 then [] else PieceTokens(p, ps[0]) + TemplateTokens(p, ps[1..])
  }

  /** At a hole, the scan finds a match exactly when the pattern accepts the
      hole's inner text, and the match is the whole hole. */
  lemma HoleMatchLength(p: Pattern, inner: string, rest: string)
    requires '}' !in inner
    ensures MatchLength(p, "${" + inner + "}" + rest) ==
            if InnerFits(p, inner) then Some(|inner| + 3) else None
  {
    var s := "${" + inner + "}" + rest;
    assert s[2..][|inner|] == '}';
    assert s[2..][..|inner|] == inner;
    IndexOfUnique(s[2..], '}', |inner|);
    assert s[2..2 + |inner|] == inner;
  }

  /** A character other than `$` never starts a match. */
  lemma NoMatchWithoutDollar(p: Pattern, s: string)
    requires |s| > 0 && s[0] != '$'
    ensures MatchLength(p, s).None?
  {
  }

  lemma {:induction false} CanonicalChrs(p: Pattern, s: string, ts: seq<Token>)
    requires '$' !in s && Canonical(p, ts)
    ensures Canonical(p, Chrs(s) + ts)
    decreases |s|
  {
    if |s| > 0 {
      var all := Chrs(s) + ts;
      assert all[0] == Chr(s[0]);
      assert all[1..] == Chrs(s[1..]) + ts;
      CanonicalChrs(p, s[1..], ts);
      FlattenAppend(Chrs(s), ts);
      ChrsFacts(s, "");
      assert Flatten(all)[0] == s[0];
      NoMatchWithoutDollar(p, Flatten(all));
    } else {
      assert Chrs(s) + ts == ts;
    }
  }

  lemma CanonicalFittingHole(p: Pattern, inner: string, ts: seq<Token>)
    requires CleanPiece(Hole(inner)) && InnerFits(p, inner) && Canonical(p, ts)
    ensures Canonical(p, [Hit("${" + inner + "}")] + ts)
  {
    var w := "${" + inner + "}";
    assert Inner(w) == inner;
    var all := [Hit(w)] + ts;
    assert all[0] == Hit(w) && all[1..] == ts;
  }

  /** An unmatched character in front of a canonical scan keeps it
      canonical when no match starts there. */
  lemma ChrsCons(s: string)
    requires |s| > 0
    ensures Chrs(s) == [Chr(s[0])] + Chrs(s[1..])
  {
  }

  lemma FlattenChrsAppend(s: string, ts: seq<Token>)
    ensures Flatten(Chrs(s) + ts) == s + Flatten(ts)
  {
    FlattenAppend(Chrs(s), ts);
    ChrsFacts(s, "");
  }

  lemma ConsAppend<T>(x: T, a: seq<T>, b: seq<T>)
    ensures [x] + (a + b) == ([x] + a) + b
  {
  }

  /** A hole's text is `$` followed by a text without `$`. */
  lemma HoleTextHead(inner: string)
    requires '$' !in inner
    ensures ("${" + inner + "}")[0] == '$'
    ensures '$' !in ("${" + inner + "}")[1..]
    ensures ['$'] + ("${" + inner + "}")[1..] == "${" + inner + "}"
  {
    var w := "${" + inner + "}";
    assert w[1..] == "{" + inner + "}";
    assert forall c :: c in w[1..] ==> c == '{' || c == '}' || c in inner;
  }

  /** The scan after the `$` of a hole the pattern rejects. */
  lemma OtherHoleTail(p: Pattern, inner: string, ts: seq<Token>)
    requires CleanPiece(Hole(inner)) && !InnerFits(p, inner) && Canonical(p, ts)
    ensures Canonical(p, Chrs(("${" + inner + "}")[1..]) + ts)
    ensures MatchLength(p, ['$'] + Flatten(Chrs(("${" + inner + "}")[1..]) + ts)).None?
  {
    var w := "${" + inner + "}";
    var tail, f := w[1..], Flatten(ts);
    HoleTextHead(inner);
    CanonicalChrs(p, tail, ts);
    FlattenChrsAppend(tail, ts);
    ConsAppend('$', tail, f);
    HoleMatchLength(p, inner, f);
  }

  lemma CanonicalOtherHole(p: Pattern, inner: string, ts: seq<Token>)
    requires CleanPiece(Hole(inner)) && !InnerFits(p, inner) && Canonical(p, ts)
    ensures Canonical(p, Chrs("${" + inner + "}") + ts)
  {
    var w := "${" + inner + "}";
    var tail := Chrs(w[1..]);
    OtherHoleTail(p, inner, ts);
    ConsChr(p, '$', tail + ts);
    HoleTextHead(inner);
    ChrsCons(w);
    ConsAppend(Chr('$'), tail, ts);
  }

  lemma CanonicalPiece(p: Pattern, q: Piece, ts: seq<Token>)
    requires CleanPiece(q) && Canonical(p, ts)
    ensures Canonical(p, PieceTokens(p, q) + ts)
  {
    match q
    case Lit(s) =>
      CanonicalChrs(p, s, ts);
    case Hole(inner) =>
      if InnerFits(p, inner) {
        CanonicalFittingHole(p, inner, ts);
      } else {
        CanonicalOtherHole(p, inner, ts);
      }
  }

  lemma {:induction false} TemplateTokensFacts(p: Pattern, ps: seq<Piece>)
    requires Clean(ps)
    ensures Flatten(TemplateTokens(p, ps)) == Render(ps)
    ensures Canonical(p, TemplateTokens(p, ps))
    decreases |ps|
  {
    if |ps| > 0 {
      TemplateTokensFacts(p, ps[1..]);
      CanonicalPiece(p, ps[0], TemplateTokens(p, ps[1..]));
      FlattenAppend(PieceTokens(p, ps[0]), TemplateTokens(p, ps[1..]));
      match ps[0]
      case Lit(s) =>
        ChrsFacts(s, "");
      case Hole(inner) =>
        ChrsFacts(PieceText(ps[0]), "");
    }
  }

  /** The global scan of a template's text reads it piece by piece. */
  lemma TokenizeRender(p: Pattern, ps: seq<Piece>)
    requires Clean(ps)
    ensures Tokenize(p, Render(ps)) == TemplateTokens(p, ps)
  {
    TemplateTokensFacts(p, ps);
    TokenizeFlatten(p, TemplateTokens(p, ps));
  }

  // ---- extraction ----

  /** The entries of the holes, repeats included. */
  function HoleVariables(ps: seq<Piece>): seq<Variable> {
    var hs := Holes(ps);
    seq(|hs|, i requires 0 <= i < |hs| => ToVariable(SplitInner(hs[i])))
  }

  function HoleTexts(hs: seq<string>): seq<string> {
    seq(|hs|, i requires 0 <= i < |hs| => "${" + hs[i] + "}")
  }

  lemma {:induction false} HitsOfTemplate(ps: seq<Piece>)
    requires Clean(ps)
    ensures Hits(TemplateTokens(AnyPlaceholder, ps)) == HoleTexts(Holes(ps))
    decreases |ps|
  {
    if |ps| > 0 {
      HitsOfTemplate(ps[1..]);
      HitsAppend(PieceTokens(AnyPlaceholder, ps[0]), TemplateTokens(AnyPlaceholder, ps[1..]));
      match ps[0]
      case Lit(s) =>
        ChrsFacts(s, "");
        assert Holes(ps) == Holes(ps[1..]);
      case Hole(inner) =>
        assert CleanPiece(ps[0]);
        assert Holes(ps) == [inner] + Holes(ps[1..]);
        assert Hits([Hit(PieceText(ps[0]))]) == [PieceText(ps[0])];
        assert HoleTexts(Holes(ps)) == [PieceText(ps[0])] + HoleTexts(Holes(ps[1..]));
    }
  }

  /** The extractor reads a template's holes and nothing else: its result is
      the deduplicated entries of the holes. */
  lemma ExtractRender(ps: seq<Piece>)
    requires Clean(ps)
    ensures Occurrences(Render(ps)) == HoleVariables(ps)
    ensures Extract(Render(ps)) == Dedup(HoleVariables(ps))
  {
    TokenizeRender(AnyPlaceholder, ps);
    HitsOfTemplate(ps);
    var hs := Holes(ps);
    var gs := Scan(Render(ps));
    assert |gs| == |hs|;
    forall i | 0 <= i < |hs|
      ensures gs[i] == SplitInner(hs[i])
    {
      assert PlaceholderText(gs[i]) == "${" + hs[i] + "}";
      assert Unsplit(gs[i]) == hs[i];
      SplitUnsplit(gs[i]);
    }
  }

  // ---- substitution ----

  function ReplacePiece(q: Piece, name: string, repl: string): Piece {
    match q
    case Lit(_) => q
    case Hole(inner) => if name <= inner then Lit(repl) else q
  }

  /** The template after one replace-all pass: holes starting with the name
      turn into literal replacement text. */
  function Replaced(ps: seq<Piece>, name: string, repl: string): (qs: seq<Piece>)
    ensures |qs| == |ps|
  {
    seq(|ps|, i requires 0 <= i < |ps| => ReplacePiece(ps[i], name, repl))
  }

  lemma SplicePiece(q: Piece, name: string, repl: string)
    ensures Splice(PieceTokens(NamedPlaceholder(name), q), repl) == PieceText(ReplacePiece(q, name, repl))
  {
    match q
    case Lit(s) =>
      ChrsFacts(s, repl);
    case Hole(inner) =>
      ChrsFacts(PieceText(q), repl);
      assert Splice([Hit(PieceText(q))], repl) == repl;
  }

  lemma RenderReplacedCons(ps: seq<Piece>, name: string, repl: string)
    requires |ps| > 0
    ensures Render(Replaced(ps, name, repl))
            == PieceText(ReplacePiece(ps[0], name, repl)) + Render(Replaced(ps[1..], name, repl))
  {
    assert Replaced(ps, name, repl)[1..] == Replaced(ps[1..], name, repl);
  }

  lemma {:induction false} SpliceTemplate(ps: seq<Piece>, name: string, repl: string)
    ensures Splice(TemplateTokens(NamedPlaceholder(name), ps), repl) == Render(Replaced(ps, name, repl))
    decreases |ps|
  {
    if |ps| > 0 {
      var p, q, rest := NamedPlaceholder(name), ps[0], ps[1..];
      SpliceTemplate(rest, name, repl);
      SpliceAppend(PieceTokens(p, q), TemplateTokens(p, rest), repl);
      SplicePiece(q, name, repl);
      RenderReplacedCons(ps, name, repl);
    }
  }

  /** One replace-all pass over a template replaces exactly the holes whose
      inner text starts with the name, each by the whole replacement. */
  lemma ReplaceAllRender(ps: seq<Piece>, name: string, repl: string)
    requires Clean(ps)
    ensures ReplaceAll(Render(ps), name, repl) == Render(Replaced(ps, name, repl))
  {
    TokenizeRender(NamedPlaceholder(name), ps);
    SpliceTemplate(ps, name, repl);
  }

  /** The first pass whose name is a prefix of the inner text. */
  function FirstFit(subs: seq<Sub>, inner: string): (r: Option<nat>)
    ensures r.Some? ==> r.value < |subs| && subs[r.value].name <= inner
    ensures r.Some? ==> forall j :: 0 <= j < r.value ==> !(subs[j].name <= inner)
    ensures r.None? ==> forall j :: 0 <= j < |subs| ==> !(subs[j].name <= inner)
  {
    if |subs| == 0 then None
    else if subs[0].name <= inner then Some(0)
    else
      match FirstFit(subs[1..], inner)
      case None => None
      case Some(k) => Some(k + 1)
  }

  /** What the whole fold makes of one piece. */
  function Resolve(q: Piece, subs: seq<Sub>): Piece {
    match q
    case Lit(_) => q
    case Hole(inner) =>
      match FirstFit(subs, inner)
      case None => q
      case Some(k) => Lit(subs[k].replacement)
  }

  function ResolveAll(ps: seq<Piece>, subs: seq<Sub>): (qs: seq<Piece>)
    ensures |qs| == |ps|
  {
    seq(|ps|, i requires 0 <= i < |ps| => Resolve(ps[i], subs))
  }

  predicate DollarFree(subs: seq<Sub>) {
    forall i :: 0 <= i < |subs| ==> '$' !in subs[i].replacement
  }

  /** The sequential fold of replace-all passes over a template equals the
      per-hole description: each hole becomes the replacement of the first
      pass whose name is a prefix of its inner text, or stays as it is. */
  lemma {:induction false} SubstituteRender(ps: seq<Piece>, subs: seq<Sub>)
    requires Clean(ps) && DollarFree(subs)
    ensures Substitute(Render(ps), subs) == Render(ResolveAll(ps, subs))
    decreases |subs|
  {
    if |subs| == 0 {
      assert ResolveAll(ps, subs) == ps;
    } else {
      var s0 := subs[0];
      var qs := Replaced(ps, s0.name, s0.replacement);
      assert Substitute(Render(ps), subs) == Substitute(Render(qs), subs[1..]) by {
        ReplaceAllRender(ps, s0.name, s0.replacement);
      }
      assert Clean(qs) by {
        CleanReplaced(ps, s0.name, s0.replacement);
      }
      assert DollarFree(subs[1..]);
      SubstituteRender(qs, subs[1..]);
      ResolveAllStep(ps, subs);
    }
  }

  /** A pass leaves a template clean when its replacement has no `$`. */
  lemma CleanReplaced(ps: seq<Piece>, name: string, repl: string)
    requires Clean(ps) && '$' !in repl
    ensures Clean(Replaced(ps, name, repl))
  {
    var qs := Replaced(ps, name, repl);
    forall i | 0 <= i < |qs|
      ensures CleanPiece(qs[i])
    {
      assert qs[i] == ReplacePiece(ps[i], name, repl);
      assert CleanPiece(ps[i]);
    }
  }

  /** What the later passes make of a piece after the first pass is what
      all the passes make of it. */
  lemma ResolveStep(q: Piece, subs: seq<Sub>)
    requires |subs| > 0
    ensures Resolve(ReplacePiece(q, subs[0].name, subs[0].replacement), subs[1..]) == Resolve(q, subs)
  {
    if q.Hole? && !(subs[0].name <= q.inner) {
      var r := FirstFit(subs[1..], q.inner);
      if r.Some? {
        FirstFitIs(subs, q.inner, r.value + 1);
      } else {
        assert forall m :: 0 < m < |subs| ==> subs[m] == subs[1..][m - 1];
      }
    }
  }

  lemma ResolveAllStep(ps: seq<Piece>, subs: seq<Sub>)
    requires |subs| > 0
    ensures ResolveAll(Replaced(ps, subs[0].name, subs[0].replacement), subs[1..]) == ResolveAll(ps, subs)
  {
    var qs := Replaced(ps, subs[0].name, subs[0].replacement);
    forall i | 0 <= i < |ps|
      ensures Resolve(qs[i], subs[1..]) == Resolve(ps[i], subs)
    {
      ResolveStep(ps[i], subs);
    }
  }

  /** A pass that comes after another pass with the same name is never the
      one a hole resolves to. */
  lemma FirstFitSkipsRepeatedName(subs: seq<Sub>, inner: string, i: nat, j: nat)
    requires i < j < |subs| && subs[i].name == subs[j].name
    ensures FirstFit(subs, inner) != Some(j)
  {
  }

  /** The first pass whose name is a prefix of the hole is the one found. */
  lemma {:induction false} FirstFitIs(subs: seq<Sub>, inner: string, k: nat)
    requires k < |subs| && subs[k].name <= inner
    requires forall j :: 0 <= j < k ==> !(subs[j].name <= inner)
    ensures FirstFit(subs, inner) == Some(k)
  {
    if k > 0 {
      FirstFitIs(subs[1..], inner, k - 1);
    }
  }

  /** Which pass a hole resolves to depends on the names of the passes only. */
  lemma FirstFitNamesOnly(subs: seq<Sub>, subs': seq<Sub>, inner: string)
    requires |subs| == |subs'|
    requires forall i :: 0 <= i < |subs| ==> subs[i].name == subs'[i].name
    ensures FirstFit(subs, inner) == FirstFit(subs', inner)
  {
    var r := FirstFit(subs, inner);
    if r.Some? {
      FirstFitIs(subs', inner, r.value);
    } else {
      assert forall m :: 0 <= m < |subs'| ==> !(subs'[m].name <= inner);
    }
  }

  /** The pass at position m once the pass at j is dropped. */
  lemma DropAt(subs: seq<Sub>, j: nat, m: nat)
    requires j < |subs| && m < |subs| - 1
    ensures (subs[..j] + subs[j + 1..])[m] == subs[if m < j then m else m + 1]
  {
  }

  /** Dropping a pass other than the first fitting one keeps that pass
      first. */
  lemma FirstFitDropOther(subs: seq<Sub>, inner: string, j: nat, k: nat)
    requires j < |subs| && FirstFit(subs, inner) == Some(k) && k != j
    ensures FirstFit(subs[..j] + subs[j + 1..], inner) == Some(if k < j then k else k - 1)
  {
    var subs', k' := subs[..j] + subs[j + 1..], if k < j then k else k - 1;
    DropAt(subs, j, k');
    forall m | 0 <= m < k'
      ensures !(subs'[m].name <= inner)
    {
      DropAt(subs, j, m);
    }
    FirstFitIs(subs', inner, k');
  }

  /** Dropping a pass when none fits leaves none fitting. */
  lemma FirstFitDropNone(subs: seq<Sub>, inner: string, j: nat)
    requires j < |subs| && FirstFit(subs, inner).None?
    ensures FirstFit(subs[..j] + subs[j + 1..], inner).None?
  {
    var subs' := subs[..j] + subs[j + 1..];
    forall m | 0 <= m < |subs'|
      ensures !(subs'[m].name <= inner)
    {
      DropAt(subs, j, m);
    }
  }

  /** Dropping a pass whose name an earlier pass already has leaves the
      first fitting pass of every hole in place. */
  lemma FirstFitWithoutRepeat(subs: seq<Sub>, inner: string, i: nat, j: nat)
    requires i < j < |subs| && subs[i].name == subs[j].name
    ensures var r, r' := FirstFit(subs, inner), FirstFit(subs[..j] + subs[j + 1..], inner);
            && (r.None? <==> r'.None?)
            && (r.Some? ==> r'.Some? && (subs[..j] + subs[j + 1..])[r'.value] == subs[r.value])
  {
    var r := FirstFit(subs, inner);
    FirstFitSkipsRepeatedName(subs, inner, i, j);
    if r.Some? {
      var k := r.value;
      FirstFitDropOther(subs, inner, j, k);
      DropAt(subs, j, if k < j then k else k - 1);
    } else {
      FirstFitDropNone(subs, inner, j);
    }
  }

  /** Dropping a pass whose name an earlier pass already has changes no
      hole's resolution. */
  lemma ResolveWithoutRepeat(q: Piece, subs: seq<Sub>, i: nat, j: nat)
    requires i < j < |subs| && subs[i].name == subs[j].name
    ensures Resolve(q, subs[..j] + subs[j + 1..]) == Resolve(q, subs)
  {
    if q.Hole? {
      FirstFitWithoutRepeat(subs, q.inner, i, j);
    }
  }

  /** Dropping a pass whose name an earlier pass already has changes no
      piece of a template. */
  lemma ResolveAllWithoutRepeat(ps: seq<Piece>, subs: seq<Sub>, i: nat, j: nat)
    requires i < j < |subs| && subs[i].name == subs[j].name
    ensures ResolveAll(ps, subs[..j] + subs[j + 1..]) == ResolveAll(ps, subs)
  {
    forall k | 0 <= k < |ps|
      ensures Resolve(ps[k], subs[..j] + subs[j + 1..]) == Resolve(ps[k], subs)
    {
      ResolveWithoutRepeat(ps[k], subs, i, j);
    }
  }

  /** A template's text after the fold is the same with or without a pass
      whose name an earlier pass already has. */
  lemma SubstituteWithoutRepeat(ps: seq<Piece>, subs: seq<Sub>, i: nat, j: nat)
    requires Clean(ps) && DollarFree(subs)
    requires i < j < |subs| && subs[i].name == subs[j].name
    ensures Substitute(Render(ps), subs[..j] + subs[j + 1..]) == Substitute(Render(ps), subs)
  {
    var subs' := subs[..j] + subs[j + 1..];
    assert forall m :: 0 <= m < |subs'| ==> subs'[m] in subs;
    SubstituteRender(ps, subs);
    SubstituteRender(ps, subs');
    ResolveAllWithoutRepeat(ps, subs, i, j);
  }

  lemma {:induction false} NoHolesAllLiteral(ps: seq<Piece>)
    requires Holes(ps) == []
    ensures forall i :: 0 <= i < |ps| ==> ps[i].Lit?
    decreases |ps|
  {
    if |ps| > 0 {
      NoHolesAllLiteral(ps[1..]);
      assert forall i :: 1 <= i < |ps| ==> ps[i] == ps[1..][i - 1];
    }
  }

  lemma {:induction false} HoleInHoles(ps: seq<Piece>, k: nat)
    requires k < |ps| && ps[k].Hole?
    ensures ps[k].inner in Holes(ps)
    decreases |ps|
  {
    if k > 0 {
      HoleInHoles(ps[1..], k - 1);
    }
  }

  /** A text whose pieces are all literal and free of `$` holds no `$`. */
  lemma {:induction false} RenderLiteral(ps: seq<Piece>)
    requires forall i :: 0 <= i < |ps| ==> ps[i].Lit? && '$' !in ps[i].s
    ensures '$' !in Render(ps)
    decreases |ps|
  {
    if |ps| > 0 {
      RenderLiteral(ps[1..]);
    }
  }
}
